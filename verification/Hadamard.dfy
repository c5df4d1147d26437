/** The in-place Walsh-Hadamard transform of src/dxcache/dxcache.cpp. */
module Hadamard {
  import opened Butterfly
  import opened Dispatch
  import opened Index
  import opened Powers

  // ---------------------------------------------------------------- the transform

  function PopCount(x: nat): nat {
    if x == 0 then 0 else x % 2 + PopCount(x / 2)
  }

  /** v times (-1) to the number of one bits that i and j share. */
  function Signed(i: nat, j: nat, v: real): real {
    if PopCount(BitAnd(i, j)) % 2 == 0 then v else -v
  }

  function WhtTerms(x: seq<real>, i: nat, count: nat): real
    requires count <= |x|
  {
    if count == 0 then 0.0 else WhtTerms(x, i, count - 1) + Signed(i, count - 1, x[count - 1])
  }

  /** Coefficient i: the sum over j of (-1)^popcount(i AND j) * x[j]. */
  function Wht(x: seq<real>, i: nat): real {
    WhtTerms(x, i, |x|)
  }

  function Transform(x: seq<real>): (y: seq<real>)
    ensures |y| == |x| && forall i :: 0 <= i < |x| ==> y[i] == Wht(x, i)
  {
    seq(|x|, i requires 0 <= i < |x| => Wht(x, i))
  }

  lemma {:induction false} AndTopBits(a: nat, b: nat, k: nat)
    requires a < Pow2(k) && b < Pow2(k)
    ensures BitAnd(a + Pow2(k), b) == BitAnd(a, b) == BitAnd(a, b + Pow2(k))
    ensures BitAnd(a + Pow2(k), b + Pow2(k)) == BitAnd(a, b) + Pow2(k)
  {
    hide BitAnd;
    if k > 0 {
      var h := Pow2(k - 1);
      AndTopBits(a / 2, b / 2, k - 1);
      AndHalves(a, b, h);
    } else {
      AndOfBits();
    }
  }

  /** The same one bit further up. */
  lemma AndHalves(a: nat, b: nat, h: nat)
    requires BitAnd(a / 2 + h, b / 2) == BitAnd(a / 2, b / 2) == BitAnd(a / 2, b / 2 + h)
    requires BitAnd(a / 2 + h, b / 2 + h) == BitAnd(a / 2, b / 2) + h
    ensures BitAnd(a + 2 * h, b) == BitAnd(a, b) == BitAnd(a, b + 2 * h)
    ensures BitAnd(a + 2 * h, b + 2 * h) == BitAnd(a, b) + 2 * h
  {
    hide BitAnd;
    HalveWithTopBit(a, h);
    HalveWithTopBit(b, h);
    AndStep(a, b);
    AndStep(a + 2 * h, b);
    AndStep(a, b + 2 * h);
    AndStep(a + 2 * h, b + 2 * h);
  }

  lemma HalveWithTopBit(a: nat, h: nat)
    ensures (a + 2 * h) / 2 == a / 2 + h && (a + 2 * h) % 2 == a % 2
  {
  }

  lemma AndOfBits()
    ensures BitAnd(0, 0) == BitAnd(1, 0) == BitAnd(0, 1) == 0 && BitAnd(1, 1) == 1
  {
  }

  lemma AndStep(a: nat, b: nat)
    ensures BitAnd(a, b) == 2 * BitAnd(a / 2, b / 2) + (if a % 2 == 1 && b % 2 == 1 then 1 else 0)
  {
  }

  lemma {:induction false} PopCountTopBit(x: nat, k: nat)
    requires x < Pow2(k)
    ensures PopCount(x + Pow2(k)) == PopCount(x) + 1
  {
    if k > 0 {
      HalveWithTopBit(x, Pow2(k - 1));
      PopCountTopBit(x / 2, k - 1);
    }
  }

  /** The four quadrants of the sign matrix: the upper-right and lower-left repeat the
      smaller matrix and the lower-right negates it. */
  lemma SignQuadrants(w: nat, j: nat, k: nat, v: real)
    requires w < Pow2(k) && j < Pow2(k)
    ensures Signed(w + Pow2(k), j, v) == Signed(w, j, v) == Signed(w, j + Pow2(k), v)
    ensures Signed(w + Pow2(k), j + Pow2(k), v) == -Signed(w, j, v)
  {
    hide BitAnd, PopCount;
    AndTopBits(w, j, k);
    PopCountTopBit(BitAnd(w, j), k);
  }

  /** The terms of the two halves, summed separately. */
  lemma {:induction false} HalfTerms(x: seq<real>, k: nat, w: nat, count: nat)
    requires |x| == 2 * Pow2(k) && w < Pow2(k) && count <= Pow2(k)
    ensures var lo, hi := x[..Pow2(k)], x[Pow2(k)..];
      && WhtTerms(x, w, count) == WhtTerms(lo, w, count) == WhtTerms(x, w + Pow2(k), count)
      && WhtTerms(x, w, Pow2(k) + count) == WhtTerms(x, w, Pow2(k)) + WhtTerms(hi, w, count)
      && WhtTerms(x, w + Pow2(k), Pow2(k) + count) == WhtTerms(x, w + Pow2(k), Pow2(k)) - WhtTerms(hi, w, count)
  {
    hide Signed, Pow2;
    if count > 0 {
      var j := count - 1;
      HalfTerms(x, k, w, j);
      SignQuadrants(w, j, k, x[j]);
      SignQuadrants(w, j, k, x[Pow2(k) + j]);
    }
  }

  lemma Halves(x: seq<real>, k: nat, w: nat)
    requires |x| == 2 * Pow2(k) && w < Pow2(k)
    ensures Wht(x, w) == Wht(x[..Pow2(k)], w) + Wht(x[Pow2(k)..], w)
    ensures Wht(x, w + Pow2(k)) == Wht(x[..Pow2(k)], w) - Wht(x[Pow2(k)..], w)
  {
    HalfTerms(x, k, w, Pow2(k));
  }

  function Combined(a: real, b: real, minus: bool): real {
    if minus then a - b else a + b
  }

  lemma {:induction false} WhtTermsLinear(x: seq<real>, y: seq<real>, z: seq<real>, minus: bool, i: nat, count: nat)
    requires |x| == |y| == |z| && count <= |x|
    requires forall j :: 0 <= j < |x| ==> z[j] == Combined(x[j], y[j], minus)
    ensures WhtTerms(z, i, count) == Combined(WhtTerms(x, i, count), WhtTerms(y, i, count), minus)
  {
    hide BitAnd, PopCount;
    if count > 0 {
      WhtTermsLinear(x, y, z, minus, i, count - 1);
    }
  }

  /** Applying the transform twice multiplies by the length. */
  lemma {:induction false} TransformTwice(x: seq<real>, k: nat, i: nat)
    requires |x| == Pow2(k) && i < |x|
    ensures Wht(Transform(x), i) == (|x| as real) * x[i]
    decreases k, 1
  {
    if k == 0 {
      Singleton(x);
      Singleton(Transform(x));
    } else {
      TransformTwiceStep(x, k - 1, i);
    }
  }

  lemma Singleton(x: seq<real>)
    requires |x| == 1
    ensures Wht(x, 0) == x[0]
  {
    assert WhtTerms(x, 0, 0) == 0.0 && WhtTerms(x, 0, 1) == 0.0 + Signed(0, 0, x[0]);
  }

  lemma {:induction false} TransformTwiceStep(x: seq<real>, k: nat, i: nat)
    requires |x| == 2 * Pow2(k) && i < |x|
    ensures Wht(Transform(x), i) == (|x| as real) * x[i]
    decreases k + 1, 0
  {
    hide WhtTerms;
    var h := Pow2(k);
    var w := if i < h then i else i - h;
    var a, b := x[..h], x[h..];
    var ta, tb := Transform(a), Transform(b);
    var y := Transform(x);
    forall j | 0 <= j < h
      ensures y[..h][j] == Combined(ta[j], tb[j], false) && y[h..][j] == Combined(ta[j], tb[j], true)
    {
      Halves(x, k, j);
    }
    Halves(y, k, w);
    WhtTermsLinear(ta, tb, y[..h], false, w, h);
    WhtTermsLinear(ta, tb, y[h..], true, w, h);
    TransformTwice(a, k, w);
    TransformTwice(b, k, w);
    Twice(h, a[w]);
    Twice(h, b[w]);
  }

  lemma Twice(h: nat, v: real)
    ensures ((2 * h) as real) * v == (h as real) * v + (h as real) * v
  {
  }

  // ---------------------------------------------------------------- one stage

  /** What element i holds once spans of len are finished: coefficient i mod len of the
      transform of its own block. */
  ghost predicate Holds(buf: seq<real>, x: seq<real>, k: nat, blocks: nat) {
    var len := Pow2(k);
    && |buf| == |x| == Times(blocks, len)
    && forall i :: 0 <= i < |buf| ==> Finished(buf, x, len, i)
  }

  ghost predicate Finished(buf: seq<real>, x: seq<real>, len: nat, i: nat)
    requires len > 0 && |buf| == |x| && i < |buf|
  {
    var start := Times(Div(i, len), len);
    start + len <= |x| && buf[i] == Wht(x[start..start + len], Mod(i, len))
  }

  function At(buf: seq<real>, i: nat): real {
    if i < |buf| then buf[i] else 0.0
  }

  /** The value a stage of span 2 * half leaves at i. */
  function StageAt(buf: seq<real>, half: nat, i: nat): real
    requires half > 0
  {
    if IsLow(i, half) then At(buf, i) + At(buf, i + half)
    else if i < half then 0.0
    else At(buf, i - half) - At(buf, i)
  }

  /** One stage doubles the span over which finished transforms are held. */
  lemma StageDoubles(buf: seq<real>, next: seq<real>, x: seq<real>, k: nat, blocks: nat)
    requires Holds(buf, x, k, 2 * blocks) && |next| == |buf|
    requires forall i :: 0 <= i < |next| ==> next[i] == StageAt(buf, Pow2(k), i)
    ensures Holds(next, x, k + 1, blocks)
  {
    hide Times, Div, Mod, Wht, StageAt;
    var len := Pow2(k);
    Doubles(blocks, len);
    forall i | 0 <= i < |next|
      ensures Finished(next, x, 2 * len, i)
    {
      StageFinishes(buf, x, k, blocks, i);
    }
  }

  lemma StageFinishes(buf: seq<real>, x: seq<real>, k: nat, blocks: nat, i: nat)
    requires Holds(buf, x, k, 2 * blocks) && i < |buf|
    ensures var len := Pow2(k);
      var start := Times(Div(i, 2 * len), 2 * len);
      start + 2 * len <= |x| && StageAt(buf, len, i) == Wht(x[start..start + 2 * len], Mod(i, 2 * len))
  {
    hide Times, Div, Mod, Wht;
    var len := Pow2(k);
    Doubles(blocks, len);
    PairInBlocks(i, len, blocks);
    var b, v := Div(i, 2 * len), Mod(Mod(i, 2 * len), len);
    var start := Times(b, 2 * len);
    Doubles(b, len);
    RowFits(b, blocks, 2 * len);
    assert Finished(buf, x, len, start + v) && Finished(buf, x, len, start + v + len);
    var block := x[start..start + 2 * len];
    assert block[..len] == x[start..start + len] && block[len..] == x[start + len..start + len + len];
    Halves(block, k, v);
  }

  lemma StartHolds(x: seq<real>)
    ensures Holds(x, x, 0, |x|)
  {
    forall i | 0 <= i < |x|
      ensures Finished(x, x, 1, i)
    {
      Singleton(x[i..i + 1]);
    }
  }

  lemma EndHolds(buf: seq<real>, x: seq<real>, k: nat)
    requires Holds(buf, x, k, 1)
    ensures buf == Transform(x)
  {
    TimesZero(Pow2(k));
    forall i | 0 <= i < |buf|
      ensures buf[i] == Wht(x, i)
    {
      Quotient(0, i, |x|);
      assert Finished(buf, x, |x|, i);
      assert x[0..|x|] == x;
    }
  }

  // ---------------------------------------------------------------- the kernel

  /** Thread k of a stage changes exactly the two elements it owns. */
  method StageThread(data: array<real>, n: nat, len: nat, k: nat, ghost blocks: nat)
    requires data.Length >= n && len > 0 && len % 2 == 0 && n == Times(blocks, len)
    modifies data
    ensures forall i :: 0 <= i < n ==>
      data[i] == if k < n / 2 && Owner(i, len / 2) == k then StageAt(old(data[..n]), len / 2, i) else old(data[i])
    ensures data[n..] == old(data[n..])
  {
    hide Times, Owner;
    if k >= n / 2 {
      return;
    }
    ghost var half := len / 2;
    Doubles(blocks, half);
    PairOwned(k, half, blocks);
    var block := k / (len / 2);
    var within := k % (len / 2);
    var i0 := block * len + within;
    var i1 := i0 + len / 2;
    assert i0 == Low(k, half) by {
      TimesIs(block, len);
    }
    var a := data[i0];
    var b := data[i1];
    data[i0] := a + b;
    data[i1] := a - b;
    forall i | 0 <= i < n && Owner(i, half) == k
      ensures i == i0 || i == i1
    {
      PairCovers(i, half, blocks);
    }
  }

  /** A whole stage, for any order of the threads. */
  method StageDispatch(data: array<real>, n: nat, len: nat, order: seq<nat>, ghost blocks: nat)
    requires data.Length >= n && len > 0 && len % 2 == 0 && n == Times(blocks, len)
    requires IsSchedule(order, Threads(n / 2))
    modifies data
    ensures forall i :: 0 <= i < n ==> data[i] == StageAt(old(data[..n]), len / 2, i)
    ensures data[n..] == old(data[n..])
  {
    hide StageAt, Times, Owner, IsLow, Low, High;
    var half := len / 2;
    ghost var buf := data[..n];
    Doubles(blocks, half);
    for p := 0 to |order|
      invariant forall i :: 0 <= i < n ==>
        data[i] == if Owner(i, half) in order[..p] then StageAt(buf, half, i) else buf[i]
      invariant data[n..] == old(data[n..])
    {
      ghost var was := data[..n];
      StageThread(data, n, len, order[p], blocks);
      forall i | 0 <= i < n
        ensures data[i] == if Owner(i, half) in order[..p + 1] then StageAt(buf, half, i) else buf[i]
      {
        PairCovers(i, half, blocks);
        if Owner(i, half) == order[p] {
          PairUntouched(was, buf, half, i, order, p, blocks);
        }
      }
    }
    forall i | 0 <= i < n
      ensures data[i] == StageAt(buf, half, i)
    {
      PairCovers(i, half, blocks);
      assert order[..|order|] == order;
    }
  }

  /** When thread order[p] starts, its pair is as the stage found it. */
  lemma PairUntouched(was: seq<real>, buf: seq<real>, half: nat, i: nat, order: seq<nat>, p: nat, blocks: nat)
    requires half > 0 && |was| == |buf| == Times(blocks, 2 * half) && i < |buf| && p < |order|
    requires Owner(i, half) == order[p] && order[p] < Times(blocks, half)
    requires forall q :: 0 <= q < p ==> order[q] != order[p]
    requires forall j :: 0 <= j < |buf| ==>
      was[j] == if Owner(j, half) in order[..p] then StageAt(buf, half, j) else buf[j]
    ensures order[p] !in order[..p]
    ensures StageAt(was, half, i) == StageAt(buf, half, i)
  {
    hide Times, Div, Mod, Owner, IsLow;
    PairOwned(order[p], half, blocks);
    PairCovers(i, half, blocks);
  }

  /** One turn of the stage loop. */
  method Stage(data: array<real>, n: nat, len: nat, order: seq<nat>,
               ghost x: seq<real>, ghost k: nat, ghost blocks: nat)
    requires data.Length >= n && len == Pow2(k + 1) && n == Times(blocks, len)
    requires IsSchedule(order, Threads(n / 2))
    requires Holds(data[..n], x, k, 2 * blocks)
    modifies data
    ensures Holds(data[..n], x, k + 1, blocks)
    ensures data[n..] == old(data[n..])
  {
    ghost var buf := data[..n];
    StageDispatch(data, n, len, order, blocks);
    StageDoubles(buf, data[..n], x, k, blocks);
  }

  // ---------------------------------------------------------------- the driver

  datatype KVCacheType = Standard | RadixTree | HadamardTransform

  /** The length the transform works on: the largest power of two not above the number
      of floats (or 1). */
  ghost predicate IsClamp(n: nat, floatCount: nat) {
    && IsPow2(n)
    && (floatCount == 0 ==> n == 1)
    && (floatCount > 0 ==> n <= floatCount < 2 * n)
  }

  lemma ClampUnique(n: nat, m: nat, floatCount: nat)
    requires IsClamp(n, floatCount) && IsClamp(m, floatCount)
    ensures n == m
  {
    var a: nat :| n == Pow2(a);
    var b: nat :| m == Pow2(b);
    if a < b {
      Pow2Monotone(a + 1, b);
    } else if b < a {
      Pow2Monotone(b + 1, a);
    }
  }

  class AdvancedKVCache {
    const kind: KVCacheType
    /** The cache buffer seen as floats; null when it could not be created. */
    const cache: array?<real>

    constructor (kind: KVCacheType, cache: array?<real>)
      ensures this.kind == kind && this.cache == cache
    {
      this.kind := kind;
      this.cache := cache;
    }

    /** Transforms the longest power-of-two prefix in place; everything past it, and
        every cache of another kind, is left alone.  The 32-bit counter of the clamp
        needs fewer than 2^31 floats (see `ClampLoopEnds`). */
    method ApplyHadamardTransform(scheduler: Scheduler) returns (ghost n: nat)
      requires Fair(scheduler)
      requires cache != null ==> cache.Length < 0x8000_0000
      modifies cache
      ensures kind == HadamardTransform && cache != null ==>
        && IsClamp(n, cache.Length)
        && (cache.Length == 0 ==> cache[..] == old(cache[..]))
        && (cache.Length > 0 ==> cache[..] == Transform(old(cache[..n])) + old(cache[n..]))
      ensures kind != HadamardTransform && cache != null ==> cache[..] == old(cache[..])
    {
      n := 1;
      if kind != HadamardTransform {
        return;
      }
      if cache == null {
        return;
      }
      var count := Clamp(cache.Length);
      n := count;
      if count < 2 {
        if cache.Length == 1 {
          Singleton(cache[..1]);
          assert cache[..] == Transform(cache[..1]) + cache[1..];
        }
        return;
      }
      TransformInPlace(cache, count, scheduler);
      assert cache[..] == cache[..count] + cache[count..];
    }
  }

  method TransformInPlace(data: array<real>, n: nat, scheduler: Scheduler)
    requires Fair(scheduler) && IsPow2(n) && 2 <= n <= data.Length
    modifies data
    ensures data[..n] == Transform(old(data[..n]))
    ensures data[n..] == old(data[n..])
  {
    hide Holds;
    ghost var x := data[..n];
    ghost var log2n: nat :| n == Pow2(log2n);
    ghost var k := 0;
    StartHolds(x);
    TimesZero(n);
    var len, dispatch := 2, 0;
    while len <= n
      invariant k <= log2n && len == Pow2(k + 1)
      invariant Times(Pow2(log2n - k), Pow2(k)) == n
      invariant Holds(data[..n], x, k, Pow2(log2n - k))
      invariant data[n..] == old(data[n..])
      decreases log2n - k
    {
      Doubles(Pow2(log2n - k - 1), Pow2(k));
      Stage(data, n, len, scheduler(dispatch, Threads(n / 2)), x, k, Pow2(log2n - k - 1));
      k := k + 1;
      len, dispatch := 2 * len, dispatch + 1;
    }
    if k < log2n {
      Pow2Monotone(k + 1, log2n);
      assert false;
    }
    EndHolds(data[..n], x, k);
  }

  /** The clamp loop. */
  method Clamp(floatCount: nat) returns (n: nat)
    requires floatCount < 0x8000_0000
    ensures IsClamp(n, floatCount)
  {
    n := 1;
    Pow2OfZero();
    ghost var k := 0;
    while ShiftLeft(n) <= floatCount
      invariant n == Pow2(k) && (n == 1 || n <= floatCount)
      decreases floatCount - n
    {
      n := ShiftLeft(n);
      k := k + 1;
    }
  }

  /** The clamp loop's n after some turns, while it keeps going. */
  function ClampAfter(turns: nat): (n: nat)
    ensures n < 0x1_0000_0000
  {
    if turns == 0 then 1 else ShiftLeft(ClampAfter(turns - 1))
  }

  lemma {:induction false} ClampBeforeWrap(turns: nat)
    ensures ClampAfter(turns) == if turns <= 31 then Pow2(turns) else 0
  {
    hide Pow2, ShiftLeft;
    LargePowers();
    Pow2OfZero();
    if turns > 0 {
      ClampBeforeWrap(turns - 1);
      Pow2Step(turns - 1);
      if turns <= 31 {
        Pow2Monotone(turns, 31);
      }
    }
  }

  /** The clamp loop ends if and only if the buffer has fewer than 2^31 floats: beyond
      that n wraps to 0, which is never above the count. */
  lemma ClampLoopEnds(floatCount: nat)
    ensures (exists turns: nat :: ShiftLeft(ClampAfter(turns)) > floatCount) <==> floatCount < 0x8000_0000
  {
    LargePowers();
    if floatCount < 0x8000_0000 {
      ClampBeforeWrap(30);
      assert ShiftLeft(ClampAfter(30)) > floatCount;
    } else {
      forall turns: nat
        ensures ShiftLeft(ClampAfter(turns)) <= floatCount
      {
        ClampBeforeWrap(turns);
        ClampBeforeWrap(turns + 1);
        if turns + 1 <= 31 {
          Pow2Monotone(turns + 1, 31);
        }
      }
    }
  }
}
