/** The ring all-reduce of src/dxcollective/dxcollective.cpp: n - 1 scatter-reduce steps and
    n - 1 all-gather steps over n chunks. */
module RingAllReduce {
  import opened Index

  /** How a receiver takes in a chunk.  As written, the chunk is copied over the receiver's
      own and then the first chunk of the sender is added to the receiver's first chunk;
      accumulating adds the sent chunk where it belongs. */
  datatype Receive = Accumulating | AsWritten

  type Buffers = seq<seq<real>>

  function Wrap(x: nat, n: nat): nat
    requires x < 2 * n
    ensures Wrap(x, n) < n
  {
    if x < n then x else x - n
  }

  /** How far around the ring GPU g is from the GPU that starts chunk k. */
  function Distance(g: nat, k: nat, n: nat): (d: nat)
    requires g < n && k < n
    ensures d < n
  {
    Wrap(g - k + n, n)
  }

  function CopyRange(dst: seq<real>, src: seq<real>, off: nat, len: nat): (r: seq<real>)
    requires |dst| == |src| && off + len <= |dst|
    ensures |r| == |dst|
    ensures forall e :: 0 <= e < |r| ==> r[e] == if off <= e < off + len then src[e] else dst[e]
  {
    dst[..off] + src[off..off + len] + dst[off + len..]
  }

  function AddRange(dst: seq<real>, src: seq<real>, off: nat, len: nat): (r: seq<real>)
    requires |dst| == |src| && off + len <= |dst|
    ensures |r| == |dst|
    ensures forall e :: 0 <= e < |r| ==> r[e] == if off <= e < off + len then dst[e] + src[e] else dst[e]
  {
    seq(|dst|, e requires 0 <= e < |dst| => if off <= e < off + len then dst[e] + src[e] else dst[e])
  }

  // ---------------------------------------------------------------- what arrives

  /** Buffers of one length, with room for a chunk of c elements for each GPU. */
  ghost predicate Uniform(b: Buffers, c: nat) {
    forall g :: 0 <= g < |b| ==> |b[g]| == |b[0]| >= Times(|b|, c)
  }

  /** A ring of n GPUs with n chunks of c elements each, and perhaps a rest. */
  ghost predicate Shaped(b: Buffers, n: nat, c: nat) {
    n >= 2 && c > 0 && |b| == n && Uniform(b, c)
  }

  ghost predicate SameShape(b: Buffers, r: Buffers) {
    |b| == |r| && forall g :: 0 <= g < |b| ==> |r[g]| == |b[g]|
  }

  /** The chunk an element belongs to; n or more for the rest. */
  function ChunkOf(e: nat, c: nat): nat
    requires c > 0
  {
    Div(e, c)
  }

  /** The sum of element e over the d + 1 GPUs from k on. */
  function PartialSum(b: Buffers, k: nat, d: nat, e: nat): real
    requires k < |b| && d < |b| && forall g :: 0 <= g < |b| ==> e < |b[g]|
  {
    if d == 0 then b[k][e] else PartialSum(b, k, d - 1, e) + b[Wrap(k + d, |b|)][e]
  }

  function RangeSum(b: Buffers, lo: nat, hi: nat, e: nat): real
    requires lo <= hi <= |b| && forall g :: 0 <= g < |b| ==> e < |b[g]|
  {
    if lo == hi then 0.0 else RangeSum(b, lo, hi - 1, e) + b[hi - 1][e]
  }

  /** The element-wise total. */
  function Total(b: Buffers, e: nat): real
    requires forall g :: 0 <= g < |b| ==> e < |b[g]|
  {
    RangeSum(b, 0, |b|, e)
  }

  lemma {:induction false} RangeSplit(b: Buffers, lo: nat, mid: nat, hi: nat, e: nat)
    requires lo <= mid <= hi <= |b| && forall g :: 0 <= g < |b| ==> e < |b[g]|
    ensures RangeSum(b, lo, hi, e) == RangeSum(b, lo, mid, e) + RangeSum(b, mid, hi, e)
  {
    if mid < hi {
      RangeSplit(b, lo, mid, hi - 1, e);
    }
  }

  lemma {:induction false} PartialSumIsRange(b: Buffers, k: nat, d: nat, e: nat)
    requires k < |b| && d < |b| && forall g :: 0 <= g < |b| ==> e < |b[g]|
    ensures PartialSum(b, k, d, e) ==
      if k + d < |b| then RangeSum(b, k, k + d + 1, e)
      else RangeSum(b, k, |b|, e) + RangeSum(b, 0, k + d + 1 - |b|, e)
  {
    if d > 0 {
      PartialSumIsRange(b, k, d - 1, e);
    } else {
      assert RangeSum(b, k, k + 1, e) == RangeSum(b, k, k, e) + b[k][e];
    }
  }

  /** All the way around the ring, wherever it starts, is the total. */
  lemma FullRing(b: Buffers, k: nat, e: nat)
    requires k < |b| && forall g :: 0 <= g < |b| ==> e < |b[g]|
    ensures PartialSum(b, k, |b| - 1, e) == Total(b, e)
  {
    PartialSumIsRange(b, k, |b| - 1, e);
    RangeSplit(b, 0, k, |b|, e);
    RangeSplit(b, k, |b|, |b|, e);
  }

  /** Element e (of chunk k) after it has travelled d hops from GPU k. */
  function Arrived(receive: Receive, b: Buffers, k: nat, d: nat, e: nat): real
    requires k < |b| && d < |b| && forall g :: 0 <= g < |b| ==> e < |b[g]|
  {
    match receive
    case Accumulating => PartialSum(b, k, d, e)
    case AsWritten => b[k][e]
  }

  /** The elements whose scatter is described by hops: all, or as written all but chunk 0,
      which takes in something with every send. */
  predicate Tracked(receive: Receive, e: nat, c: nat) {
    receive.Accumulating? || e >= c
  }

  /** Element e of GPU g when hops shorter than or equal to t have happened. */
  function Scattered(receive: Receive, b: Buffers, c: nat, t: nat, g: nat, e: nat): real
    requires c > 0 && g < |b| && forall h :: 0 <= h < |b| ==> e < |b[h]|
  {
    var k := ChunkOf(e, c);
    if k >= |b| then b[g][e]
    else
      var d := Distance(g, k, |b|);
      if d <= t && d > 0 then Arrived(receive, b, k, d, e) else b[g][e]
  }

  lemma ChunkRange(e: nat, n: nat, c: nat, k: nat)
    requires c > 0 && k < n
    ensures ChunkOf(e, c) < n <==> e < Times(n, c)
    ensures ChunkOf(e, c) == k <==> Times(k, c) <= e < Times(k, c) + c
    ensures Times(k, c) + c <= Times(n, c)
  {
    hide Times, Div, Mod;
    if e < Times(n, c) {
      RowOf(e, n, c);
    }
    RowFits(k, n, c);
    Euclid(e, c);
    if ChunkOf(e, c) < n {
      RowFits(ChunkOf(e, c), n, c);
    }
    if Times(k, c) <= e < Times(k, c) + c {
      Quotient(k, e - Times(k, c), c);
    }
  }

  lemma ChunkFits(k: nat, n: nat, c: nat)
    requires k < n
    ensures Times(k, c) + c <= Times(n, c) && c <= Times(n, c)
  {
    RowFits(k, n, c);
    RowFits(0, n, c);
    TimesZero(c);
  }

  // ---------------------------------------------------------------- the run as a function

  /** The receiver's buffer after a send of the chunk at off. */
  function Received(receive: Receive, dst: seq<real>, src: seq<real>, off: nat, c: nat): (r: seq<real>)
    requires |dst| == |src| && off + c <= |dst| && c <= |dst|
    ensures |r| == |dst|
  {
    match receive
    case Accumulating => AddRange(dst, src, off, c)
    case AsWritten => AddRange(CopyRange(dst, src, off, c), src, 0, c)
  }

  /** The send of GPU i in scatter step s, and in gather step s. */
  ghost function ScatterOne(receive: Receive, cur: Buffers, n: nat, c: nat, s: nat, i: nat): (r: Buffers)
    requires Shaped(cur, n, c) && s + 1 < n && i < n
    ensures SameShape(cur, r) && Shaped(r, n, c)
  {
    var k, recv := Wrap(i - s + n, n), Wrap(i + 1, n);
    ChunkFits(k, n, c);
    cur[recv := Received(receive, cur[recv], cur[i], Times(k, c), c)]
  }

  ghost function GatherOne(cur: Buffers, n: nat, c: nat, s: nat, i: nat): (r: Buffers)
    requires Shaped(cur, n, c) && s + 1 < n && i < n
    ensures SameShape(cur, r) && Shaped(r, n, c)
  {
    var k, recv := Wrap(Wrap(i - s + n, n) + 1, n), Wrap(i + 1, n);
    ChunkFits(k, n, c);
    cur[recv := CopyRange(cur[recv], cur[i], Times(k, c), c)]
  }

  /** The buffers after s whole scatter steps and i sends of the next. */
  ghost function ScatterRun(receive: Receive, b: Buffers, n: nat, c: nat, s: nat, i: nat): (r: Buffers)
    requires Shaped(b, n, c) && i <= n && (s + 1 < n || (s + 1 == n && i == 0))
    ensures SameShape(b, r) && Shaped(r, n, c)
    decreases s, i
  {
    if i > 0 then ScatterOne(receive, ScatterRun(receive, b, n, c, s, i - 1), n, c, s, i - 1)
    else if s > 0 then ScatterRun(receive, b, n, c, s - 1, n)
    else b
  }

  ghost function GatherRun(w: Buffers, n: nat, c: nat, s: nat, i: nat): (r: Buffers)
    requires Shaped(w, n, c) && i <= n && (s + 1 < n || (s + 1 == n && i == 0))
    ensures SameShape(w, r) && Shaped(r, n, c)
    decreases s, i
  {
    if i > 0 then GatherOne(GatherRun(w, n, c, s, i - 1), n, c, s, i - 1)
    else if s > 0 then GatherRun(w, n, c, s - 1, n)
    else w
  }

  /** What the collective leaves: fewer than two GPUs, or nothing to send, leave it as it is. */
  ghost function Reduced(receive: Receive, b: Buffers, c: nat): (r: Buffers)
    requires Uniform(b, c)
    ensures SameShape(b, r)
  {
    var n := |b|;
    if n <= 1 || c == 0 then b else GatherRun(ScatterRun(receive, b, n, c, n - 1, 0), n, c, n - 1, 0)
  }

  // ---------------------------------------------------------------- scatter-reduce

  /** Within a step, the sends of GPUs 0 .. i - 1 have been received. */
  predicate HasReceived(g: nat, i: nat, n: nat) {
    (1 <= g <= i && g < n) || (g == 0 && i >= n)
  }

  ghost predicate Scattering(receive: Receive, b: Buffers, cur: Buffers, n: nat, c: nat, s: nat, i: nat)
    requires Shaped(b, n, c)
  {
    && SameShape(b, cur)
    && forall g, e :: 0 <= g < n && 0 <= e < |b[0]| && Tracked(receive, e, c) ==>
         ScatterAt(receive, b, cur, n, c, s, i, g, e)
  }

  ghost predicate ScatterAt(receive: Receive, b: Buffers, cur: Buffers, n: nat, c: nat, s: nat, i: nat, g: nat, e: nat)
    requires Shaped(b, n, c) && SameShape(b, cur) && g < n && e < |b[0]|
  {
    cur[g][e] == Scattered(receive, b, c, if HasReceived(g, i, n) then s + 1 else s, g, e)
  }

  /** One send of a scatter step: after step s, GPU i + 1 holds chunk i - s summed over
      s + 2 consecutive GPUs. */
  lemma ScatterSend(receive: Receive, b: Buffers, cur: Buffers, n: nat, c: nat, s: nat, i: nat)
    requires Shaped(b, n, c) && Shaped(cur, n, c) && s + 1 < n && i < n && Scattering(receive, b, cur, n, c, s, i)
    ensures Scattering(receive, b, ScatterOne(receive, cur, n, c, s, i), n, c, s, i + 1)
  {
    hide Times, Div, Scattered;
    var k, recv := Wrap(i - s + n, n), Wrap(i + 1, n);
    ChunkFits(k, n, c);
    var next, sent := ScatterOne(receive, cur, n, c, s, i), i + 1;
    var r := next[recv];
    forall g, e | 0 <= g < n && 0 <= e < |b[0]| && Tracked(receive, e, c)
      ensures ScatterAt(receive, b, next, n, c, s, sent, g, e)
    {
      assert ScatterAt(receive, b, cur, n, c, s, i, g, e);
      if g == recv {
        assert ScatterAt(receive, b, cur, n, c, s, i, i, e);
        ChunkRange(e, n, c, k);
        ReceiverHop(receive, b, c, s, i, k, e);
        if ChunkOf(e, c) == k {
          assert r[e] == if receive.Accumulating? then cur[recv][e] + cur[i][e] else cur[i][e];
        } else {
          assert r[e] == cur[recv][e];
        }
      }
    }
  }

  /** What the hop of chunk k from GPU i means for the receiver, element by element. */
  lemma ReceiverHop(receive: Receive, b: Buffers, c: nat, s: nat, i: nat, k: nat, e: nat)
    requires |b| >= 2 && c > 0 && s + 1 < |b| && i < |b| && k == Wrap(i - s + |b|, |b|)
    requires forall h :: 0 <= h < |b| ==> e < |b[h]|
    ensures var recv := Wrap(i + 1, |b|);
      && (ChunkOf(e, c) != k ==> Scattered(receive, b, c, s + 1, recv, e) == Scattered(receive, b, c, s, recv, e))
      && (ChunkOf(e, c) == k ==>
           && Scattered(receive, b, c, s, i, e) == Scattered(receive, b, c, s + 1, i, e) == Arrived(receive, b, k, s, e)
           && Scattered(receive, b, c, s, recv, e) == b[recv][e]
           && Scattered(receive, b, c, s + 1, recv, e)
              == if receive.Accumulating? then Arrived(receive, b, k, s, e) + b[recv][e] else b[k][e])
  {
    var n := |b|;
    var recv := Wrap(i + 1, n);
    var m := ChunkOf(e, c);
    if m == k {
      assert Distance(i, k, n) == s && Distance(recv, k, n) == s + 1;
      assert Wrap(k + (s + 1), n) == recv;
      if s == 0 {
        assert k == i;
      }
    } else if m < n {
      assert Distance(recv, m, n) != s + 1;
    }
  }

  /** Between steps: the last receiver of one step is where the next step starts. */
  lemma NextStep(receive: Receive, b: Buffers, cur: Buffers, n: nat, c: nat, s: nat)
    requires Shaped(b, n, c) && Scattering(receive, b, cur, n, c, s, n)
    ensures Scattering(receive, b, cur, n, c, s + 1, 0)
  {
    hide Scattered;
    var step := s + 1;
    forall g, e | 0 <= g < n && 0 <= e < |b[0]| && Tracked(receive, e, c)
      ensures ScatterAt(receive, b, cur, n, c, step, 0, g, e)
    {
      assert ScatterAt(receive, b, cur, n, c, s, n, g, e);
    }
  }

  lemma ScatterStart(receive: Receive, b: Buffers, n: nat, c: nat)
    requires Shaped(b, n, c)
    ensures Scattering(receive, b, b, n, c, 0, 0)
  {
    forall g, e | 0 <= g < n && 0 <= e < |b[0]|
      ensures ScatterAt(receive, b, b, n, c, 0, 0, g, e)
    {
    }
  }

  /** Every state of the scatter run is described by the hops made so far. */
  lemma {:induction false} ScatterRunHolds(receive: Receive, b: Buffers, n: nat, c: nat, s: nat, i: nat)
    requires Shaped(b, n, c) && i <= n && (s + 1 < n || (s + 1 == n && i == 0))
    ensures Scattering(receive, b, ScatterRun(receive, b, n, c, s, i), n, c, s, i)
    decreases s, i
  {
    hide Scattering, ScatterOne;
    if i > 0 {
      ScatterRunHolds(receive, b, n, c, s, i - 1);
      ScatterSend(receive, b, ScatterRun(receive, b, n, c, s, i - 1), n, c, s, i - 1);
    } else if s > 0 {
      ScatterRunHolds(receive, b, n, c, s - 1, n);
      NextStep(receive, b, ScatterRun(receive, b, n, c, s - 1, n), n, c, s - 1);
    } else {
      ScatterStart(receive, b, n, c);
    }
  }

  /** The neighbour a GPU receives from. */
  function Previous(g: nat, n: nat): (i: nat)
    requires g < n
    ensures i < n && Wrap(i + 1, n) == g
  {
    if g == 0 then n - 1 else g - 1
  }

  /** A step with all sends happening at once: every GPU takes in what its neighbour had. */
  ghost function ScatterAtOnce(cur: Buffers, n: nat, c: nat, s: nat): (r: Buffers)
    requires Shaped(cur, n, c) && s + 1 < n
    ensures |r| == n
  {
    seq(n, g requires 0 <= g < n => ScatterOne(Accumulating, cur, n, c, s, Previous(g, n))[g])
  }

  ghost function GatherAtOnce(cur: Buffers, n: nat, c: nat, s: nat): (r: Buffers)
    requires Shaped(cur, n, c) && s + 1 < n
    ensures |r| == n
  {
    seq(n, g requires 0 <= g < n => GatherOne(cur, n, c, s, Previous(g, n))[g])
  }

  /** Doing the sends of a scatter step one after another equals doing them at once: no GPU
      passes on what it received in the same step. */
  lemma ScatterIsAtOnce(b: Buffers, n: nat, c: nat, s: nat)
    requires Shaped(b, n, c) && s + 1 < n
    ensures ScatterRun(Accumulating, b, n, c, s, n) == ScatterAtOnce(ScatterRun(Accumulating, b, n, c, s, 0), n, c, s)
  {
    var cur, next := ScatterRun(Accumulating, b, n, c, s, 0), ScatterRun(Accumulating, b, n, c, s, n);
    ScatterRunHolds(Accumulating, b, n, c, s, 0);
    ScatterRunHolds(Accumulating, b, n, c, s, n);
    hide ScatterRun, Scattering, ScatterOne;
    forall g | 0 <= g < n
      ensures next[g] == ScatterAtOnce(cur, n, c, s)[g]
    {
      var r := ScatterOne(Accumulating, cur, n, c, s, Previous(g, n))[g];
      forall e | 0 <= e < |b[0]|
        ensures next[g][e] == r[e]
      {
        ScatterOnceAt(b, cur, next, n, c, s, g, e);
      }
      assert |next[g]| == |r|;
    }
  }

  lemma ScatterOnceAt(b: Buffers, cur: Buffers, next: Buffers, n: nat, c: nat, s: nat, g: nat, e: nat)
    requires Shaped(b, n, c) && Shaped(cur, n, c) && s + 1 < n && g < n && e < |b[0]|
    requires Scattering(Accumulating, b, cur, n, c, s, 0) && Scattering(Accumulating, b, next, n, c, s, n)
    ensures next[g][e] == ScatterOne(Accumulating, cur, n, c, s, Previous(g, n))[g][e]
  {
    hide Times, Div, Scattered;
    var i := Previous(g, n);
    var k := Wrap(i - s + n, n);
    ChunkFits(k, n, c);
    assert ScatterAt(Accumulating, b, cur, n, c, s, 0, g, e) && ScatterAt(Accumulating, b, cur, n, c, s, 0, i, e);
    assert ScatterAt(Accumulating, b, next, n, c, s, n, g, e);
    ChunkRange(e, n, c, k);
    ReceiverHop(Accumulating, b, c, s, i, k, e);
  }

  // ---------------------------------------------------------------- all-gather

  /** Element e of GPU g when t gathering hops have happened from the buffers w: its chunk k
      comes from GPU k - 1, which finished it. */
  function Gathered(w: Buffers, c: nat, t: nat, g: nat, e: nat): real
    requires c > 0 && g < |w| && forall h :: 0 <= h < |w| ==> e < |w[h]|
  {
    var k, n := ChunkOf(e, c), |w|;
    if k >= n then w[g][e]
    else if Distance(g, k, n) < t then w[Previous(k, n)][e] else w[g][e]
  }

  ghost predicate Gathering(w: Buffers, cur: Buffers, n: nat, c: nat, s: nat, i: nat)
    requires Shaped(w, n, c)
  {
    && SameShape(w, cur)
    && forall g, e :: 0 <= g < n && 0 <= e < |w[0]| ==> GatherAt(w, cur, n, c, s, i, g, e)
  }

  ghost predicate GatherAt(w: Buffers, cur: Buffers, n: nat, c: nat, s: nat, i: nat, g: nat, e: nat)
    requires Shaped(w, n, c) && SameShape(w, cur) && g < n && e < |w[0]|
  {
    cur[g][e] == Gathered(w, c, if HasReceived(g, i, n) then s + 1 else s, g, e)
  }

  lemma GatherSend(w: Buffers, cur: Buffers, n: nat, c: nat, s: nat, i: nat)
    requires Shaped(w, n, c) && Shaped(cur, n, c) && s + 1 < n && i < n && Gathering(w, cur, n, c, s, i)
    ensures Gathering(w, GatherOne(cur, n, c, s, i), n, c, s, i + 1)
  {
    hide Times, Div, Gathered;
    var k, recv := Wrap(Wrap(i - s + n, n) + 1, n), Wrap(i + 1, n);
    ChunkFits(k, n, c);
    var next, sent := GatherOne(cur, n, c, s, i), i + 1;
    forall g, e | 0 <= g < n && 0 <= e < |w[0]|
      ensures GatherAt(w, next, n, c, s, sent, g, e)
    {
      assert GatherAt(w, cur, n, c, s, i, g, e);
      if g == recv {
        assert GatherAt(w, cur, n, c, s, i, i, e);
        ChunkRange(e, n, c, k);
        GatherHop(w, c, s, i, k, e);
      }
    }
  }

  /** What one hop of the gather means for the receiver, element by element. */
  lemma GatherHop(w: Buffers, c: nat, s: nat, i: nat, k: nat, e: nat)
    requires |w| >= 2 && c > 0 && s + 1 < |w| && i < |w| && k == Wrap(Wrap(i - s + |w|, |w|) + 1, |w|)
    requires forall h :: 0 <= h < |w| ==> e < |w[h]|
    ensures var recv, n := Wrap(i + 1, |w|), |w|;
      && (ChunkOf(e, c) != k ==> Gathered(w, c, s + 1, recv, e) == Gathered(w, c, s, recv, e))
      && (ChunkOf(e, c) == k ==>
           Gathered(w, c, s, i, e) == Gathered(w, c, s + 1, i, e) == Gathered(w, c, s + 1, recv, e)
           == w[Previous(k, n)][e])
  {
    var n := |w|;
    var recv, m := Wrap(i + 1, n), ChunkOf(e, c);
    if m == k {
      assert Distance(recv, k, n) == s;
      assert Distance(i, k, n) == if s == 0 then n - 1 else s - 1;
      if s == 0 {
        assert i == Previous(k, n);
      }
    } else if m < n {
      assert Distance(recv, m, n) != s;
    }
  }

  lemma {:induction false} GatherRunHolds(w: Buffers, n: nat, c: nat, s: nat, i: nat)
    requires Shaped(w, n, c) && i <= n && (s + 1 < n || (s + 1 == n && i == 0))
    ensures Gathering(w, GatherRun(w, n, c, s, i), n, c, s, i)
    decreases s, i
  {
    hide GatherOne, Gathered;
    if i > 0 {
      GatherRunHolds(w, n, c, s, i - 1);
      GatherSend(w, GatherRun(w, n, c, s, i - 1), n, c, s, i - 1);
    } else if s > 0 {
      GatherRunHolds(w, n, c, s - 1, n);
      forall g, e | 0 <= g < n && 0 <= e < |w[0]|
        ensures GatherAt(w, GatherRun(w, n, c, s, 0), n, c, s, 0, g, e)
      {
        var step := s - 1;
        assert GatherAt(w, GatherRun(w, n, c, step, n), n, c, step, n, g, e);
      }
    } else {
      GatherBegins(w, n, c);
    }
  }

  lemma GatherBegins(w: Buffers, n: nat, c: nat)
    requires Shaped(w, n, c)
    ensures Gathering(w, w, n, c, 0, 0)
  {
    forall g, e | 0 <= g < n && 0 <= e < |w[0]|
      ensures GatherAt(w, w, n, c, 0, 0, g, e)
    {
    }
  }

  /** The gather steps may be done at once as well. */
  lemma GatherIsAtOnce(w: Buffers, n: nat, c: nat, s: nat)
    requires Shaped(w, n, c) && s + 1 < n
    ensures GatherRun(w, n, c, s, n) == GatherAtOnce(GatherRun(w, n, c, s, 0), n, c, s)
  {
    var cur, next := GatherRun(w, n, c, s, 0), GatherRun(w, n, c, s, n);
    GatherRunHolds(w, n, c, s, 0);
    GatherRunHolds(w, n, c, s, n);
    hide GatherRun, Gathering, GatherOne;
    forall g | 0 <= g < n
      ensures next[g] == GatherAtOnce(cur, n, c, s)[g]
    {
      var r := GatherOne(cur, n, c, s, Previous(g, n))[g];
      forall e | 0 <= e < |w[0]|
        ensures next[g][e] == r[e]
      {
        GatherOnceAt(w, cur, next, n, c, s, g, e);
      }
      assert |next[g]| == |r|;
    }
  }

  lemma GatherOnceAt(w: Buffers, cur: Buffers, next: Buffers, n: nat, c: nat, s: nat, g: nat, e: nat)
    requires Shaped(w, n, c) && Shaped(cur, n, c) && s + 1 < n && g < n && e < |w[0]|
    requires Gathering(w, cur, n, c, s, 0) && Gathering(w, next, n, c, s, n)
    ensures next[g][e] == GatherOne(cur, n, c, s, Previous(g, n))[g][e]
  {
    hide Times, Div, Gathered;
    var i := Previous(g, n);
    var k := Wrap(Wrap(i - s + n, n) + 1, n);
    ChunkFits(k, n, c);
    assert GatherAt(w, cur, n, c, s, 0, g, e) && GatherAt(w, cur, n, c, s, 0, i, e);
    assert GatherAt(w, next, n, c, s, n, g, e);
    ChunkRange(e, n, c, k);
    GatherHop(w, c, s, i, k, e);
  }

  // ---------------------------------------------------------------- the outcome

  /** Every GPU's buffer holds v in element e. */
  ghost predicate AllHold(b: Buffers, e: nat, v: real) {
    forall g :: 0 <= g < |b| ==> e < |b[g]| && b[g][e] == v
  }

  /** The gather gives every GPU the chunk k that GPU k - 1 finished; the rest stays. */
  lemma GatherDelivers(receive: Receive, b: Buffers, c: nat, e: nat)
    requires Shaped(b, |b|, c) && e < |b[0]|
    ensures var n := |b|;
      var w := ScatterRun(receive, b, n, c, n - 1, 0);
      && (ChunkOf(e, c) < n ==> AllHold(Reduced(receive, b, c), e, w[Previous(ChunkOf(e, c), n)][e]))
      && (ChunkOf(e, c) >= n ==> forall g :: 0 <= g < n ==> Reduced(receive, b, c)[g][e] == w[g][e])
  {
    var n := |b|;
    var w := ScatterRun(receive, b, n, c, n - 1, 0);
    GatherRunHolds(w, n, c, n - 1, 0);
    hide ScatterRun, GatherRun;
    forall g | 0 <= g < n
      ensures Reduced(receive, b, c)[g][e] == Gathered(w, c, n - 1, g, e)
    {
      assert GatherAt(w, GatherRun(w, n, c, n - 1, 0), n, c, n - 1, 0, g, e);
    }
    var hops := n - 1;
    forall g | 0 <= g < n
      ensures ChunkOf(e, c) < n ==> Gathered(w, c, hops, g, e) == w[Previous(ChunkOf(e, c), n)][e]
      ensures ChunkOf(e, c) >= n ==> Gathered(w, c, hops, g, e) == w[g][e]
    {
      AllGathered(w, c, g, e);
    }
    hide Gathered, Reduced, Shaped, Uniform;
  }

  /** After n - 1 hops every GPU has chunk k from GPU k - 1. */
  lemma AllGathered(w: Buffers, c: nat, g: nat, e: nat)
    requires c > 0 && g < |w| && forall h :: 0 <= h < |w| ==> e < |w[h]|
    ensures var k, n := ChunkOf(e, c), |w|;
      && (k < n ==> Gathered(w, c, n - 1, g, e) == w[Previous(k, n)][e])
      && (k >= n ==> Gathered(w, c, n - 1, g, e) == w[g][e])
  {
    var k, n := ChunkOf(e, c), |w|;
    if k < n && Distance(g, k, n) == n - 1 {
      assert g == Previous(k, n);
    }
  }

  /** After the scatter, GPU k - 1 holds chunk k after n - 1 hops. */
  lemma ScatterFinishes(receive: Receive, b: Buffers, c: nat, e: nat)
    requires Shaped(b, |b|, c) && e < |b[0]| && Tracked(receive, e, c)
    ensures var n := |b|;
      var w := ScatterRun(receive, b, n, c, n - 1, 0);
      && (ChunkOf(e, c) < n ==> w[Previous(ChunkOf(e, c), n)][e] == Arrived(receive, b, ChunkOf(e, c), n - 1, e))
      && (ChunkOf(e, c) >= n ==> forall g :: 0 <= g < n ==> w[g][e] == b[g][e])
  {
    var n := |b|;
    var w := ScatterRun(receive, b, n, c, n - 1, 0);
    ScatterRunHolds(receive, b, n, c, n - 1, 0);
    hide ScatterRun;
    hide Scattered, Arrived, Tracked, Previous, ChunkOf;
    forall g | 0 <= g < n
      ensures ChunkOf(e, c) < n && g == Previous(ChunkOf(e, c), n) ==>
        w[g][e] == Arrived(receive, b, ChunkOf(e, c), n - 1, e)
      ensures ChunkOf(e, c) >= n ==> w[g][e] == b[g][e]
    {
      assert ScatterAt(receive, b, w, n, c, n - 1, 0, g, e);
      AllScattered(receive, b, c, g, e);
    }
  }

  /** After n - 1 hops chunk k has come to GPU k - 1. */
  lemma AllScattered(receive: Receive, b: Buffers, c: nat, g: nat, e: nat)
    requires |b| > 1 && c > 0 && g < |b| && forall h :: 0 <= h < |b| ==> e < |b[h]|
    ensures var k, n := ChunkOf(e, c), |b|;
      && (k < n && g == Previous(k, n) ==> Scattered(receive, b, c, n - 1, g, e) == Arrived(receive, b, k, n - 1, e))
      && (k >= n ==> Scattered(receive, b, c, n - 1, g, e) == b[g][e])
  {
    var k, n := ChunkOf(e, c), |b|;
    if k < n {
      assert Distance(Previous(k, n), k, n) == n - 1;
    }
  }

  /** r holds the total of b in every element of every chunk, and b's rest. */
  ghost predicate IsAllReduce(b: Buffers, r: Buffers, c: nat)
    requires Uniform(b, c)
  {
    && SameShape(b, r)
    && (|b| > 0 ==> forall e :: 0 <= e < |b[0]| ==> ReducedAt(b, r, c, e))
  }

  ghost predicate ReducedAt(b: Buffers, r: Buffers, c: nat, e: nat)
    requires Uniform(b, c) && SameShape(b, r) && |b| > 0 && e < |b[0]|
  {
    if e < Times(|b|, c) then AllHold(r, e, Total(b, e)) else forall g :: 0 <= g < |b| ==> r[g][e] == b[g][e]
  }

  /** With an accumulating receive every GPU ends with every total. */
  lemma AccumulatingIsRight(b: Buffers, c: nat)
    requires Uniform(b, c)
    ensures IsAllReduce(b, Reduced(Accumulating, b, c), c)
  {
    if |b| <= 1 || c == 0 {
      NothingToSend(Accumulating, b, c);
    } else {
      hide Reduced;
      forall e | 0 <= e < |b[0]|
        ensures ReducedAt(b, Reduced(Accumulating, b, c), c, e)
      {
        var k := ChunkOf(e, c);
        ChunkRange(e, |b|, c, 0);
        GatherDelivers(Accumulating, b, c, e);
        ScatterFinishes(Accumulating, b, c, e);
        if k < |b| {
          FullRing(b, k, e);
        }
      }
    }
  }

  /** A single GPU already holds its total, and no elements have no totals. */
  lemma NothingToSend(receive: Receive, b: Buffers, c: nat)
    requires Uniform(b, c) && (|b| <= 1 || c == 0)
    ensures IsAllReduce(b, Reduced(receive, b, c), c)
  {
    TimesZero(|b|);
    if |b| == 1 {
      forall e | 0 <= e < |b[0]|
        ensures ReducedAt(b, Reduced(receive, b, c), c, e)
      {
        assert RangeSum(b, 0, 1, e) == RangeSum(b, 0, 0, e) + b[0][e];
      }
    }
  }

  // ---------------------------------------------------------------- the outcome as written

  /** Element e of every GPU. */
  function Column(b: Buffers, e: nat): (x: seq<real>)
    requires forall g :: 0 <= g < |b| ==> e < |b[g]|
    ensures |x| == |b| && forall g :: 0 <= g < |b| ==> x[g] == b[g][e]
  {
    seq(|b|, g requires 0 <= g < |b| => b[g][e])
  }

  /** As written, every send of a scatter step also adds the sender's chunk 0 to the
      receiver's; the one send that carries chunk 0 has copied it there first. */
  function FirstRun(x: seq<real>, s: nat, i: nat): (y: seq<real>)
    requires |x| >= 2 && i <= |x| && (s + 1 < |x| || (s + 1 == |x| && i == 0))
    ensures |y| == |x|
    decreases s, i
  {
    if i > 0 then
      var y, j := FirstRun(x, s, i - 1), i - 1;
      var recv := Wrap(j + 1, |x|);
      y[recv := if j == s then y[j] + y[j] else y[recv] + y[j]]
    else if s > 0 then FirstRun(x, s - 1, |x|)
    else x
  }

  /** What chunk 0 is left with everywhere: what the scatter leaves on the last GPU. */
  function FirstValue(x: seq<real>): real
    requires |x| >= 2
  {
    FirstRun(x, |x| - 1, 0)[|x| - 1]
  }

  /** The value every GPU ends with as written. */
  function WrittenValue(b: Buffers, c: nat, e: nat): real
    requires |b| >= 2 && c > 0 && ChunkOf(e, c) < |b| && forall g :: 0 <= g < |b| ==> e < |b[g]|
  {
    if e < c then FirstValue(Column(b, e)) else b[ChunkOf(e, c)][e]
  }

  lemma {:induction false} FirstRunHolds(b: Buffers, n: nat, c: nat, s: nat, i: nat, e: nat)
    requires Shaped(b, n, c) && i <= n && (s + 1 < n || (s + 1 == n && i == 0)) && e < c && e < |b[0]|
    ensures forall g :: 0 <= g < n ==> ScatterRun(AsWritten, b, n, c, s, i)[g][e] == FirstRun(Column(b, e), s, i)[g]
    decreases s, i
  {
    hide ScatterOne, Times;
    if i > 0 {
      var j, x := i - 1, Column(b, e);
      var cur, y := ScatterRun(AsWritten, b, n, c, s, j), FirstRun(x, s, j);
      FirstRunHolds(b, n, c, s, j, e);
      FirstSend(cur, n, c, s, j, e);
      var next, z := ScatterOne(AsWritten, cur, n, c, s, j), FirstRun(x, s, i);
      assert ScatterRun(AsWritten, b, n, c, s, i) == next;
      assert z == y[Wrap(j + 1, n) := if j == s then y[j] + y[j] else y[Wrap(j + 1, n)] + y[j]];
      hide ScatterRun, FirstRun, Column;
      forall g | 0 <= g < n ensures next[g][e] == z[g] {
      }
    } else if s > 0 {
      FirstRunHolds(b, n, c, s - 1, n, e);
    }
  }

  /** One send as written, at an element of chunk 0. */
  lemma FirstSend(cur: Buffers, n: nat, c: nat, s: nat, j: nat, e: nat)
    requires Shaped(cur, n, c) && s + 1 < n && j < n && e < c && e < |cur[0]|
    ensures var recv, next := Wrap(j + 1, n), ScatterOne(AsWritten, cur, n, c, s, j);
      && (forall g :: 0 <= g < n && g != recv ==> next[g] == cur[g])
      && next[recv][e] == if j == s then cur[j][e] + cur[j][e] else cur[recv][e] + cur[j][e]
  {
    hide Times;
    var k := Wrap(j - s + n, n);
    ChunkFits(k, n, c);
    ChunkStart(k, c);
    assert k == 0 <==> j == s;
  }

  lemma ChunkStart(k: nat, c: nat)
    ensures k == 0 ==> Times(k, c) == 0
    ensures k > 0 ==> Times(k, c) >= c
  {
    hide Times;
    TimesZero(c);
    if k > 0 {
      RowFits(0, k, c);
    }
  }

  /** As written: chunk k >= 1 ends everywhere as GPU k's own values, chunk 0 as the first
      values the scatter mixes, and the rest stays. */
  lemma AsWrittenLeaves(b: Buffers, c: nat, e: nat)
    requires Shaped(b, |b|, c) && e < |b[0]|
    ensures ChunkOf(e, c) < |b| <==> e < Times(|b|, c)
    ensures e < Times(|b|, c) ==> AllHold(Reduced(AsWritten, b, c), e, WrittenValue(b, c, e))
    ensures e >= Times(|b|, c) ==> forall g :: 0 <= g < |b| ==> Reduced(AsWritten, b, c)[g][e] == b[g][e]
  {
    var n := |b|;
    ChunkRange(e, n, c, 0);
    TimesZero(c);
    GatherDelivers(AsWritten, b, c, e);
    if e < c {
      FirstRunHolds(b, n, c, n - 1, 0, e);
    } else {
      ScatterFinishes(AsWritten, b, c, e);
    }
  }

  /** Which inputs the code as written gets right: those whose chunk k >= 1 already holds the
      total on GPU k, and whose chunk 0 mixes to the total. */
  lemma AsWrittenRightIff(b: Buffers, c: nat)
    requires Shaped(b, |b|, c)
    ensures IsAllReduce(b, Reduced(AsWritten, b, c), c) <==>
      forall e :: 0 <= e < Times(|b|, c) ==> ChunkOf(e, c) < |b| && WrittenValue(b, c, e) == Total(b, e)
  {
    var r := Reduced(AsWritten, b, c);
    hide Reduced, WrittenValue, Times, Div;
    forall e | 0 <= e < |b[0]|
      ensures e < Times(|b|, c) <==> ChunkOf(e, c) < |b|
      ensures ReducedAt(b, r, c, e) <==> (e < Times(|b|, c) ==> WrittenValue(b, c, e) == Total(b, e))
    {
      AsWrittenLeaves(b, c, e);
      assert r[0][e] == r[0][e];
    }
  }

  /** With two GPUs chunk 0 ends as twice GPU 0's values, chunk 1 as GPU 1's. */
  lemma TwoGpus(x: seq<real>)
    requires |x| == 2
    ensures FirstValue(x) == 2.0 * x[0]
  {
    assert FirstRun(x, 0, 1) == x[1 := x[0] + x[0]];
    assert FirstRun(x, 0, 2)[1] == x[0] + x[0];
    assert FirstRun(x, 1, 0) == FirstRun(x, 0, 2);
  }

  /** n GPUs full of ones. */
  function Ones(n: nat, c: nat): (b: Buffers)
    ensures |b| == n && forall g :: 0 <= g < n ==> |b[g]| == Times(n, c)
    ensures forall g, e :: 0 <= g < n && 0 <= e < Times(n, c) ==> b[g][e] == 1.0
  {
    seq(n, _ => seq(Times(n, c), _ => 1.0))
  }

  lemma {:induction false} OnesAddUp(b: Buffers, hi: nat, e: nat)
    requires hi <= |b| && forall g :: 0 <= g < |b| ==> e < |b[g]| && b[g][e] == 1.0
    ensures RangeSum(b, 0, hi, e) == hi as real
  {
    if hi > 0 {
      OnesAddUp(b, hi - 1, e);
    }
  }

  /** With all ones, the second chunk stays 1 instead of becoming n. */
  lemma AsWrittenFails(n: nat, c: nat)
    requires n >= 2 && c > 0
    ensures Uniform(Ones(n, c), c) && !IsAllReduce(Ones(n, c), Reduced(AsWritten, Ones(n, c), c), c)
  {
    var b := Ones(n, c);
    ChunkFits(1, n, c);
    TimesZero(c);
    ChunkRange(c, n, c, 1);
    OnesAddUp(b, n, c);
    AsWrittenRightIff(b, c);
    assert WrittenValue(b, c, c) == 1.0;
  }

  /** The code as written is right for all inputs of a ring exactly when there is nothing to
      exchange: fewer than two GPUs, or no elements. */
  lemma AsWrittenRightForAllIff(n: nat, c: nat)
    ensures (forall b: Buffers :: |b| == n && Uniform(b, c) ==> IsAllReduce(b, Reduced(AsWritten, b, c), c))
      <==> n <= 1 || c == 0
  {
    if n <= 1 || c == 0 {
      forall b: Buffers | |b| == n && Uniform(b, c)
        ensures IsAllReduce(b, Reduced(AsWritten, b, c), c)
      {
        NothingToSend(AsWritten, b, c);
      }
    } else {
      AsWrittenFails(n, c);
    }
  }

  // ---------------------------------------------------------------- the collective

  class CollectiveOps {
    const receive: Receive
    var buffers: Buffers

    constructor (receive: Receive, buffers: Buffers)
      ensures this.receive == receive && this.buffers == buffers
    {
      this.receive, this.buffers := receive, buffers;
    }

    /** All GPUs in turn send one chunk of c elements on, then hand the finished ones around. */
    method AllReduceSum(c: nat)
      requires Uniform(buffers, c)
      modifies this
      ensures buffers == Reduced(receive, old(buffers), c)
      ensures receive.Accumulating? ==> IsAllReduce(old(buffers), buffers, c)
    {
      ghost var b := buffers;
      if receive.Accumulating? {
        AccumulatingIsRight(b, c);
      }
      if |buffers| == 0 || c == 0 {
        return;
      }
      var n := |buffers|;
      if n == 1 {
        return;
      }
      ScatterReduce(n, c);
      AllGather(n, c);
    }

    method ScatterReduce(n: nat, c: nat)
      requires Shaped(buffers, n, c)
      modifies this
      ensures buffers == ScatterRun(receive, old(buffers), n, c, n - 1, 0)
    {
      hide Times, Received;
      ghost var b := buffers;
      for step := 0 to n - 1
        invariant buffers == ScatterRun(receive, b, n, c, step, 0)
      {
        for i := 0 to n
          invariant buffers == ScatterRun(receive, b, n, c, step, i)
        {
          var sendIdx := Wrap(i - step + n, n);
          var recvGpu := Wrap(i + 1, n);
          ChunkFits(sendIdx, n, c);
          var offset := Times(sendIdx, c);
          buffers := buffers[recvGpu := Received(receive, buffers[recvGpu], buffers[i], offset, c)];
        }
      }
    }

    method AllGather(n: nat, c: nat)
      requires Shaped(buffers, n, c)
      modifies this
      ensures buffers == GatherRun(old(buffers), n, c, n - 1, 0)
    {
      hide Times, CopyRange;
      ghost var w := buffers;
      for step := 0 to n - 1
        invariant buffers == GatherRun(w, n, c, step, 0)
      {
        for i := 0 to n
          invariant buffers == GatherRun(w, n, c, step, i)
        {
          var sendIdx := Wrap(Wrap(i - step + n, n) + 1, n);
          var recvGpu := Wrap(i + 1, n);
          ChunkFits(sendIdx, n, c);
          var offset := Times(sendIdx, c);
          buffers := buffers[recvGpu := CopyRange(buffers[recvGpu], buffers[i], offset, c)];
        }
      }
    }
  }
}
