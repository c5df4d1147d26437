/** The kernels of src/dxattention/dxattention.cpp: two-pass, tiled online-softmax, paged
    and linear attention.  Buffers the kernels only read are sequences. */
module Attention {
  import opened Index
  import opened Reals
  import opened Softmax

  // ---------------------------------------------------------------- layout

  datatype Shape = Shape(seqLen: nat, headDim: nat, qHeads: nat, kvHeads: nat) {
    /** The KV head shared by query head h. */
    function KvHead(h: nat): (r: nat)
      requires kvHeads > 0
      ensures r < kvHeads
    {
      var t := Times(h, kvHeads) / (if qHeads > 1 then qHeads else 1);
      if t < kvHeads - 1 then t else kvHeads - 1
    }

    /** First element of row i of head h. */
    function Row(h: nat, i: nat): nat {
      Times(Times(h, seqLen) + i, headDim)
    }

    function Size(heads: nat): nat {
      Times(Times(heads, seqLen), headDim)
    }

    lemma RowInside(h: nat, heads: nat, i: nat)
      requires h < heads && i < seqLen
      ensures Row(h, i) + headDim <= Size(heads)
    {
      hide Times;
      RowFits(h, heads, seqLen);
      RowFits(Times(h, seqLen) + i, Times(heads, seqLen), headDim);
    }

    /** A query head h reads the KV head at h * kvHeads / qHeads, rounded down. */
    lemma KvHeadIs(h: nat)
      requires kvHeads > 0 && h < qHeads
      ensures Times(KvHead(h), qHeads) <= Times(h, kvHeads) < Times(KvHead(h) + 1, qHeads)
    {
      hide Times, Div, Mod;
      var x := Times(h, kvHeads);
      RowFits(h, qHeads, kvHeads);
      Commutes(qHeads, kvHeads);
      Euclid(x, qHeads);
      RowOf(x, kvHeads, qHeads);
      TimesStep(Div(x, qHeads), qHeads);
      KvHeadQuotient(h);
    }

    lemma KvHeadQuotient(h: nat)
      requires kvHeads > 0 && qHeads > 0
      ensures KvHead(h) == Min(Div(Times(h, kvHeads), qHeads), kvHeads - 1)
    {
      hide Times;
    }

    /** With kvHeads a divisor of qHeads, the query heads come in groups of qHeads / kvHeads,
        and a KV head is shared by exactly one group. */
    lemma SharedIff(h: nat, g: nat, group: nat)
      requires kvHeads > 0 && h < qHeads && g < qHeads && qHeads == Times(group, kvHeads)
      ensures group > 0 && KvHead(h) == Div(h, group)
      ensures KvHead(h) == KvHead(g) <==> Div(h, group) == Div(g, group)
    {
      TimesZero(kvHeads);
      GroupOf(h, group);
      GroupOf(g, group);
    }

    lemma GroupOf(h: nat, group: nat)
      requires kvHeads > 0 && group > 0 && h < qHeads && qHeads == Times(group, kvHeads)
      ensures KvHead(h) == Div(h, group)
    {
      hide Times, Div, Mod;
      var head, r := Div(h, group), Mod(h, group);
      Euclid(h, group);
      KvHeadIs(h);
      Regroup(head, group, kvHeads);
      TimesSum(Times(head, group), r, kvHeads);
      RowFits(r, group, kvHeads);
      TimesStep(head, qHeads);
      if KvHead(h) < head {
        RowFits(KvHead(h), head, qHeads);
        TimesStep(KvHead(h), qHeads);
      } else if head < KvHead(h) {
        RowFits(head, KvHead(h), qHeads);
      }
    }

    /** Rows lie one after another: position by position, head by head, from the start. */
    lemma RowsInOrder(h: nat, i: nat, g: nat, j: nat)
      requires i < seqLen && j < seqLen
      ensures Row(0, 0) == 0 && Row(h, i + 1) == Row(h, i) + headDim && Row(h, seqLen) == Row(h + 1, 0)
      ensures h < g || (h == g && i < j) ==> Row(h, i) + headDim <= Row(g, j)
    {
      hide Times;
      TimesZero(seqLen);
      TimesZero(headDim);
      TimesStep(Times(h, seqLen) + i, headDim);
      TimesStep(h, seqLen);
      if h < g {
        RowFits(h, g, seqLen);
        RowFits(Times(h, seqLen) + i, Times(g, seqLen) + j, headDim);
      } else if h == g && i < j {
        RowFits(Times(h, seqLen) + i, Times(h, seqLen) + j, headDim);
      }
    }

    /** Different (head, position) pairs own different elements. */
    lemma RowsDisjoint(h: nat, i: nat, d: nat, g: nat, j: nat, e: nat)
      requires i < seqLen && j < seqLen && d < headDim && e < headDim
      requires Row(h, i) + d == Row(g, j) + e
      ensures h == g && i == j && d == e
    {
      hide Times, Div, Mod;
      Quotient(Times(h, seqLen) + i, d, headDim);
      Quotient(Times(g, seqLen) + j, e, headDim);
      Quotient(h, i, seqLen);
      Quotient(g, j, seqLen);
    }
  }

  function DotTerms(q: seq<real>, k: seq<real>, count: nat): real
    requires count <= |q| && count <= |k|
  {
    if count == 0 then 0.0 else DotTerms(q, k, count - 1) + q[count - 1] * k[count - 1]
  }

  lemma Commutes(a: nat, b: nat)
    ensures Times(a, b) == Times(b, a)
  {
  }

  lemma Regroup(a: nat, b: nat, c: nat)
    ensures Times(Times(a, b), c) == Times(a, Times(b, c))
  {
  }

  lemma TimesSum(a: nat, b: nat, c: nat)
    ensures Times(a + b, c) == Times(a, c) + Times(b, c)
  {
  }

  /** The query that is 1 in coordinate d. */
  function Basis(dim: nat, d: nat): (q: seq<real>)
    ensures |q| == dim
  {
    seq(dim, i => if i == d then 1.0 else 0.0)
  }

  lemma {:induction false} DotOfBasis(k: seq<real>, d: nat, count: nat)
    requires count <= |k|
    ensures DotTerms(Basis(|k|, d), k, count) == if d < count then k[d] else 0.0
  {
    if count > 0 {
      DotOfBasis(k, d, count - 1);
    }
  }

  lemma {:induction false} DotLinear(z: seq<real>, p: seq<real>, q: seq<real>, c: real, k: seq<real>, count: nat)
    requires |z| == |p| == |q| == |k| && count <= |k|
    requires forall i :: 0 <= i < |k| ==> z[i] == c * p[i] + q[i]
    ensures DotTerms(z, k, count) == c * DotTerms(p, k, count) + DotTerms(q, k, count)
  {
    if count > 0 {
      var i := count - 1;
      DotLinear(z, p, q, c, k, i);
      LinearTerm(DotTerms(p, k, i), DotTerms(q, k, i), p[i], q[i], c, k[i]);
    }
  }

  lemma LinearTerm(s: real, t: real, x: real, y: real, c: real, k: real)
    ensures c * s + t + (c * x + y) * k == c * (s + x * k) + (t + y * k)
  {
  }

  /** Key and value rows as one head sees them: `rows[j]` is where position j starts. */
  ghost predicate RowsInside(rows: seq<nat>, dim: nat, size: nat) {
    forall j :: 0 <= j < |rows| ==> rows[j] + dim <= size
  }

  function Score(q: seq<real>, k: seq<real>, row: nat, scale: real): real
    requires row + |q| <= |k|
  {
    DotTerms(q, k[row..row + |q|], |q|) * scale
  }

  /** The score is linear in the query, and of the d-th unit query the scaled d-th coordinate of
      the key: it is the scaled inner product. */
  lemma ScoreIs(z: seq<real>, p: seq<real>, q: seq<real>, c: real, k: seq<real>, row: nat, scale: real, d: nat)
    requires |z| == |p| == |q| && row + |q| <= |k| && d < |q|
    requires forall i :: 0 <= i < |q| ==> z[i] == c * p[i] + q[i]
    ensures Score(Basis(|q|, d), k, row, scale) == k[row + d] * scale
    ensures Score(z, k, row, scale) == c * Score(p, k, row, scale) + Score(q, k, row, scale)
  {
    var key := k[row..row + |q|];
    DotOfBasis(key, d, |q|);
    DotLinear(z, p, q, c, key, |q|);
    ScaledSum(c, DotTerms(p, key, |q|), DotTerms(q, key, |q|), scale);
  }

  lemma ScaledSum(c: real, x: real, y: real, scale: real)
    ensures (c * x + y) * scale == c * (x * scale) + y * scale
  {
  }

  function Scores(q: seq<real>, k: seq<real>, rows: seq<nat>, scale: real): (s: seq<real>)
    requires RowsInside(rows, |q|, |k|)
    ensures |s| == |rows|
  {
    seq(|rows|, j requires 0 <= j < |rows| => Score(q, k, rows[j], scale))
  }

  function Column(v: seq<real>, rows: seq<nat>, dim: nat, d: nat): (s: seq<real>)
    requires RowsInside(rows, dim, |v|) && d < dim
    ensures |s| == |rows|
  {
    seq(|rows|, j requires 0 <= j < |rows| => v[rows[j] + d])
  }

  /** Coordinate d of the attention output of query row q: the softmax average of the
      unmasked values. */
  function Attend(exp: real -> real, q: seq<real>, k: seq<real>, v: seq<real>, rows: seq<nat>,
                  scale: real, mask: seq<bool>, d: nat): real
    requires RowsInside(rows, |q|, |k|) && |k| == |v| && d < |q| && |mask| == |rows|
  {
    Average(exp, Scores(q, k, rows, scale), mask, Column(v, rows, |q|, d))
  }

  /** The output after one thread: row [at, at + |row|) rewritten, the rest kept. */
  function Overwrite(out: seq<real>, at: nat, row: seq<real>): (r: seq<real>)
    requires at + |row| <= |out|
    ensures |r| == |out|
  {
    out[..at] + row + out[at + |row|..]
  }

  function Normalised(a: real, mass: real): real {
    if mass > 0.0 then a / mass else 0.0
  }

  /** The closing loop of the one-pass kernels: divide the accumulators and write the row. */
  method WriteRow(out: array<real>, at: nat, dim: nat, acc: array<real>, mass: real, ghost row: seq<real>)
    requires at + dim <= out.Length && dim <= acc.Length && out != acc && |row| == dim
    requires forall d :: 0 <= d < dim ==> Normalised(acc[d], mass) == row[d]
    modifies out
    ensures out[..] == Overwrite(old(out[..]), at, row)
  {
    hide Normalised;
    for d := 0 to dim
      invariant out[..at] == old(out[..at]) && out[at + dim..] == old(out[at + dim..])
      invariant out[at..at + d] == row[..d]
    {
      out[at + d] := Normalised(acc[d], mass);
    }
    assert out[..] == out[..at] + out[at..at + dim] + out[at + dim..];
  }

  method Dot(q: seq<real>, qBase: nat, k: seq<real>, kBase: nat, dim: nat) returns (dot: real)
    requires qBase + dim <= |q| && kBase + dim <= |k|
    ensures dot == DotTerms(q[qBase..qBase + dim], k[kBase..kBase + dim], dim)
  {
    dot := 0.0;
    for d := 0 to dim
      invariant dot == DotTerms(q[qBase..qBase + dim], k[kBase..kBase + dim], d)
    {
      dot := dot + q[qBase + d] * k[kBase + d];
    }
  }

  /** Where the kernels start a running maximum. */
  const FLOOR := -1.0e30

  function Max(a: real, b: real): real {
    if a < b then b else a
  }

  // ---------------------------------------------------------------- masks

  /** `j + window` is 32-bit unsigned addition. */
  predicate Skipped(window: nat, i: nat, j: nat) {
    window > 0 && i > (j + window) % 0x1_0000_0000
  }

  function SdpaMask(n: nat, causal: bool, window: nat, i: nat): (m: seq<bool>)
    ensures |m| == n
  {
    seq(n, j requires 0 <= j < n => !(causal && j > i) && !Skipped(window, i, j))
  }

  function CausalMask(n: nat, i: nat): (m: seq<bool>)
    ensures |m| == n
  {
    seq(n, j requires 0 <= j < n => j <= i)
  }

  function FullMask(n: nat): (m: seq<bool>)
    ensures |m| == n
  {
    seq(n, j requires 0 <= j < n => true)
  }

  /** The window as it is meant: position i sees the window keys before it, and itself. */
  predicate InWindow(window: nat, i: nat, j: nat) {
    window == 0 || i <= j + window
  }

  /** Within 32 bits the mask lets through exactly the keys inside the window that are not ahead
      of a causal query. */
  lemma VisibleIff(n: nat, causal: bool, window: nat, i: nat, j: nat)
    requires j < n && n + window <= 0x1_0000_0000
    ensures SdpaMask(n, causal, window, i)[j] <==> (causal ==> j <= i) && InWindow(window, i, j)
  {
  }

  /** The window is as it is meant for all positions if and only if no j + window wraps. */
  lemma WindowExactIff(n: nat, window: nat)
    requires 0 < n <= 0x1_0000_0000 && window < 0x1_0000_0000
    ensures (forall i, j :: 0 <= i < n && 0 <= j < n ==> WindowKept(window, i, j))
      <==> window == 0 || n + window <= 0x1_0000_0000
  {
    if window > 0 && n + window > 0x1_0000_0000 {
      var j := 0x1_0000_0000 - window;
      assert j + window == 0x1_0000_0000;
      assert !WindowKept(window, 1, j);
    }
  }

  predicate WindowKept(window: nat, i: nat, j: nat) {
    Skipped(window, i, j) <==> !InWindow(window, i, j)
  }

  lemma MasksAgree(n: nat, i: nat)
    ensures SdpaMask(n, true, 0, i) == CausalMask(n, i)
    ensures SdpaMask(n, false, 0, i) == FullMask(n)
  {
  }

  // ---------------------------------------------------------------- addressing

  /** How one KV head finds the row of position j: flat, or through a block table. */
  datatype Addressing =
    | Flat(kvHead: nat)
    | Paged(kvHead: nat, table: seq<nat>, pageSize: nat, blocks: nat)
  {
    /** A table entry for every logical block in use, naming a block that exists. */
    ghost predicate Valid(s: Shape) {
      && kvHead < s.kvHeads
      && (Paged? ==>
           && pageSize > 0 && s.seqLen <= Times(blocks, pageSize)
           && |table| == Times(s.kvHeads, blocks)
           && forall t :: 0 <= t < |table| ==> table[t] < blocks)
    }

    /** Elements in the K (or V) buffer. */
    function KvSize(s: Shape): nat {
      match this
      case Flat(_) => s.Size(s.kvHeads)
      case Paged(_, _, size, count) => Times(Times(Times(s.kvHeads, count), size), s.headDim)
    }

    lemma BlockListed(s: Shape, j: nat)
      requires Valid(s) && Paged? && j < s.seqLen
      ensures Div(j, pageSize) < blocks
      ensures Times(kvHead, blocks) + Div(j, pageSize) < |table|
    {
      hide Times, Div, Mod;
      RowOf(j, blocks, pageSize);
      RowFits(kvHead, s.kvHeads, blocks);
    }

    /** The element where position j starts. */
    function Start(s: Shape, j: nat): nat
      requires Valid(s) && j < s.seqLen
    {
      match this
      case Flat(head) => s.Row(head, j)
      case Paged(head, entries, size, count) =>
        BlockListed(s, j);
        var logicalBlock, inBlock := Div(j, size), Mod(j, size);
        var phys := entries[Times(head, count) + logicalBlock];
        Cell(s, phys, inBlock)
    }

    /** The element where slot r of physical block t of this head starts. */
    function Cell(s: Shape, t: nat, r: nat): nat
      requires Paged?
    {
      Times(Times(Times(kvHead, blocks) + t, pageSize) + r, s.headDim)
    }

    function Rows(s: Shape): (rows: seq<nat>)
      requires Valid(s)
      ensures |rows| == s.seqLen
    {
      seq(s.seqLen, j requires 0 <= j < s.seqLen => Start(s, j))
    }

    lemma StartInside(s: Shape, j: nat)
      requires Valid(s) && j < s.seqLen
      ensures Start(s, j) + s.headDim <= KvSize(s)
    {
      hide Times, Div, Mod;
      match this
      case Flat(head) =>
        s.RowInside(head, s.kvHeads, j);
      case Paged(head, entries, size, count) =>
        BlockListed(s, j);
        var phys := entries[Times(head, count) + Div(j, size)];
        RowFits(head, s.kvHeads, count);
        RowFits(Times(head, count) + phys, Times(s.kvHeads, count), size);
        RowFits(Times(Times(head, count) + phys, size) + Mod(j, size),
                Times(Times(s.kvHeads, count), size), s.headDim);
    }

    /** The physical block the table lists for logical block t of this head. */
    function Listed(t: nat): nat
      requires Paged?
    {
      var x := Times(kvHead, blocks) + t;
      if x < |table| then table[x] else 0
    }

    /** With the blocks in order, a paged head is a flat one of blocks * pageSize positions. */
    lemma BlocksInOrder(s: Shape, j: nat)
      requires Valid(s) && Paged? && j < s.seqLen && forall t: nat :: t < blocks ==> Listed(t) == t
      ensures Start(s, j) == Times(Times(kvHead, Times(blocks, pageSize)) + j, s.headDim)
    {
      hide Times, Div, Mod;
      BlockListed(s, j);
      var t := Div(j, pageSize);
      assert Listed(t) == t;
      Euclid(j, pageSize);
      TimesSum(Times(kvHead, blocks), t, pageSize);
      Regroup(kvHead, blocks, pageSize);
    }

    lemma AllInside(s: Shape)
      requires Valid(s)
      ensures RowsInside(Rows(s), s.headDim, KvSize(s))
    {
      forall j | 0 <= j < s.seqLen
        ensures Rows(s)[j] + s.headDim <= KvSize(s)
      {
        StartInside(s, j);
      }
    }
  }

  // ---------------------------------------------------------------- two passes

  /** What the kernels require of their buffers. */
  ghost predicate Buffers(s: Shape, a: Addressing, outLen: nat, q: seq<real>, k: seq<real>, v: seq<real>) {
    && a.Valid(s)
    && outLen == |q| == s.Size(s.qHeads)
    && |k| == |v| == a.KvSize(s)
  }

  /** One row of the output. */
  function AttendRow(exp: real -> real, q: seq<real>, k: seq<real>, v: seq<real>, rows: seq<nat>,
                     scale: real, mask: seq<bool>): (r: seq<real>)
    requires RowsInside(rows, |q|, |k|) && |k| == |v| && |mask| == |rows|
    ensures |r| == |q|
  {
    seq(|q|, d requires 0 <= d < |q| => Attend(exp, q, k, v, rows, scale, mask, d))
  }

  /** The running output of the third pass, kept as a fraction of the mass. */
  ghost predicate IsShare(o: real, sum: real, w: real) {
    && o * sum == w
    && (sum == 0.0 ==> o == 0.0)
  }

  function AddShare(o: real, p: real, sum: real, x: real): (r: real)
    requires sum != 0.0
    ensures forall w :: IsShare(o, sum, w) ==> IsShare(r, sum, w + Product(p, x))
  {
    var r := p / sum;
    assert (o + r * x) * sum == o * sum + p * x by {
      assert r * sum == p;
      assert (o + r * x) * sum == o * sum + (r * sum) * x;
    }
    o + p / sum * x
  }

  lemma ShareDone(exp: real -> real, m: real, s: seq<real>, mask: seq<bool>, v: seq<real>, sum: real, o: real)
    requires ExpLaws(exp) && |s| == |mask| == |v|
    requires sum == Mass(exp, m, s, mask, |s|)
    requires IsShare(o, sum, Weighted(exp, m, s, mask, v, |s|))
    ensures o == Average(exp, s, mask, v)
  {
    QuotientIndependent(exp, m, s, mask, v);
    if sum != 0.0 {
      Divided(o, sum);
    }
  }

  lemma NoShare(sum: real)
    ensures IsShare(0.0, sum, 0.0)
  {
  }

  lemma Divided(o: real, sum: real)
    requires sum != 0.0
    ensures o * sum / sum == o
  {
  }

  /** The scaled product of the query row with the key row of position j. */
  method KeyScore(s: Shape, a: Addressing, scale: real, q: seq<real>, qBase: nat, k: seq<real>, j: nat)
    returns (t: real)
    requires a.Valid(s) && |k| == a.KvSize(s) && qBase + s.headDim <= |q| && j < s.seqLen
    requires RowsInside(a.Rows(s), s.headDim, |k|)
    ensures t == Scores(q[qBase..qBase + s.headDim], k, a.Rows(s), scale)[j]
  {
    hide Times;
    a.StartInside(s, j);
    var dot := Dot(q, qBase, k, a.Start(s, j), s.headDim);
    t := dot * scale;
  }

  /** m is the largest unmasked score from position a up to b, or the floor if none is higher. */
  ghost predicate IsLargest(m: real, s: seq<real>, mask: seq<bool>, a: nat, b: nat)
    requires a <= b <= |s| == |mask|
  {
    && FLOOR <= m
    && (forall j :: a <= j < b && mask[j] ==> s[j] <= m)
    && (m == FLOOR || exists j :: a <= j < b && mask[j] && s[j] == m)
  }

  lemma BelowLargest(m: real, s: seq<real>, mask: seq<bool>, a: nat, b: nat, j: nat)
    requires a <= j < b <= |s| == |mask| && mask[j] && IsLargest(m, s, mask, a, b)
    ensures s[j] - m <= 0.0
  {
  }

  /** The larger of two adjacent maxima is the maximum of both ranges. */
  lemma JoinLargest(m: real, m': real, s: seq<real>, mask: seq<bool>, a: nat, b: nat, c: nat)
    requires a <= b <= c <= |s| == |mask| && IsLargest(m, s, mask, a, b) && IsLargest(m', s, mask, b, c)
    ensures IsLargest(Max(m, m'), s, mask, a, c) && m <= Max(m, m')
  {
  }

  /** First pass: the largest unmasked score. */
  method MaxPass(s: Shape, a: Addressing, scale: real, causal: bool, window: nat,
                 q: seq<real>, qBase: nat, k: seq<real>, i: nat) returns (maxS: real)
    requires a.Valid(s) && |k| == a.KvSize(s) && qBase + s.headDim <= |q|
    requires RowsInside(a.Rows(s), s.headDim, |k|)
    ensures IsLargest(maxS, Scores(q[qBase..qBase + s.headDim], k, a.Rows(s), scale),
                      SdpaMask(s.seqLen, causal, window, i), 0, s.seqLen)
  {
    hide Times, Score, Addressing.Start, Addressing.Valid, Addressing.KvSize;
    ghost var mask := SdpaMask(s.seqLen, causal, window, i);
    ghost var scores := Scores(q[qBase..qBase + s.headDim], k, a.Rows(s), scale);
    maxS := FLOOR;
    var j := 0;
    while j < s.seqLen
      invariant j <= s.seqLen && IsLargest(maxS, scores, mask, 0, j)
    {
      if causal && j > i {
        break;
      }
      if !Skipped(window, i, j) {
        var t := KeyScore(s, a, scale, q, qBase, k, j);
        maxS := Max(maxS, t);
      }
      j := j + 1;
    }
  }

  /** Second pass: the softmax mass of the unmasked keys. */
  method MassPass(exp: real -> real, s: Shape, a: Addressing, scale: real, causal: bool, window: nat,
                  q: seq<real>, qBase: nat, k: seq<real>, i: nat, maxS: real) returns (sum: real)
    requires a.Valid(s) && |k| == a.KvSize(s) && qBase + s.headDim <= |q|
    requires RowsInside(a.Rows(s), s.headDim, |k|)
    requires IsLargest(maxS, Scores(q[qBase..qBase + s.headDim], k, a.Rows(s), scale),
                       SdpaMask(s.seqLen, causal, window, i), 0, s.seqLen)
    ensures sum == Mass(exp, maxS, Scores(q[qBase..qBase + s.headDim], k, a.Rows(s), scale),
                        SdpaMask(s.seqLen, causal, window, i), s.seqLen)
  {
    hide Times, Scores, ExpLaws, IsLargest, Addressing.Start, Addressing.Valid, Addressing.KvSize;
    var n := s.seqLen;
    ghost var mask := SdpaMask(n, causal, window, i);
    ghost var scores := Scores(q[qBase..qBase + s.headDim], k, a.Rows(s), scale);
    sum := 0.0;
    var j := 0;
    while j < n
      invariant j <= n
      invariant sum == Mass(exp, maxS, scores, mask, j)
    {
      if causal && j > i {
        break;
      }
      if !Skipped(window, i, j) {
        var t := KeyScore(s, a, scale, q, qBase, k, j);
        BelowLargest(maxS, scores, mask, 0, n, j);
        sum := sum + ExpOf(exp, t - maxS);
      }
      j := j + 1;
    }
    MaskedTail(exp, maxS, scores, mask, scores, j, n);
  }

  /** Third pass: coordinate d of the weighted average. */
  method ValuePass(exp: real -> real, s: Shape, a: Addressing, scale: real, causal: bool, window: nat,
                   q: seq<real>, qBase: nat, k: seq<real>, v: seq<real>, i: nat, maxS: real, sum: real, d: nat)
    returns (o: real)
    requires ExpLaws(exp) && a.Valid(s) && |k| == |v| == a.KvSize(s) && qBase + s.headDim <= |q|
    requires RowsInside(a.Rows(s), s.headDim, |k|) && d < s.headDim
    requires IsLargest(maxS, Scores(q[qBase..qBase + s.headDim], k, a.Rows(s), scale),
                       SdpaMask(s.seqLen, causal, window, i), 0, s.seqLen)
    requires sum == Mass(exp, maxS, Scores(q[qBase..qBase + s.headDim], k, a.Rows(s), scale),
                         SdpaMask(s.seqLen, causal, window, i), s.seqLen)
    ensures o == Attend(exp, q[qBase..qBase + s.headDim], k, v, a.Rows(s), scale,
                        SdpaMask(s.seqLen, causal, window, i), d)
  {
    hide Weighted, Mass, Product, Times, Score, ExpLaws, IsShare, AddShare, IsLargest;
    hide Addressing.Start, Addressing.Valid, Addressing.KvSize;
    var n := s.seqLen;
    ghost var mask := SdpaMask(n, causal, window, i);
    ghost var scores := Scores(q[qBase..qBase + s.headDim], k, a.Rows(s), scale);
    ghost var column := Column(v, a.Rows(s), s.headDim, d);
    MassPositive(exp, maxS, scores, mask, n);
    NoShare(sum);
    NothingYet(exp, maxS, scores, mask, column);
    o := 0.0;
    var j := 0;
    while j < n
      invariant j <= n
      invariant IsShare(o, sum, Weighted(exp, maxS, scores, mask, column, j))
    {
      if causal && j > i {
        break;
      }
      WeightedStep(exp, maxS, scores, mask, column, j);
      if !Skipped(window, i, j) {
        var t := KeyScore(s, a, scale, q, qBase, k, j);
        assert mask[j];
        BelowLargest(maxS, scores, mask, 0, n, j);
        var p := ExpOf(exp, t - maxS);
        a.StartInside(s, j);
        var x := v[a.Start(s, j) + d];
        assert x == column[j];
        o := AddShare(o, p, sum, x);
      }
      j := j + 1;
    }
    MaskedTail(exp, maxS, scores, mask, column, j, n);
    ShareDone(exp, maxS, scores, mask, column, sum, o);
  }

  /** One query row of the two-pass kernel, which rewrites exactly its own output row.
      With flat addressing this is `sdpa`; with a block table and no mask, `paged_attn`. */
  method TwoPassThread(exp: real -> real, s: Shape, a: Addressing, scale: real, causal: bool, window: nat,
                       q: seq<real>, k: seq<real>, v: seq<real>, out: array<real>, i: nat, h: nat)
    requires ExpLaws(exp) && Buffers(s, a, out.Length, q, k, v)
    requires h < s.qHeads && a.kvHead == s.KvHead(h)
    modifies out
    ensures i >= s.seqLen ==> out[..] == old(out[..])
    ensures i < s.seqLen ==>
      var at := s.Row(h, i);
      && at + s.headDim <= out.Length && RowsInside(a.Rows(s), s.headDim, |k|)
      && out[..] == Overwrite(old(out[..]), at,
           AttendRow(exp, q[at..at + s.headDim], k, v, a.Rows(s), scale, SdpaMask(s.seqLen, causal, window, i)))
  {
    hide Times, Attend, ExpLaws, Shape.Row, SdpaMask, IsLargest, Addressing.Start, Addressing.Valid, Addressing.KvSize;
    if i >= s.seqLen {
      return;
    }
    s.RowInside(h, s.qHeads, i);
    a.AllInside(s);
    var qBase, dim := s.Row(h, i), s.headDim;
    ghost var query := q[qBase..qBase + dim];
    ghost var mask := SdpaMask(s.seqLen, causal, window, i);
    var maxS := MaxPass(s, a, scale, causal, window, q, qBase, k, i);
    var sum := MassPass(exp, s, a, scale, causal, window, q, qBase, k, i, maxS);
    WriteAverages(exp, s, a, scale, causal, window, q, qBase, k, v, out, i, maxS, sum,
                  AttendRow(exp, query, k, v, a.Rows(s), scale, mask));
  }

  /** The third pass for every coordinate, written to the output row. */
  method WriteAverages(exp: real -> real, s: Shape, a: Addressing, scale: real, causal: bool, window: nat,
                       q: seq<real>, qBase: nat, k: seq<real>, v: seq<real>, out: array<real>, i: nat,
                       maxS: real, sum: real, ghost row: seq<real>)
    requires ExpLaws(exp) && a.Valid(s) && |k| == |v| == a.KvSize(s)
    requires qBase + s.headDim <= |q| == out.Length && RowsInside(a.Rows(s), s.headDim, |k|)
    requires IsLargest(maxS, Scores(q[qBase..qBase + s.headDim], k, a.Rows(s), scale),
                       SdpaMask(s.seqLen, causal, window, i), 0, s.seqLen)
    requires sum == Mass(exp, maxS, Scores(q[qBase..qBase + s.headDim], k, a.Rows(s), scale),
                         SdpaMask(s.seqLen, causal, window, i), s.seqLen)
    requires row == AttendRow(exp, q[qBase..qBase + s.headDim], k, v, a.Rows(s), scale,
                              SdpaMask(s.seqLen, causal, window, i))
    modifies out
    ensures out[..] == Overwrite(old(out[..]), qBase, row)
  {
    hide Times, Attend, ExpLaws, Scores, IsLargest, Addressing.Start, Addressing.Valid, Addressing.KvSize;
    var dim := s.headDim;
    for d := 0 to dim
      invariant out[..qBase] == old(out[..qBase]) && out[qBase + dim..] == old(out[qBase + dim..])
      invariant out[qBase..qBase + d] == row[..d]
    {
      var o := ValuePass(exp, s, a, scale, causal, window, q, qBase, k, v, i, maxS, sum, d);
      assert o == row[d];
      out[qBase + d] := o;
    }
    assert out[..] == out[..qBase] + out[qBase..qBase + dim] + out[qBase + dim..];
  }

  /** The output is the softmax average of the values found at the rows, by the scores of the keys
      found there: two visible keys share it as the exponentials of their scaled inner products
      with the query. */
  lemma AttendIs(exp: real -> real, q: seq<real>, k: seq<real>, v: seq<real>, rows: seq<nat>, scale: real,
                 mask: seq<bool>, d: nat, i: nat, j: nat)
    requires ExpLaws(exp) && RowsInside(rows, |q|, |k|) && |k| == |v| && |mask| == |rows| && d < |q|
    requires i < |rows| && j < |rows| && mask[i] && mask[j]
    ensures var scores, column := Scores(q, k, rows, scale), Column(v, rows, |q|, d);
      && Attend(exp, q, k, v, rows, scale, mask, d) == ByShares(exp, scores, mask, column, |rows|)
      && column[i] == v[rows[i] + d]
      && Share(exp, scores, mask, i)
         == Product(Share(exp, scores, mask, j), exp(Score(q, k, rows[i], scale) - Score(q, k, rows[j], scale)))
  {
    hide Average, Score, ExpLaws, Share, ByShares;
    SharesAre(exp, Scores(q, k, rows, scale), mask, i, j);
    AverageIsByShares(exp, Scores(q, k, rows, scale), mask, Column(v, rows, |q|, d));
  }

  /** With one key visible the output row is the value row of that key. */
  lemma OneVisible(exp: real -> real, q: seq<real>, k: seq<real>, v: seq<real>, rows: seq<nat>, scale: real,
                   mask: seq<bool>, j: nat)
    requires ExpLaws(exp) && RowsInside(rows, |q|, |k|) && |k| == |v| && j < |mask| == |rows|
    requires forall i :: 0 <= i < |rows| ==> (mask[i] <==> i == j)
    ensures AttendRow(exp, q, k, v, rows, scale, mask) == v[rows[j]..rows[j] + |q|]
  {
    hide Average, Score, ExpLaws;
    forall d | 0 <= d < |q|
      ensures Attend(exp, q, k, v, rows, scale, mask, d) == v[rows[j] + d]
    {
      OnlyOne(exp, Scores(q, k, rows, scale), mask, Column(v, rows, |q|, d), j);
    }
  }

  // ---------------------------------------------------------------- one query

  /** A query row and the rows of its KV head. */
  datatype Query = Query(s: Shape, head: Addressing, scale: real, q: seq<real>, qBase: nat,
                         k: seq<real>, v: seq<real>) {
    ghost predicate Valid() {
      && head.Valid(s) && |k| == |v| == head.KvSize(s) && qBase + s.headDim <= |q|
      && RowsInside(head.Rows(s), s.headDim, |k|)
    }

    ghost function ScoreList(): (r: seq<real>)
      requires Valid()
      ensures |r| == s.seqLen
    {
      Scores(q[qBase..qBase + s.headDim], k, head.Rows(s), scale)
    }

    ghost function Values(d: nat): (r: seq<real>)
      requires Valid() && d < s.headDim
      ensures |r| == s.seqLen
    {
      Column(v, head.Rows(s), s.headDim, d)
    }

    ghost function Keys(d: nat): (r: seq<real>)
      requires Valid() && d < s.headDim
      ensures |r| == s.seqLen
    {
      Column(k, head.Rows(s), s.headDim, d)
    }

    method KeyAt(j: nat, d: nat) returns (x: real)
      requires Valid() && j < s.seqLen && d < s.headDim
      ensures x == Keys(d)[j]
    {
      head.StartInside(s, j);
      x := k[head.Start(s, j) + d];
    }

    method KeyScoreAt(j: nat) returns (t: real)
      requires Valid() && j < s.seqLen
      ensures t == ScoreList()[j]
    {
      t := KeyScore(s, head, scale, q, qBase, k, j);
    }

    method ValueAt(j: nat, d: nat) returns (x: real)
      requires Valid() && j < s.seqLen && d < s.headDim
      ensures x == Values(d)[j]
    {
      head.StartInside(s, j);
      x := v[head.Start(s, j) + d];
    }
  }

  // ---------------------------------------------------------------- block tables

  /** Gathered through a valid block table, the keys and values of one head as a flat
      head would hold them. */
  ghost predicate Gathers(s: Shape, a: Addressing, k: seq<real>, flat: Addressing, g: seq<real>)
    requires a.Valid(s) && flat.Valid(s) && |k| == a.KvSize(s) && |g| == flat.KvSize(s)
  {
    && RowsInside(a.Rows(s), s.headDim, |k|) && RowsInside(flat.Rows(s), s.headDim, |g|)
    && forall j :: 0 <= j < s.seqLen ==>
         k[a.Rows(s)[j]..a.Rows(s)[j] + s.headDim] == g[flat.Rows(s)[j]..flat.Rows(s)[j] + s.headDim]
  }

  /** A row of output depends on the buffers only through the rows that are addressed. */
  lemma SameRowsSameOutput(exp: real -> real, s: Shape, q: seq<real>, a: Addressing, k: seq<real>, v: seq<real>,
                           b: Addressing, k': seq<real>, v': seq<real>, scale: real, mask: seq<bool>)
    requires |q| == s.headDim && |mask| == s.seqLen
    requires a.Valid(s) && |k| == |v| == a.KvSize(s)
    requires b.Valid(s) && |k'| == |v'| == b.KvSize(s)
    requires Gathers(s, a, k, b, k') && Gathers(s, a, v, b, v')
    ensures AttendRow(exp, q, k, v, a.Rows(s), scale, mask) == AttendRow(exp, q, k', v', b.Rows(s), scale, mask)
  {
    hide Times, Average, Addressing.Start, Addressing.Valid, Addressing.KvSize;
    forall j | 0 <= j < s.seqLen
      ensures Score(q, k, a.Rows(s)[j], scale) == Score(q, k', b.Rows(s)[j], scale)
    {
    }
    assert Scores(q, k, a.Rows(s), scale) == Scores(q, k', b.Rows(s), scale);
    forall d | 0 <= d < |q|
      ensures Column(v, a.Rows(s), |q|, d) == Column(v', b.Rows(s), |q|, d)
    {
      forall j | 0 <= j < s.seqLen
        ensures v[a.Rows(s)[j] + d] == v'[b.Rows(s)[j] + d]
      {
        var x, y := a.Rows(s)[j], b.Rows(s)[j];
        assert v[x..x + s.headDim][d] == v'[y..y + s.headDim][d];
      }
    }
  }

  /** Moving the physical blocks by a permutation and renaming them in the table. */
  ghost predicate Renamed(s: Shape, a: Addressing, b: Addressing, move: seq<nat>)
    requires a.Valid(s) && a.Paged?
  {
    && |move| == a.blocks
    && (forall t :: 0 <= t < |move| ==> move[t] < a.blocks)
    && b == Paged(a.kvHead, seq(|a.table|, t requires 0 <= t < |a.table| => move[a.table[t]]), a.pageSize, a.blocks)
  }

  /** Block t of the moved buffer's head is block move[t] of the original's. */
  ghost predicate Moved(s: Shape, a: Addressing, k: seq<real>, k': seq<real>, move: seq<nat>)
    requires a.Valid(s) && a.Paged? && |move| == a.blocks
    requires |k| == |k'| == a.KvSize(s)
    requires forall t :: 0 <= t < |move| ==> move[t] < a.blocks
  {
    forall t, r :: 0 <= t < a.blocks && 0 <= r < a.pageSize ==>
      var x, y := a.Cell(s, t, r), a.Cell(s, move[t], r);
      && x + s.headDim <= |k| && y + s.headDim <= |k|
      && k[x..x + s.headDim] == k'[y..y + s.headDim]
  }

  lemma RenamedValid(s: Shape, a: Addressing, b: Addressing, move: seq<nat>)
    requires a.Valid(s) && a.Paged? && Renamed(s, a, b, move)
    ensures b.Valid(s) && b.KvSize(s) == a.KvSize(s)
    ensures RowsInside(a.Rows(s), s.headDim, a.KvSize(s)) && RowsInside(b.Rows(s), s.headDim, a.KvSize(s))
  {
    a.AllInside(s);
    b.AllInside(s);
  }

  lemma MovedRow(s: Shape, a: Addressing, b: Addressing, k: seq<real>, k': seq<real>, move: seq<nat>, j: nat)
    requires a.Valid(s) && b.Valid(s) && a.Paged? && Renamed(s, a, b, move) && j < s.seqLen
    requires |k| == |k'| == a.KvSize(s) && Moved(s, a, k, k', move)
    ensures var x, y := a.Start(s, j), b.Start(s, j);
      && x + s.headDim <= |k| && y + s.headDim <= |k|
      && k[x..x + s.headDim] == k'[y..y + s.headDim]
  {
    hide Times, Div, Addressing.KvSize, Addressing.Cell;
    a.BlockListed(s, j);
    var t := a.table[Times(a.kvHead, a.blocks) + Div(j, a.pageSize)];
    var r := Mod(j, a.pageSize);
    assert a.Start(s, j) == a.Cell(s, t, r);
    assert b.Start(s, j) == b.Cell(s, move[t], r) == a.Cell(s, move[t], r) by {
      SameCells(s, a, b, move[t], r);
    }
  }

  lemma SameCells(s: Shape, a: Addressing, b: Addressing, t: nat, r: nat)
    requires a.Paged? && b.Paged? && a.kvHead == b.kvHead && a.pageSize == b.pageSize && a.blocks == b.blocks
    ensures a.Cell(s, t, r) == b.Cell(s, t, r)
  {
  }

  /** Renaming the blocks in the table and moving their contents to match changes nothing. */
  lemma BlockPlacementIrrelevant(exp: real -> real, s: Shape, q: seq<real>, a: Addressing, b: Addressing,
                                 k: seq<real>, v: seq<real>, k': seq<real>, v': seq<real>, move: seq<nat>,
                                 scale: real, mask: seq<bool>)
    requires |q| == s.headDim && |mask| == s.seqLen
    requires a.Valid(s) && a.Paged? && Renamed(s, a, b, move)
    requires |k| == |v| == |k'| == |v'| == a.KvSize(s)
    requires Moved(s, a, k, k', move) && Moved(s, a, v, v', move)
    ensures b.Valid(s) && b.KvSize(s) == a.KvSize(s)
    ensures RowsInside(a.Rows(s), s.headDim, |k|) && RowsInside(b.Rows(s), s.headDim, |k'|)
    ensures AttendRow(exp, q, k, v, a.Rows(s), scale, mask) == AttendRow(exp, q, k', v', b.Rows(s), scale, mask)
  {
    RenamedValid(s, a, b, move);
    hide Moved, Addressing.KvSize, Addressing.Start, Addressing.Valid;
    forall j | 0 <= j < s.seqLen
      ensures var x, y := a.Rows(s)[j], b.Rows(s)[j];
        && k[x..x + s.headDim] == k'[y..y + s.headDim]
        && v[x..x + s.headDim] == v'[y..y + s.headDim]
    {
      MovedRow(s, a, b, k, k', move, j);
      MovedRow(s, a, b, v, v', move, j);
    }
    SameRowsSameOutput(exp, s, q, a, k, v, b, k', v', scale, mask);
  }
}
