/** The tiled kernel `flash_attn` of src/dxattention/dxattention.cpp: keys in blocks of 16,
    with a running maximum, mass and weighted sum that are rescaled at every block. */
module FlashAttention {
  import opened Attention
  import opened Index
  import opened Reals
  import opened Softmax

  const BLOCK := 16
  const MAX_DIM := 128

  /** The running state (m, l, acc) describes the first c keys: `l` is their softmax mass
      and `acc` their weighted values, both relative to m. */
  ghost predicate Running(exp: real -> real, t: Query, i: nat, m: real, l: real, acc: seq<real>, c: nat)
    requires t.Valid() && c <= t.s.seqLen && t.s.headDim <= |acc|
  {
    var mask := CausalMask(t.s.seqLen, i);
    && l == Mass(exp, m, t.ScoreList(), mask, c)
    && forall d :: 0 <= d < t.s.headDim ==> acc[d] == Weighted(exp, m, t.ScoreList(), mask, t.Values(d), c)
  }

  /** (l, tmp) covers exactly the keys from c up to e. */
  ghost predicate Covers(exp: real -> real, t: Query, i: nat, m: real, l: real, tmp: seq<real>, c: nat, e: nat)
    requires t.Valid() && c <= e <= t.s.seqLen && t.s.headDim <= |tmp|
  {
    var mask := CausalMask(t.s.seqLen, i);
    && Mass(exp, m, t.ScoreList(), mask, c) + l == Mass(exp, m, t.ScoreList(), mask, e)
    && forall d :: 0 <= d < t.s.headDim ==>
         Weighted(exp, m, t.ScoreList(), mask, t.Values(d), c) + tmp[d]
         == Weighted(exp, m, t.ScoreList(), mask, t.Values(d), e)
  }

  /** Nothing is visible past position i. */
  lemma CoversTail(exp: real -> real, t: Query, i: nat, m: real, l: real, tmp: seq<real>, c: nat, j: nat, e: nat)
    requires t.Valid() && c <= j <= e <= t.s.seqLen && t.s.headDim <= |tmp|
    requires Covers(exp, t, i, m, l, tmp, c, j) && (j == e || j > i)
    ensures Covers(exp, t, i, m, l, tmp, c, e)
  {
    hide Mass, Weighted;
    var mask := CausalMask(t.s.seqLen, i);
    MaskedTail(exp, m, t.ScoreList(), mask, t.ScoreList(), j, e);
    forall d | 0 <= d < t.s.headDim
      ensures Weighted(exp, m, t.ScoreList(), mask, t.Values(d), e)
           == Weighted(exp, m, t.ScoreList(), mask, t.Values(d), j)
    {
      MaskedTail(exp, m, t.ScoreList(), mask, t.Values(d), j, e);
    }
  }

  /** The largest visible score of the block at j0. */
  method BlockMax(t: Query, i: nat, j0: nat) returns (blockMax: real)
    requires t.Valid() && j0 < t.s.seqLen
    ensures IsLargest(blockMax, t.ScoreList(), CausalMask(t.s.seqLen, i), j0, Min(j0 + BLOCK, t.s.seqLen))
  {
    hide Query.Valid, Query.ScoreList;
    ghost var mask := CausalMask(t.s.seqLen, i);
    blockMax := FLOOR;
    for b := 0 to BLOCK
      invariant j0 + b <= t.s.seqLen && IsLargest(blockMax, t.ScoreList(), mask, j0, j0 + b)
    {
      var j := j0 + b;
      if j >= t.s.seqLen || j > i {
        break;
      }
      var score := t.KeyScoreAt(j);
      blockMax := Max(blockMax, score);
    }
  }

  /** Adds key j to every coordinate of tmp. */
  method AddKey(exp: real -> real, t: Query, i: nat, m: real, p: real, tmp: array<real>, j: nat,
                ghost c: nat, ghost l: real)
    requires t.Valid() && c <= j < t.s.seqLen && j <= i && t.s.headDim <= tmp.Length
    requires p == exp(t.ScoreList()[j] - m)
    requires Covers(exp, t, i, m, l, tmp[..], c, j)
    modifies tmp
    ensures Covers(exp, t, i, m, l + p, tmp[..], c, j + 1)
  {
    hide Mass, Weighted, Product, Query.Valid, Query.ScoreList, Query.Values;
    ghost var mask, scores := CausalMask(t.s.seqLen, i), t.ScoreList();
    MassStep(exp, m, scores, mask, j);
    for d := 0 to t.s.headDim
      invariant forall e :: d <= e < t.s.headDim ==> tmp[e] == old(tmp[e])
      invariant forall e :: 0 <= e < d ==>
        Weighted(exp, m, scores, mask, t.Values(e), c) + tmp[e] == Weighted(exp, m, scores, mask, t.Values(e), j + 1)
    {
      var x := t.ValueAt(j, d);
      WeightedStep(exp, m, scores, mask, t.Values(d), j);
      tmp[d] := tmp[d] + Product(p, x);
    }
  }

  /** The mass and weighted values of the block at j0, into a cleared tmp. */
  method BlockSums(exp: real -> real, t: Query, i: nat, m: real, tmp: array<real>, j0: nat) returns (l: real)
    requires t.Valid() && j0 < t.s.seqLen && t.s.headDim <= tmp.Length
    requires IsLargest(m, t.ScoreList(), CausalMask(t.s.seqLen, i), 0, Min(j0 + BLOCK, t.s.seqLen))
    modifies tmp
    ensures Covers(exp, t, i, m, l, tmp[..], j0, Min(j0 + BLOCK, t.s.seqLen))
  {
    hide Mass, Weighted, IsLargest, Query.Valid, Query.ScoreList, Query.Values;
    for d := 0 to t.s.headDim
      invariant forall e :: 0 <= e < d ==> tmp[e] == 0.0
    {
      tmp[d] := 0.0;
    }
    l := 0.0;
    var b := 0;
    while b < BLOCK
      invariant b <= BLOCK && j0 + b <= t.s.seqLen
      invariant Covers(exp, t, i, m, l, tmp[..], j0, j0 + b)
    {
      var j := j0 + b;
      if j >= t.s.seqLen {
        break;
      }
      if j > i {
        break;
      }
      var score := t.KeyScoreAt(j);
      BelowLargest(m, t.ScoreList(), CausalMask(t.s.seqLen, i), 0, Min(j0 + BLOCK, t.s.seqLen), j);
      var p := ExpOf(exp, score - m);
      AddKey(exp, t, i, m, p, tmp, j, j0, l);
      l := l + p;
      b := b + 1;
    }
    CoversTail(exp, t, i, m, l, tmp[..], j0, j0 + b, Min(j0 + BLOCK, t.s.seqLen));
  }

  /** acc = acc * rescale + tmp. */
  method Merge(exp: real -> real, t: Query, i: nat, m: real, newM: real, l: real, blockL: real,
               acc: array<real>, tmp: array<real>, c: nat, ghost e: nat) returns (newL: real)
    requires ExpLaws(exp) && t.Valid() && c <= e <= t.s.seqLen && m <= newM
    requires acc != tmp && t.s.headDim <= acc.Length && t.s.headDim <= tmp.Length
    requires Running(exp, t, i, m, l, acc[..], c)
    requires Covers(exp, t, i, newM, blockL, tmp[..], c, e)
    modifies acc
    ensures Running(exp, t, i, newM, newL, acc[..], e)
  {
    hide Mass, Weighted, Product, ExpLaws, Query.Valid, Query.ScoreList, Query.Values;
    ghost var mask, scores := CausalMask(t.s.seqLen, i), t.ScoreList();
    var rescale := ExpOf(exp, m - newM);
    for d := 0 to t.s.headDim
      invariant forall x :: d <= x < t.s.headDim ==> acc[x] == old(acc[x])
      invariant forall x :: 0 <= x < d ==> acc[x] == Weighted(exp, newM, scores, mask, t.Values(x), e)
    {
      RescaleWeighted(exp, m, newM, scores, mask, t.Values(d), c);
      acc[d] := Product(acc[d], rescale) + tmp[d];
    }
    Rescale(exp, m, newM, scores, mask, c);
    newL := Product(l, rescale) + blockL;
  }

  /** One query row of the tiled kernel: it rewrites exactly its own output row, to the
      causal softmax average that the two-pass kernel computes. */
  method FlashThread(exp: real -> real, s: Shape, scale: real, q: seq<real>, k: seq<real>, v: seq<real>,
                     out: array<real>, i: nat, h: nat)
    requires s.kvHeads > 0 && h < s.qHeads
    requires ExpLaws(exp) && Buffers(s, Flat(s.KvHead(h)), out.Length, q, k, v)
    modifies out
    ensures i >= s.seqLen || s.headDim > 128 ==> out[..] == old(out[..])
    ensures i < s.seqLen && s.headDim <= 128 ==>
      var at, rows := s.Row(h, i), Flat(s.KvHead(h)).Rows(s);
      && at + s.headDim <= out.Length && RowsInside(rows, s.headDim, |k|)
      && out[..] == Overwrite(old(out[..]), at,
           AttendRow(exp, q[at..at + s.headDim], k, v, rows, scale, SdpaMask(s.seqLen, true, 0, i)))
  {
    if i >= s.seqLen {
      return;
    }
    if s.headDim > MAX_DIM {
      return;
    }
    s.RowInside(h, s.qHeads, i);
    var head := Flat(s.KvHead(h));
    head.AllInside(s);
    var qBase := s.Row(h, i);
    var t := Query(s, head, scale, q, qBase, k, v);
    MasksAgree(s.seqLen, i);
    hide ExpLaws, Query.Valid, Query.ScoreList, Query.Values, Times, Average, Normalised, Attend, Score;
    hide Addressing.Start, Addressing.KvSize, Shape.Row;
    var l, acc := OnlineSoftmax(exp, t, i);
    ghost var row := AttendRow(exp, q[qBase..qBase + s.headDim], k, v, head.Rows(s), scale, CausalMask(s.seqLen, i));
    forall d | 0 <= d < s.headDim
      ensures Normalised(acc[d], l) == row[d]
    {
      RowIsAverage(exp, t, CausalMask(s.seqLen, i), d);
    }
    WriteRow(out, qBase, s.headDim, acc, l, row);
  }

  lemma RowIsAverage(exp: real -> real, t: Query, mask: seq<bool>, d: nat)
    requires t.Valid() && d < t.s.headDim && |mask| == t.s.seqLen
    ensures AttendRow(exp, t.q[t.qBase..t.qBase + t.s.headDim], t.k, t.v, t.head.Rows(t.s), t.scale, mask)[d]
         == Average(exp, t.ScoreList(), mask, t.Values(d))
  {
    hide Average, Score, Addressing.Start, Addressing.KvSize;
  }

  /** The loop over blocks; m stays the largest visible score so far, so no exponent is ever
      positive. */
  method OnlineSoftmax(exp: real -> real, t: Query, i: nat) returns (l: real, acc: array<real>)
    requires ExpLaws(exp) && t.Valid() && t.s.headDim <= MAX_DIM
    ensures fresh(acc) && acc.Length == MAX_DIM
    ensures forall d :: 0 <= d < t.s.headDim ==>
      Normalised(acc[d], l) == Average(exp, t.ScoreList(), CausalMask(t.s.seqLen, i), t.Values(d))
  {
    hide Mass, Weighted, ExpLaws, Average, IsLargest, Query.Valid, Query.ScoreList, Query.Values;
    ghost var mask := CausalMask(t.s.seqLen, i);
    var m := FLOOR;
    l := 0.0;
    acc := new real[MAX_DIM](_ => 0.0);
    var tmp := new real[MAX_DIM](_ => 0.0);
    EmptyRunning(exp, t, i, m, acc[..]);
    NoneLargest(t.ScoreList(), mask);
    var j0 := 0;
    while j0 < t.s.seqLen
      invariant Running(exp, t, i, m, l, acc[..], Min(j0, t.s.seqLen))
      invariant IsLargest(m, t.ScoreList(), mask, 0, Min(j0, t.s.seqLen))
    {
      var blockMax := BlockMax(t, i, j0);
      var newM := Max(m, blockMax);
      JoinLargest(m, blockMax, t.ScoreList(), mask, 0, j0, Min(j0 + BLOCK, t.s.seqLen));
      var blockL := BlockSums(exp, t, i, newM, tmp, j0);
      l := Merge(exp, t, i, m, newM, l, blockL, acc, tmp, j0, Min(j0 + BLOCK, t.s.seqLen));
      m := newM;
      j0 := j0 + BLOCK;
    }
    MassPositive(exp, m, t.ScoreList(), mask, t.s.seqLen);
    forall d | 0 <= d < t.s.headDim
      ensures Normalised(acc[d], l) == Average(exp, t.ScoreList(), mask, t.Values(d))
    {
      QuotientIndependent(exp, m, t.ScoreList(), mask, t.Values(d));
    }
  }

  lemma NoneLargest(s: seq<real>, mask: seq<bool>)
    requires |s| == |mask|
    ensures IsLargest(FLOOR, s, mask, 0, 0)
  {
  }

  lemma EmptyRunning(exp: real -> real, t: Query, i: nat, m: real, acc: seq<real>)
    requires t.Valid() && t.s.headDim <= |acc| && forall d :: 0 <= d < |acc| ==> acc[d] == 0.0
    ensures Running(exp, t, i, m, 0.0, acc, 0)
  {
  }
}
