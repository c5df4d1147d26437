/** Whole dispatches of the attention kernels: one thread for every position (in groups of
    64) and head, in any order. */
module AttentionGrid {
  import opened Attention
  import opened Dispatch
  import opened FlashAttention
  import opened Index
  import LinearAttention
  import opened Softmax

  /** The thread of position i and head h. */
  function GridId(s: Shape, h: nat, i: nat): nat {
    Times(h, Threads(s.seqLen)) + i
  }

  /** Wanted output rows, by head and position. */
  ghost predicate IsRows(s: Shape, rows: seq<seq<seq<real>>>) {
    && |rows| == s.qHeads
    && (forall h :: 0 <= h < s.qHeads ==> |rows[h]| == s.seqLen)
    && forall h, i :: 0 <= h < s.qHeads && 0 <= i < s.seqLen ==> |rows[h][i]| == s.headDim
  }

  /** Threads `ids` have written their rows over the buffer `was`. */
  ghost predicate GridAt(s: Shape, out: seq<real>, was: seq<real>, rows: seq<seq<seq<real>>>, ids: seq<nat>)
    requires IsRows(s, rows)
  {
    && |out| == |was| == s.Size(s.qHeads)
    && forall h, i, d :: 0 <= h < s.qHeads && 0 <= i < s.seqLen && 0 <= d < s.headDim ==>
         CellAt(s, out, was, rows, ids, h, i, d)
  }

  ghost predicate CellAt(s: Shape, out: seq<real>, was: seq<real>, rows: seq<seq<seq<real>>>, ids: seq<nat>,
                         h: nat, i: nat, d: nat)
    requires IsRows(s, rows) && |out| == |was| == s.Size(s.qHeads)
    requires h < s.qHeads && i < s.seqLen && d < s.headDim
  {
    s.RowInside(h, s.qHeads, i);
    var x := s.Row(h, i) + d;
    out[x] == if GridId(s, h, i) in ids then rows[h][i][d] else was[x]
  }

  lemma GridStarts(s: Shape, was: seq<real>, rows: seq<seq<seq<real>>>)
    requires IsRows(s, rows) && |was| == s.Size(s.qHeads)
    ensures GridAt(s, was, was, rows, [])
  {
    forall h, i, d | 0 <= h < s.qHeads && 0 <= i < s.seqLen && 0 <= d < s.headDim
      ensures CellAt(s, was, was, rows, [], h, i, d)
    {
      s.RowInside(h, s.qHeads, i);
    }
  }

  /** The thread's ids are its own. */
  lemma GridIdUnique(s: Shape, h: nat, i: nat, g: nat, j: nat)
    requires i < Threads(s.seqLen) && j < s.seqLen && GridId(s, h, i) == GridId(s, g, j)
    ensures h == g && i == j
  {
    hide Times, Div, Mod;
    Quotient(h, i, Threads(s.seqLen));
    Quotient(g, j, Threads(s.seqLen));
  }

  /** A thread past the last position writes nothing, and nothing waits for it. */
  lemma IdleStep(s: Shape, out: seq<real>, was: seq<real>, rows: seq<seq<seq<real>>>, ids: seq<nat>, h: nat, i: nat)
    requires IsRows(s, rows) && GridAt(s, out, was, rows, ids) && s.seqLen <= i < Threads(s.seqLen)
    ensures GridAt(s, out, was, rows, ids + [GridId(s, h, i)])
  {
    var more := ids + [GridId(s, h, i)];
    forall g, j, e | 0 <= g < s.qHeads && 0 <= j < s.seqLen && 0 <= e < s.headDim
      ensures CellAt(s, out, was, rows, more, g, j, e)
    {
      assert CellAt(s, out, was, rows, ids, g, j, e);
      if GridId(s, g, j) == GridId(s, h, i) {
        GridIdUnique(s, h, i, g, j);
        assert false;
      }
    }
  }

  /** A thread that rewrites its own row leaves the others' alone. */
  lemma RowStep(s: Shape, out: seq<real>, was: seq<real>, rows: seq<seq<seq<real>>>, ids: seq<nat>, h: nat, i: nat)
    requires IsRows(s, rows) && GridAt(s, out, was, rows, ids) && h < s.qHeads && i < s.seqLen
    ensures s.Row(h, i) + s.headDim <= |out|
    ensures GridAt(s, Overwrite(out, s.Row(h, i), rows[h][i]), was, rows, ids + [GridId(s, h, i)])
  {
    hide Times, Shape.Row, Shape.Size;
    s.RowInside(h, s.qHeads, i);
    var at, more := s.Row(h, i), ids + [GridId(s, h, i)];
    var next := Overwrite(out, at, rows[h][i]);
    forall g, j, e | 0 <= g < s.qHeads && 0 <= j < s.seqLen && 0 <= e < s.headDim
      ensures CellAt(s, next, was, rows, more, g, j, e)
    {
      assert CellAt(s, out, was, rows, ids, g, j, e);
      s.RowInside(g, s.qHeads, j);
      var x := s.Row(g, j) + e;
      if at <= x < at + s.headDim {
        s.RowsDisjoint(h, i, x - at, g, j, e);
      } else if GridId(s, g, j) == GridId(s, h, i) {
        GridIdUnique(s, h, i, g, j);
        assert false;
      }
    }
  }

  /** Row (h, i) of the output buffer is r. */
  ghost predicate RowIs(s: Shape, out: seq<real>, h: nat, i: nat, r: seq<real>)
    requires h < s.qHeads && i < s.seqLen && |out| == s.Size(s.qHeads)
  {
    s.RowInside(h, s.qHeads, i);
    out[s.Row(h, i)..s.Row(h, i) + s.headDim] == r
  }

  lemma GridDone(s: Shape, out: seq<real>, was: seq<real>, rows: seq<seq<seq<real>>>, ids: seq<nat>, h: nat, i: nat)
    requires IsRows(s, rows) && GridAt(s, out, was, rows, ids) && h < s.qHeads && i < s.seqLen
    requires IsSchedule(ids, Times(s.qHeads, Threads(s.seqLen)))
    ensures RowIs(s, out, h, i, rows[h][i])
  {
    hide Times, Shape.Row, Shape.Size;
    s.RowInside(h, s.qHeads, i);
    RowFits(h, s.qHeads, Threads(s.seqLen));
    assert GridId(s, h, i) in ids;
    var row := out[s.Row(h, i)..s.Row(h, i) + s.headDim];
    forall d | 0 <= d < s.headDim ensures row[d] == rows[h][i][d] {
      assert CellAt(s, out, was, rows, ids, h, i, d);
    }
  }

  /** Every element of the output buffer is in some row. */
  lemma RowsCover(s: Shape, x: nat) returns (h: nat, i: nat, d: nat)
    requires x < s.Size(s.qHeads)
    ensures h < s.qHeads && i < s.seqLen && d < s.headDim && x == s.Row(h, i) + d
  {
    hide Times, Div, Mod;
    TimesZero(Times(s.qHeads, s.seqLen));
    TimesZero(s.qHeads);
    var line := Div(x, s.headDim);
    RowOf(x, Times(s.qHeads, s.seqLen), s.headDim);
    Euclid(x, s.headDim);
    RowOf(line, s.qHeads, s.seqLen);
    Euclid(line, s.seqLen);
    h, i, d := Div(line, s.seqLen), Mod(line, s.seqLen), Mod(x, s.headDim);
  }

  // ---------------------------------------------------------------- sdpa and paged_attn

  /** The addressing of query head h: its shared KV head. */
  function HeadOf(s: Shape, a: Addressing, h: nat): Addressing
    requires s.kvHeads > 0
  {
    a.(kvHead := s.KvHead(h))
  }

  /** What the two-pass kernels must leave in row (h, i). */
  ghost function TwoPassRow(exp: real -> real, s: Shape, a: Addressing, scale: real, causal: bool, window: nat,
                            q: seq<real>, k: seq<real>, v: seq<real>, h: nat, i: nat): (r: seq<real>)
    requires Buffers(s, a, |q|, q, k, v) && h < s.qHeads && i < s.seqLen
    ensures |r| == s.headDim
  {
    var b, at := HeadOf(s, a, h), s.Row(h, i);
    s.RowInside(h, s.qHeads, i);
    b.AllInside(s);
    AttendRow(exp, q[at..at + s.headDim], k, v, b.Rows(s), scale, SdpaMask(s.seqLen, causal, window, i))
  }

  ghost function TwoPassRows(exp: real -> real, s: Shape, a: Addressing, scale: real, causal: bool, window: nat,
                             q: seq<real>, k: seq<real>, v: seq<real>): (rows: seq<seq<seq<real>>>)
    requires Buffers(s, a, |q|, q, k, v)
    ensures IsRows(s, rows)
  {
    seq(s.qHeads, h requires 0 <= h < s.qHeads =>
      seq(s.seqLen, i requires 0 <= i < s.seqLen => TwoPassRow(exp, s, a, scale, causal, window, q, k, v, h, i)))
  }

  /** The first position of a causal head sees itself only, and copies the first value row of
      its KV head. */
  lemma FirstRowIsValue(exp: real -> real, s: Shape, a: Addressing, scale: real, causal: bool, window: nat,
                        q: seq<real>, k: seq<real>, v: seq<real>, h: nat)
    requires ExpLaws(exp) && Buffers(s, a, |q|, q, k, v) && h < s.qHeads && s.seqLen > 0 && (causal || s.seqLen == 1)
    ensures var at := HeadOf(s, a, h).Start(s, 0);
      at + s.headDim <= |v| && TwoPassRow(exp, s, a, scale, causal, window, q, k, v, h, 0) == v[at..at + s.headDim]
  {
    hide Times, AttendRow, ExpLaws, Addressing.Start, Shape.KvHead, Shape.Row;
    var b, at, mask := HeadOf(s, a, h), s.Row(h, 0), SdpaMask(s.seqLen, causal, window, 0);
    s.RowInside(h, s.qHeads, 0);
    b.AllInside(s);
    OneVisible(exp, q[at..at + s.headDim], k, v, b.Rows(s), scale, mask, 0);
  }

  lemma GridPosition(s: Shape, id: nat) returns (h: nat, i: nat)
    requires id < Times(s.qHeads, Threads(s.seqLen))
    ensures Threads(s.seqLen) > 0 && h == Div(id, Threads(s.seqLen)) && i == Mod(id, Threads(s.seqLen))
    ensures h < s.qHeads && i < Threads(s.seqLen) && GridId(s, h, i) == id
  {
    hide Times, Div, Mod;
    var t := Threads(s.seqLen);
    TimesZero(s.qHeads);
    RowOf(id, s.qHeads, t);
    Euclid(id, t);
    h, i := Div(id, t), Mod(id, t);
  }

  /** One thread of the dispatch. */
  method TwoPassSlot(exp: real -> real, s: Shape, a: Addressing, scale: real, causal: bool, window: nat,
                     q: seq<real>, k: seq<real>, v: seq<real>, out: array<real>, id: nat,
                     ghost was: seq<real>, ghost ids: seq<nat>)
    requires ExpLaws(exp) && Buffers(s, a, out.Length, q, k, v) && id < Times(s.qHeads, Threads(s.seqLen))
    requires GridAt(s, out[..], was, TwoPassRows(exp, s, a, scale, causal, window, q, k, v), ids)
    modifies out
    ensures GridAt(s, out[..], was, TwoPassRows(exp, s, a, scale, causal, window, q, k, v), ids + [id])
  {
    hide GridAt, Times, ExpLaws, AttendRow, Shape.Row, Shape.KvHead;
    ghost var rows := TwoPassRows(exp, s, a, scale, causal, window, q, k, v);
    ghost var hh, ii := GridPosition(s, id);
    var t := Threads(s.seqLen);
    var h, i := Div(id, t), Mod(id, t);
    ghost var before := out[..];
    TwoPassThread(exp, s, HeadOf(s, a, h), scale, causal, window, q, k, v, out, i, h);
    if i < s.seqLen {
      RowStep(s, before, was, rows, ids, h, i);
    } else {
      IdleStep(s, before, was, rows, ids, h, i);
    }
  }

  /** The whole dispatch of `sdpa` (flat) or `paged_attn` (block table, no mask), threads in
      any order: every row of the output is the softmax average of its query. */
  method TwoPassDispatch(exp: real -> real, s: Shape, a: Addressing, scale: real, causal: bool, window: nat,
                         q: seq<real>, k: seq<real>, v: seq<real>, out: array<real>, order: seq<nat>)
    requires ExpLaws(exp) && Buffers(s, a, out.Length, q, k, v)
    requires IsSchedule(order, Times(s.qHeads, Threads(s.seqLen)))
    modifies out
    ensures forall h, i :: 0 <= h < s.qHeads && 0 <= i < s.seqLen ==>
      RowIs(s, out[..], h, i, TwoPassRow(exp, s, a, scale, causal, window, q, k, v, h, i))
  {
    hide GridAt, Times, ExpLaws, TwoPassRow;
    ghost var was, rows := out[..], TwoPassRows(exp, s, a, scale, causal, window, q, k, v);
    GridStarts(s, was, rows);
    for p := 0 to |order|
      invariant GridAt(s, out[..], was, rows, order[..p])
    {
      TwoPassSlot(exp, s, a, scale, causal, window, q, k, v, out, order[p], was, order[..p]);
      assert order[..p + 1] == order[..p] + [order[p]];
    }
    assert order[..|order|] == order;
    forall h, i | 0 <= h < s.qHeads && 0 <= i < s.seqLen
      ensures RowIs(s, out[..], h, i, TwoPassRow(exp, s, a, scale, causal, window, q, k, v, h, i))
    {
      GridDone(s, out[..], was, rows, order, h, i);
    }
  }

  // ---------------------------------------------------------------- paged against flat

  /** Where an element of a flat K or V buffer belongs. */
  lemma PlaceOf(s: Shape, x: nat)
    requires x < s.Size(s.kvHeads)
    ensures s.headDim > 0 && s.seqLen > 0 && Div(Div(x, s.headDim), s.seqLen) < s.kvHeads
  {
    hide Times, Div, Mod;
    TimesZero(Times(s.kvHeads, s.seqLen));
    TimesZero(s.kvHeads);
    RowOf(x, Times(s.kvHeads, s.seqLen), s.headDim);
    RowOf(Div(x, s.headDim), s.kvHeads, s.seqLen);
  }

  /** The keys (or values) of a paged cache as a flat buffer holds them: element x is looked up
      through the block table. */
  function Gathered(s: Shape, a: Addressing, k: seq<real>): (g: seq<real>)
    requires a.Valid(s) && |k| == a.KvSize(s)
    ensures |g| == s.Size(s.kvHeads)
  {
    seq(s.Size(s.kvHeads), x requires 0 <= x < s.Size(s.kvHeads) => GatheredAt(s, a, k, x))
  }

  function GatheredAt(s: Shape, a: Addressing, k: seq<real>, x: nat): real
    requires a.Valid(s) && |k| == a.KvSize(s) && x < s.Size(s.kvHeads)
  {
    PlaceOf(s, x);
    var line := Div(x, s.headDim);
    var b := a.(kvHead := Div(line, s.seqLen));
    b.StartInside(s, Mod(line, s.seqLen));
    k[b.Start(s, Mod(line, s.seqLen)) + Mod(x, s.headDim)]
  }

  /** So every head finds in the gathered buffer, without the table, what it finds with it. */
  lemma GatheredGathers(s: Shape, a: Addressing, k: seq<real>, head: nat)
    requires a.Valid(s) && |k| == a.KvSize(s) && head < s.kvHeads
    ensures Gathers(s, a.(kvHead := head), k, Flat(head), Gathered(s, a, k))
  {
    hide Times, Div, Mod, Addressing.Start;
    var b, g := a.(kvHead := head), Gathered(s, a, k);
    assert b.KvSize(s) == a.KvSize(s) && Flat(head).KvSize(s) == |g|;
    b.AllInside(s);
    Flat(head).AllInside(s);
    forall j | 0 <= j < s.seqLen
      ensures k[b.Rows(s)[j]..b.Rows(s)[j] + s.headDim]
           == g[Flat(head).Rows(s)[j]..Flat(head).Rows(s)[j] + s.headDim]
    {
      GatheredRow(s, a, k, head, j);
    }
  }

  lemma GatheredRow(s: Shape, a: Addressing, k: seq<real>, head: nat, j: nat)
    requires a.Valid(s) && |k| == a.KvSize(s) && head < s.kvHeads && j < s.seqLen
    ensures var b, g := a.(kvHead := head), Gathered(s, a, k);
      var x, y := b.Start(s, j), Flat(head).Start(s, j);
      && x + s.headDim <= |k| && y + s.headDim <= |g|
      && k[x..x + s.headDim] == g[y..y + s.headDim]
  {
    hide Times, Div, Mod, Addressing.KvSize;
    var b, g := a.(kvHead := head), Gathered(s, a, k);
    var x, y := b.Start(s, j), s.Row(head, j);
    b.StartInside(s, j);
    assert b.KvSize(s) == a.KvSize(s) by {
      SameSize(s, a, head);
    }
    s.RowInside(head, s.kvHeads, j);
    hide Addressing.Start, Addressing.Valid, Shape.Size;
    var wanted, found := k[x..x + s.headDim], g[y..y + s.headDim];
    forall d | 0 <= d < s.headDim ensures wanted[d] == found[d] {
      Quotient(Times(head, s.seqLen) + j, d, s.headDim);
      Quotient(head, j, s.seqLen);
      assert g[y + d] == GatheredAt(s, a, k, y + d);
    }
  }

  lemma SameSize(s: Shape, a: Addressing, head: nat)
    ensures a.(kvHead := head).KvSize(s) == a.KvSize(s)
  {
  }

  lemma PagedRow(exp: real -> real, s: Shape, a: Addressing, scale: real, causal: bool, window: nat,
                 q: seq<real>, k: seq<real>, v: seq<real>, h: nat, i: nat)
    requires Buffers(s, a, |q|, q, k, v) && h < s.qHeads && i < s.seqLen
    ensures Buffers(s, Flat(0), |q|, q, Gathered(s, a, k), Gathered(s, a, v))
    ensures TwoPassRow(exp, s, a, scale, causal, window, q, k, v, h, i)
         == TwoPassRow(exp, s, Flat(0), scale, causal, window, q, Gathered(s, a, k), Gathered(s, a, v), h, i)
  {
    hide Times, AttendRow, Gathered, Addressing.Start, Shape.KvHead, Shape.Row, Shape.Size, Gathers;
    var head, at := s.KvHead(h), s.Row(h, i);
    s.RowInside(h, s.qHeads, i);
    SameSize(s, a, head);
    GatheredGathers(s, a, k, head);
    GatheredGathers(s, a, v, head);
    a.(kvHead := head).AllInside(s);
    Flat(head).AllInside(s);
    SameRowsSameOutput(exp, s, q[at..at + s.headDim], a.(kvHead := head), k, v,
                       Flat(head), Gathered(s, a, k), Gathered(s, a, v), scale, SdpaMask(s.seqLen, causal, window, i));
  }

  /** Buffers with the same rows are the same. */
  lemma RowsDetermine(s: Shape, out: seq<real>, other: seq<real>)
    requires |out| == |other| == s.Size(s.qHeads)
    requires forall h, i :: 0 <= h < s.qHeads && 0 <= i < s.seqLen ==> SameRow(s, out, other, h, i)
    ensures out == other
  {
    hide Times, Shape.Row, Shape.Size;
    forall x | 0 <= x < |out| ensures out[x] == other[x] {
      var h, i, d := RowsCover(s, x);
      assert SameRow(s, out, other, h, i);
      s.RowInside(h, s.qHeads, i);
      var at := s.Row(h, i);
      assert out[x] == out[at..at + s.headDim][d] && other[x] == other[at..at + s.headDim][d];
    }
  }

  ghost predicate SameRow(s: Shape, out: seq<real>, other: seq<real>, h: nat, i: nat)
    requires h < s.qHeads && i < s.seqLen && |out| == |other| == s.Size(s.qHeads)
  {
    s.RowInside(h, s.qHeads, i);
    out[s.Row(h, i)..s.Row(h, i) + s.headDim] == other[s.Row(h, i)..s.Row(h, i) + s.headDim]
  }

  /** The two whole dispatches: `paged_attn` over a valid block table, and the unmasked flat
      kernel over the gathered buffers, each with its threads in any order, leave the same
      output buffer. */
  method PagedIsFlat(exp: real -> real, s: Shape, a: Addressing, scale: real, q: seq<real>, k: seq<real>, v: seq<real>,
                     paged: array<real>, flat: array<real>, pagedOrder: seq<nat>, flatOrder: seq<nat>)
    requires ExpLaws(exp) && a.Paged? && paged != flat && paged.Length == flat.Length
    requires Buffers(s, a, paged.Length, q, k, v)
    requires IsSchedule(pagedOrder, Times(s.qHeads, Threads(s.seqLen)))
    requires IsSchedule(flatOrder, Times(s.qHeads, Threads(s.seqLen)))
    modifies paged, flat
    ensures paged[..] == flat[..]
    ensures forall h, i :: 0 <= h < s.qHeads && 0 <= i < s.seqLen ==>
      RowIs(s, paged[..], h, i, TwoPassRow(exp, s, a, scale, false, 0, q, k, v, h, i))
  {
    hide Times, ExpLaws, TwoPassRow, Gathered, Shape.Size, Addressing.KvSize;
    GatheredBuffers(s, a, q, k, v);
    var gk, gv := Gathered(s, a, k), Gathered(s, a, v);
    TwoPassDispatch(exp, s, a, scale, false, 0, q, k, v, paged, pagedOrder);
    ghost var left := paged[..];
    TwoPassDispatch(exp, s, Flat(0), scale, false, 0, q, gk, gv, flat, flatOrder);
    forall h, i | 0 <= h < s.qHeads && 0 <= i < s.seqLen
      ensures SameRow(s, left, flat[..], h, i)
    {
      PagedRow(exp, s, a, scale, false, 0, q, k, v, h, i);
      assert RowIs(s, left, h, i, TwoPassRow(exp, s, a, scale, false, 0, q, k, v, h, i));
    }
    RowsDetermine(s, left, flat[..]);
  }

  lemma GatheredBuffers(s: Shape, a: Addressing, q: seq<real>, k: seq<real>, v: seq<real>)
    requires Buffers(s, a, |q|, q, k, v)
    ensures Buffers(s, Flat(0), |q|, q, Gathered(s, a, k), Gathered(s, a, v))
  {
  }

  // ---------------------------------------------------------------- flash_attn

  /** One thread of the tiled dispatch. */
  method FlashSlot(exp: real -> real, s: Shape, scale: real, q: seq<real>, k: seq<real>, v: seq<real>,
                   out: array<real>, id: nat, ghost was: seq<real>, ghost ids: seq<nat>)
    requires ExpLaws(exp) && s.headDim <= FlashAttention.MAX_DIM && id < Times(s.qHeads, Threads(s.seqLen))
    requires Buffers(s, Flat(0), out.Length, q, k, v)
    requires GridAt(s, out[..], was, TwoPassRows(exp, s, Flat(0), scale, true, 0, q, k, v), ids)
    modifies out
    ensures GridAt(s, out[..], was, TwoPassRows(exp, s, Flat(0), scale, true, 0, q, k, v), ids + [id])
  {
    hide GridAt, Times, ExpLaws, AttendRow, Shape.Row, Shape.KvHead;
    ghost var rows := TwoPassRows(exp, s, Flat(0), scale, true, 0, q, k, v);
    ghost var hh, ii := GridPosition(s, id);
    var t := Threads(s.seqLen);
    var h, i := Div(id, t), Mod(id, t);
    ghost var before := out[..];
    FlashThread(exp, s, scale, q, k, v, out, i, h);
    if i < s.seqLen {
      RowStep(s, before, was, rows, ids, h, i);
    } else {
      IdleStep(s, before, was, rows, ids, h, i);
    }
  }

  /** The whole tiled dispatch, threads in any order: the output buffer is the one the causal
      two-pass dispatch leaves. */
  method FlashDispatch(exp: real -> real, s: Shape, scale: real, q: seq<real>, k: seq<real>, v: seq<real>,
                       out: array<real>, order: seq<nat>)
    requires ExpLaws(exp) && s.headDim <= FlashAttention.MAX_DIM && Buffers(s, Flat(0), out.Length, q, k, v)
    requires IsSchedule(order, Times(s.qHeads, Threads(s.seqLen)))
    modifies out
    ensures forall h, i :: 0 <= h < s.qHeads && 0 <= i < s.seqLen ==>
      RowIs(s, out[..], h, i, TwoPassRow(exp, s, Flat(0), scale, true, 0, q, k, v, h, i))
  {
    hide GridAt, Times, ExpLaws, TwoPassRow;
    ghost var was, rows := out[..], TwoPassRows(exp, s, Flat(0), scale, true, 0, q, k, v);
    GridStarts(s, was, rows);
    for p := 0 to |order|
      invariant GridAt(s, out[..], was, rows, order[..p])
    {
      FlashSlot(exp, s, scale, q, k, v, out, order[p], was, order[..p]);
      assert order[..p + 1] == order[..p] + [order[p]];
    }
    assert order[..|order|] == order;
    forall h, i | 0 <= h < s.qHeads && 0 <= i < s.seqLen
      ensures RowIs(s, out[..], h, i, TwoPassRow(exp, s, Flat(0), scale, true, 0, q, k, v, h, i))
    {
      GridDone(s, out[..], was, rows, order, h, i);
    }
  }

  // ---------------------------------------------------------------- linear_attn

  /** What the recurrent kernel must leave in row (h, i). */
  ghost function RecurrentRow(exp: real -> real, s: Shape, q: seq<real>, k: seq<real>, v: seq<real>, h: nat, i: nat)
    : (r: seq<real>)
    requires Buffers(s, Flat(0), |q|, q, k, v) && h < s.qHeads && i < s.seqLen
    ensures |r| == s.headDim
  {
    var head := Flat(s.KvHead(h));
    var t := Query(s, head, 1.0, q, s.Row(h, i), k, v);
    s.RowInside(h, s.qHeads, i);
    head.AllInside(s);
    assert t.Valid();
    LinearAttention.LinearRow(exp, t, i + 1)
  }

  /** So does the first position of the recurrent kernel. */
  lemma FirstRecurrentRow(exp: real -> real, s: Shape, q: seq<real>, k: seq<real>, v: seq<real>, h: nat)
    requires ExpLaws(exp) && Buffers(s, Flat(0), |q|, q, k, v) && h < s.qHeads && s.seqLen > 0
    ensures var at := s.Row(s.KvHead(h), 0);
      at + s.headDim <= |v| && RecurrentRow(exp, s, q, k, v, h, 0) == v[at..at + s.headDim]
  {
    hide Times, ExpLaws, LinearAttention.LinearRow, Shape.KvHead, Shape.Row;
    var head := Flat(s.KvHead(h));
    var t := Query(s, head, 1.0, q, s.Row(h, 0), k, v);
    s.RowInside(h, s.qHeads, 0);
    head.AllInside(s);
    head.StartInside(s, 0);
    var row, at := RecurrentRow(exp, s, q, k, v, h, 0), s.Row(s.KvHead(h), 0);
    assert at == head.Start(s, 0);
    forall e | 0 <= e < s.headDim ensures row[e] == v[at + e] {
      LinearAttention.RowOfSameValues(exp, t, 1, e, v[at + e]);
    }
  }

  ghost function RecurrentRows(exp: real -> real, s: Shape, q: seq<real>, k: seq<real>, v: seq<real>)
    : (rows: seq<seq<seq<real>>>)
    requires Buffers(s, Flat(0), |q|, q, k, v)
    ensures IsRows(s, rows)
  {
    seq(s.qHeads, h requires 0 <= h < s.qHeads =>
      seq(s.seqLen, i requires 0 <= i < s.seqLen => RecurrentRow(exp, s, q, k, v, h, i)))
  }

  /** One thread of the recurrent dispatch. */
  method LinearSlot(exp: real -> real, s: Shape, q: seq<real>, k: seq<real>, v: seq<real>,
                    out: array<real>, id: nat, ghost was: seq<real>, ghost ids: seq<nat>)
    requires ExpLaws(exp) && s.headDim <= LinearAttention.MAX_DIM && id < Times(s.qHeads, Threads(s.seqLen))
    requires Buffers(s, Flat(0), out.Length, q, k, v)
    requires GridAt(s, out[..], was, RecurrentRows(exp, s, q, k, v), ids)
    modifies out
    ensures GridAt(s, out[..], was, RecurrentRows(exp, s, q, k, v), ids + [id])
  {
    hide GridAt, Times, ExpLaws, LinearAttention.LinearRow, Shape.Row, Shape.KvHead;
    ghost var rows := RecurrentRows(exp, s, q, k, v);
    ghost var hh, ii := GridPosition(s, id);
    var t := Threads(s.seqLen);
    var h, i := Div(id, t), Mod(id, t);
    ghost var before := out[..];
    LinearAttention.LinearThread(exp, s, q, k, v, out, i, h);
    if i < s.seqLen {
      RowStep(s, before, was, rows, ids, h, i);
    } else {
      IdleStep(s, before, was, rows, ids, h, i);
    }
  }

  /** The whole recurrent dispatch, threads in any order: every row is the quadratic form. */
  method LinearDispatch(exp: real -> real, s: Shape, q: seq<real>, k: seq<real>, v: seq<real>,
                        out: array<real>, order: seq<nat>)
    requires ExpLaws(exp) && s.headDim <= LinearAttention.MAX_DIM && Buffers(s, Flat(0), out.Length, q, k, v)
    requires IsSchedule(order, Times(s.qHeads, Threads(s.seqLen)))
    modifies out
    ensures forall h, i :: 0 <= h < s.qHeads && 0 <= i < s.seqLen ==>
      RowIs(s, out[..], h, i, RecurrentRow(exp, s, q, k, v, h, i))
  {
    hide GridAt, Times, ExpLaws, RecurrentRow;
    ghost var was, rows := out[..], RecurrentRows(exp, s, q, k, v);
    GridStarts(s, was, rows);
    for p := 0 to |order|
      invariant GridAt(s, out[..], was, rows, order[..p])
    {
      LinearSlot(exp, s, q, k, v, out, order[p], was, order[..p]);
      assert order[..p + 1] == order[..p] + [order[p]];
    }
    assert order[..|order|] == order;
    forall h, i | 0 <= h < s.qHeads && 0 <= i < s.seqLen
      ensures RowIs(s, out[..], h, i, RecurrentRow(exp, s, q, k, v, h, i))
    {
      GridDone(s, out[..], was, rows, order, h, i);
    }
  }
}
