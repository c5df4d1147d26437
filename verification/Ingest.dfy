/** `ingest_gguf` of src/dxstream/dxstream.cpp: the tensors of a GGUF file repacked into
    aligned slices, with a coordinate for each. */
module Ingest {
  import opened DirectStorage
  import opened GgufStream
  import opened Index
  import opened LittleEndian

  const CHUNK := 0x100_0000

  // ---------------------------------------------------------------- sizes from offsets

  ghost predicate Sorted(ts: seq<GgufTensor>) {
    forall i, j :: 0 <= i <= j < |ts| ==> ts[i].offset <= ts[j].offset
  }

  function Insert(r: seq<GgufTensor>, t: GgufTensor): (s: seq<GgufTensor>)
    ensures multiset(s) == multiset(r) + multiset{t}
  {
    if r == [] then [t]
    else
      var n := |r| - 1;
      assert r == r[..n] + [r[n]];
      if r[n].offset <= t.offset then r + [t] else Insert(r[..n], t) + [r[n]]
  }

  lemma {:induction false} InsertSorted(r: seq<GgufTensor>, t: GgufTensor)
    requires Sorted(r)
    ensures Sorted(Insert(r, t))
  {
    if r != [] && r[|r| - 1].offset > t.offset {
      var n := |r| - 1;
      var s := Insert(r[..n], t);
      InsertSorted(r[..n], t);
      forall i | 0 <= i < |s| ensures s[i].offset <= r[n].offset {
        assert s[i] in multiset(s);
        assert s[i] in multiset(r[..n]) || s[i] == t;
      }
    }
  }

  /** The library sort: some sorted rearrangement (equal offsets in either order). */
  method SortByOffset(ts: seq<GgufTensor>) returns (r: seq<GgufTensor>)
    ensures Sorted(r) && multiset(r) == multiset(ts)
  {
    r := [];
    for i := 0 to |ts|
      invariant Sorted(r) && multiset(r) == multiset(ts[..i])
    {
      assert ts[..i + 1] == ts[..i] + [ts[i]];
      InsertSorted(r, ts[i]);
      r := Insert(r, ts[i]);
    }
    assert ts[..|ts|] == ts;
  }

  /** Bytes of the i-th tensor in offset order: up to the next one, the last up to the end
      of the file. */
  function SizeAt(ts: seq<GgufTensor>, i: nat, dataStart: nat, fileSize: nat): nat
    requires i < |ts| && (i + 1 < |ts| ==> ts[i].offset <= ts[i + 1].offset)
  {
    if i + 1 < |ts| then ts[i + 1].offset - ts[i].offset
    else
      var lastEnd := dataStart + ts[i].offset;
      if lastEnd <= fileSize then fileSize - lastEnd else 0
  }

  ghost predicate SizedAs(sized: seq<GgufTensor>, ts: seq<GgufTensor>, dataStart: nat, fileSize: nat)
    requires Sorted(ts)
  {
    && |sized| == |ts|
    && forall i :: 0 <= i < |ts| ==> sized[i] == ts[i].(size := SizeAt(ts, i, dataStart, fileSize))
  }

  method AssignSizes(ts: seq<GgufTensor>, dataStart: nat, fileSize: nat) returns (sized: seq<GgufTensor>)
    requires Sorted(ts)
    ensures SizedAs(sized, ts, dataStart, fileSize)
  {
    sized := ts;
    if |ts| == 0 {
      return;
    }
    for i := 0 to |ts| - 1
      invariant |sized| == |ts|
      invariant forall j :: 0 <= j < i ==> sized[j] == ts[j].(size := SizeAt(ts, j, dataStart, fileSize))
      invariant forall j :: i <= j < |ts| ==> sized[j] == ts[j]
    {
      sized := sized[i := sized[i].(size := sized[i + 1].offset - sized[i].offset)];
    }
    var last := |ts| - 1;
    var lastEnd := dataStart + sized[last].offset;
    sized := sized[last := sized[last].(size := if lastEnd <= fileSize then fileSize - lastEnd else 0)];
  }

  function TotalSize(ts: seq<GgufTensor>): nat {
    if ts == [] then 0 else TotalSize(ts[..|ts| - 1]) + ts[|ts| - 1].size
  }

  /** The sizes up to tensor n add up to the span of offsets. */
  lemma {:induction false} SizesTelescope(sized: seq<GgufTensor>, ts: seq<GgufTensor>,
                                          dataStart: nat, fileSize: nat, n: nat)
    requires Sorted(ts) && SizedAs(sized, ts, dataStart, fileSize) && n < |ts|
    ensures TotalSize(sized[..n]) == ts[n].offset - ts[0].offset
  {
    if n > 0 {
      SizesTelescope(sized, ts, dataStart, fileSize, n - 1);
      assert sized[..n][..n - 1] == sized[..n - 1];
    }
  }

  /** The slices cover the data section from the first tensor to the end of the file. */
  lemma SizesCover(sized: seq<GgufTensor>, ts: seq<GgufTensor>, dataStart: nat, fileSize: nat)
    requires Sorted(ts) && SizedAs(sized, ts, dataStart, fileSize) && |ts| > 0
    requires dataStart + ts[|ts| - 1].offset <= fileSize
    ensures TotalSize(sized) == fileSize - dataStart - ts[0].offset
  {
    var n := |ts| - 1;
    SizesTelescope(sized, ts, dataStart, fileSize, n);
  }

  /** If the last tensor starts past the end of the file it gets nothing. */
  lemma SizesShort(sized: seq<GgufTensor>, ts: seq<GgufTensor>, dataStart: nat, fileSize: nat)
    requires Sorted(ts) && SizedAs(sized, ts, dataStart, fileSize) && |ts| > 0
    requires dataStart + ts[|ts| - 1].offset > fileSize
    ensures sized[|ts| - 1].size == 0 && TotalSize(sized) == ts[|ts| - 1].offset - ts[0].offset
  {
    SizesTelescope(sized, ts, dataStart, fileSize, |ts| - 1);
  }

  // ---------------------------------------------------------------- aligned slices

  function Align(cursor: nat, alignment: nat): nat
    requires alignment > 0
  {
    Times(Div(cursor + alignment - 1, alignment), alignment)
  }

  lemma AlignIs(cursor: nat, alignment: nat)
    requires alignment > 0
    ensures cursor <= Align(cursor, alignment) < cursor + alignment
    ensures Align(cursor, alignment) % alignment == 0
  {
    var x := cursor + alignment - 1;
    Euclid(x, alignment);
    Quotient(Div(x, alignment), 0, alignment);
    assert Mod(Align(cursor, alignment), alignment) == 0;
  }

  /** The write cursor after n slices, and where slice n starts. */
  function CursorAfter(ts: seq<GgufTensor>, alignment: nat, n: nat): nat
    requires alignment > 0 && n <= |ts|
    decreases n, 0
  {
    if n == 0 then 0 else StartOf(ts, alignment, n - 1) + ts[n - 1].size
  }

  function StartOf(ts: seq<GgufTensor>, alignment: nat, n: nat): nat
    requires alignment > 0 && n < |ts|
    decreases n, 1
  {
    Align(CursorAfter(ts, alignment, n), alignment)
  }

  lemma SlicesDisjoint(ts: seq<GgufTensor>, alignment: nat, i: nat, j: nat)
    requires alignment > 0 && i < j <= |ts|
    ensures StartOf(ts, alignment, i) + ts[i].size <= CursorAfter(ts, alignment, j)
    ensures j < |ts| ==> StartOf(ts, alignment, i) + ts[i].size <= StartOf(ts, alignment, j)
    decreases j
  {
    if i < j - 1 {
      SlicesDisjoint(ts, alignment, i, j - 1);
    }
    AlignIs(CursorAfter(ts, alignment, j), alignment);
  }

  // ---------------------------------------------------------------- copying

  function Zeros(n: nat): (s: seq<Byte>)
    ensures |s| == n
  {
    seq(n, _ => 0)
  }

  /** n bytes from src in 16 MiB chunks; from the first chunk that cannot be read, zeros. */
  function Copied(f: seq<Byte>, src: nat, n: nat): (s: seq<Byte>)
    ensures |s| == n
    decreases n
  {
    var k := if n > CHUNK then CHUNK else n;
    if n == 0 then []
    else if src + k > |f| then Zeros(n)
    else f[src..src + k] + Copied(f, src + k, n - k)
  }

  lemma SplitRange(f: seq<Byte>, a: nat, b: nat, c: nat)
    requires a <= b <= c <= |f|
    ensures f[a..b] + f[b..c] == f[a..c]
  {
  }

  lemma Associates(a: seq<Byte>, b: seq<Byte>, c: seq<Byte>)
    ensures a + (b + c) == a + b + c
  {
  }

  lemma ZerosSplit(n: nat, m: nat)
    ensures Zeros(n + m) == Zeros(n) + Zeros(m)
  {
  }

  function ChunkSize(remaining: nat): nat {
    if remaining > CHUNK then CHUNK else remaining
  }

  lemma CopiedStep(f: seq<Byte>, at: nat, remaining: nat)
    requires remaining > 0
    ensures var n := ChunkSize(remaining);
      Copied(f, at, remaining)
      == if at + n > |f| then Zeros(remaining) else f[at..at + n] + Copied(f, at + n, remaining - n)
  {
  }

  lemma {:induction false} CopiedInside(f: seq<Byte>, src: nat, n: nat)
    requires src + n <= |f|
    ensures Copied(f, src, n) == f[src..src + n]
    decreases n
  {
    hide Copied;
    if n > 0 {
      var k := ChunkSize(n);
      CopiedStep(f, src, n);
      CopiedInside(f, src + k, n - k);
      SplitRange(f, src, src + k, src + n);
    } else {
      CopiedNothing(f, src);
    }
  }

  /** What a short file gives: the whole chunks of 16 MiB that it holds, and zeros from the first
      one that it does not. */
  lemma {:induction false} CopiedShort(f: seq<Byte>, src: nat, n: nat, chunks: nat)
    requires src + n > |f| && src + chunks * 0x100_0000 <= |f| < src + (chunks + 1) * 0x100_0000
    ensures chunks * 0x100_0000 <= n
    ensures Copied(f, src, n) == f[src..src + chunks * 0x100_0000] + Zeros(n - chunks * 0x100_0000)
    decreases chunks
  {
    hide Copied, Zeros;
    var k := ChunkSize(n);
    CopiedStep(f, src, n);
    if chunks > 0 {
      CopiedShort(f, src + k, n - k, chunks - 1);
      SplitRange(f, src, src + k, src + chunks * 0x100_0000);
      Associates(f[src..src + k], f[src + k..src + chunks * 0x100_0000], Zeros(n - chunks * 0x100_0000));
    } else {
      assert f[src..src] + Zeros(n) == Zeros(n);
    }
  }

  lemma CopiedNothing(f: seq<Byte>, src: nat)
    requires src <= |f|
    ensures Copied(f, src, 0) == f[src..src]
  {
  }

  method CopySlice(f: seq<Byte>, src: nat, size: nat) returns (d: seq<Byte>)
    ensures d == Copied(f, src, size)
  {
    hide Copied, Zeros;
    d := [];
    var remaining: nat := size;
    while remaining > 0
      invariant remaining <= size
      invariant d + Copied(f, src + (size - remaining), remaining) == Copied(f, src, size)
    {
      var n := ChunkSize(remaining);
      var at := src + (size - remaining);
      CopiedStep(f, at, remaining);
      if at + n > |f| {
        break;
      }
      Associates(d, f[at..at + n], Copied(f, at + n, remaining - n));
      d := d + f[at..at + n];
      remaining := remaining - n;
    }
    d := PadShortRead(d, remaining);
  }

  /** A file shorter than its header says is made up with zeros. */
  method PadShortRead(start: seq<Byte>, short: nat) returns (d: seq<Byte>)
    ensures d == start + Zeros(short)
  {
    hide Zeros;
    d := start;
    var remaining: nat := short;
    while remaining > 0
      invariant remaining <= short
      invariant d + Zeros(remaining) == start + Zeros(short)
    {
      var n := ChunkSize(remaining);
      ZerosSplit(n, remaining - n);
      Associates(d, Zeros(n), Zeros(remaining - n));
      d := d + Zeros(n);
      remaining := remaining - n;
    }
  }

  /** Writing d at position p past the end of a file; nothing happens for no bytes. */
  function WriteAt(out: seq<Byte>, p: nat, d: seq<Byte>): seq<Byte>
    requires |out| <= p
  {
    if d == [] then out else out + Zeros(p - |out|) + d
  }

  /** Nothing before is touched, and a gap is filled with zeros. */
  lemma GapIsZero(out: seq<Byte>, p: nat, d: seq<Byte>)
    requires |out| <= p && d != []
    ensures |WriteAt(out, p, d)| == p + |d| && WriteAt(out, p, d)[..|out|] == out
    ensures forall x :: |out| <= x < p ==> WriteAt(out, p, d)[x] == 0
    ensures WriteAt(out, p, d)[p..] == d
  {
  }

  /** The slice of `out` at `p` is d. */
  ghost predicate Slice(out: seq<Byte>, p: nat, d: seq<Byte>) {
    d == [] || (p + |d| <= |out| && out[p..p + |d|] == d)
  }

  lemma WriteKeepsSlice(out: seq<Byte>, p: nat, d: seq<Byte>, q: nat, e: seq<Byte>)
    requires |out| <= p
    ensures Slice(WriteAt(out, p, d), p, d)
    ensures Slice(out, q, e) ==> Slice(WriteAt(out, p, d), q, e)
  {
    if d != [] {
      var r := WriteAt(out, p, d);
      assert r[p..p + |d|] == d;
      if q + |e| <= |out| {
        assert r[q..q + |e|] == out[q..q + |e|];
      }
    }
  }

  // ---------------------------------------------------------------- the repack

  datatype Output = Output(bytes: seq<Byte>, coords: seq<(Name, Coordinate)>, payloadSize: nat)

  /** Slice i of the output: aligned, described by coordinate i, and the copy of its source. */
  ghost predicate SliceSound(o: Output, f: seq<Byte>, ts: seq<GgufTensor>, dataStart: nat, alignment: nat, i: nat)
    requires alignment > 0 && i < |ts| && i < |o.coords|
  {
    && o.coords[i] == (ts[i].name, Coordinate(StartOf(ts, alignment, i), ts[i].size, ts[i].kind, 0))
    && Slice(o.bytes, StartOf(ts, alignment, i), Copied(f, dataStart + ts[i].offset, ts[i].size))
  }

  method Repack(f: seq<Byte>, ts: seq<GgufTensor>, dataStart: nat, alignment: nat) returns (o: Output)
    requires alignment > 0
    ensures |o.coords| == |ts| && |o.bytes| <= o.payloadSize == CursorAfter(ts, alignment, |ts|)
    ensures forall i :: 0 <= i < |ts| ==> SliceSound(o, f, ts, dataStart, alignment, i)
  {
    hide Copied, Slice, WriteAt, Align;
    o := Output([], [], 0);
    for n := 0 to |ts|
      invariant |o.coords| == n && |o.bytes| <= o.payloadSize == CursorAfter(ts, alignment, n)
      invariant forall i :: 0 <= i < n ==> SliceSound(o, f, ts, dataStart, alignment, i)
    {
      var t := ts[n];
      AlignIs(o.payloadSize, alignment);
      var aligned := (o.payloadSize + alignment - 1) / alignment * alignment;
      assert aligned == Align(o.payloadSize, alignment) by {
        AlignWritten(o.payloadSize, alignment);
      }
      var d := CopySlice(f, dataStart + t.offset, t.size);
      ghost var before := o;
      WrittenLength(o.bytes, aligned, d);
      var coord := Coordinate(aligned, t.size, t.kind, 0);
      o := Output(WriteAt(o.bytes, aligned, d), o.coords + [(t.name, coord)], aligned + t.size);
      forall i | 0 <= i <= n
        ensures SliceSound(o, f, ts, dataStart, alignment, i)
      {
        if i < n {
          assert SliceSound(before, f, ts, dataStart, alignment, i);
          WriteKeepsSlice(before.bytes, aligned, d, StartOf(ts, alignment, i),
                           Copied(f, dataStart + ts[i].offset, ts[i].size));
        } else {
          WriteKeepsSlice(before.bytes, aligned, d, 0, []);
        }
      }
    }
  }

  lemma AlignWritten(cursor: nat, alignment: nat)
    requires alignment > 0
    ensures (cursor + alignment - 1) / alignment * alignment == Align(cursor, alignment)
  {
  }

  lemma WrittenLength(out: seq<Byte>, p: nat, d: seq<Byte>)
    requires |out| <= p
    ensures |WriteAt(out, p, d)| <= p + |d|
  {
  }

  /** What an ingest of a readable file promises about its output: the slices are the
      table's tensors in offset order, aligned, disjoint, padded by less than an alignment
      unit, and the copies of their source ranges. */
  ghost predicate Repacked(o: Output, f: seq<Byte>, sorted: seq<GgufTensor>, dataStart: nat, alignment: nat)
    requires alignment > 0
  {
    && |o.coords| == |sorted| && Sorted(sorted)
    && (forall i :: 0 <= i < |sorted| ==> SliceOf(o, f, sorted, dataStart, alignment, i))
    && (forall i, j :: 0 <= i < j < |sorted| ==>
          o.coords[i].1.absoluteOffset + o.coords[i].1.byteSize <= o.coords[j].1.absoluteOffset)
  }

  function EndIn(c: Coordinate): nat {
    c.absoluteOffset + c.byteSize
  }

  ghost predicate SliceOf(o: Output, f: seq<Byte>, sorted: seq<GgufTensor>, dataStart: nat, alignment: nat, i: nat)
    requires alignment > 0 && i < |sorted| == |o.coords| && Sorted(sorted)
  {
    var (name, c) := o.coords[i];
    && name == sorted[i].name && c.quantType == sorted[i].kind
    && c.absoluteOffset % alignment == 0
    && (i == 0 ==> c.absoluteOffset == 0)
    && (i > 0 ==> c.absoluteOffset < EndIn(o.coords[i - 1].1) + alignment)
    && c.byteSize == SizeAt(sorted, i, dataStart, |f|)
    && Slice(o.bytes, c.absoluteOffset, Copied(f, dataStart + sorted[i].offset, c.byteSize))
  }

  /** Slice i holds, byte for byte, the file from its tensor's start to the next one's. */
  ghost predicate SourceOf(o: Output, f: seq<Byte>, sorted: seq<GgufTensor>, dataStart: nat, i: nat)
    requires i < |sorted| == |o.coords|
  {
    var c := o.coords[i].1;
    var src := dataStart + sorted[i].offset;
    var end := if i + 1 < |sorted| then dataStart + sorted[i + 1].offset else |f|;
    src <= end <= |f| && c.byteSize == end - src && Slice(o.bytes, c.absoluteOffset, f[src..end])
  }

  lemma RepackedSound(o: Output, f: seq<Byte>, sorted: seq<GgufTensor>, sized: seq<GgufTensor>,
                      dataStart: nat, alignment: nat)
    requires alignment > 0 && Sorted(sorted) && SizedAs(sized, sorted, dataStart, |f|)
    requires |o.coords| == |sized| && forall i :: 0 <= i < |sized| ==> SliceSound(o, f, sized, dataStart, alignment, i)
    ensures Repacked(o, f, sorted, dataStart, alignment)
  {
    hide Slice, Copied, Align;
    forall i | 0 <= i < |sorted|
      ensures SliceOf(o, f, sorted, dataStart, alignment, i)
    {
      assert SliceSound(o, f, sized, dataStart, alignment, i);
      AlignIs(CursorAfter(sized, alignment, i), alignment);
      if i > 0 {
        assert SliceSound(o, f, sized, dataStart, alignment, i - 1);
      } else {
        AlignZero(alignment);
      }
    }
    forall i, j | 0 <= i < j < |sorted|
      ensures o.coords[i].1.absoluteOffset + o.coords[i].1.byteSize <= o.coords[j].1.absoluteOffset
    {
      assert SliceSound(o, f, sized, dataStart, alignment, i) && SliceSound(o, f, sized, dataStart, alignment, j);
      SlicesDisjoint(sized, alignment, i, j);
    }
  }

  /** Where the last tensor starts inside the file, nothing is filled in. */
  lemma RepackedFromSource(o: Output, f: seq<Byte>, sorted: seq<GgufTensor>, dataStart: nat, alignment: nat)
    requires alignment > 0 && Repacked(o, f, sorted, dataStart, alignment) && LastStartsInside(f, sorted, dataStart)
    ensures forall i :: 0 <= i < |sorted| ==> SourceOf(o, f, sorted, dataStart, i)
  {
    hide Slice, Copied;
    forall i | 0 <= i < |sorted|
      ensures SourceOf(o, f, sorted, dataStart, i)
    {
      assert SliceOf(o, f, sorted, dataStart, alignment, i);
      assert sorted[i].offset <= sorted[|sorted| - 1].offset;
      CopiedInside(f, dataStart + sorted[i].offset, o.coords[i].1.byteSize);
    }
  }

  lemma AlignZero(alignment: nat)
    requires alignment > 0
    ensures Align(0, alignment) == 0
  {
    Quotient(0, alignment - 1, alignment);
    TimesZero(alignment);
  }

  function SizeSum(coords: seq<(Name, Coordinate)>): nat {
    if coords == [] then 0 else SizeSum(coords[..|coords| - 1]) + coords[|coords| - 1].1.byteSize
  }

  lemma {:induction false} SizeSumIs(coords: seq<(Name, Coordinate)>, ts: seq<GgufTensor>)
    requires |coords| == |ts| && forall i :: 0 <= i < |ts| ==> coords[i].1.byteSize == ts[i].size
    ensures SizeSum(coords) == TotalSize(ts)
  {
    if ts != [] {
      SizeSumIs(coords[..|ts| - 1], ts[..|ts| - 1]);
    }
  }

  predicate LastStartsInside(f: seq<Byte>, sorted: seq<GgufTensor>, dataStart: nat) {
    |sorted| > 0 && dataStart + sorted[|sorted| - 1].offset <= |f|
  }

  /** The whole ingest.  It refuses exactly the files whose header does not read, that hold
      no tensor, or whose slices are all empty at offset zero. */
  method IngestGguf(f: seq<Byte>, alignment: nat) returns (ok: bool, o: Output, sorted: seq<GgufTensor>)
    requires alignment > 0
    ensures ok ==> StreamHeader(f).Some? && o.payloadSize > 0 && sorted != []
    ensures StreamHeader(f).Some? ==>
      && Sorted(sorted) && multiset(sorted) == multiset(StreamHeader(f).value.0)
      && (ok <==> sorted != [] && o.payloadSize > 0)
      && |o.coords| == |sorted| && o.payloadSize == (if sorted == [] then 0 else EndIn(o.coords[|sorted| - 1].1))
      && Repacked(o, f, sorted, StreamHeader(f).value.1, alignment)
    ensures StreamHeader(f).Some? && LastStartsInside(f, sorted, StreamHeader(f).value.1) ==>
      && (forall i :: 0 <= i < |sorted| ==> SourceOf(o, f, sorted, StreamHeader(f).value.1, i))
      && SizeSum(o.coords) == |f| - StreamHeader(f).value.1 - sorted[0].offset
  {
    o, sorted := Output([], [], 0), [];
    var header := ReadHeader(f);
    if header.None? {
      return false, o, sorted;
    }
    hide StreamHeader, Repacked, SliceSound, SourceOf;
    var (tensors, dataStart) := header.value;
    sorted := SortByOffset(tensors);
    var sized := AssignSizes(sorted, dataStart, |f|);
    o := Repack(f, sized, dataStart, alignment);
    ok := |o.coords| > 0 && o.payloadSize > 0;
    RepackedSound(o, f, sorted, sized, dataStart, alignment);
    PayloadEnds(o, f, sized, dataStart, alignment);
    if |sorted| > 0 && dataStart + sorted[|sorted| - 1].offset <= |f| {
      RepackedFromSource(o, f, sorted, dataStart, alignment);
      SizesCover(sized, sorted, dataStart, |f|);
      CoordSizes(o, f, sized, dataStart, alignment);
      SizeSumIs(o.coords, sized);
    }
  }

  /** The payload ends where the last slice does. */
  lemma PayloadEnds(o: Output, f: seq<Byte>, ts: seq<GgufTensor>, dataStart: nat, alignment: nat)
    requires alignment > 0 && |o.coords| == |ts| && o.payloadSize == CursorAfter(ts, alignment, |ts|)
    requires forall i :: 0 <= i < |ts| ==> SliceSound(o, f, ts, dataStart, alignment, i)
    ensures o.payloadSize == if ts == [] then 0 else EndIn(o.coords[|ts| - 1].1)
  {
    if ts != [] {
      assert SliceSound(o, f, ts, dataStart, alignment, |ts| - 1);
    }
  }

  lemma CoordSizes(o: Output, f: seq<Byte>, ts: seq<GgufTensor>, dataStart: nat, alignment: nat)
    requires alignment > 0 && |o.coords| == |ts|
    requires forall i :: 0 <= i < |ts| ==> SliceSound(o, f, ts, dataStart, alignment, i)
    ensures forall i :: 0 <= i < |ts| ==> o.coords[i].1.byteSize == ts[i].size
  {
    forall i | 0 <= i < |ts| ensures o.coords[i].1.byteSize == ts[i].size {
      assert SliceSound(o, f, ts, dataStart, alignment, i);
    }
  }
}
