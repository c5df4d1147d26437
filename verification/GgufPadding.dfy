/** Where the tensor data of a GGUF file starts.  The format pads the metadata up to a
    multiple of the file's alignment and counts tensor offsets from there;
    src/dxstream/dxstream.cpp counts them from the end of the tensor table. */
module GgufPadding {
  import opened GgufStream
  import opened Index
  import opened Ingest
  import opened LittleEndian
  import opened ModelLoading

  /** Header, key-values and table, which `EncodeFile` prints before the payload. */
  function Metadata(f: File): seq<Byte> {
    EncodeFile(f.(payload := []))
  }

  /** The bytes from `size` to the next multiple of the alignment. */
  function PadFrom(size: nat, alignment: nat): nat
    requires alignment > 0
  {
    AlignIs(size, alignment);
    Align(size, alignment) - size
  }

  /** The bytes between the metadata and the tensor data. */
  function Padding(f: File, fileAlignment: nat): nat
    requires fileAlignment > 0
  {
    PadFrom(|Metadata(f)|, fileAlignment)
  }

  /** A file as the format prints it: metadata, padding, tensor data. */
  function EncodePadded(f: File, fileAlignment: nat): seq<Byte>
    requires fileAlignment > 0
  {
    EncodeFile(f.(payload := Zeros(Padding(f, fileAlignment)) + f.payload))
  }

  lemma PadZeroIff(size: nat, alignment: nat)
    requires alignment > 0
    ensures PadFrom(size, alignment) < alignment && (size + PadFrom(size, alignment)) % alignment == 0
    ensures PadFrom(size, alignment) == 0 <==> size % alignment == 0
  {
    AlignIs(size, alignment);
    if size % alignment == 0 {
      AlignedAlready(size, alignment);
    }
  }

  lemma AlignedAlready(m: nat, a: nat)
    requires a > 0 && m % a == 0
    ensures Align(m, a) == m
  {
    Euclid(m, a);
    Quotient(Div(m, a), a - 1, a);
  }

  lemma EncodeSplits(f: File)
    ensures EncodeFile(f) == Metadata(f) + f.payload
  {
    var t := EncodeTable(f.table);
    var k, n := EncodeKvs(f.kvs), Bytes(|f.kvs|, 8);
    var c, v, m := Bytes(|f.table|, 8), Bytes(f.version, 4), Bytes(GGUF_MAGIC, 4);
    hide Bytes, EncodeKvs, EncodeTable;
    assert t + [] == t;
    Associate(k, t, f.payload);
    Associate(n, k + t, f.payload);
    Associate(c, n + (k + t), f.payload);
    Associate(v, c + (n + (k + t)), f.payload);
    Associate(m, v + (c + (n + (k + t))), f.payload);
  }

  lemma Associate(a: seq<Byte>, b: seq<Byte>, c: seq<Byte>)
    ensures a + (b + c) == a + b + c
  {
  }

  /** A padded file is metadata, zeros and data. */
  lemma PaddedSplits(f: File, fileAlignment: nat)
    requires fileAlignment > 0
    ensures EncodePadded(f, fileAlignment) == Metadata(f) + Zeros(Padding(f, fileAlignment)) + f.payload
  {
    hide EncodeFile, PadFrom;
    var zeros := Zeros(Padding(f, fileAlignment));
    var padded := f.(payload := zeros + f.payload);
    EncodeSplits(padded);
    assert padded.(payload := []) == f.(payload := []);
    assert Metadata(f) + (zeros + f.payload) == Metadata(f) + zeros + f.payload;
  }

  /** The stream reader of a padded file finds the table and the end of the metadata. */
  lemma PaddedReads(f: File, fileAlignment: nat)
    requires Streamable(f) && fileAlignment > 0
    ensures EncodePadded(f, fileAlignment) == Metadata(f) + Zeros(Padding(f, fileAlignment)) + f.payload
    ensures StreamHeader(EncodePadded(f, fileAlignment)) == Some((TensorsOf(f.table), |Metadata(f)|))
  {
    hide EncodeFile, PadFrom, StreamHeader;
    var padded := f.(payload := Zeros(Padding(f, fileAlignment)) + f.payload);
    PaddedSplits(f, fileAlignment);
    assert padded.(payload := []) == f.(payload := []);
    EncodeSplits(padded);
    SamePrinted(f, padded);
    StreamsFile(padded);
  }

  lemma SamePrinted(f: File, g: File)
    requires Streamable(f) && g == f.(payload := g.payload)
    ensures Streamable(g)
  {
  }

  /** Every tensor starts inside the tensor data. */
  ghost predicate DataCovers(f: File) {
    forall i :: 0 <= i < |f.table| ==> f.table[i].offset <= |f.payload|
  }

  /** The end of tensor i in the tensor data: where the next one starts, or its end. */
  function EndOf(f: File, sorted: seq<GgufTensor>, i: nat): nat
    requires i < |sorted|
  {
    if i + 1 < |sorted| then sorted[i + 1].offset else |f.payload|
  }

  /** Slice i is the i-th tensor's own data, no more and no less. */
  ghost predicate OwnSlice(f: File, sorted: seq<GgufTensor>, o: Output, i: nat)
    requires i < |sorted| == |o.coords|
  {
    var (name, c) := o.coords[i];
    var start, end := sorted[i].offset, EndOf(f, sorted, i);
    && start <= end <= |f.payload| && name == sorted[i].name
    && c.byteSize == end - start && Slice(o.bytes, c.absoluteOffset, f.payload[start..end])
  }

  /** What `IngestGguf` promises of a padded file. */
  ghost predicate Ingested(f: File, fileAlignment: nat, sorted: seq<GgufTensor>, o: Output, alignment: nat)
    requires fileAlignment > 0 && alignment > 0
  {
    && Sorted(sorted) && multiset(sorted) == multiset(TensorsOf(f.table))
    && Repacked(o, EncodePadded(f, fileAlignment), sorted, |Metadata(f)|, alignment)
  }

  lemma StartsInside(f: File, fileAlignment: nat, sorted: seq<GgufTensor>, i: nat)
    requires Streamable(f) && DataCovers(f) && fileAlignment > 0 && i < |sorted|
    requires multiset(sorted) == multiset(TensorsOf(f.table))
    ensures sorted[i].offset <= |f.payload|
    ensures |Metadata(f)| + sorted[i].offset <= |EncodePadded(f, fileAlignment)|
  {
    assert sorted[i] in multiset(sorted);
    assert sorted[i] in TensorsOf(f.table);
    PaddedReads(f, fileAlignment);
  }

  lemma AfterMetadata(m: seq<Byte>, z: seq<Byte>, d: seq<Byte>, x: nat, y: nat)
    requires z == [] && x <= y <= |d|
    ensures (m + z + d)[|m| + x..|m| + y] == d[x..y]
  {
  }

  /** Ingesting a padded file gives every tensor its own data if and only if the metadata
      happens to end on a multiple of the file's alignment. */
  lemma OwnSlicesIff(f: File, fileAlignment: nat, sorted: seq<GgufTensor>, o: Output, alignment: nat)
    requires Streamable(f) && DataCovers(f) && f.table != [] && fileAlignment > 0 && alignment > 0
    requires Ingested(f, fileAlignment, sorted, o, alignment)
    ensures |sorted| == |o.coords| == |f.table|
    ensures (forall i :: 0 <= i < |sorted| ==> OwnSlice(f, sorted, o, i)) <==> |Metadata(f)| % fileAlignment == 0
  {
    hide Metadata, PadFrom, SliceOf, Slice, SourceOf, OwnSlice, EncodePadded, EncodeFile, Streamable;
    var file, m, last := EncodePadded(f, fileAlignment), |Metadata(f)|, |f.table| - 1;
    assert |multiset(sorted)| == |multiset(TensorsOf(f.table))|;
    PadZeroIff(m, fileAlignment);
    StartsInside(f, fileAlignment, sorted, last);
    RepackedFromSource(o, file, sorted, m, alignment);
    if Padding(f, fileAlignment) == 0 {
      forall i | 0 <= i < |sorted|
        ensures OwnSlice(f, sorted, o, i)
      {
        StartsInside(f, fileAlignment, sorted, i);
        UnpaddedSlice(f, fileAlignment, sorted, o, alignment, i);
      }
    } else {
      PaddedSlice(f, fileAlignment, sorted, o, last);
    }
  }

  lemma UnpaddedSlice(f: File, fileAlignment: nat, sorted: seq<GgufTensor>, o: Output, alignment: nat, i: nat)
    requires fileAlignment > 0 && alignment > 0 && Padding(f, fileAlignment) == 0
    requires Sorted(sorted) && i < |sorted| == |o.coords| && sorted[i].offset <= |f.payload|
    requires SourceOf(o, EncodePadded(f, fileAlignment), sorted, |Metadata(f)|, i)
    requires SliceOf(o, EncodePadded(f, fileAlignment), sorted, |Metadata(f)|, alignment, i)
    ensures OwnSlice(f, sorted, o, i)
  {
    hide *;
    PaddedSplits(f, fileAlignment);
    SliceNames(o, EncodePadded(f, fileAlignment), sorted, |Metadata(f)|, alignment, i);
    NoZeros();
    OwnAfter(f, sorted, o, i, EncodePadded(f, fileAlignment), Metadata(f));
  }

  lemma NoZeros()
    ensures Zeros(0) == []
  {
  }

  /** Right behind the metadata every range of the file is the same range of the data. */
  lemma OwnAfter(f: File, sorted: seq<GgufTensor>, o: Output, i: nat, file: seq<Byte>, m: seq<Byte>)
    requires i < |sorted| == |o.coords| && file == m + [] + f.payload && o.coords[i].0 == sorted[i].name
    requires SourceOf(o, file, sorted, |m|, i)
    ensures OwnSlice(f, sorted, o, i)
  {
    hide Slice;
    AfterMetadata(m, [], f.payload, sorted[i].offset, EndOf(f, sorted, i));
  }

  /** With padding the last slice is too long by as much. */
  lemma PaddedSlice(f: File, fileAlignment: nat, sorted: seq<GgufTensor>, o: Output, i: nat)
    requires fileAlignment > 0 && Padding(f, fileAlignment) > 0
    requires |sorted| == |o.coords| && i == |sorted| - 1
    requires SourceOf(o, EncodePadded(f, fileAlignment), sorted, |Metadata(f)|, i)
    ensures !OwnSlice(f, sorted, o, i)
  {
    hide Metadata, Padding, Slice, EncodePadded;
    PaddedSplits(f, fileAlignment);
  }

  lemma SliceNames(o: Output, file: seq<Byte>, sorted: seq<GgufTensor>, dataStart: nat, alignment: nat, i: nat)
    requires alignment > 0 && i < |sorted| == |o.coords| && Sorted(sorted)
    requires SliceOf(o, file, sorted, dataStart, alignment, i)
    ensures o.coords[i].0 == sorted[i].name
  {
  }

  // ---------------------------------------------------------------- one slice

  /** Where a range of the tensor data is in the padded file, and what the code reads for it. */
  function OwnStart(f: File, fileAlignment: nat, start: nat): nat
    requires fileAlignment > 0
  {
    |Metadata(f)| + Padding(f, fileAlignment) + start
  }

  function ReadRange(f: File, fileAlignment: nat, start: nat, end: nat): seq<Byte>
    requires fileAlignment > 0 && start <= end <= |f.payload|
  {
    PaddedSplits(f, fileAlignment);
    EncodePadded(f, fileAlignment)[|Metadata(f)| + start..|Metadata(f)| + end]
  }

  function WithData(f: File, data: seq<Byte>): File {
    f.(payload := data)
  }

  /** For a tensor with data, the code starts reading at the tensor's own place, and reads
      its own bytes whatever the data are, exactly when the metadata end aligned. */
  lemma ReadsOwnBytesIff(f: File, fileAlignment: nat, start: nat, end: nat)
    requires fileAlignment > 0 && start < end <= |f.payload|
    ensures OwnStart(f, fileAlignment, start) == |Metadata(f)| + start <==> |Metadata(f)| % fileAlignment == 0
    ensures (forall data: seq<Byte> :: |data| == |f.payload| ==>
              ReadRange(WithData(f, data), fileAlignment, start, end) == data[start..end])
            <==> |Metadata(f)| % fileAlignment == 0
  {
    PadZeroIff(|Metadata(f)|, fileAlignment);
    if |Metadata(f)| % fileAlignment == 0 {
      forall data: seq<Byte> | |data| == |f.payload|
        ensures ReadRange(WithData(f, data), fileAlignment, start, end) == data[start..end]
      {
        ReadsShifted(f, data, fileAlignment, start, end);
        assert Zeros(0) + data == data;
      }
    } else {
      var data: seq<Byte> := seq(|f.payload|, p => if p == start then 1 else 0);
      ReadsShifted(f, data, fileAlignment, start, end);
      var pad := Padding(f, fileAlignment);
      assert (Zeros(pad) + data)[start..end][0] == 0;
      assert data[start..end][0] == 1;
      assert ReadRange(WithData(f, data), fileAlignment, start, end) != data[start..end];
    }
  }

  /** The code reads the range from the padding on. */
  lemma ReadsShifted(f: File, data: seq<Byte>, fileAlignment: nat, start: nat, end: nat)
    requires fileAlignment > 0 && start <= end <= |data|
    ensures ReadRange(WithData(f, data), fileAlignment, start, end)
         == (Zeros(Padding(f, fileAlignment)) + data)[start..end]
  {
    hide EncodeFile, PadFrom, EncodePadded;
    var g := WithData(f, data);
    assert g.(payload := []) == f.(payload := []);
    PaddedSplits(g, fileAlignment);
    AfterFirst(Metadata(f), Zeros(Padding(f, fileAlignment)), data, start, end);
  }

  lemma AfterFirst(m: seq<Byte>, z: seq<Byte>, d: seq<Byte>, x: nat, y: nat)
    requires x <= y <= |d|
    ensures (m + z + d)[|m| + x..|m| + y] == (z + d)[x..y]
  {
    assert m + z + d == m + (z + d);
  }

  // ---------------------------------------------------------------- an input that fails

  const FILE_ALIGNMENT := 32

  /** No key-values and one tensor called "a". */
  function OneTensor(data: seq<Byte>): File {
    File(3, [], [TensorEntry([97], [|data|], 0, 0)], data)
  }

  lemma OneTensorSizes(data: seq<Byte>)
    ensures |Metadata(OneTensor(data))| == 57 && Padding(OneTensor(data), FILE_ALIGNMENT) == 7
  {
    var table := OneTensor(data).table;
    assert table[1..] == [];
    assert |EncodeDims([|data|])| == 8 by {
      DimsLength([|data|]);
    }
    assert |EncodeEntry(table[0])| == 33;
    assert |EncodeTable(table)| == 33;
    Quotient(2, 24, FILE_ALIGNMENT);
  }

  /** The table ends at byte 57 and the data start at 64: the only slice is the seven bytes
      of padding followed by the data. */
  lemma PaddingCounterexample(data: seq<Byte>, sorted: seq<GgufTensor>, o: Output, alignment: nat)
    requires |data| < Pow256(8) && alignment > 0
    requires Ingested(OneTensor(data), FILE_ALIGNMENT, sorted, o, alignment)
    ensures |sorted| == |o.coords| == 1 && !OwnSlice(OneTensor(data), sorted, o, 0)
    ensures o.coords[0].1.byteSize == 7 + |data|
    ensures Slice(o.bytes, o.coords[0].1.absoluteOffset, Zeros(7) + data)
  {
    hide EncodeFile, PadFrom, SliceOf, Slice, EncodePadded, Metadata;
    var f := OneTensor(data);
    OneTensorSizes(data);
    Widths();
    assert Streamable(f) && DataCovers(f);
    OwnSlicesIff(f, FILE_ALIGNMENT, sorted, o, alignment);
    PaddedReads(f, FILE_ALIGNMENT);
    StartsInside(f, FILE_ALIGNMENT, sorted, 0);
    var file := EncodePadded(f, FILE_ALIGNMENT);
    RepackedFromSource(o, file, sorted, 57, alignment);
    assert SourceOf(o, file, sorted, 57, 0);
    assert sorted[0] in multiset(sorted);
    assert sorted[0] in TensorsOf(f.table);
    assert sorted[0].offset == 0;
    DropMetadata(Metadata(f), Zeros(7), data);
  }

  lemma DropMetadata(m: seq<Byte>, z: seq<Byte>, d: seq<Byte>)
    ensures (m + z + d)[|m|..|m + z + d|] == z + d
  {
    assert m + z + d == m + (z + d);
  }

  // ---------------------------------------------------------------- printed files

  /** Ingesting a printed file whose metadata end aligned: it succeeds whenever there is data
      to write, and slice i is tensor i's own data. */
  method IngestPrinted(f: File, fileAlignment: nat, alignment: nat)
    returns (ok: bool, o: Output, sorted: seq<GgufTensor>)
    requires Streamable(f) && DataCovers(f) && f.table != [] && fileAlignment > 0 && alignment > 0
    requires |Metadata(f)| % fileAlignment == 0
    ensures Sorted(sorted) && multiset(sorted) == multiset(TensorsOf(f.table))
    ensures |sorted| == |o.coords| && forall i :: 0 <= i < |sorted| ==> OwnSlice(f, sorted, o, i)
    ensures ok <==> o.payloadSize > 0
  {
    PaddedReads(f, fileAlignment);
    ok, o, sorted := IngestGguf(EncodePadded(f, fileAlignment), alignment);
    OwnSlicesIff(f, fileAlignment, sorted, o, alignment);
  }
}
