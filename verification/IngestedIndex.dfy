/** From a repacked file to its index and back: the ordinals of a loaded index name the
    slices of the repacked file, in order. */
module IngestedIndex {
  import opened DirectStorage
  import opened GgufPadding
  import opened GgufStream
  import opened Ingest
  import opened LittleEndian
  import opened ModelLoading
  import opened TensorIndexes

  /** Every number of the index fits its field of the binary form. */
  predicate Fits(o: Output, alignment: nat) {
    && |o.coords| < Pow256(4) && alignment < Pow256(4) && o.payloadSize < Pow256(8)
    && forall i :: 0 <= i < |o.coords| ==> ValidCoord(o.coords[i].1)
  }

  /** The hash tells the numbers below n apart. */
  ghost predicate Separates(hash: Name -> Key, n: nat) {
    forall i: nat, j: nat :: i < n && j < n && hash(Decimal(i)) == hash(Decimal(j)) ==> Decimal(i) == Decimal(j)
  }

  /** Building the index of a repacked file, writing it out, loading it again and asking for
      number i finds the coordinate of slice i. */
  method FindSlice(o: Output, alignment: nat, hash: Name -> Key, i: nat) returns (out: Coordinate)
    requires Fits(o, alignment) && Separates(hash, |o.coords|) && i < |o.coords|
    ensures out == o.coords[i].1
  {
    var index := new TensorIndex(hash);
    index.Build(o.coords, o.payloadSize, alignment);
    Widths();
    var copy := RoundTrip(index);
    assert |copy.entries| == |copy.Coords()| == |index.Coords()| == |o.coords|;
    assert copy.entries[i].1 == copy.Coords()[i] == index.Coords()[i];
    out := LookupOrdinal(copy, i);
  }

  /** The whole way, for a printed file whose metadata end aligned: number i of the loaded
      index is where tensor i's own data are in the repacked file. */
  method IngestThenFind(f: File, fileAlignment: nat, alignment: nat, hash: Name -> Key, i: nat)
    returns (ok: bool, o: Output, sorted: seq<GgufTensor>, out: Coordinate)
    requires Streamable(f) && DataCovers(f) && i < |f.table| && fileAlignment > 0 && alignment > 0
    requires |Metadata(f)| % fileAlignment == 0 && Separates(hash, |f.table|)
    ensures Sorted(sorted) && multiset(sorted) == multiset(TensorsOf(f.table)) && |sorted| == |f.table|
    ensures |o.coords| == |f.table| && (ok <==> o.payloadSize > 0)
    ensures ok && Fits(o, alignment) ==>
      sorted[i].offset <= EndOf(f, sorted, i) <= |f.payload|
      && out.byteSize == EndOf(f, sorted, i) - sorted[i].offset
      && Slice(o.bytes, out.absoluteOffset, f.payload[sorted[i].offset..EndOf(f, sorted, i)])
  {
    ok, o, sorted := IngestPrinted(f, fileAlignment, alignment);
    assert |sorted| == |multiset(sorted)| == |multiset(TensorsOf(f.table))| == |f.table|;
    assert OwnSlice(f, sorted, o, i);
    out := o.coords[i].1;
    if ok && Fits(o, alignment) {
      out := FindSlice(o, alignment, hash, i);
    }
  }
}
