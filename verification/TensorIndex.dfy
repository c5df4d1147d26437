/** The coordinate index of src/dxstream/dxstream.cpp and its binary form: a 56-byte header
    and 24 bytes per coordinate. */
module TensorIndexes {
  import opened DirectStorage
  import opened LittleEndian

  const INDEX_MAGIC := 0x7375697374495844
  const HEADER_SIZE := 56
  const COORD_SIZE := 24
  const ZERO_DIGIT := 48

  datatype Header = Header(magic: nat, count: nat, alignment: nat, payloadSize: nat, reserved: seq<nat>)

  ghost predicate ValidHeader(h: Header) {
    && h.magic < Pow256(8) && h.count < Pow256(4) && h.alignment < Pow256(4) && h.payloadSize < Pow256(8)
    && |h.reserved| == 4 && forall i :: 0 <= i < 4 ==> h.reserved[i] < Pow256(8)
  }

  predicate ValidCoord(c: Coordinate) {
    c.absoluteOffset < Pow256(8) && c.byteSize < Pow256(8) && c.quantType < Pow256(4) && c.padding < Pow256(4)
  }

  // ---------------------------------------------------------------- fixed-width records

  function EncodeHeader(h: Header): seq<Byte>
    requires |h.reserved| == 4
  {
    Bytes(h.magic, 8) + (Bytes(h.count, 4) + (Bytes(h.alignment, 4) + (Bytes(h.payloadSize, 8)
    + EncodeReserved(h.reserved))))
  }

  function DecodeHeader(data: seq<Byte>): (h: Header)
    requires |data| >= HEADER_SIZE
  {
    Header(Field(data, 0, 8), Field(data, 8, 4), Field(data, 12, 4), Field(data, 16, 8),
           [Field(data, 24, 8), Field(data, 32, 8), Field(data, 40, 8), Field(data, 48, 8)])
  }

  function EncodeCoord(c: Coordinate): (s: seq<Byte>)
    ensures |s| == COORD_SIZE
  {
    Bytes(c.absoluteOffset, 8) + (Bytes(c.byteSize, 8) + (Bytes(c.quantType, 4) + Bytes(c.padding, 4)))
  }

  function DecodeCoord(data: seq<Byte>, off: nat): Coordinate
    requires off + COORD_SIZE <= |data|
  {
    Coordinate(Field(data, off, 8), Field(data, off + 8, 8), Field(data, off + 16, 4), Field(data, off + 20, 4))
  }

  /** A field read from data stands where it was read. */
  lemma FieldStands(data: seq<Byte>, off: nat, w: nat)
    requires off + w <= |data|
    ensures At(data, off, Bytes(Field(data, off, w), w))
  {
    BytesOfNumber(data[off..off + w]);
  }

  lemma CoordRead(data: seq<Byte>, off: nat, c: Coordinate)
    requires ValidCoord(c) && At(data, off, EncodeCoord(c))
    ensures off + COORD_SIZE <= |data| && DecodeCoord(data, off) == c
  {
    hide Bytes, Field, At;
    var last := Bytes(c.quantType, 4) + Bytes(c.padding, 4);
    assert off + COORD_SIZE <= |data| by {
      AtFits(data, off, EncodeCoord(c));
    }
    AtParts(data, off, Bytes(c.absoluteOffset, 8), Bytes(c.byteSize, 8) + last);
    AtParts(data, off + 8, Bytes(c.byteSize, 8), last);
    AtParts(data, off + 16, Bytes(c.quantType, 4), Bytes(c.padding, 4));
    FieldAt(data, off, c.absoluteOffset, 8);
    FieldAt(data, off + 8, c.byteSize, 8);
    FieldAt(data, off + 16, c.quantType, 4);
    FieldAt(data, off + 20, c.padding, 4);
  }

  lemma AtFits(data: seq<Byte>, off: nat, s: seq<Byte>)
    requires At(data, off, s)
    ensures off + |s| <= |data| && data[off..off + |s|] == s
  {
  }

  lemma CoordStands(data: seq<Byte>, off: nat)
    requires off + COORD_SIZE <= |data|
    ensures At(data, off, EncodeCoord(DecodeCoord(data, off))) && ValidCoord(DecodeCoord(data, off))
  {
    hide Bytes, Field, At, Number;
    var c := DecodeCoord(data, off);
    var last := Bytes(c.quantType, 4) + Bytes(c.padding, 4);
    FieldStands(data, off, 8);
    FieldStands(data, off + 8, 8);
    FieldStands(data, off + 16, 4);
    FieldStands(data, off + 20, 4);
    AtParts(data, off + 16, Bytes(c.quantType, 4), Bytes(c.padding, 4));
    AtParts(data, off + 8, Bytes(c.byteSize, 8), last);
    AtParts(data, off, Bytes(c.absoluteOffset, 8), Bytes(c.byteSize, 8) + last);
    FieldBound(data, off, 8);
    FieldBound(data, off + 8, 8);
    FieldBound(data, off + 16, 4);
    FieldBound(data, off + 20, 4);
  }

  lemma FieldBound(data: seq<Byte>, off: nat, w: nat)
    requires off + w <= |data|
    ensures Field(data, off, w) < Pow256(w)
  {
  }

  lemma HeaderRead(data: seq<Byte>, h: Header)
    requires ValidHeader(h) && At(data, 0, EncodeHeader(h))
    ensures |data| >= HEADER_SIZE && DecodeHeader(data) == h
  {
    AtFits(data, 0, EncodeHeader(h));
    hide Bytes, Field, At;
    var r0 := Bytes(h.payloadSize, 8) + EncodeReserved(h.reserved);
    var q1 := Bytes(h.alignment, 4) + r0;
    AtParts(data, 0, Bytes(h.magic, 8), Bytes(h.count, 4) + q1);
    AtParts(data, 8, Bytes(h.count, 4), q1);
    AtParts(data, 12, Bytes(h.alignment, 4), r0);
    AtParts(data, 16, Bytes(h.payloadSize, 8), EncodeReserved(h.reserved));
    hide EncodeReserved;
    FieldAt(data, 0, h.magic, 8);
    FieldAt(data, 8, h.count, 4);
    FieldAt(data, 12, h.alignment, 4);
    FieldAt(data, 16, h.payloadSize, 8);
    ReservedRead(data, h.reserved);
  }

  function EncodeReserved(r: seq<nat>): (s: seq<Byte>)
    requires |r| == 4
    ensures |s| == 32
  {
    Bytes(r[0], 8) + (Bytes(r[1], 8) + (Bytes(r[2], 8) + Bytes(r[3], 8)))
  }

  lemma ReservedRead(data: seq<Byte>, r: seq<nat>)
    requires |r| == 4 && (forall i :: 0 <= i < 4 ==> r[i] < Pow256(8)) && At(data, 24, EncodeReserved(r))
    ensures |data| >= HEADER_SIZE
    ensures [Field(data, 24, 8), Field(data, 32, 8), Field(data, 40, 8), Field(data, 48, 8)] == r
  {
    AtFits(data, 24, EncodeReserved(r));
    hide Bytes, Field, At;
    var r3 := Bytes(r[2], 8) + Bytes(r[3], 8);
    AtParts(data, 24, Bytes(r[0], 8), Bytes(r[1], 8) + r3);
    AtParts(data, 32, Bytes(r[1], 8), r3);
    AtParts(data, 40, Bytes(r[2], 8), Bytes(r[3], 8));
    FieldAt(data, 24, r[0], 8);
    FieldAt(data, 32, r[1], 8);
    FieldAt(data, 40, r[2], 8);
    FieldAt(data, 48, r[3], 8);
    assert r == [r[0], r[1], r[2], r[3]];
  }

  /** The binary header, byte by byte: magic, count, alignment, payload size, four reserved
      words. */
  lemma HeaderLayout(h: Header)
    requires ValidHeader(h)
    ensures var b := EncodeHeader(h);
      && |b| == 56 && Field(b, 0, 8) == h.magic && Field(b, 8, 4) == h.count && Field(b, 12, 4) == h.alignment
      && Field(b, 16, 8) == h.payloadSize && forall i :: 0 <= i < 4 ==> Field(b, 24 + 8 * i, 8) == h.reserved[i]
  {
    var b := EncodeHeader(h);
    WholeAt(b);
    hide Field, At, EncodeHeader;
    HeaderRead(b, h);
    assert |b| == 56 by {
      HeaderBytes(h);
    }
  }

  lemma HeaderBytes(h: Header)
    requires |h.reserved| == 4
    ensures |EncodeHeader(h)| == 56
  {
  }

  lemma WholeAt(b: seq<Byte>)
    ensures At(b, 0, b)
  {
  }

  /** A binary coordinate: offset, size, type, padding. */
  lemma CoordLayout(c: Coordinate)
    requires ValidCoord(c)
    ensures var b := EncodeCoord(c);
      && |b| == 24 && Field(b, 0, 8) == c.absoluteOffset && Field(b, 8, 8) == c.byteSize
      && Field(b, 16, 4) == c.quantType && Field(b, 20, 4) == c.padding
  {
    var b := EncodeCoord(c);
    WholeAt(b);
    hide Field, At, EncodeCoord;
    CoordRead(b, 0, c);
  }

  lemma HeaderStands(data: seq<Byte>)
    requires |data| >= HEADER_SIZE
    ensures At(data, 0, EncodeHeader(DecodeHeader(data))) && ValidHeader(DecodeHeader(data))
    ensures |EncodeHeader(DecodeHeader(data))| == HEADER_SIZE
  {
    hide Field, At, Number;
    var h := DecodeHeader(data);
    FieldStands(data, 0, 8);
    FieldStands(data, 8, 4);
    FieldStands(data, 12, 4);
    FieldStands(data, 16, 8);
    FieldStands(data, 24, 8);
    FieldStands(data, 32, 8);
    FieldStands(data, 40, 8);
    FieldStands(data, 48, 8);
    var r3 := Bytes(h.reserved[2], 8) + Bytes(h.reserved[3], 8);
    var r2 := Bytes(h.reserved[1], 8) + r3;
    var r1 := Bytes(h.reserved[0], 8) + r2;
    var r0 := Bytes(h.payloadSize, 8) + r1;
    var q1 := Bytes(h.alignment, 4) + r0;
    AtParts(data, 40, Bytes(h.reserved[2], 8), Bytes(h.reserved[3], 8));
    AtParts(data, 32, Bytes(h.reserved[1], 8), r3);
    AtParts(data, 24, Bytes(h.reserved[0], 8), r2);
    AtParts(data, 16, Bytes(h.payloadSize, 8), r1);
    AtParts(data, 12, Bytes(h.alignment, 4), r0);
    AtParts(data, 8, Bytes(h.count, 4), q1);
    AtParts(data, 0, Bytes(h.magic, 8), Bytes(h.count, 4) + q1);
    HeaderBounds(data);
  }

  lemma HeaderBounds(data: seq<Byte>)
    requires |data| >= HEADER_SIZE
    ensures ValidHeader(DecodeHeader(data))
  {
  }

  // ---------------------------------------------------------------- the blob

  function EncodeCoords(coords: seq<Coordinate>): (s: seq<Byte>)
    ensures |s| == COORD_SIZE * |coords|
  {
    if coords == [] then [] else EncodeCoords(coords[..|coords| - 1]) + EncodeCoord(coords[|coords| - 1])
  }

  /** Coordinates at 24-byte steps after the header. */
  function DecodeCoords(data: seq<Byte>, n: nat): (s: seq<Coordinate>)
    requires HEADER_SIZE + COORD_SIZE * n <= |data|
    ensures |s| == n
  {
    if n == 0 then [] else DecodeCoords(data, n - 1) + [DecodeCoord(data, HEADER_SIZE + COORD_SIZE * (n - 1))]
  }

  lemma {:induction false} CoordsRead(data: seq<Byte>, coords: seq<Coordinate>)
    requires At(data, HEADER_SIZE, EncodeCoords(coords)) && forall i :: 0 <= i < |coords| ==> ValidCoord(coords[i])
    ensures HEADER_SIZE + COORD_SIZE * |coords| <= |data| && DecodeCoords(data, |coords|) == coords
  {
    AtFits(data, HEADER_SIZE, EncodeCoords(coords));
    hide At, EncodeCoord, DecodeCoord;
    if coords != [] {
      var n := |coords| - 1;
      AtParts(data, HEADER_SIZE, EncodeCoords(coords[..n]), EncodeCoord(coords[n]));
      CoordsRead(data, coords[..n]);
      CoordRead(data, HEADER_SIZE + COORD_SIZE * n, coords[n]);
    }
  }

  lemma {:induction false} CoordsStand(data: seq<Byte>, n: nat)
    requires HEADER_SIZE + COORD_SIZE * n <= |data|
    ensures At(data, HEADER_SIZE, EncodeCoords(DecodeCoords(data, n)))
  {
    hide At, EncodeCoord, DecodeCoord;
    if n > 0 {
      var off := HEADER_SIZE + COORD_SIZE * (n - 1);
      var before, last := DecodeCoords(data, n - 1), DecodeCoord(data, off);
      CoordsStand(data, n - 1);
      CoordStands(data, off);
      EncodeOneMore(before, last);
      AtParts(data, HEADER_SIZE, EncodeCoords(before), EncodeCoord(last));
    } else {
      NothingStands(data);
    }
  }

  lemma NothingStands(data: seq<Byte>)
    requires HEADER_SIZE <= |data|
    ensures At(data, HEADER_SIZE, [])
  {
  }

  lemma EncodeOneMore(coords: seq<Coordinate>, c: Coordinate)
    ensures EncodeCoords(coords + [c]) == EncodeCoords(coords) + EncodeCoord(c)
  {
    assert (coords + [c])[..|coords|] == coords;
  }

  // ---------------------------------------------------------------- numbered names

  /** Decimal digits of n, as the names given to the entries of a loaded index. */
  function Decimal(n: nat): (s: Name)
    ensures |s| > 0
  {
    var digit: Byte := ZERO_DIGIT + n % 10;
    if n < 10 then [digit] else Decimal(n / 10) + [digit]
  }

  lemma {:induction false} DecimalInjective(a: nat, b: nat)
    requires Decimal(a) == Decimal(b)
    ensures a == b
  {
    var s := Decimal(a);
    assert s[|s| - 1] == ZERO_DIGIT + a % 10 == ZERO_DIGIT + b % 10;
    assert a % 10 == b % 10;
    assert s[..|s| - 1] == if a < 10 then [] else Decimal(a / 10);
    assert s[..|s| - 1] == if b < 10 then [] else Decimal(b / 10);
    if a >= 10 {
      DecimalInjective(a / 10, b / 10);
    }
  }

  /** The number a string of decimal digits stands for. */
  function Value(s: Name): int {
    if s == [] then 0 else 10 * Value(s[..|s| - 1]) + (s[|s| - 1] - '0' as int)
  }

  /** The name of an entry is its number in decimal, without leading zeros. */
  lemma {:induction false} DecimalIs(n: nat)
    ensures Value(Decimal(n)) == n && forall i :: 0 <= i < |Decimal(n)| ==> '0' as int <= Decimal(n)[i] <= '9' as int
    ensures n > 0 ==> Decimal(n)[0] != '0' as int
  {
    var s := Decimal(n);
    assert s[..|s| - 1] == if n < 10 then [] else Decimal(n / 10);
    if n >= 10 {
      DecimalIs(n / 10);
    }
  }

  // ---------------------------------------------------------------- the index

  /** The hash table of a list of entries: each hash goes to an entry that has it, and no
      later entry does. */
  ghost predicate HashedOf(hash: Name -> Key, entries: seq<(Name, Coordinate)>, m: map<Key, nat>) {
    && (forall k :: k in m ==> m[k] < |entries| && hash(entries[m[k]].0) == k)
    && (forall i :: 0 <= i < |entries| ==> hash(entries[i].0) in m && m[hash(entries[i].0)] >= i)
  }

  lemma HashedAppend(hash: Name -> Key, entries: seq<(Name, Coordinate)>, m: map<Key, nat>, e: (Name, Coordinate))
    requires HashedOf(hash, entries, m)
    ensures HashedOf(hash, entries + [e], m[hash(e.0) := |entries|])
  {
  }

  function CoordsOf(entries: seq<(Name, Coordinate)>): (s: seq<Coordinate>)
    ensures |s| == |entries|
  {
    seq(|entries|, i requires 0 <= i < |entries| => entries[i].1)
  }

  lemma CoordsAppend(entries: seq<(Name, Coordinate)>, e: (Name, Coordinate))
    ensures CoordsOf(entries + [e]) == CoordsOf(entries) + [e.1]
  {
  }

  /** The 32-bit counter of the loop of `build` after so many turns. */
  function Counter(turns: nat): (i: nat)
    ensures i < 0x1_0000_0000
  {
    if turns == 0 then 0 else (Counter(turns - 1) + 1) % 0x1_0000_0000
  }

  lemma {:induction false} CounterBeforeWrap(turns: nat)
    requires turns < 0x1_0000_0000
    ensures Counter(turns) == turns
  {
    if turns > 0 {
      CounterBeforeWrap(turns - 1);
    }
  }

  /** The loop over n entries ends if and only if there are fewer than 2^32 of them: the counter
      never gets further than 2^32 - 1. */
  lemma BuildLoopEnds(n: nat)
    ensures (exists turns: nat :: Counter(turns) >= n) <==> n < 0x1_0000_0000
  {
    if n < 0x1_0000_0000 {
      CounterBeforeWrap(n);
      assert Counter(n) >= n;
    } else {
      forall turns: nat ensures Counter(turns) < n {
      }
    }
  }

  class TensorIndex {
    const hash: Name -> Key
    var header: Header
    var entries: seq<(Name, Coordinate)>
    var hashToIndex: map<Key, nat>

    constructor (hash: Name -> Key)
      ensures this.hash == hash && entries == [] && hashToIndex == map[] && header == Header(0, 0, 0, 0, [0, 0, 0, 0])
    {
      this.hash := hash;
      header, entries, hashToIndex := Header(0, 0, 0, 0, [0, 0, 0, 0]), [], map[];
    }

    /** Lookups go to the last entry with the hash. */
    ghost predicate Hashed()
      reads this
    {
      HashedOf(hash, entries, hashToIndex)
    }

    function Coords(): (s: seq<Coordinate>)
      reads this
      ensures |s| == |entries|
    {
      CoordsOf(entries)
    }

    /** For lists on which the code's loop ends (`BuildLoopEnds`). */
    method Build(entries: seq<(Name, Coordinate)>, payloadSize: nat, alignment: nat)
      requires |entries| < Pow256(4)
      modifies this
      ensures Hashed() && this.entries == entries
      ensures header == Header(INDEX_MAGIC, |entries|, alignment, payloadSize, [0, 0, 0, 0])
    {
      this.entries := entries;
      header := Header(INDEX_MAGIC, |entries|, alignment, payloadSize, [0, 0, 0, 0]);
      hashToIndex := map[];
      for i := 0 to |entries|
        invariant this.entries == entries
        invariant header == Header(INDEX_MAGIC, |entries|, alignment, payloadSize, [0, 0, 0, 0])
        invariant HashedOf(hash, entries[..i], hashToIndex)
      {
        HashedAppend(hash, entries[..i], hashToIndex, entries[i]);
        assert entries[..i + 1] == entries[..i] + [entries[i]];
        hashToIndex := hashToIndex[hash(entries[i].0) := i];
      }
      assert entries[..|entries|] == entries;
    }

    method ToBlob() returns (blob: seq<Byte>)
      requires |header.reserved| == 4
      ensures blob == EncodeHeader(header) + EncodeCoords(Coords())
    {
      blob := EncodeHeader(header);
      for i := 0 to |entries|
        invariant blob == EncodeHeader(header) + EncodeCoords(Coords()[..i])
      {
        assert Coords()[..i + 1][..i] == Coords()[..i];
        blob := blob + EncodeCoord(entries[i].1);
      }
      assert Coords()[..|entries|] == Coords();
    }

    /** Accepts a blob with the magic number and room for the coordinates it announces;
        the header is overwritten even when the blob is then refused. */
    method FromBlob(data: seq<Byte>) returns (ok: bool)
      modifies this
      ensures ok <==> |data| >= HEADER_SIZE && DecodeHeader(data).magic == INDEX_MAGIC
                      && |data| >= HEADER_SIZE + COORD_SIZE * DecodeHeader(data).count
      ensures ok ==> Hashed() && header == DecodeHeader(data) && Coords() == DecodeCoords(data, header.count)
      ensures ok ==> forall i :: 0 <= i < |entries| ==> entries[i].0 == Decimal(i)
      ensures !ok ==> entries == old(entries) && hashToIndex == old(hashToIndex)
      ensures !ok ==> header == if |data| >= HEADER_SIZE then DecodeHeader(data) else old(header)
    {
      if |data| < HEADER_SIZE {
        return false;
      }
      hide DecodeCoords;
      header := DecodeHeader(data);
      if header.magic != INDEX_MAGIC {
        return false;
      }
      if |data| < HEADER_SIZE + COORD_SIZE * header.count {
        return false;
      }
      LoadEntries(data, header.count);
      ok := true;
    }

    lemma EmptyIndex()
      ensures HashedOf(hash, [], map[]) && CoordsOf([]) == []
    {
    }

    method LoadEntries(data: seq<Byte>, count: nat)
      requires HEADER_SIZE + COORD_SIZE * count <= |data|
      modifies this`entries, this`hashToIndex
      ensures Hashed() && Coords() == DecodeCoords(data, count)
      ensures forall i :: 0 <= i < |entries| ==> entries[i].0 == Decimal(i)
    {
      hide DecodeCoord, Decimal, HashedOf, CoordsOf;
      EmptyIndex();
      entries := [];
      hashToIndex := map[];
      for i := 0 to count
        invariant |entries| == i
        invariant Hashed() && Coords() == DecodeCoords(data, i)
        invariant forall j :: 0 <= j < i ==> entries[j].0 == Decimal(j)
      {
        var c := DecodeCoord(data, HEADER_SIZE + COORD_SIZE * i);
        HashedAppend(hash, entries, hashToIndex, (Decimal(i), c));
        CoordsAppend(entries, (Decimal(i), c));
        entries := entries + [(Decimal(i), c)];
        hashToIndex := hashToIndex[hash(Decimal(i)) := i];
      }
    }

    /** Entry i is the last one whose name hashes like tag. */
    ghost predicate LastWithHash(tag: Name, i: nat)
      reads this
    {
      && i < |entries| && hash(entries[i].0) == hash(tag)
      && forall j :: i < j < |entries| ==> hash(entries[j].0) != hash(tag)
    }

    method Lookup(tag: Name) returns (found: bool, out: Coordinate)
      requires Hashed()
      ensures found <==> exists i :: 0 <= i < |entries| && hash(entries[i].0) == hash(tag)
      ensures found ==> exists i: nat :: LastWithHash(tag, i) && entries[i].1 == out
    {
      if hash(tag) !in hashToIndex {
        return false, Coordinate(0, 0, 0, 0);
      }
      var i := hashToIndex[hash(tag)];
      assert LastWithHash(tag, i);
      return true, entries[i].1;
    }
  }

  /** A built index survives the trip through its blob: header and every coordinate. */
  method RoundTrip(index: TensorIndex) returns (copy: TensorIndex)
    requires index.Hashed() && ValidHeader(index.header)
    requires index.header.magic == INDEX_MAGIC && index.header.count == |index.entries|
    requires forall i :: 0 <= i < |index.entries| ==> ValidCoord(index.entries[i].1)
    ensures fresh(copy) && copy.Hashed() && copy.hash == index.hash
    ensures copy.header == index.header && copy.Coords() == index.Coords()
    ensures forall i :: 0 <= i < |copy.entries| ==> copy.entries[i].0 == Decimal(i)
  {
    var blob := index.ToBlob();
    BlobRead(blob, index.header, index.Coords());
    copy := new TensorIndex(index.hash);
    var ok := copy.FromBlob(blob);
  }

  lemma BlobRead(blob: seq<Byte>, h: Header, coords: seq<Coordinate>)
    requires ValidHeader(h) && h.count == |coords| && blob == EncodeHeader(h) + EncodeCoords(coords)
    requires forall i :: 0 <= i < |coords| ==> ValidCoord(coords[i])
    ensures |blob| == HEADER_SIZE + COORD_SIZE * |coords|
    ensures DecodeHeader(blob) == h && DecodeCoords(blob, |coords|) == coords
  {
    assert |EncodeHeader(h)| == HEADER_SIZE;
    assert At(blob, 0, blob);
    AtParts(blob, 0, EncodeHeader(h), EncodeCoords(coords));
    HeaderRead(blob, h);
    CoordsRead(blob, coords);
  }

  /** Writing an accepted blob back gives the part of it that was read. */
  method Rewritten(hash: Name -> Key, data: seq<Byte>) returns (ok: bool, blob: seq<Byte>)
    ensures ok <==> |data| >= HEADER_SIZE && DecodeHeader(data).magic == INDEX_MAGIC
                    && |data| >= HEADER_SIZE + COORD_SIZE * DecodeHeader(data).count
    ensures ok ==> blob == data[..HEADER_SIZE + COORD_SIZE * DecodeHeader(data).count]
  {
    var index := new TensorIndex(hash);
    hide HashedOf, CoordsOf, Decimal, DecodeHeader, DecodeCoords, EncodeHeader, EncodeCoords;
    blob := [];
    ok := index.FromBlob(data);
    if ok {
      PrefixStands(data);
      blob := index.ToBlob();
    }
  }

  /** The part of a blob that is read prints to itself. */
  lemma PrefixStands(data: seq<Byte>)
    requires |data| >= HEADER_SIZE && |data| >= HEADER_SIZE + COORD_SIZE * DecodeHeader(data).count
    ensures |DecodeHeader(data).reserved| == 4
    ensures var h := DecodeHeader(data);
      EncodeHeader(h) + EncodeCoords(DecodeCoords(data, h.count)) == data[..HEADER_SIZE + COORD_SIZE * h.count]
  {
    var h := DecodeHeader(data);
    hide At, EncodeHeader, EncodeCoords, DecodeCoords;
    HeaderStands(data);
    CoordsStand(data, h.count);
    AtParts(data, 0, EncodeHeader(h), EncodeCoords(DecodeCoords(data, h.count)));
    AtFits(data, 0, EncodeHeader(h) + EncodeCoords(DecodeCoords(data, h.count)));
  }

  /** In a loaded index, the number of a coordinate finds it, if the hash separates the
      numbers in use. */
  method LookupOrdinal(index: TensorIndex, i: nat) returns (out: Coordinate)
    requires index.Hashed() && i < |index.entries|
    requires forall j :: 0 <= j < |index.entries| ==> index.entries[j].0 == Decimal(j)
    requires forall j :: 0 <= j < |index.entries| && index.hash(Decimal(j)) == index.hash(Decimal(i)) ==>
      Decimal(j) == Decimal(i)
    ensures out == index.entries[i].1
  {
    var found;
    found, out := index.Lookup(Decimal(i));
    assert index.hash(index.entries[i].0) == index.hash(Decimal(i));
    ghost var k: nat :| index.LastWithHash(Decimal(i), k) && index.entries[k].1 == out;
    DecimalInjective(k, i);
  }
}
