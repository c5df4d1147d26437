/** The file reader that `ingest_gguf` uses (src/dxstream/dxstream.cpp): like the loader's,
    over a stream that stays failed once a read fails, and with 16-bit values skipped as
    if they had four bytes. */
module GgufStream {
  import opened Gguf
  import opened LittleEndian
  import opened ModelLoading

  datatype Option<T> = None | Some(value: T)

  /** A read position, and whether every read so far succeeded. */
  datatype Cursor = Cursor(off: nat, good: bool)

  const MAX_NAME := 0x400_0000

  function StreamWidth(kind: nat): nat {
    match kind
    case 0 => 1 case 1 => 1 case 7 => 1
    case 2 => 4 case 3 => 4 case 4 => 4 case 5 => 4 case 6 => 4
    case 10 => 8 case 11 => 8 case 12 => 8
    case _ => 0
  }

  function StreamSkip(f: seq<Byte>, c: Cursor, t: nat): (end: Cursor)
    ensures end.off >= c.off
    decreases Left(f, c.off), 0
  {
    if t == 8 then
      if c.good && c.off + 8 <= |f| then Cursor(c.off + 8 + Field(f, c.off, 8), true) else Cursor(c.off, false)
    else if t == 9 then
      if c.good && c.off + 12 <= |f|
      then StreamSkipItems(f, Cursor(c.off + 12, true), Field(f, c.off, 4), Field(f, c.off + 4, 8))
      else Cursor(c.off, false)
    else Cursor(c.off + StreamWidth(t), c.good)
  }

  function StreamSkipItems(f: seq<Byte>, c: Cursor, t: nat, n: nat): (end: Cursor)
    ensures end.off >= c.off
    decreases Left(f, c.off), n
  {
    if n == 0 then c else StreamSkipItems(f, StreamSkip(f, c, t), t, n - 1)
  }

  method SkipStreamVal(f: seq<Byte>, start: Cursor, t: nat) returns (c: Cursor)
    ensures c == StreamSkip(f, start, t)
    decreases Left(f, start.off)
  {
    c := start;
    match t {
      case 0 => c := c.(off := c.off + 1);
      case 1 => c := c.(off := c.off + 1);
      case 7 => c := c.(off := c.off + 1);
      case 2 => c := c.(off := c.off + 4);
      case 3 => c := c.(off := c.off + 4);
      case 4 => c := c.(off := c.off + 4);
      case 5 => c := c.(off := c.off + 4);
      case 6 => c := c.(off := c.off + 4);
      case 10 => c := c.(off := c.off + 8);
      case 11 => c := c.(off := c.off + 8);
      case 12 => c := c.(off := c.off + 8);
      case 8 =>
        if c.good && c.off + 8 <= |f| {
          var len := Field(f, c.off, 8);
          c := c.(off := c.off + 8 + len);
        } else {
          c := c.(good := false);
        }
      case 9 =>
        if c.good && c.off + 12 <= |f| {
          var elem := Field(f, c.off, 4);
          var n := Field(f, c.off + 4, 8);
          c := c.(off := c.off + 12);
          for i := 0 to n
            invariant c.off >= start.off + 12
            invariant StreamSkipItems(f, c, elem, n - i) == StreamSkipItems(f, Cursor(start.off + 12, true), elem, n)
          {
            c := SkipStreamVal(f, c, elem);
          }
        } else {
          c := c.(good := false);
        }
      case _ =>
    }
  }

  // ---------------------------------------------------------------- 16-bit values

  predicate Is16Bit(kind: nat) {
    kind == 2 || kind == 3
  }

  /** Some scalar inside v, at any depth, is a 16-bit integer. */
  ghost predicate Has16Bit(v: Value) {
    match v
    case Scalar(kind, _) => Is16Bit(kind)
    case Text(_) => false
    case Array(_, items) => exists i :: 0 <= i < |items| && Has16Bit(items[i])
  }

  /** Values without 16-bit integers are skipped exactly, at any depth of nesting. */
  lemma {:induction false} StreamSkipsEncoding(f: seq<Byte>, off: nat, v: Value)
    requires WellFormed(v) && !Has16Bit(v) && At(f, off, Encode(v))
    ensures StreamSkip(f, Cursor(off, true), TypeOf(v)) == Cursor(off + |Encode(v)|, true)
    decreases v, 0
  {
    match v
    case Scalar(_, _) =>
    case Text(chars) =>
      AtParts(f, off, Bytes(|chars|, 8), chars);
      FieldAt(f, off, |chars|, 8);
    case Array(elemType, items) =>
      ArrayHead(f, off, elemType, items);
      StreamSkipsItems(f, off + 12, items, elemType);
  }

  lemma {:induction false} StreamSkipsItems(f: seq<Byte>, off: nat, items: seq<Value>, t: nat)
    requires forall i :: 0 <= i < |items| ==> TypeOf(items[i]) == t && WellFormed(items[i]) && !Has16Bit(items[i])
    requires At(f, off, EncodeAll(items))
    ensures StreamSkipItems(f, Cursor(off, true), t, |items|) == Cursor(off + |EncodeAll(items)|, true)
    decreases items
  {
    hide At, Encode, StreamSkip, WellFormed, Has16Bit, TypeOf;
    if items != [] {
      AtParts(f, off, Encode(items[0]), EncodeAll(items[1..]));
      StreamSkipsEncoding(f, off, items[0]);
      StreamSkipsItems(f, off + |Encode(items[0])|, items[1..], t);
    }
  }

  /** The fields in front of an array's elements. */
  lemma ArrayHead(f: seq<Byte>, off: nat, elemType: nat, items: seq<Value>)
    requires elemType < Pow256(4) && |items| < Pow256(8) && At(f, off, Encode(Array(elemType, items)))
    ensures off + 12 <= |f| && Field(f, off, 4) == elemType && Field(f, off + 4, 8) == |items|
    ensures At(f, off + 12, EncodeAll(items)) && |Encode(Array(elemType, items))| == 12 + |EncodeAll(items)|
  {
    var head := Bytes(elemType, 4) + Bytes(|items|, 8);
    AtParts(f, off, head, EncodeAll(items));
    AtParts(f, off, Bytes(elemType, 4), Bytes(|items|, 8));
    FieldAt(f, off, elemType, 4);
    FieldAt(f, off + 4, |items|, 8);
  }

  /** No array inside an array. */
  predicate Flat(v: Value) {
    v.Array? ==> v.elemType != 9
  }

  lemma {:induction false} WideItems(f: seq<Byte>, off: nat, t: nat, n: nat)
    requires Is16Bit(t)
    ensures StreamSkipItems(f, Cursor(off, true), t, n) == Cursor(off + 4 * n, true)
    decreases n
  {
    if n > 0 {
      WideItems(f, off + 4, t, n - 1);
    }
  }

  lemma {:induction false} NarrowItems(items: seq<Value>, t: nat)
    requires Is16Bit(t) && forall i :: 0 <= i < |items| ==> TypeOf(items[i]) == t && WellFormed(items[i])
    ensures |EncodeAll(items)| == 2 * |items|
  {
    if items != [] {
      NarrowItems(items[1..], t);
    }
  }

  /** A scalar, a string or an array of either is skipped exactly if and only if it holds
      no 16-bit integer. */
  lemma StreamSkipExactIff(f: seq<Byte>, off: nat, v: Value)
    requires WellFormed(v) && Flat(v) && At(f, off, Encode(v))
    ensures StreamSkip(f, Cursor(off, true), TypeOf(v)) == Cursor(off + |Encode(v)|, true) <==> !Has16Bit(v)
  {
    if !Has16Bit(v) {
      StreamSkipsEncoding(f, off, v);
    } else if v.Array? {
      var i :| 0 <= i < |v.items| && Has16Bit(v.items[i]);
      assert TypeOf(v.items[i]) == v.elemType && v.items[i].Scalar?;
      ArrayHead(f, off, v.elemType, v.items);
      WideItems(f, off + 12, v.elemType, |v.items|);
      NarrowItems(v.items, v.elemType);
    }
  }

  /** Every scalar type is skipped by its size, but the 16-bit ones by four bytes. */
  lemma StreamSkipsScalar(f: seq<Byte>, c: Cursor, t: ScalarType)
    ensures StreamSkip(f, c, t.Id()) == c.(off := c.off + if t.Bits() == 16 then 4 else t.Bits() / 8)
  {
  }

  /** A lone 16-bit value: the loader stops after it, the stream reader two bytes later. */
  lemma ReadersDisagree(f: seq<Byte>, off: nat, v: Value)
    requires WellFormed(v) && v.Scalar? && Is16Bit(v.kind) && At(f, off, Encode(v))
    ensures Skip(f, off, TypeOf(v)) == off + 2
    ensures StreamSkip(f, Cursor(off, true), TypeOf(v)) == Cursor(off + 4, true)
  {
  }

  /** An array of two arrays: one 16-bit value, and two zero bytes. */
  function Realigning(low: Byte, high: Byte): Value {
    Array(9, [Array(2, [Scalar(2, [low, high])]), Array(0, [Scalar(0, [0]), Scalar(0, [0])])])
  }

  /** Below the top level a 16-bit value need not show: here the stream reader runs two bytes
      into the second array, reads its head as an empty array of no known type, and lands
      where the encoding ends. */
  lemma NestedCanRealign(f: seq<Byte>, off: nat, low: Byte, high: Byte)
    requires At(f, off, Encode(Realigning(low, high)))
    ensures var v := Realigning(low, high);
      && WellFormed(v) && Has16Bit(v)
      && StreamSkip(f, Cursor(off, true), TypeOf(v)) == Cursor(off + |Encode(v)|, true)
  {
    RealigningIs(low, high);
    RealigningHeads(f, off, low, high);
    hide Field, Encode, Has16Bit, WellFormed, At;
    WideItems(f, off + 24, 2, 1);
    assert StreamSkip(f, Cursor(off + 12, true), 9) == Cursor(off + 28, true);
    assert StreamSkip(f, Cursor(off + 28, true), 9) == Cursor(off + 40, true);
    TwoItems(f, Cursor(off + 12, true), 9);
  }

  lemma RealigningIs(low: Byte, high: Byte)
    ensures WellFormed(Realigning(low, high)) && Has16Bit(Realigning(low, high))
  {
    Widths();
    var v := Realigning(low, high);
    assert Has16Bit(v.items[0].items[0]);
    assert Has16Bit(v.items[0]);
  }

  /** The heads of the three arrays as the stream reader meets them. */
  lemma RealigningHeads(f: seq<Byte>, off: nat, low: Byte, high: Byte)
    requires At(f, off, Encode(Realigning(low, high)))
    ensures off + 40 <= |f| && |Encode(Realigning(low, high))| == 40
    ensures Field(f, off, 4) == 9 && Field(f, off + 4, 8) == 2
    ensures Field(f, off + 12, 4) == 2 && Field(f, off + 16, 8) == 1
    ensures Field(f, off + 28, 4) == 0x2_0000 && Field(f, off + 32, 8) == 0
  {
    hide At, Field, Encode, EncodeAll;
    Widths();
    var v := Realigning(low, high);
    var first, second := v.items[0], v.items[1];
    ArrayHead(f, off, 9, v.items);
    FirstArray(low, high);
    AtParts(f, off + 12, Encode(first), Encode(second));
    ArrayHead(f, off + 12, 2, first.items);
    SecondArray();
    ShiftedFields(f, off + 26);
  }

  lemma FirstArray(low: Byte, high: Byte)
    ensures var v := Realigning(low, high);
      && |Encode(v.items[0])| == 14
      && EncodeAll(v.items) == Encode(v.items[0]) + Encode(v.items[1])
  {
    var v := Realigning(low, high);
    var first, second := v.items[0], v.items[1];
    assert v.items[1..] == [second] && [second][1..] == [] && first.items[1..] == [];
    assert EncodeAll([second]) == Encode(second) + [];
    assert EncodeAll(first.items) == [low, high] + [];
  }

  lemma TwoItems(f: seq<Byte>, c: Cursor, t: nat)
    ensures StreamSkipItems(f, c, t, 2) == StreamSkip(f, StreamSkip(f, c, t), t)
  {
    assert StreamSkipItems(f, c, t, 2) == StreamSkipItems(f, StreamSkip(f, c, t), t, 1);
  }

  /** The bytes of an array of two zero bytes. */
  lemma SecondArray()
    ensures Encode(Array(0, [Scalar(0, [0]), Scalar(0, [0])])) == [0, 0, 0, 0, 2, 0, 0, 0, 0, 0, 0, 0, 0, 0]
  {
    var items := [Scalar(0, [0]), Scalar(0, [0])];
    ZeroBytes(7);
    ZeroBytes(4);
    assert Bytes(2, 8) == [2] + Bytes(0, 7);
    assert items[1..] == [items[1]] && [items[1]][1..] == [];
    assert EncodeAll(items) == [0] + ([0] + []);
  }

  lemma {:induction false} ZeroBytes(w: nat)
    ensures Bytes(0, w) == seq(w, _ => 0)
    ensures Number(seq(w, _ => 0)) == 0
  {
    if w > 0 {
      ZeroBytes(w - 1);
      var zeros: seq<Byte> := seq(w, _ => 0);
      assert zeros[1..] == seq(w - 1, _ => 0);
    }
  }

  /** Those bytes read from the third on. */
  lemma ShiftedFields(f: seq<Byte>, at: nat)
    requires At(f, at, [0, 0, 0, 0, 2, 0, 0, 0, 0, 0, 0, 0, 0, 0])
    ensures at + 14 <= |f| && Field(f, at + 2, 4) == 0x2_0000 && Field(f, at + 6, 8) == 0
  {
    var s: seq<Byte> := [0, 0, 0, 0, 2, 0, 0, 0, 0, 0, 0, 0, 0, 0];
    hide Number;
    SubRange(f, at, 14, 2, 6);
    SubRange(f, at, 14, 6, 14);
    ShiftedBytes();
    ZeroBytes(8);
    NumberOfFour(0, 0, 2, 0);
  }

  lemma ShiftedBytes()
    ensures var s: seq<Byte> := [0, 0, 0, 0, 2, 0, 0, 0, 0, 0, 0, 0, 0, 0];
      s[2..6] == [0, 0, 2, 0] && s[6..14] == seq(8, _ => 0)
  {
  }

  lemma SubRange(f: seq<Byte>, at: nat, n: nat, x: nat, y: nat)
    requires at + n <= |f| && x <= y <= n
    ensures f[at..at + n][x..y] == f[at + x..at + y]
  {
    var part := f[at..at + n];
    forall p | 0 <= p < y - x ensures part[x..y][p] == f[at + x..at + y][p] {
      assert part[x..y][p] == part[x + p] == f[at + x + p];
    }
  }

  lemma NumberOfFour(a: Byte, b: Byte, c: Byte, d: Byte)
    ensures Number([a, b, c, d]) == a + 256 * (b + 256 * (c + 256 * d))
  {
    assert [d][1..] == [] && Number([d]) == d;
    assert [c, d][1..] == [d] && Number([c, d]) == c + 256 * d;
    assert [b, c, d][1..] == [c, d] && Number([b, c, d]) == b + 256 * (c + 256 * d);
    assert [a, b, c, d][1..] == [b, c, d];
  }

  // ---------------------------------------------------------------- key-values and table

  datatype GgufTensor = GgufTensor(name: Name, offset: nat, size: nat, kind: nat)

  function StreamString(f: seq<Byte>, c: Cursor): Option<(seq<Byte>, nat)> {
    if !c.good || c.off + 8 > |f| then None
    else
      var len := Field(f, c.off, 8);
      if len > MAX_NAME || c.off + 8 + len > |f| then None
      else Some((f[c.off + 8..c.off + 8 + len], c.off + 8 + len))
  }

  function StreamKvs(f: seq<Byte>, c: Cursor, n: nat): Option<Cursor>
    decreases n
  {
    if n == 0 then Some(c)
    else match StreamString(f, c)
      case None => None
      case Some((_, off)) =>
        if off + 4 > |f| then None
        else StreamKvs(f, StreamSkip(f, Cursor(off + 4, true), Field(f, off, 4)), n - 1)
  }

  function StreamEntry(f: seq<Byte>, c: Cursor): Option<(GgufTensor, nat)> {
    match StreamString(f, c)
    case None => None
    case Some((name, off)) =>
      if off + 4 > |f| then None
      else
        var at := off + 4 + 8 * Field(f, off, 4);
        if at + 12 > |f| then None
        else Some((GgufTensor(name, Field(f, at + 4, 8), 0, Field(f, at, 4)), at + 12))
  }

  function StreamTable(f: seq<Byte>, c: Cursor, n: nat): Option<(seq<GgufTensor>, nat)>
    decreases n
  {
    if n == 0 then Some(([], c.off))
    else match StreamEntry(f, c)
      case None => None
      case Some((t, off)) =>
        match StreamTable(f, Cursor(off, true), n - 1)
        case None => None
        case Some((ts, end)) => Some(([t] + ts, end))
  }

  /** The tensors in table order, and where the payload section starts. */
  function StreamHeader(f: seq<Byte>): Option<(seq<GgufTensor>, nat)> {
    if |f| < 24 || Field(f, 0, 4) != GGUF_MAGIC then None
    else match StreamKvs(f, Cursor(24, true), Field(f, 16, 8))
      case None => None
      case Some(c) => StreamTable(f, c, Field(f, 8, 8))
  }

  /** A string is read exactly if its length and its bytes are there and it has at most 64 MiB. */
  lemma StreamStringIff(f: seq<Byte>, off: nat)
    ensures StreamString(f, Cursor(off, true)).Some? <==>
      off + 8 <= |f| && Field(f, off, 8) <= 0x400_0000 && off + 8 + Field(f, off, 8) <= |f|
    ensures StreamString(f, Cursor(off, false)) == None
  {
  }

  method ReadKvs(f: seq<Byte>, n: nat) returns (c: Option<Cursor>)
    ensures c == StreamKvs(f, Cursor(24, true), n)
  {
    var now := Cursor(24, true);
    var i := 0;
    while i < n
      invariant i <= n
      invariant StreamKvs(f, now, n - i) == StreamKvs(f, Cursor(24, true), n)
    {
      var key := StreamString(f, now);
      if key.None? {
        return None;
      }
      var off := key.value.1;
      if off + 4 > |f| {
        return None;
      }
      var vt := Field(f, off, 4);
      now := SkipStreamVal(f, Cursor(off + 4, true), vt);
      i := i + 1;
    }
    c := Some(now);
  }

  method ReadTensors(f: seq<Byte>, start: Cursor, n: nat) returns (r: Option<(seq<GgufTensor>, nat)>)
    ensures r == StreamTable(f, start, n)
  {
    hide StreamEntry;
    var c, tensors := start, [];
    ghost var whole := StreamTable(f, start, n);
    if whole.Some? {
      assert [] + whole.value.0 == whole.value.0;
    }
    var i := 0;
    while i < n
      invariant i <= n
      invariant Joined(tensors, StreamTable(f, c, n - i)) == whole
    {
      var entry := StreamEntry(f, c);
      if entry.None? {
        return None;
      }
      ghost var rest := StreamTable(f, Cursor(entry.value.1, true), n - i - 1);
      JoinedOneMore(tensors, entry.value.0, rest);
      tensors := tensors + [entry.value.0];
      c := Cursor(entry.value.1, true);
      i := i + 1;
    }
    assert tensors + [] == tensors;
    r := Some((tensors, c.off));
  }

  ghost function Joined(ts: seq<GgufTensor>, rest: Option<(seq<GgufTensor>, nat)>): Option<(seq<GgufTensor>, nat)> {
    match rest
    case None => None
    case Some((more, end)) => Some((ts + more, end))
  }

  lemma JoinedOneMore(ts: seq<GgufTensor>, t: GgufTensor, rest: Option<(seq<GgufTensor>, nat)>)
    ensures Joined(ts + [t], rest)
         == Joined(ts, match rest case None => None case Some((more, end)) => Some(([t] + more, end)))
  {
    if rest.Some? {
      assert ts + [t] + rest.value.0 == ts + ([t] + rest.value.0);
    }
  }

  method ReadHeader(f: seq<Byte>) returns (r: Option<(seq<GgufTensor>, nat)>)
    ensures r == StreamHeader(f)
  {
    if |f| < 24 {
      return None;
    }
    if Field(f, 0, 4) != GGUF_MAGIC {
      return None;
    }
    var tensorCount := Field(f, 8, 8);
    var kvCount := Field(f, 16, 8);
    var c := ReadKvs(f, kvCount);
    if c.None? {
      return None;
    }
    r := ReadTensors(f, c.value, tensorCount);
  }

  // ---------------------------------------------------------------- printed files

  /** What the stream reader accepts of a file: short names, no 16-bit values. */
  ghost predicate Streamable(f: File) {
    && ValidFile(f)
    && (forall i :: 0 <= i < |f.kvs| ==> |f.kvs[i].key| <= MAX_NAME && !Has16Bit(f.kvs[i].value))
    && (forall i :: 0 <= i < |f.table| ==> |f.table[i].name| <= MAX_NAME)
  }

  ghost predicate PlainKvs(kvs: seq<KeyValue>) {
    forall i :: 0 <= i < |kvs| ==> |kvs[i].key| <= MAX_NAME && WellFormed(kvs[i].value) && !Has16Bit(kvs[i].value)
  }

  ghost predicate PlainTable(table: seq<TensorEntry>) {
    forall i :: 0 <= i < |table| ==> ValidEntry(table[i]) && |table[i].name| <= MAX_NAME
  }

  lemma StreamableParts(f: File)
    requires Streamable(f)
    ensures ValidFile(f) && PlainKvs(f.kvs) && PlainTable(f.table)
  {
    hide WellFormed, Has16Bit, ValidEntry;
  }

  lemma PlainFirst(kvs: seq<KeyValue>)
    requires PlainKvs(kvs) && kvs != []
    ensures |kvs[0].key| <= MAX_NAME && WellFormed(kvs[0].value) && !Has16Bit(kvs[0].value) && PlainKvs(kvs[1..])
  {
    hide WellFormed, Has16Bit;
  }

  function TensorOf(e: TensorEntry): GgufTensor {
    GgufTensor(e.name, e.offset, 0, e.ggmlType)
  }

  function TensorsOf(table: seq<TensorEntry>): (s: seq<GgufTensor>)
    ensures |s| == |table|
  {
    seq(|table|, i requires 0 <= i < |table| => TensorOf(table[i]))
  }

  lemma StreamsString(data: seq<Byte>, off: nat, s: seq<Byte>)
    requires |s| <= MAX_NAME && At(data, off, EncodeString(s))
    ensures StreamString(data, Cursor(off, true)) == Some((s, off + |EncodeString(s)|))
  {
    Widths();
    AtParts(data, off, Bytes(|s|, 8), s);
    FieldAt(data, off, |s|, 8);
  }

  /** The first key-value: key and type are read, and the value skipped. */
  lemma StreamsKv(data: seq<Byte>, off: nat, kvs: seq<KeyValue>)
    requires kvs != [] && At(data, off, EncodeKvs(kvs)) && |kvs[0].key| <= MAX_NAME && WellFormed(kvs[0].value)
    ensures var v := kvs[0].value;
      var at, next := off + |EncodeString(kvs[0].key)| + 4, off + |EncodeKv(kvs[0])|;
      && At(data, at, Encode(v)) && at + |Encode(v)| == next && At(data, next, EncodeKvs(kvs[1..]))
      && next + |EncodeKvs(kvs[1..])| == off + |EncodeKvs(kvs)|
      && StreamKvs(data, Cursor(off, true), |kvs|)
         == StreamKvs(data, StreamSkip(data, Cursor(at, true), TypeOf(v)), |kvs| - 1)
  {
    hide Bytes, Field, At, Encode, StreamSkip, StreamString, EncodeString, WellFormed;
    var kv := kvs[0];
    var afterKey := off + |EncodeString(kv.key)|;
    AtParts(data, off, EncodeKv(kv), EncodeKvs(kvs[1..]));
    AtParts(data, off, EncodeString(kv.key), Bytes(TypeOf(kv.value), 4) + Encode(kv.value));
    AtParts(data, afterKey, Bytes(TypeOf(kv.value), 4), Encode(kv.value));
    StreamsString(data, off, kv.key);
    Widths();
    ScalarKinds(kv.value);
    FieldAt(data, afterKey, TypeOf(kv.value), 4);
  }

  lemma {:induction false} StreamsKvs(data: seq<Byte>, off: nat, kvs: seq<KeyValue>)
    requires At(data, off, EncodeKvs(kvs)) && PlainKvs(kvs)
    ensures StreamKvs(data, Cursor(off, true), |kvs|) == Some(Cursor(off + |EncodeKvs(kvs)|, true))
    decreases |kvs|
  {
    hide *;
    if kvs == [] {
      NoMoreKvs(data, Cursor(off, true), kvs);
    } else {
      PlainFirst(kvs);
      StreamsKv(data, off, kvs);
      StreamSkipsEncoding(data, off + |EncodeString(kvs[0].key)| + 4, kvs[0].value);
      StreamsKvs(data, off + |EncodeKv(kvs[0])|, kvs[1..]);
    }
  }

  lemma {:induction false} DimsLength(dims: seq<nat>)
    ensures |EncodeDims(dims)| == 8 * |dims|
  {
    if dims != [] {
      DimsLength(dims[1..]);
    }
  }

  lemma StreamsEntry(data: seq<Byte>, off: nat, e: TensorEntry)
    requires ValidEntry(e) && |e.name| <= MAX_NAME && At(data, off, EncodeEntry(e))
    ensures StreamEntry(data, Cursor(off, true)) == Some((TensorOf(e), off + |EncodeEntry(e)|))
  {
    hide Bytes, Field, At, EncodeDims;
    var last := Bytes(e.ggmlType, 4) + Bytes(e.offset, 8);
    var a := off + |EncodeString(e.name)|;
    var b := a + 4 + |EncodeDims(e.dims)|;
    AtParts(data, off, EncodeString(e.name), Bytes(|e.dims|, 4) + (EncodeDims(e.dims) + last));
    AtParts(data, a, Bytes(|e.dims|, 4), EncodeDims(e.dims) + last);
    AtParts(data, a + 4, EncodeDims(e.dims), last);
    AtParts(data, b, Bytes(e.ggmlType, 4), Bytes(e.offset, 8));
    StreamsString(data, off, e.name);
    FieldAt(data, a, |e.dims|, 4);
    DimsLength(e.dims);
    FieldAt(data, b, e.ggmlType, 4);
    FieldAt(data, b + 4, e.offset, 8);
  }

  lemma {:induction false} StreamsTable(data: seq<Byte>, off: nat, table: seq<TensorEntry>)
    requires At(data, off, EncodeTable(table)) && PlainTable(table)
    ensures StreamTable(data, Cursor(off, true), |table|) == Some((TensorsOf(table), off + |EncodeTable(table)|))
    decreases |table|
  {
    hide At, EncodeEntry, StreamEntry, ValidEntry;
    if table != [] {
      AtParts(data, off, EncodeEntry(table[0]), EncodeTable(table[1..]));
      StreamsEntry(data, off, table[0]);
      StreamsTable(data, off + |EncodeEntry(table[0])|, table[1..]);
      assert TensorsOf(table) == [TensorOf(table[0])] + TensorsOf(table[1..]);
    }
  }

  /** Printed and read back: every tensor, and the payload right after the table. */
  lemma StreamsFile(f: File)
    requires Streamable(f)
    ensures StreamHeader(EncodeFile(f)) == Some((TensorsOf(f.table), |EncodeFile(f)| - |f.payload|))
  {
    hide *;
    var data, c := EncodeFile(f), Cursor(24 + |EncodeKvs(f.kvs)|, true);
    StreamableParts(f);
    FileParts(f);
    StreamsKvs(data, 24, f.kvs);
    HeaderReads(f, c);
    StreamsTable(data, c.off, f.table);
  }

  /** After the key-values of a printed file the table is read, wherever they ended. */
  lemma HeaderReads(f: File, c: Cursor)
    requires ValidFile(f) && StreamKvs(EncodeFile(f), Cursor(24, true), |f.kvs|) == Some(c)
    ensures StreamHeader(EncodeFile(f)) == StreamTable(EncodeFile(f), c, |f.table|)
  {
    hide EncodeFile, EncodeKvs, EncodeTable, At, ValidFile, StreamKvs, StreamTable;
    FileParts(f);
    hide Field;
  }

  // ---------------------------------------------------------------- a file that is refused

  /** The last key-value is a 16-bit integer, the first of its kind. */
  ghost predicate Ends16Bit(kvs: seq<KeyValue>) {
    && kvs != []
    && (forall i :: 0 <= i < |kvs| ==> |kvs[i].key| <= MAX_NAME && WellFormed(kvs[i].value))
    && (forall i :: 0 <= i < |kvs| - 1 ==> !Has16Bit(kvs[i].value))
    && var last := kvs[|kvs| - 1].value; last.Scalar? && Is16Bit(last.kind)
  }

  /** After such key-values the stream reader stands two bytes inside what follows. */
  lemma {:induction false} StreamsTooFar(data: seq<Byte>, off: nat, kvs: seq<KeyValue>)
    requires At(data, off, EncodeKvs(kvs)) && Ends16Bit(kvs)
    ensures StreamKvs(data, Cursor(off, true), |kvs|) == Some(Cursor(off + |EncodeKvs(kvs)| + 2, true))
    decreases |kvs|
  {
    hide At, Encode, StreamSkip, StreamKvs, EncodeString, EncodeKv, EncodeKvs, WellFormed, Has16Bit, TypeOf;
    var at := off + |EncodeString(kvs[0].key)| + 4;
    StreamsKv(data, off, kvs);
    if |kvs| == 1 {
      LastTooFar(data, at, kvs[0].value);
      NoMoreKvs(data, Cursor(at + 4, true), kvs[1..]);
    } else {
      LaterEnds16Bit(kvs);
      hide Ends16Bit;
      StreamSkipsEncoding(data, at, kvs[0].value);
      StreamsTooFar(data, off + |EncodeKv(kvs[0])|, kvs[1..]);
    }
  }

  lemma LastTooFar(data: seq<Byte>, at: nat, v: Value)
    requires v.Scalar? && Is16Bit(v.kind) && WellFormed(v)
    ensures |Encode(v)| == 2 && StreamSkip(data, Cursor(at, true), TypeOf(v)) == Cursor(at + 4, true)
  {
  }

  lemma NoMoreKvs(data: seq<Byte>, c: Cursor, kvs: seq<KeyValue>)
    requires kvs == []
    ensures StreamKvs(data, c, 0) == Some(c) && EncodeKvs(kvs) == []
  {
  }

  lemma LaterEnds16Bit(kvs: seq<KeyValue>)
    requires Ends16Bit(kvs) && |kvs| > 1
    ensures |kvs[0].key| <= MAX_NAME && WellFormed(kvs[0].value) && !Has16Bit(kvs[0].value) && Ends16Bit(kvs[1..])
  {
    hide WellFormed, Has16Bit;
  }

  /** A byte that is not zero bounds the number from below. */
  lemma {:induction false} HighByte(s: seq<Byte>, i: nat)
    requires i < |s| && s[i] > 0
    ensures Number(s) >= Pow256(i)
  {
    if i > 0 {
      HighByte(s[1..], i - 1);
    }
  }

  /** The first name's length, read two bytes too late, has the name's first byte in its
      seventh place: no name may be that long. */
  lemma NameTooLong(data: seq<Byte>, off: nat, name: Name)
    requires At(data, off, EncodeString(name)) && name != [] && name[0] != 0
    ensures StreamString(data, Cursor(off + 2, true)) == None
  {
    AtParts(data, off, Bytes(|name|, 8), name);
    assert data[off + 8] == name[0] by {
      assert data[off + 8..off + 8 + |name|][0] == name[0];
    }
    if off + 10 <= |data| {
      var field := data[off + 2..off + 10];
      assert field[6] == data[off + 8];
      HighByte(field, 6);
      SixBytes();
    }
  }

  lemma SixBytes()
    ensures Pow256(6) > MAX_NAME
  {
  }

  /** So a valid file is refused whose last key-value is a 16-bit integer, and whose first
      tensor has a name that starts with a character. */
  lemma RefusedAfter16Bit(f: File)
    requires ValidFile(f) && Ends16Bit(f.kvs)
    requires f.table != [] && f.table[0].name != [] && f.table[0].name[0] != 0
    ensures StreamHeader(EncodeFile(f)) == None
  {
    hide *;
    var data, off := EncodeFile(f), 24 + |EncodeKvs(f.kvs)|;
    FileParts(f);
    StreamsTooFar(data, 24, f.kvs);
    HeaderReads(f, Cursor(off + 2, true));
    TableTooFar(data, off, f.table);
  }

  lemma TableTooFar(data: seq<Byte>, off: nat, table: seq<TensorEntry>)
    requires table != [] && table[0].name != [] && table[0].name[0] != 0 && At(data, off, EncodeTable(table))
    ensures StreamTable(data, Cursor(off + 2, true), |table|) == None
  {
    hide At, Bytes, StreamString, EncodeDims, EncodeString;
    var e := table[0];
    AtParts(data, off, EncodeEntry(e), EncodeTable(table[1..]));
    AtParts(data, off, EncodeString(e.name),
            Bytes(|e.dims|, 4) + (EncodeDims(e.dims) + (Bytes(e.ggmlType, 4) + Bytes(e.offset, 8))));
    NameTooLong(data, off, e.name);
  }

  /** The shortest example: the 16-bit number 1 under the key "k", and one tensor "a" of `n`
      values.  The loader reads its table, the stream reader does not. */
  lemma PrintedCounterexample(n: nat, payload: seq<Byte>)
    requires n < Pow256(8)
    ensures var f := File(3, [KeyValue([107], Scalar(2, [1, 0]))], [TensorEntry([97], [n], 0, 0)], payload);
      && ValidFile(f)
      && HasHeader(EncodeFile(f)) && TableOf(EncodeFile(f)) == InfosOf(f.table)
      && StreamHeader(EncodeFile(f)) == None
  {
    var f := File(3, [KeyValue([107], Scalar(2, [1, 0]))], [TensorEntry([97], [n], 0, 0)], payload);
    Widths();
    assert ValidFile(f) && Ends16Bit(f.kvs);
    FileRead(f);
    RefusedAfter16Bit(f);
  }
}
