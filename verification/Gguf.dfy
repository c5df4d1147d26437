/** GGUF metadata values and the reader of src/dxmodel/dxmodel.cpp that skips them. */
module Gguf {
  import opened LittleEndian

  // ---------------------------------------------------------------- values and their encoding

  datatype Value =
    | Scalar(kind: nat, payload: seq<Byte>)
    | Text(chars: seq<Byte>)
    | Array(elemType: nat, items: seq<Value>)

  /** Bytes of a scalar of the given type id; 0 for the ids of strings, arrays and nothing. */
  function Width(kind: nat): nat {
    match kind
    case 0 => 1 case 1 => 1 case 7 => 1
    case 2 => 2 case 3 => 2
    case 4 => 4 case 5 => 4 case 6 => 4
    case 10 => 8 case 11 => 8 case 12 => 8
    case _ => 0
  }

  lemma ScalarKinds(v: Value)
    requires WellFormed(v)
    ensures TypeOf(v) < 13
  {
  }

  function TypeOf(v: Value): nat {
    match v
    case Scalar(kind, _) => kind
    case Text(_) => 8
    case Array(_, _) => 9
  }

  ghost predicate WellFormed(v: Value) {
    match v
    case Scalar(kind, payload) => Width(kind) > 0 && |payload| == Width(kind)
    case Text(chars) => |chars| < Pow256(8)
    case Array(elemType, items) =>
      && elemType < Pow256(4) && |items| < Pow256(8)
      && forall i :: 0 <= i < |items| ==> TypeOf(items[i]) == elemType && WellFormed(items[i])
  }

  function Encode(v: Value): seq<Byte>
    decreases v, 0
  {
    match v
    case Scalar(_, payload) => payload
    case Text(chars) => Bytes(|chars|, 8) + chars
    case Array(elemType, items) => Bytes(elemType, 4) + Bytes(|items|, 8) + EncodeAll(items)
  }

  function EncodeAll(items: seq<Value>): seq<Byte>
    decreases items
  {
    if items == [] then [] else Encode(items[0]) + EncodeAll(items[1..])
  }

  /** The scalar types of the format, with the ids and sizes it gives them. */
  datatype ScalarType = UINT8 | INT8 | UINT16 | INT16 | UINT32 | INT32 | FLOAT32 | BOOL | UINT64 | INT64 | FLOAT64 {
    function Id(): nat {
      match this
      case UINT8 => 0 case INT8 => 1 case UINT16 => 2 case INT16 => 3 case UINT32 => 4 case INT32 => 5
      case FLOAT32 => 6 case BOOL => 7 case UINT64 => 10 case INT64 => 11 case FLOAT64 => 12
    }

    function Bits(): nat {
      match this
      case UINT8 | INT8 | BOOL => 8
      case UINT16 | INT16 => 16
      case UINT32 | INT32 | FLOAT32 => 32
      case UINT64 | INT64 | FLOAT64 => 64
    }
  }

  /** Every scalar type is skipped by its size, and other ids by nothing. */
  lemma SkipsScalar(data: seq<Byte>, off: nat, t: ScalarType)
    ensures Skip(data, off, t.Id()) == off + t.Bits() / 8
  {
  }

  lemma OtherIds(data: seq<Byte>, off: nat, id: nat)
    requires id !in {8, 9} && forall t: ScalarType :: t.Id() != id
    ensures Skip(data, off, id) == off
  {
    assert forall t: ScalarType :: t.Id() != id;
    assert UINT8.Id() == 0 && INT8.Id() == 1 && UINT16.Id() == 2 && INT16.Id() == 3 && UINT32.Id() == 4;
    assert INT32.Id() == 5 && FLOAT32.Id() == 6 && BOOL.Id() == 7 && UINT64.Id() == 10 && INT64.Id() == 11;
    assert FLOAT64.Id() == 12;
  }

  // ---------------------------------------------------------------- skipping

  function Left(data: seq<Byte>, off: nat): nat {
    if off <= |data| then |data| - off else 0
  }

  /** Where the reader ends up after a value of type t at off, on any data. */
  function Skip(data: seq<Byte>, off: nat, t: nat): (end: nat)
    ensures end >= off
    decreases Left(data, off), 0
  {
    if t == 8 then
      if off + 8 <= |data| then off + 8 + Field(data, off, 8) else off
    else if t == 9 then
      if off + 12 <= |data|
      then SkipItems(data, off + 12, Field(data, off, 4), Field(data, off + 4, 8))
      else off
    else off + Width(t)
  }

  function SkipItems(data: seq<Byte>, off: nat, t: nat, n: nat): (end: nat)
    ensures end >= off
    decreases Left(data, off), n
  {
    if n == 0 then off else SkipItems(data, Skip(data, off, t), t, n - 1)
  }

  method SkipVal(data: seq<Byte>, off: nat, t: nat) returns (offset: nat)
    ensures offset == Skip(data, off, t)
    decreases Left(data, off)
  {
    offset := off;
    match t {
      case 0 => offset := offset + 1;
      case 1 => offset := offset + 1;
      case 7 => offset := offset + 1;
      case 2 => offset := offset + 2;
      case 3 => offset := offset + 2;
      case 4 => offset := offset + 4;
      case 5 => offset := offset + 4;
      case 6 => offset := offset + 4;
      case 10 => offset := offset + 8;
      case 11 => offset := offset + 8;
      case 12 => offset := offset + 8;
      case 8 =>
        if offset + 8 <= |data| {
          var strLen := Field(data, offset, 8);
          offset := offset + 8 + strLen;
        }
      case 9 =>
        if offset + 12 <= |data| {
          var elemType := Field(data, offset, 4);
          var arrayLen := Field(data, offset + 4, 8);
          offset := offset + 12;
          for i := 0 to arrayLen
            invariant offset >= off + 12
            invariant SkipItems(data, offset, elemType, arrayLen - i) == SkipItems(data, off + 12, elemType, arrayLen)
          {
            offset := SkipVal(data, offset, elemType);
          }
        }
      case _ =>
    }
  }

  /** Skipping consumes exactly the encoding of a value, at any depth of nesting. */
  lemma {:induction false} SkipsEncoding(data: seq<Byte>, off: nat, v: Value)
    requires WellFormed(v) && At(data, off, Encode(v))
    ensures Skip(data, off, TypeOf(v)) == off + |Encode(v)|
    decreases v, 0
  {
    match v
    case Scalar(_, _) =>
    case Text(chars) =>
      AtParts(data, off, Bytes(|chars|, 8), chars);
      FieldAt(data, off, |chars|, 8);
    case Array(elemType, items) =>
      var head := Bytes(elemType, 4) + Bytes(|items|, 8);
      AtParts(data, off, head, EncodeAll(items));
      AtParts(data, off, Bytes(elemType, 4), Bytes(|items|, 8));
      FieldAt(data, off, elemType, 4);
      FieldAt(data, off + 4, |items|, 8);
      SkipsItems(data, off + 12, items, elemType);
  }

  lemma {:induction false} SkipsItems(data: seq<Byte>, off: nat, items: seq<Value>, t: nat)
    requires forall i :: 0 <= i < |items| ==> TypeOf(items[i]) == t && WellFormed(items[i])
    requires At(data, off, EncodeAll(items))
    ensures SkipItems(data, off, t, |items|) == off + |EncodeAll(items)|
    decreases items
  {
    hide At, Encode, Skip, WellFormed, TypeOf;
    if items != [] {
      AtParts(data, off, Encode(items[0]), EncodeAll(items[1..]));
      SkipsEncoding(data, off, items[0]);
      SkipsItems(data, off + |Encode(items[0])|, items[1..], t);
    }
  }

  // ---------------------------------------------------------------- strings

  /** A length-prefixed string; "" where it does not fit, having passed what was read. */
  function ReadString(data: seq<Byte>, off: nat): (r: (seq<Byte>, nat))
    ensures r.1 >= off
  {
    if off + 8 > |data| then ([], off)
    else
      var len := Field(data, off, 8);
      if off + 8 + len > |data| then ([], off + 8)
      else (data[off + 8..off + 8 + len], off + 8 + len)
  }

  function EncodeString(s: seq<Byte>): seq<Byte> {
    Bytes(|s|, 8) + s
  }

  /** A printed string: the length in eight bytes, and the characters. */
  lemma StringLayout(data: seq<Byte>, off: nat, s: seq<Byte>)
    requires |s| < Pow256(8) && At(data, off, EncodeString(s))
    ensures off + 8 + |s| <= |data| && Field(data, off, 8) == |s| && data[off + 8..off + 8 + |s|] == s
    ensures |EncodeString(s)| == 8 + |s|
  {
    AtParts(data, off, Bytes(|s|, 8), s);
    FieldAt(data, off, |s|, 8);
  }

  lemma ReadsString(data: seq<Byte>, off: nat, s: seq<Byte>)
    requires |s| < Pow256(8) && At(data, off, EncodeString(s))
    ensures ReadString(data, off) == (s, off + |EncodeString(s)|)
  {
    AtParts(data, off, Bytes(|s|, 8), s);
    FieldAt(data, off, |s|, 8);
  }
}
