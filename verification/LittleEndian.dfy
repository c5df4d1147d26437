/** Bytes, and unsigned little-endian fields in them. */
module LittleEndian {

  type Byte = b: nat | b < 256

  /** The bytes of a `std::string`. */
  type Name = seq<Byte>

  function Pow256(w: nat): (p: nat)
    ensures p > 0
  {
    if w == 0 then 1 else 256 * Pow256(w - 1)
  }

  /** The low w bytes of v, lowest first. */
  function Bytes(v: nat, w: nat): (s: seq<Byte>)
    ensures |s| == w
  {
    if w == 0 then [] else [v % 256] + Bytes(v / 256, w - 1)
  }

  function Number(s: seq<Byte>): (v: nat)
    ensures v < Pow256(|s|)
  {
    if s == [] then 0 else s[0] + 256 * Number(s[1..])
  }

  lemma {:induction false} NumberOfBytes(v: nat, w: nat)
    requires v < Pow256(w)
    ensures Number(Bytes(v, w)) == v
  {
    if w > 0 {
      NumberOfBytes(v / 256, w - 1);
      assert Bytes(v, w)[1..] == Bytes(v / 256, w - 1);
    }
  }

  lemma {:induction false} BytesOfNumber(s: seq<Byte>)
    ensures Bytes(Number(s), |s|) == s
  {
    if s != [] {
      BytesOfNumber(s[1..]);
      assert Number(s) / 256 == Number(s[1..]) && Number(s) % 256 == s[0];
    }
  }

  /** Of two bytes the first counts once, the second 256 times; longer fields by halves. */
  lemma {:induction false} LowestFirst(s: seq<Byte>, t: seq<Byte>)
    ensures Number(s + t) == Number(s) + Pow256(|s|) * Number(t)
    ensures |s| == 1 ==> Number(s) == s[0]
  {
    if s == [] {
      assert s + t == t;
    } else {
      LowestFirst(s[1..], t);
      assert (s + t)[1..] == s[1..] + t;
      ShiftedSum(s[0], Number(s[1..]), Pow256(|s| - 1), Number(t));
    }
  }

  lemma ShiftedSum(b: nat, x: nat, p: nat, y: nat)
    ensures b + 256 * (x + p * y) == b + 256 * x + 256 * p * y
  {
  }

  lemma Widths()
    ensures Pow256(4) == 0x1_0000_0000 && Pow256(8) == 0x1_0000_0000_0000_0000
  {
  }

  /** `s` stands in `data` at `off`. */
  predicate At(data: seq<Byte>, off: nat, s: seq<Byte>) {
    off + |s| <= |data| && data[off..off + |s|] == s
  }

  lemma AtParts(data: seq<Byte>, off: nat, a: seq<Byte>, b: seq<Byte>)
    ensures At(data, off, a + b) <==> At(data, off, a) && At(data, off + |a|, b)
  {
    if off + |a| + |b| <= |data| {
      assert data[off..off + |a + b|] == data[off..off + |a|] + data[off + |a|..off + |a| + |b|];
      if data[off..off + |a + b|] == a + b {
        assert data[off..off + |a|] == (a + b)[..|a|];
        assert data[off + |a|..off + |a| + |b|] == (a + b)[|a|..];
      }
    }
  }

  /** The unsigned number in the w bytes at off. */
  function Field(data: seq<Byte>, off: nat, w: nat): (v: nat)
    requires off + w <= |data|
    ensures v < Pow256(w)
  {
    Number(data[off..off + w])
  }

  lemma FieldAt(data: seq<Byte>, off: nat, v: nat, w: nat)
    requires At(data, off, Bytes(v, w)) && v < Pow256(w)
    ensures off + w <= |data| && Field(data, off, w) == v
  {
    NumberOfBytes(v, w);
  }
}
