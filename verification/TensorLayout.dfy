/** Strided layouts: row-major strides, the offset of an index tuple, and the one-to-one
    correspondence between index tuples and element positions. */
module TensorLayout {
  import opened Index

  function Product(shape: seq<nat>): nat {
    if shape == [] then 1 else Times(shape[0], Product(shape[1..]))
  }

  ghost predicate Positive(s: seq<nat>) {
    forall i :: 0 <= i < |s| ==> s[i] > 0
  }

  /** Row-major strides for elements of esz bytes. */
  function RowMajor(shape: seq<nat>, esz: nat): (s: seq<nat>)
    ensures |s| == |shape|
  {
    if shape == [] then [] else [Times(esz, Product(shape[1..]))] + RowMajor(shape[1..], esz)
  }

  ghost predicate InShape(idx: seq<nat>, shape: seq<nat>) {
    |idx| == |shape| && forall i :: 0 <= i < |idx| ==> idx[i] < shape[i]
  }

  /** Byte distance of an element from the first one. */
  function Offset(idx: seq<nat>, strides: seq<nat>): nat
    requires |idx| == |strides|
  {
    if idx == [] then 0 else Times(idx[0], strides[0]) + Offset(idx[1..], strides[1..])
  }

  /** The last index in every dimension. */
  function Corner(shape: seq<nat>): (idx: seq<nat>)
    requires Positive(shape)
    ensures |idx| == |shape|
  {
    seq(|shape|, i requires 0 <= i < |shape| => (shape[i] - 1) as nat)
  }

  // ---------------------------------------------------------------- product laws

  lemma TimesMonotone(a: nat, b: nat, c: nat)
    requires a <= b
    ensures Times(a, c) <= Times(b, c) && Times(c, a) <= Times(c, b)
  {
    assert (b - a) * c >= 0;
  }

  lemma TimesLaws(a: nat, b: nat, c: nat)
    ensures Times(a, b) == Times(b, a)
    ensures Times(a, Times(b, c)) == Times(b, Times(a, c))
    ensures Times(a, b + c) == Times(a, b) + Times(a, c)
  {
    assert a * (b * c) == b * (a * c);
  }

  lemma TimesPositive(a: nat, b: nat)
    requires a > 0 && b > 0
    ensures Times(a, b) >= a && Times(a, b) >= b
  {
    TimesMonotone(1, b, a);
    TimesMonotone(1, a, b);
    TimesZero(a);
    TimesZero(b);
  }

  lemma {:induction false} ProductPositive(shape: seq<nat>)
    requires Positive(shape)
    ensures Product(shape) > 0
  {
    hide Times;
    if shape != [] {
      ProductPositive(shape[1..]);
      TimesPositive(shape[0], Product(shape[1..]));
    }
  }

  // ---------------------------------------------------------------- the end of a layout

  /** No element lies past the corner. */
  lemma {:induction false} CornerIsFarthest(idx: seq<nat>, shape: seq<nat>, strides: seq<nat>)
    requires Positive(shape) && InShape(idx, shape) && |strides| == |shape|
    ensures Offset(idx, strides) <= Offset(Corner(shape), strides)
  {
    hide Times;
    if shape != [] {
      CornerIsFarthest(idx[1..], shape[1..], strides[1..]);
      assert Corner(shape)[1..] == Corner(shape[1..]);
      TimesMonotone(idx[0], shape[0] - 1, strides[0]);
    }
  }

  /** In a row-major layout the corner element ends at esz * product. */
  lemma {:induction false} RowMajorEnd(shape: seq<nat>, esz: nat)
    requires Positive(shape)
    ensures Offset(Corner(shape), RowMajor(shape, esz)) + esz == Times(esz, Product(shape))
  {
    hide Times;
    if shape == [] {
      TimesZero(esz);
    } else {
      var p := Product(shape[1..]);
      RowMajorEnd(shape[1..], esz);
      assert Corner(shape)[1..] == Corner(shape[1..]);
      assert RowMajor(shape, esz)[1..] == RowMajor(shape[1..], esz);
      TimesStep(shape[0] - 1, Times(esz, p));
      TimesLaws(shape[0], esz, p);
    }
  }

  // ---------------------------------------------------------------- ranks

  /** Position of an index tuple in row-major order. */
  function Rank(shape: seq<nat>, idx: seq<nat>): nat
    requires |idx| == |shape|
  {
    if shape == [] then 0 else Times(idx[0], Product(shape[1..])) + Rank(shape[1..], idx[1..])
  }

  function Unrank(shape: seq<nat>, r: nat): (idx: seq<nat>)
    requires Positive(shape)
    ensures |idx| == |shape|
  {
    if shape == [] then []
    else
      ProductPositive(shape[1..]);
      var p := Product(shape[1..]);
      [Div(r, p)] + Unrank(shape[1..], Mod(r, p))
  }

  lemma {:induction false} RankBelow(shape: seq<nat>, idx: seq<nat>)
    requires InShape(idx, shape)
    ensures Rank(shape, idx) < Product(shape)
  {
    hide Times;
    if shape != [] {
      RankBelow(shape[1..], idx[1..]);
      RowFits(idx[0], shape[0], Product(shape[1..]));
    }
  }

  lemma {:induction false} UnrankOfRank(shape: seq<nat>, idx: seq<nat>)
    requires Positive(shape) && InShape(idx, shape)
    ensures Unrank(shape, Rank(shape, idx)) == idx
  {
    hide Times, Div, Mod;
    if shape != [] {
      RankBelow(shape[1..], idx[1..]);
      Quotient(idx[0], Rank(shape[1..], idx[1..]), Product(shape[1..]));
      UnrankOfRank(shape[1..], idx[1..]);
    }
  }

  lemma {:induction false} RankOfUnrank(shape: seq<nat>, r: nat)
    requires Positive(shape) && r < Product(shape)
    ensures InShape(Unrank(shape, r), shape) && Rank(shape, Unrank(shape, r)) == r
  {
    hide Times, Div;
    if shape != [] {
      var p := Product(shape[1..]);
      ProductPositive(shape[1..]);
      Euclid(r, p);
      RowOf(r, shape[0], p);
      RankOfUnrank(shape[1..], Mod(r, p));
    }
  }

  /** In a row-major layout the offset is esz times the rank. */
  lemma {:induction false} OffsetIsRank(shape: seq<nat>, esz: nat, idx: seq<nat>)
    requires |idx| == |shape|
    ensures Offset(idx, RowMajor(shape, esz)) == Times(esz, Rank(shape, idx))
  {
    hide Times;
    if shape == [] {
      TimesZero(esz);
    } else {
      var p := Product(shape[1..]);
      OffsetIsRank(shape[1..], esz, idx[1..]);
      assert RowMajor(shape, esz)[1..] == RowMajor(shape[1..], esz);
      TimesLaws(idx[0], esz, p);
      TimesLaws(esz, Times(idx[0], p), Rank(shape[1..], idx[1..]));
    }
  }

  ghost predicate SameOffset(shape: seq<nat>, esz: nat, a: seq<nat>, b: seq<nat>) {
    && InShape(a, shape) && InShape(b, shape)
    && Offset(a, RowMajor(shape, esz)) == Offset(b, RowMajor(shape, esz))
  }

  /** Row-major addressing is one-to-one: index tuples correspond exactly to the multiples
      of the element size below esz * product. */
  lemma RowMajorBijection(shape: seq<nat>, esz: nat)
    requires Positive(shape) && esz > 0
    ensures forall idx :: InShape(idx, shape) ==>
      Offset(idx, RowMajor(shape, esz)) == Times(esz, Rank(shape, idx)) && Rank(shape, idx) < Product(shape)
    ensures forall r: nat :: r < Product(shape) ==>
      InShape(Unrank(shape, r), shape) && Offset(Unrank(shape, r), RowMajor(shape, esz)) == Times(esz, r)
    ensures forall a, b :: SameOffset(shape, esz, a, b) ==> a == b
  {
    hide Times, Div, Mod;
    forall idx | InShape(idx, shape)
      ensures Offset(idx, RowMajor(shape, esz)) == Times(esz, Rank(shape, idx)) && Rank(shape, idx) < Product(shape)
    {
      OffsetIsRank(shape, esz, idx);
      RankBelow(shape, idx);
    }
    forall r: nat | r < Product(shape)
      ensures InShape(Unrank(shape, r), shape) && Offset(Unrank(shape, r), RowMajor(shape, esz)) == Times(esz, r)
    {
      RankOfUnrank(shape, r);
      OffsetIsRank(shape, esz, Unrank(shape, r));
    }
    forall a, b | SameOffset(shape, esz, a, b)
      ensures a == b
    {
      TimesCancels(esz, Rank(shape, a), Rank(shape, b));
      UnrankOfRank(shape, a);
      UnrankOfRank(shape, b);
    }
  }

  lemma TimesCancels(c: nat, a: nat, b: nat)
    requires c > 0 && Times(c, a) == Times(c, b)
    ensures a == b
  {
    ProductMagnitude(a - b, c);
    assert (a - b) * c == c * a - c * b;
  }
}
