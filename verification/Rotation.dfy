/** Complex numbers as the (re, im) pairs the kernels keep in two buffers, and the
    one fact about cosine and sine that the transform rests on: the angle sum. */
module Rotation {
  import opened Index

  datatype Complex = Complex(re: real, im: real)

  const ONE := Complex(1.0, 0.0)
  const ZERO := Complex(0.0, 0.0)

  function Add(a: Complex, b: Complex): Complex {
    Complex(a.re + b.re, a.im + b.im)
  }

  function Sub(a: Complex, b: Complex): Complex {
    Complex(a.re - b.re, a.im - b.im)
  }

  function Mul(a: Complex, b: Complex): Complex {
    Complex(a.re * b.re - a.im * b.im, a.re * b.im + a.im * b.re)
  }

  lemma MulAssociates(a: Complex, b: Complex, c: Complex)
    ensures Mul(Mul(a, b), c) == Mul(a, Mul(b, c))
  {
  }

  lemma MulDistributes(a: Complex, b: Complex, c: Complex)
    ensures Mul(a, Add(b, c)) == Add(Mul(a, b), Mul(a, c))
  {
  }

  /** Cosine and sine of an angle given in full turns. */
  datatype Trig = Trig(cos: real -> real, sin: real -> real) {
    ghost predicate AngleSum(a: real, b: real) {
      && cos(a + b) == cos(a) * cos(b) - sin(a) * sin(b)
      && sin(a + b) == cos(a) * sin(b) + sin(a) * cos(b)
    }

    ghost predicate Valid() {
      && (forall a, b :: AngleSum(a, b))
      && cos(-0.5) == -1.0 && sin(-0.5) == 0.0
    }

    /** The point of the unit circle at -num/den of a turn. */
    function Root(num: int, den: int): Complex
      requires den != 0
    {
      var turn := -(num as real) / (den as real);
      Complex(cos(turn), sin(turn))
    }

    lemma RootSum(a: int, b: int, den: int)
      requires Valid() && den > 0
      ensures Root(a + b, den) == Mul(Root(a, den), Root(b, den))
    {
      var d := den as real;
      assert -((a + b) as real) / d == -(a as real) / d + -(b as real) / d;
      assert AngleSum(-(a as real) / d, -(b as real) / d);
    }

    lemma RootScale(a: int, c: int, den: int)
      requires den > 0 && c > 0
      ensures c * den > 0
      ensures Root(c * a, c * den) == Root(a, den)
    {
      var x, y, z := a as real, c as real, den as real;
      assert (c * a) as real == y * x && (c * den) as real == y * z;
      assert -(y * x) / (y * z) == -x / z by {
        var q := -x / z;
        assert q * z == -x;
        assert q * (y * z) == -(y * x);
      }
    }

    lemma RootHalf(den: int)
      requires Valid() && den > 0
      ensures Root(den, 2 * den) == Complex(-1.0, 0.0)
    {
      RootScale(1, den, 2);
    }

    lemma WholeTurnValues()
      requires Valid()
      ensures cos(0.0) == 1.0 && sin(0.0) == 0.0
      ensures cos(-1.0) == 1.0 && sin(-1.0) == 0.0
    {
      assert AngleSum(0.0, -0.5);
      assert AngleSum(-0.5, -0.5);
      assert -0.5 + -0.5 == -1.0;
    }

    lemma RootOne(den: int)
      requires Valid() && den > 0
      ensures Root(den, den) == ONE && Root(0, den) == ONE
    {
      WholeTurnValues();
      var d := den as real;
      assert -d / d == -1.0;
      assert -(0 as real) / d == 0.0;
    }

    /** Whole turns come back to one. */
    lemma {:induction false} RootWhole(k: nat, den: nat)
      requires Valid() && den > 0
      ensures Root(Times(k, den), den) == ONE
    {
      hide Root, Times, Mul;
      RootOne(den);
      if k == 0 {
        TimesZero(den);
      } else {
        RootWhole(k - 1, den);
        TimesStep(k - 1, den);
        RootSum(Times(k - 1, den), den, den);
        OneTimesOne();
      }
    }
  }

  lemma OneTimesOne()
    ensures Mul(ONE, ONE) == ONE
  {
  }
}
