/** Products, quotients and remainders of index arithmetic under names of their own, so
    that proofs use the few laws below instead of the solver's nonlinear arithmetic. */
module Index {

  function Times(a: nat, b: nat): nat {
    a * b
  }

  function Div(i: nat, d: nat): nat
    requires d > 0
  {
    i / d
  }

  function Mod(i: nat, d: nat): (r: nat)
    requires d > 0
    ensures r < d
  {
    i % d
  }

  function Min(x: nat, y: nat): nat {
    if x < y then x else y
  }

  lemma ProductMagnitude(z: int, d: int)
    requires d > 0
    ensures z >= 1 ==> z * d >= d
    ensures z <= -1 ==> z * d <= -d
  {
    if z >= 1 {
      assert (z - 1) * d >= 0;
    } else if z <= -1 {
      assert (z + 1) * d <= 0;
    }
  }

  /** The division test for a product that would pass a limit. */
  lemma ProductWithinIff(lhs: nat, rhs: nat, limit: nat)
    requires lhs > 0
    ensures rhs > limit / lhs <==> Times(lhs, rhs) > limit
  {
    var q, r := limit / lhs, limit % lhs;
    assert limit == q * lhs + r;
    ProductMagnitude(rhs - q, lhs);
    assert (rhs - q) * lhs == lhs * rhs - q * lhs;
  }

  lemma Euclid(i: nat, d: nat)
    requires d > 0
    ensures i == Times(Div(i, d), d) + Mod(i, d)
  {
  }

  /** Quotient and remainder are the only such decomposition. */
  lemma Quotient(q: nat, r: nat, d: nat)
    requires r < d
    ensures Div(Times(q, d) + r, d) == q && Mod(Times(q, d) + r, d) == r
  {
    var x := q * d + r;
    var q', r' := x / d, x % d;
    assert x == q' * d + r';
    ProductMagnitude(q - q', d);
    assert (q - q') * d == r' - r;
  }

  lemma TimesIs(a: nat, b: nat)
    ensures a * b == Times(a, b)
  {
  }

  lemma TimesZero(d: nat)
    ensures Times(0, d) == 0 && Times(1, d) == d && Times(d, 0) == 0 && Times(d, 1) == d
  {
  }

  lemma TimesStep(a: nat, d: nat)
    ensures Times(a + 1, d) == Times(a, d) + d
    ensures Times(d, a + 1) == Times(d, a) + d
  {
  }

  /** Row b ends no later than the last of `count` rows. */
  lemma RowFits(b: nat, count: nat, d: nat)
    requires b < count
    ensures Times(b, d) + d <= Times(count, d)
  {
    if d > 0 {
      ProductMagnitude(count - b, d);
      assert (count - b) * d == count * d - b * d;
    }
  }

  lemma RowOf(i: nat, count: nat, d: nat)
    requires d > 0 && i < Times(count, d)
    ensures Div(i, d) < count
  {
    var q := i / d;
    assert i == q * d + i % d;
    ProductMagnitude(count - q, d);
    assert (count - q) * d == count * d - q * d;
  }

  lemma Doubles(b: nat, h: nat)
    ensures Times(b, 2 * h) == 2 * Times(b, h) == Times(2 * b, h)
    ensures Times(2 * b + 1, h) == 2 * Times(b, h) + h
  {
  }

  /** An offset below `2 * h`, taken modulo h. */
  lemma ModHalf(w: nat, h: nat)
    requires w < 2 * h
    ensures Mod(w, h) == if w < h then w else w - h
  {
    hide Times, Div, Mod;
    TimesZero(h);
    if w < h {
      Quotient(0, w, h);
    } else {
      Quotient(1, w - h, h);
    }
  }
}
