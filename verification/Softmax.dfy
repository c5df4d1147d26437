/** Softmax averages over a masked list of scores, and their independence of the
    reference maximum that the kernels subtract. */
module Softmax {
  import opened Reals

  /** The two facts about the exponential that the attention kernels rest on. */
  ghost predicate ExpSum(exp: real -> real, a: real, b: real) {
    exp(a + b) == exp(a) * exp(b)
  }

  ghost predicate ExpLaws(exp: real -> real) {
    && (forall a, b :: ExpSum(exp, a, b))
    && (forall a :: exp(a) > 0.0)
  }

  /** The exponential as the kernels call it: never with a positive exponent. */
  function ExpOf(exp: real -> real, x: real): real
    requires x <= 0.0
  {
    exp(x)
  }

  lemma ExpPositive(exp: real -> real, x: real)
    requires ExpLaws(exp)
    ensures exp(x) > 0.0
  {
  }

  lemma ExpZero(exp: real -> real, x: real)
    requires ExpLaws(exp) && x == 0.0
    ensures exp(x) == 1.0
  {
    ExpPositive(exp, x);
    var e, y := exp(x), x + x;
    assert ExpSum(exp, x, x);
    assert exp(y) == e * e;
    assert y == x;
    assert exp(y) == e;
    IsOne(e);
  }

  lemma IsOne(e: real)
    requires e > 0.0 && e == e * e
    ensures e == 1.0
  {
  }

  /** Sum of exp(s_j - m) over the unmasked j < n. */
  function Mass(exp: real -> real, m: real, s: seq<real>, mask: seq<bool>, n: nat): real
    requires n <= |s| == |mask|
  {
    if n == 0 then 0.0
    else Mass(exp, m, s, mask, n - 1) + if mask[n - 1] then exp(s[n - 1] - m) else 0.0
  }

  /** Sum of exp(s_j - m) * v_j over the unmasked j < n. */
  function Weighted(exp: real -> real, m: real, s: seq<real>, mask: seq<bool>, v: seq<real>, n: nat): real
    requires n <= |s| == |mask| == |v|
  {
    if n == 0 then 0.0
    else Weighted(exp, m, s, mask, v, n - 1) + if mask[n - 1] then Product(exp(s[n - 1] - m), v[n - 1]) else 0.0
  }

  lemma NothingYet(exp: real -> real, m: real, s: seq<real>, mask: seq<bool>, v: seq<real>)
    requires |s| == |mask| == |v|
    ensures Mass(exp, m, s, mask, 0) == 0.0 && Weighted(exp, m, s, mask, v, 0) == 0.0
  {
  }

  lemma MassStep(exp: real -> real, m: real, s: seq<real>, mask: seq<bool>, n: nat)
    requires n < |s| == |mask|
    ensures Mass(exp, m, s, mask, n + 1) == Mass(exp, m, s, mask, n) + if mask[n] then exp(s[n] - m) else 0.0
  {
  }

  lemma WeightedStep(exp: real -> real, m: real, s: seq<real>, mask: seq<bool>, v: seq<real>, n: nat)
    requires n < |s| == |mask| == |v|
    ensures Weighted(exp, m, s, mask, v, n + 1)
         == Weighted(exp, m, s, mask, v, n) + if mask[n] then Product(exp(s[n] - m), v[n]) else 0.0
  {
  }

  /** The average of v under the softmax of the unmasked scores; 0 if all are masked. */
  function Average(exp: real -> real, s: seq<real>, mask: seq<bool>, v: seq<real>): real
    requires |s| == |mask| == |v|
  {
    var mass := Mass(exp, 0.0, s, mask, |s|);
    if mass == 0.0 then 0.0 else Weighted(exp, 0.0, s, mask, v, |s|) / mass
  }

  lemma {:induction false} MassPositive(exp: real -> real, m: real, s: seq<real>, mask: seq<bool>, n: nat)
    requires ExpLaws(exp) && n <= |s| == |mask|
    ensures Mass(exp, m, s, mask, n) >= 0.0
    ensures Mass(exp, m, s, mask, n) > 0.0 <==> exists j :: 0 <= j < n && mask[j]
  {
    if n > 0 {
      MassPositive(exp, m, s, mask, n - 1);
      assert exp(s[n - 1] - m) > 0.0;
    }
  }

  /** Changing the reference from m to r rescales both sums by exp(m - r). */
  lemma {:induction false} Rescale(exp: real -> real, m: real, r: real, s: seq<real>, mask: seq<bool>, n: nat)
    requires ExpLaws(exp) && n <= |s| == |mask|
    ensures Mass(exp, r, s, mask, n) == Product(Mass(exp, m, s, mask, n), exp(m - r))
  {
    if n > 0 {
      Rescale(exp, m, r, s, mask, n - 1);
      ShiftTerm(exp, m, r, s[n - 1]);
    }
  }

  lemma {:induction false} RescaleWeighted(exp: real -> real, m: real, r: real, s: seq<real>, mask: seq<bool>,
                                           v: seq<real>, n: nat)
    requires ExpLaws(exp) && n <= |s| == |mask| == |v|
    ensures Weighted(exp, r, s, mask, v, n) == Product(Weighted(exp, m, s, mask, v, n), exp(m - r))
  {
    if n > 0 {
      RescaleWeighted(exp, m, r, s, mask, v, n - 1);
      ShiftTerm(exp, m, r, s[n - 1]);
      var e, f, x := exp(s[n - 1] - m), exp(m - r), v[n - 1];
      assert (e * f) * x == (e * x) * f;
    }
  }

  lemma ShiftTerm(exp: real -> real, m: real, r: real, t: real)
    requires ExpLaws(exp)
    ensures exp(t - r) == exp(t - m) * exp(m - r)
  {
    assert ExpSum(exp, t - m, m - r);
    assert (t - m) + (m - r) == t - r;
  }

  /** The quotient does not depend on the reference. */
  lemma QuotientIndependent(exp: real -> real, m: real, s: seq<real>, mask: seq<bool>, v: seq<real>)
    requires ExpLaws(exp) && |s| == |mask| == |v|
    ensures var mass := Mass(exp, m, s, mask, |s|);
      && (mass == 0.0 <==> Mass(exp, 0.0, s, mask, |s|) == 0.0)
      && Average(exp, s, mask, v) == if mass == 0.0 then 0.0 else Weighted(exp, m, s, mask, v, |s|) / mass
  {
    var n := |s|;
    Rescale(exp, 0.0, m, s, mask, n);
    RescaleWeighted(exp, 0.0, m, s, mask, v, n);
    var f := exp(0.0 - m);
    assert f > 0.0;
    var a, w := Mass(exp, 0.0, s, mask, n), Weighted(exp, 0.0, s, mask, v, n);
    MassPositive(exp, 0.0, s, mask, n);
    if a > 0.0 {
      ScaledQuotient(w, a, f);
    }
  }

  lemma ScaledQuotient(w: real, a: real, f: real)
    requires a > 0.0 && f > 0.0
    ensures a * f > 0.0
    ensures (w * f) / (a * f) == w / a
  {
    var q := w / a;
    assert q * a == w;
    assert q * (a * f) == w * f;
  }

  // ---------------------------------------------------------------- shares

  /** The j-th value alone. */
  function Indicator(n: nat, j: nat): (v: seq<real>)
    ensures |v| == n
  {
    seq(n, i => if i == j then 1.0 else 0.0)
  }

  /** What the average takes of the j-th value. */
  function Share(exp: real -> real, s: seq<real>, mask: seq<bool>, j: nat): real
    requires j < |s| == |mask|
  {
    Average(exp, s, mask, Indicator(|s|, j))
  }

  lemma {:induction false} WeightedIndicator(exp: real -> real, s: seq<real>, mask: seq<bool>, j: nat, n: nat)
    requires j < |s| == |mask| && n <= |s|
    ensures Weighted(exp, 0.0, s, mask, Indicator(|s|, j), n) == if j < n && mask[j] then exp(s[j]) else 0.0
  {
    if n > 0 {
      WeightedIndicator(exp, s, mask, j, n - 1);
      ByIndicator(exp(s[n - 1]));
      LessNothing(s[n - 1]);
    }
  }

  lemma LessNothing(x: real)
    ensures x - 0.0 == x
  {
  }

  lemma ByIndicator(x: real)
    ensures Product(x, 1.0) == x && Product(x, 0.0) == 0.0 == Product(0.0, x)
  {
  }

  /** A masked value has no share; the shares of two others are as the exponentials of their
      scores: the share grows by the factor exp(d) when the score grows by d. */
  lemma SharesAre(exp: real -> real, s: seq<real>, mask: seq<bool>, i: nat, j: nat)
    requires ExpLaws(exp) && i < |s| == |mask| && j < |s|
    ensures !mask[j] ==> Share(exp, s, mask, j) == 0.0
    ensures mask[j] ==> Share(exp, s, mask, j) > 0.0
    ensures mask[i] && mask[j] ==> Share(exp, s, mask, i) == Product(Share(exp, s, mask, j), exp(s[i] - s[j]))
  {
    var mass := Mass(exp, 0.0, s, mask, |s|);
    WeightedIndicator(exp, s, mask, i, |s|);
    WeightedIndicator(exp, s, mask, j, |s|);
    MassPositive(exp, 0.0, s, mask, |s|);
    ExpPositive(exp, s[j]);
    if mask[j] {
      PositiveQuotient(exp(s[j]), mass);
      assert ExpSum(exp, s[i] - s[j], s[j]);
      assert s[i] - s[j] + s[j] == s[i];
      MovedFactor(exp(s[i] - s[j]), exp(s[j]), mass);
    }
  }

  lemma PositiveQuotient(x: real, y: real)
    requires x > 0.0 && y > 0.0
    ensures x / y > 0.0
  {
  }

  lemma MovedFactor(f: real, x: real, y: real)
    requires y != 0.0
    ensures f * x / y == Product(x / y, f)
  {
    assert x / y * f * y == f * x;
  }

  /** The first n values, each by its share. */
  function ByShares(exp: real -> real, s: seq<real>, mask: seq<bool>, v: seq<real>, n: nat): real
    requires n <= |s| == |mask| == |v|
  {
    if n == 0 then 0.0 else ByShares(exp, s, mask, v, n - 1) + Product(Share(exp, s, mask, n - 1), v[n - 1])
  }

  lemma {:induction false} SharesSum(exp: real -> real, s: seq<real>, mask: seq<bool>, v: seq<real>, n: nat)
    requires n <= |s| == |mask| == |v| && Mass(exp, 0.0, s, mask, |s|) != 0.0
    ensures ByShares(exp, s, mask, v, n) == Weighted(exp, 0.0, s, mask, v, n) / Mass(exp, 0.0, s, mask, |s|)
  {
    var mass := Mass(exp, 0.0, s, mask, |s|);
    if n > 0 {
      SharesSum(exp, s, mask, v, n - 1);
      WeightedIndicator(exp, s, mask, n - 1, |s|);
      LessNothing(s[n - 1]);
      ByIndicator(v[n - 1]);
      SumQuotient(Weighted(exp, 0.0, s, mask, v, n - 1), exp(s[n - 1]), v[n - 1], mass);
    }
  }

  lemma SumQuotient(w: real, e: real, x: real, mass: real)
    requires mass != 0.0
    ensures w / mass + Product(e / mass, x) == (w + Product(e, x)) / mass
    ensures 0.0 / mass == 0.0
  {
    assert (w / mass + e / mass * x) * mass == w + e * x;
  }

  lemma {:induction false} MassIsWeightOfOnes(exp: real -> real, s: seq<real>, mask: seq<bool>, v: seq<real>, n: nat)
    requires n <= |s| == |mask| == |v| && forall i :: 0 <= i < |v| ==> v[i] == 1.0
    ensures Weighted(exp, 0.0, s, mask, v, n) == Mass(exp, 0.0, s, mask, n)
  {
    if n > 0 {
      MassIsWeightOfOnes(exp, s, mask, v, n - 1);
      ByIndicator(exp(s[n - 1] - 0.0));
    }
  }

  /** The average is the sum of the values by their shares. */
  lemma AverageIsByShares(exp: real -> real, s: seq<real>, mask: seq<bool>, v: seq<real>)
    requires ExpLaws(exp) && |s| == |mask| == |v| && exists j :: 0 <= j < |s| && mask[j]
    ensures Average(exp, s, mask, v) == ByShares(exp, s, mask, v, |s|)
  {
    hide Mass, Weighted, ByShares, Share;
    SomeMass(exp, s, mask);
    SharesSum(exp, s, mask, v, |s|);
  }

  lemma SomeMass(exp: real -> real, s: seq<real>, mask: seq<bool>)
    requires ExpLaws(exp) && |s| == |mask| && exists j :: 0 <= j < |s| && mask[j]
    ensures Mass(exp, 0.0, s, mask, |s|) > 0.0
  {
    hide Mass;
    MassPositive(exp, 0.0, s, mask, |s|);
  }

  /** The shares add up to one as soon as one key is visible: with `SharesAre`, they are the
      softmax. */
  lemma SharesAddUp(exp: real -> real, s: seq<real>, mask: seq<bool>, ones: seq<real>)
    requires ExpLaws(exp) && |s| == |mask| == |ones| && exists j :: 0 <= j < |s| && mask[j]
    requires forall i :: 0 <= i < |ones| ==> ones[i] == 1.0
    ensures ByShares(exp, s, mask, ones, |s|) == 1.0
  {
    hide Mass, Weighted, ByShares, Share;
    SomeMass(exp, s, mask);
    SharesSum(exp, s, mask, ones, |s|);
    hide ExpLaws;
    MassIsWeightOfOnes(exp, s, mask, ones, |s|);
  }

  /** With one key visible the average is its value. */
  lemma OnlyOne(exp: real -> real, s: seq<real>, mask: seq<bool>, v: seq<real>, j: nat)
    requires ExpLaws(exp) && j < |s| == |mask| == |v| && forall i :: 0 <= i < |s| ==> (mask[i] <==> i == j)
    ensures Average(exp, s, mask, v) == v[j]
  {
    OnlyOneUpTo(exp, s, mask, v, j, |s|);
    ExpPositive(exp, s[j]);
    Divides(exp(s[j]), v[j]);
  }

  lemma {:induction false} OnlyOneUpTo(exp: real -> real, s: seq<real>, mask: seq<bool>, v: seq<real>, j: nat, n: nat)
    requires j < |s| == |mask| == |v| && n <= |s| && forall i :: 0 <= i < |s| ==> (mask[i] <==> i == j)
    ensures Mass(exp, 0.0, s, mask, n) == if j < n then exp(s[j]) else 0.0
    ensures Weighted(exp, 0.0, s, mask, v, n) == if j < n then Product(exp(s[j]), v[j]) else 0.0
  {
    if n > 0 {
      OnlyOneUpTo(exp, s, mask, v, j, n - 1);
      LessNothing(s[n - 1]);
    }
  }

  lemma Divides(x: real, y: real)
    requires x > 0.0
    ensures Product(x, y) / x == y
  {
  }

  /** Keys past the last unmasked one add nothing. */
  lemma {:induction false} MaskedTail(exp: real -> real, m: real, s: seq<real>, mask: seq<bool>, v: seq<real>,
                                      j: nat, n: nat)
    requires j <= n <= |s| == |mask| == |v|
    requires forall t :: j <= t < n ==> !mask[t]
    ensures Mass(exp, m, s, mask, n) == Mass(exp, m, s, mask, j)
    ensures Weighted(exp, m, s, mask, v, n) == Weighted(exp, m, s, mask, v, j)
  {
    if j < n {
      MaskedTail(exp, m, s, mask, v, j, n - 1);
    }
  }
}
