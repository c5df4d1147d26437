/** The kernel `linear_attn` of src/dxattention/dxattention.cpp: a recurrent state of
    feature-key sums replaces the scores of all earlier positions. */
module LinearAttention {
  import opened Attention
  import opened Index
  import opened Reals
  import opened Softmax

  const MAX_DIM := 32

  /** The feature map elu(x) + 1. */
  function Phi(exp: real -> real, x: real): real {
    Max(x, 0.0) + ExpOf(exp, if x < 0.0 then x else 0.0)
  }

  lemma PhiPositive(exp: real -> real, x: real)
    requires ExpLaws(exp)
    ensures Phi(exp, x) > 0.0
  {
    assert exp(if x < 0.0 then x else 0.0) > 0.0;
  }

  /** At 0 it is 1, and above grows with slope 1; below it falls off like the exponential. */
  lemma PhiIs(exp: real -> real, x: real, y: real)
    requires ExpLaws(exp) && x <= y
    ensures Phi(exp, 0.0) == 1.0
    ensures 0.0 <= x ==> Phi(exp, y) - Phi(exp, x) == y - x
    ensures y <= 0.0 ==> Phi(exp, y) == Product(Phi(exp, x), exp(y - x))
  {
    ExpZero(exp, 0.0);
    assert ExpSum(exp, x, y - x);
    assert x + (y - x) == y;
  }

  // ---------------------------------------------------------------- the quadratic form

  /** phi(q) . phi(k_j), over the first `dims` coordinates. */
  ghost function PhiDot(exp: real -> real, t: Query, j: nat, dims: nat): real
    requires t.Valid() && j < t.s.seqLen && dims <= t.s.headDim
  {
    if dims == 0 then 0.0
    else PhiDot(exp, t, j, dims - 1)
         + Product(Phi(exp, t.q[t.qBase + dims - 1]), Phi(exp, t.Keys(dims - 1)[j]))
  }

  /** The sum over j < n of (phi(q) . phi(k_j)) * v_j[e]. */
  ghost function Numerator(exp: real -> real, t: Query, e: nat, n: nat): real
    requires t.Valid() && n <= t.s.seqLen && e < t.s.headDim
  {
    if n == 0 then 0.0
    else Numerator(exp, t, e, n - 1) + Product(PhiDot(exp, t, n - 1, t.s.headDim), t.Values(e)[n - 1])
  }

  ghost function Denominator(exp: real -> real, t: Query, n: nat): real
    requires t.Valid() && n <= t.s.seqLen
  {
    if n == 0 then 0.0 else Denominator(exp, t, n - 1) + PhiDot(exp, t, n - 1, t.s.headDim)
  }

  lemma {:induction false} PhiDotPositive(exp: real -> real, t: Query, j: nat, dims: nat)
    requires ExpLaws(exp) && t.Valid() && j < t.s.seqLen && dims <= t.s.headDim
    ensures PhiDot(exp, t, j, dims) >= 0.0
    ensures dims > 0 ==> PhiDot(exp, t, j, dims) > 0.0
  {
    hide Product, Phi, ExpLaws;
    if dims > 0 {
      var d := dims - 1;
      PhiDotPositive(exp, t, j, d);
      var x, y := Phi(exp, t.q[t.qBase + d]), Phi(exp, t.Keys(d)[j]);
      PhiPositive(exp, t.q[t.qBase + d]);
      PhiPositive(exp, t.Keys(d)[j]);
      ProductSign(x, y);
      assert PhiDot(exp, t, j, dims) == PhiDot(exp, t, j, d) + Product(x, y);
    }
  }

  /** The feature map, coordinate by coordinate. */
  function Mapped(exp: real -> real, x: seq<real>): (y: seq<real>)
    ensures |y| == |x|
  {
    seq(|x|, i requires 0 <= i < |x| => Phi(exp, x[i]))
  }

  /** The weight of key j is the inner product of the mapped query and the mapped key. */
  lemma {:induction false} PhiDotIsDot(exp: real -> real, t: Query, j: nat, dims: nat)
    requires t.Valid() && j < t.s.seqLen && dims <= t.s.headDim
    ensures var row, n := t.head.Rows(t.s)[j], t.s.headDim;
      && row + n <= |t.k|
      && PhiDot(exp, t, j, dims)
         == DotTerms(Mapped(exp, t.q[t.qBase..t.qBase + n]), Mapped(exp, t.k[row..row + n]), dims)
  {
    hide Phi, Addressing.Start, Addressing.KvSize, Addressing.Valid;
    if dims > 0 {
      PhiDotIsDot(exp, t, j, dims - 1);
    }
  }

  /** One more key adds its weight to the denominator, and its weight times the value found at its
      own row to the numerator. */
  lemma KeyAdds(exp: real -> real, t: Query, e: nat, j: nat)
    requires t.Valid() && j < t.s.seqLen && e < t.s.headDim
    ensures var row, n := t.head.Rows(t.s)[j], t.s.headDim;
      && row + n <= |t.k| == |t.v|
      && var weight := DotTerms(Mapped(exp, t.q[t.qBase..t.qBase + n]), Mapped(exp, t.k[row..row + n]), n);
      && Denominator(exp, t, j + 1) == Denominator(exp, t, j) + weight
      && Numerator(exp, t, e, j + 1) == Numerator(exp, t, e, j) + Product(weight, t.v[row + e])
  {
    hide Product, Mapped, DotTerms, Addressing.Start, Addressing.KvSize, Addressing.Valid;
    PhiDotIsDot(exp, t, j, t.s.headDim);
  }

  /** The weights are an average: where all values seen are equal, so is the output. */
  lemma {:induction false} SameValues(exp: real -> real, t: Query, e: nat, n: nat, x: real)
    requires t.Valid() && n <= t.s.seqLen && e < t.s.headDim
    requires forall j :: 0 <= j < n ==> t.Values(e)[j] == x
    ensures Numerator(exp, t, e, n) == Product(Denominator(exp, t, n), x)
  {
    hide PhiDot, Query.Values, Query.Valid;
    if n > 0 {
      SameValues(exp, t, e, n - 1, x);
      ProductOfSum(Denominator(exp, t, n - 1), PhiDot(exp, t, n - 1, t.s.headDim), x);
    }
  }

  lemma ProductOfSum(a: real, b: real, x: real)
    ensures Product(a + b, x) == Product(a, x) + Product(b, x) && Product(0.0, x) == 0.0
  {
  }

  lemma {:induction false} DenominatorPositive(exp: real -> real, t: Query, n: nat)
    requires ExpLaws(exp) && t.Valid() && n <= t.s.seqLen
    ensures Denominator(exp, t, n) >= 0.0
    ensures n > 0 && t.s.headDim > 0 ==> Denominator(exp, t, n) > 0.0
  {
    if n > 0 {
      DenominatorPositive(exp, t, n - 1);
      PhiDotPositive(exp, t, n - 1, t.s.headDim);
    }
  }

  // ---------------------------------------------------------------- the recurrent state

  ghost function KeySum(exp: real -> real, keys: seq<real>, n: nat): real
    requires n <= |keys|
  {
    if n == 0 then 0.0 else KeySum(exp, keys, n - 1) + Phi(exp, keys[n - 1])
  }

  ghost function OuterSum(exp: real -> real, keys: seq<real>, values: seq<real>, n: nat): real
    requires n <= |keys| == |values|
  {
    if n == 0 then 0.0 else OuterSum(exp, keys, values, n - 1) + Product(Phi(exp, keys[n - 1]), values[n - 1])
  }

  /** phi(q) contracted with the state column for value coordinate e. */
  ghost function Contract(exp: real -> real, t: Query, e: nat, n: nat, dims: nat): real
    requires t.Valid() && n <= t.s.seqLen && e < t.s.headDim && dims <= t.s.headDim
  {
    if dims == 0 then 0.0
    else Contract(exp, t, e, n, dims - 1)
         + Product(Phi(exp, t.q[t.qBase + dims - 1]), OuterSum(exp, t.Keys(dims - 1), t.Values(e), n))
  }

  ghost function ContractZ(exp: real -> real, t: Query, n: nat, dims: nat): real
    requires t.Valid() && n <= t.s.seqLen && dims <= t.s.headDim
  {
    if dims == 0 then 0.0
    else ContractZ(exp, t, n, dims - 1)
         + Product(Phi(exp, t.q[t.qBase + dims - 1]), KeySum(exp, t.Keys(dims - 1), n))
  }

  lemma Distribute(a: real, b: real, c: real, x: real, p: real)
    ensures Product(a, b + Product(c, x)) == Product(a, b) + Product(Product(a, c), x)
    ensures Product(p + Product(a, c), x) == Product(p, x) + Product(Product(a, c), x)
    ensures Product(a, b + c) == Product(a, b) + Product(a, c)
    ensures Product(a, 0.0) == 0.0 && Product(0.0, x) == 0.0
  {
    assert a * (b + c * x) == a * b + (a * c) * x;
  }

  lemma {:induction false} ContractNothing(exp: real -> real, t: Query, e: nat, dims: nat)
    requires t.Valid() && e < t.s.headDim && dims <= t.s.headDim
    ensures Contract(exp, t, e, 0, dims) == 0.0 && ContractZ(exp, t, 0, dims) == 0.0
  {
    if dims > 0 {
      ContractNothing(exp, t, e, dims - 1);
      Distribute(Phi(exp, t.q[t.qBase + dims - 1]), 0.0, 0.0, 0.0, 0.0);
    }
  }

  /** One more key adds its feature product, times its value, to the contraction. */
  lemma {:induction false} ContractStep(exp: real -> real, t: Query, e: nat, n: nat, dims: nat)
    requires t.Valid() && n < t.s.seqLen && e < t.s.headDim && dims <= t.s.headDim
    ensures Contract(exp, t, e, n + 1, dims)
         == Contract(exp, t, e, n, dims) + Product(PhiDot(exp, t, n, dims), t.Values(e)[n])
    ensures ContractZ(exp, t, n + 1, dims) == ContractZ(exp, t, n, dims) + PhiDot(exp, t, n, dims)
  {
    hide Product, Phi, Query.Keys, Query.Values;
    var x := t.Values(e)[n];
    if dims == 0 {
      Distribute(0.0, 0.0, 0.0, x, 0.0);
    } else {
      var d := dims - 1;
      ContractStep(exp, t, e, n, d);
      var a, c := Phi(exp, t.q[t.qBase + d]), Phi(exp, t.Keys(d)[n]);
      Distribute(a, OuterSum(exp, t.Keys(d), t.Values(e), n), c, x, PhiDot(exp, t, n, d));
      Distribute(a, KeySum(exp, t.Keys(d), n), c, x, 0.0);
    }
  }

  /** Associativity: contracting the state gives the quadratic form. */
  lemma {:induction false} StateIsQuadratic(exp: real -> real, t: Query, e: nat, n: nat)
    requires t.Valid() && n <= t.s.seqLen && e < t.s.headDim
    ensures Contract(exp, t, e, n, t.s.headDim) == Numerator(exp, t, e, n)
    ensures ContractZ(exp, t, n, t.s.headDim) == Denominator(exp, t, n)
  {
    hide Contract, ContractZ, PhiDot, Product, Query.Values, Query.Valid;
    if n == 0 {
      ContractNothing(exp, t, e, t.s.headDim);
    } else {
      StateIsQuadratic(exp, t, e, n - 1);
      ContractStep(exp, t, e, n - 1, t.s.headDim);
    }
  }

  // ---------------------------------------------------------------- the kernel

  function Slot(d: nat, e: nat): nat {
    d * MAX_DIM + e
  }

  /** The feature-value matrix with key n taken in by the rows below `rows` only. */
  ghost predicate MatrixOf(exp: real -> real, t: Query, S: seq<real>, n: nat, rows: nat)
    requires t.Valid() && n < t.s.seqLen && t.s.headDim <= MAX_DIM && |S| == MAX_DIM * MAX_DIM
  {
    forall d, e :: 0 <= d < t.s.headDim && 0 <= e < t.s.headDim ==>
      S[Slot(d, e)] == OuterSum(exp, t.Keys(d), t.Values(e), if d < rows then n + 1 else n)
  }

  ghost predicate MatrixAfter(exp: real -> real, t: Query, S: seq<real>, n: nat)
    requires t.Valid() && n <= t.s.seqLen && t.s.headDim <= MAX_DIM && |S| == MAX_DIM * MAX_DIM
  {
    forall d, e :: 0 <= d < t.s.headDim && 0 <= e < t.s.headDim ==>
      S[Slot(d, e)] == OuterSum(exp, t.Keys(d), t.Values(e), n)
  }

  lemma MatrixEnds(exp: real -> real, t: Query, S: seq<real>, n: nat)
    requires t.Valid() && n < t.s.seqLen && t.s.headDim <= MAX_DIM && |S| == MAX_DIM * MAX_DIM
    ensures MatrixOf(exp, t, S, n, 0) <==> MatrixAfter(exp, t, S, n)
    ensures MatrixOf(exp, t, S, n, t.s.headDim) <==> MatrixAfter(exp, t, S, n + 1)
  {
  }

  /** The recurrent state after n keys. */
  ghost predicate StateAfter(exp: real -> real, t: Query, S: seq<real>, z: seq<real>, n: nat)
    requires t.Valid() && n <= t.s.seqLen && t.s.headDim <= MAX_DIM
    requires |S| == MAX_DIM * MAX_DIM && |z| == MAX_DIM
  {
    && (forall d :: 0 <= d < t.s.headDim ==> z[d] == KeySum(exp, t.Keys(d), n))
    && MatrixAfter(exp, t, S, n)
  }

  lemma EmptyState(exp: real -> real, t: Query, S: seq<real>, z: seq<real>)
    requires t.Valid() && t.s.headDim <= MAX_DIM
    requires |S| == MAX_DIM * MAX_DIM && |z| == MAX_DIM
    requires (forall x :: 0 <= x < |S| ==> S[x] == 0.0) && forall x :: 0 <= x < |z| ==> z[x] == 0.0
    ensures StateAfter(exp, t, S, z, 0)
  {
  }

  /** Row d of the state takes in key j; the rows below d already have. */
  method AddRow(exp: real -> real, t: Query, S: array<real>, j: nat, d: nat, kd: real)
    requires t.Valid() && j < t.s.seqLen && t.s.headDim <= MAX_DIM && d < t.s.headDim
    requires S.Length == MAX_DIM * MAX_DIM && kd == Phi(exp, t.Keys(d)[j])
    requires MatrixOf(exp, t, S[..], j, d)
    modifies S
    ensures MatrixOf(exp, t, S[..], j, d + 1)
  {
    hide Product, Phi, Query.Keys, Query.Values, Query.Valid;
    for e := 0 to t.s.headDim
      invariant forall x, y :: 0 <= x < t.s.headDim && 0 <= y < t.s.headDim ==>
        S[Slot(x, y)] == OuterSum(exp, t.Keys(x), t.Values(y), if x < d || (x == d && y < e) then j + 1 else j)
    {
      var x := t.ValueAt(j, e);
      S[Slot(d, e)] := S[Slot(d, e)] + Product(kd, x);
    }
  }

  method AddKey(exp: real -> real, t: Query, S: array<real>, z: array<real>, j: nat)
    requires t.Valid() && j < t.s.seqLen && t.s.headDim <= MAX_DIM && S != z
    requires S.Length == MAX_DIM * MAX_DIM && z.Length == MAX_DIM
    requires StateAfter(exp, t, S[..], z[..], j)
    modifies S, z
    ensures StateAfter(exp, t, S[..], z[..], j + 1)
  {
    hide Product, Phi, OuterSum, MatrixOf, MatrixAfter, Query.Keys, Query.Values, Query.Valid;
    MatrixEnds(exp, t, S[..], j);
    for d := 0 to t.s.headDim
      invariant forall x :: 0 <= x < t.s.headDim ==> z[x] == KeySum(exp, t.Keys(x), if x < d then j + 1 else j)
      invariant MatrixOf(exp, t, S[..], j, d)
    {
      var key := t.KeyAt(j, d);
      var kd := Phi(exp, key);
      z[d] := z[d] + kd;
      AddRow(exp, t, S, j, d, kd);
    }
    MatrixEnds(exp, t, S[..], j);
  }

  /** One row of the state joins the contraction, in every value coordinate. */
  method AddOutput(exp: real -> real, t: Query, S: array<real>, o: array<real>, qd: real, d: nat, ghost n: nat)
    requires t.Valid() && n <= t.s.seqLen && d < t.s.headDim <= MAX_DIM && S != o
    requires S.Length == MAX_DIM * MAX_DIM && o.Length == MAX_DIM && MatrixAfter(exp, t, S[..], n)
    requires qd == Phi(exp, t.q[t.qBase + d])
    requires forall e :: 0 <= e < t.s.headDim ==> o[e] == Contract(exp, t, e, n, d)
    modifies o
    ensures forall e :: 0 <= e < t.s.headDim ==> o[e] == Contract(exp, t, e, n, d + 1)
  {
    hide Product, Phi, Query.Keys, Query.Values, Query.Valid;
    for e := 0 to t.s.headDim
      invariant S[..] == old(S[..])
      invariant forall x :: e <= x < t.s.headDim ==> o[x] == Contract(exp, t, x, n, d)
      invariant forall x :: 0 <= x < e ==> o[x] == Contract(exp, t, x, n, d + 1)
    {
      o[e] := o[e] + Product(qd, S[Slot(d, e)]);
    }
  }

  /** Contracts the state with the query row. */
  method Output(exp: real -> real, t: Query, S: array<real>, z: array<real>, ghost n: nat)
    returns (norm: real, o: array<real>)
    requires t.Valid() && n <= t.s.seqLen && t.s.headDim <= MAX_DIM
    requires S.Length == MAX_DIM * MAX_DIM && z.Length == MAX_DIM
    requires StateAfter(exp, t, S[..], z[..], n)
    ensures fresh(o) && o.Length == MAX_DIM
    ensures t.s.headDim > 0 ==> norm == Denominator(exp, t, n)
    ensures forall e :: 0 <= e < t.s.headDim ==> o[e] == Numerator(exp, t, e, n)
  {
    hide Product, Phi, Query.Keys, Query.Values, Numerator, Denominator, MatrixAfter, KeySum;
    norm := 0.0;
    o := new real[MAX_DIM](_ => 0.0);
    for d := 0 to t.s.headDim
      invariant norm == ContractZ(exp, t, n, d)
      invariant forall e :: 0 <= e < t.s.headDim ==> o[e] == Contract(exp, t, e, n, d)
    {
      var qd := Phi(exp, t.q[t.qBase + d]);
      norm := norm + Product(qd, z[d]);
      AddOutput(exp, t, S, o, qd, d, n);
    }
    forall e | 0 <= e < t.s.headDim
      ensures o[e] == Numerator(exp, t, e, n)
    {
      StateIsQuadratic(exp, t, e, n);
    }
    if t.s.headDim > 0 {
      StateIsQuadratic(exp, t, 0, n);
    }
  }

  /** The loop over keys, and the contraction with the query. */
  method Recur(exp: real -> real, t: Query, i: nat) returns (norm: real, o: array<real>)
    requires t.Valid() && i < t.s.seqLen && t.s.headDim <= MAX_DIM
    ensures fresh(o) && o.Length == MAX_DIM
    ensures t.s.headDim > 0 ==> norm == Denominator(exp, t, i + 1)
    ensures forall e :: 0 <= e < t.s.headDim ==> o[e] == Numerator(exp, t, e, i + 1)
  {
    hide StateAfter, Numerator, Denominator, Query.Valid;
    var S := new real[MAX_DIM * MAX_DIM](_ => 0.0);
    var z := new real[MAX_DIM](_ => 0.0);
    EmptyState(exp, t, S[..], z[..]);
    var j := 0;
    while j <= i && j < t.s.seqLen
      invariant j <= i + 1
      invariant StateAfter(exp, t, S[..], z[..], j)
    {
      AddKey(exp, t, S, z, j);
      j := j + 1;
    }
    norm, o := Output(exp, t, S, z, i + 1);
  }

  /** The quadratic form of the output over the first n keys. */
  ghost function LinearRow(exp: real -> real, t: Query, n: nat): (row: seq<real>)
    requires t.Valid() && n <= t.s.seqLen
    ensures |row| == t.s.headDim
  {
    seq(t.s.headDim, e requires 0 <= e < t.s.headDim =>
      Normalised(Numerator(exp, t, e, n), Denominator(exp, t, n)))
  }

  /** Where all values seen are equal, the output is that value. */
  lemma RowOfSameValues(exp: real -> real, t: Query, n: nat, e: nat, x: real)
    requires ExpLaws(exp) && t.Valid() && 0 < n <= t.s.seqLen && e < t.s.headDim
    requires forall j :: 0 <= j < n ==> t.Values(e)[j] == x
    ensures LinearRow(exp, t, n)[e] == x
  {
    hide PhiDot, Query.Values, Query.Valid;
    SameValues(exp, t, e, n, x);
    DenominatorPositive(exp, t, n);
    Divides(Denominator(exp, t, n), x);
  }

  /** One query row: exactly its output row is rewritten, to the feature-weighted average
      of the values up to position i, in its quadratic form. */
  method LinearThread(exp: real -> real, s: Shape, q: seq<real>, k: seq<real>, v: seq<real>,
                      out: array<real>, i: nat, h: nat)
    requires s.kvHeads > 0 && h < s.qHeads
    requires ExpLaws(exp) && Buffers(s, Flat(s.KvHead(h)), out.Length, q, k, v)
    modifies out
    ensures i >= s.seqLen || s.headDim > 32 ==> out[..] == old(out[..])
    ensures i < s.seqLen && s.headDim <= 32 ==>
      var at, t := s.Row(h, i), Query(s, Flat(s.KvHead(h)), 1.0, q, s.Row(h, i), k, v);
      && at + s.headDim <= out.Length && t.Valid()
      && out[..] == Overwrite(old(out[..]), at, LinearRow(exp, t, i + 1))
  {
    if i >= s.seqLen {
      return;
    }
    if s.headDim > MAX_DIM {
      return;
    }
    s.RowInside(h, s.qHeads, i);
    var head := Flat(s.KvHead(h));
    head.AllInside(s);
    var t := Query(s, head, 1.0, q, s.Row(h, i), k, v);
    assert t.Valid();
    hide ExpLaws, Numerator, Denominator, Normalised, Query.Valid, Times, Shape.Row, Addressing.KvSize;
    var norm, o := Recur(exp, t, i);
    WriteRow(out, s.Row(h, i), s.headDim, o, norm, LinearRow(exp, t, i + 1));
  }
}
