/** The radix-2 transform of src/dxfft/dxfft.cpp: a bit-reversal copy followed by
    log2(n) in-place butterfly stages, proved to be the discrete Fourier transform. */
module Fft {
  import opened Butterfly
  import opened Dispatch
  import opened Index
  import opened Powers
  import opened Rotation

  // ---------------------------------------------------------------- bit reversal

  /** Bit c moved up to position `bits`. */
  function TopBit(c: nat, bits: nat): nat {
    if c == 0 then 0 else Pow2(bits)
  }

  /** The low `bits` bits of x in the opposite order. */
  function Rev(x: nat, bits: nat): (r: nat)
    ensures r < Pow2(bits)
  {
    if bits == 0 then 0 else TopBit(x % 2, bits - 1) + Rev(x / 2, bits - 1)
  }

  lemma {:induction false} RevHighBit(x: nat, c: nat, bits: nat)
    requires x < Pow2(bits) && c < 2
    ensures Rev(TopBit(c, bits) + x, bits + 1) == 2 * Rev(x, bits) + c
  {
    if bits > 0 {
      RevHighBit(x / 2, c, bits - 1);
      assert TopBit(c, bits) == 2 * TopBit(c, bits - 1);
      HalveSum(TopBit(c, bits - 1), x);
      hide TopBit, Pow2;
    }
  }

  lemma HalveSum(h: nat, x: nat)
    ensures (2 * h + x) % 2 == x % 2 && (2 * h + x) / 2 == h + x / 2
  {
  }

  lemma {:induction false} RevInvolution(x: nat, bits: nat)
    requires x < Pow2(bits)
    ensures Rev(Rev(x, bits), bits) == x
  {
    if bits > 0 {
      RevInvolution(x / 2, bits - 1);
      RevHighBit(Rev(x / 2, bits - 1), x % 2, bits - 1);
    }
  }

  /** One turn of the loop moves the lowest bit of y to the bottom of r. */
  lemma RevShift(r: nat, y: nat, m: nat)
    ensures r * Pow2(m + 1) + Rev(y, m + 1) == (2 * r + y % 2) * Pow2(m) + Rev(y / 2, m)
  {
    var p, c := Pow2(m), y % 2;
    assert r * Pow2(m + 1) == 2 * (r * p);
    assert c == 0 || c == 1;
    assert (2 * r + c) * p == 2 * (r * p) + TopBit(c, m);
  }

  method BitReverse(x: nat, bits: nat) returns (r: nat)
    ensures r == Rev(x, bits)
  {
    r := 0;
    var y: nat := x;
    for b := 0 to bits
      invariant 0 <= b <= bits
      invariant Rev(x, bits) == r * Pow2(bits - b) + Rev(y, bits - b)
    {
      RevShift(r, y, bits - b - 1);
      r := 2 * r + y % 2;
      y := y / 2;
    }
  }

  // ---------------------------------------------------------------- the transform

  /** The first `count` terms of the transform of x at frequency k. */
  function DftTerms(x: seq<Complex>, trig: Trig, k: nat, count: nat): Complex
    requires count <= |x|
  {
    if count == 0 then ZERO
    else Add(DftTerms(x, trig, k, count - 1), Mul(x[count - 1], trig.Root(Times(k, count - 1), |x|)))
  }

  /** X[k] = sum over j of x[j] * exp(-2 pi i j k / n). */
  function Dft(x: seq<Complex>, trig: Trig, k: nat): Complex {
    DftTerms(x, trig, k, |x|)
  }

  function At(x: seq<Complex>, i: nat): Complex {
    if i < |x| then x[i] else ZERO
  }

  /** The same sum over the len samples x[start], x[start + stride], ... */
  function Strided(x: seq<Complex>, trig: Trig, start: nat, stride: nat, len: nat, k: nat, count: nat): Complex
    requires len > 0
  {
    if count == 0 then ZERO
    else Add(Strided(x, trig, start, stride, len, k, count - 1),
             Mul(At(x, start + Times(count - 1, stride)), trig.Root(Times(k, count - 1), len)))
  }

  lemma RegroupTerms(s: Complex, t: Complex, w: Complex, a: Complex, b: Complex, r: Complex)
    ensures Add(Add(Add(s, Mul(w, t)), Mul(a, r)), Mul(b, Mul(r, w)))
         == Add(Add(s, Mul(a, r)), Mul(w, Add(t, Mul(b, r))))
  {
    MulDistributes(w, t, Mul(b, r));
    MulAssociates(b, r, w);
    assert Mul(w, Mul(b, r)) == Mul(Mul(b, r), w);
  }

  /** Danielson-Lanczos: a transform of length 2 * len is made of the transforms of
      its even and its odd samples. */
  lemma {:induction false} Split(x: seq<Complex>, trig: Trig, start: nat, stride: nat, len: nat, k: nat, count: nat)
    requires trig.Valid() && len > 0
    ensures Strided(x, trig, start, stride, 2 * len, k, 2 * count)
         == Add(Strided(x, trig, start, 2 * stride, len, k, count),
                Mul(trig.Root(k, 2 * len), Strided(x, trig, start + stride, 2 * stride, len, k, count)))
  {
    hide Mul, Add, Times;
    var w := trig.Root(k, 2 * len);
    if count == 0 {
      ZeroLaws(w);
    } else {
      var c := count - 1;
      Split(x, trig, start, stride, len, k, c);
      var s := Strided(x, trig, start, 2 * stride, len, k, c);
      var t := Strided(x, trig, start + stride, 2 * stride, len, k, c);
      var a, b := At(x, start + Times(c, 2 * stride)), At(x, start + stride + Times(c, 2 * stride));
      EvenOddTerms(x, trig, start, stride, len, k, c);
      assert Strided(x, trig, start, 2 * stride, len, k, count) == Add(s, Mul(a, trig.Root(Times(k, c), len)));
      assert Strided(x, trig, start + stride, 2 * stride, len, k, count) == Add(t, Mul(b, trig.Root(Times(k, c), len)));
      RegroupTerms(s, t, w, a, b, trig.Root(Times(k, c), len));
    }
  }

  lemma ZeroLaws(w: Complex)
    ensures Add(ZERO, Mul(w, ZERO)) == ZERO
  {
  }

  lemma EvenOddTerms(x: seq<Complex>, trig: Trig, start: nat, stride: nat, len: nat, k: nat, c: nat)
    requires trig.Valid() && len > 0
    ensures Strided(x, trig, start, stride, 2 * len, k, 2 * (c + 1))
         == Add(Add(Strided(x, trig, start, stride, 2 * len, k, 2 * c),
                    Mul(At(x, start + Times(c, 2 * stride)), trig.Root(Times(k, c), len))),
                Mul(At(x, start + stride + Times(c, 2 * stride)),
                    Mul(trig.Root(Times(k, c), len), trig.Root(k, 2 * len))))
  {
    hide Mul, Add, Times;
    Doubles(c, stride);
    TermExponents(k, c);
    trig.RootScale(Times(k, c), 2, len);
    trig.RootSum(2 * Times(k, c), k, 2 * len);
  }

  lemma TermExponents(k: nat, c: nat)
    ensures Times(k, 2 * c) == 2 * Times(k, c)
    ensures Times(k, 2 * c + 1) == 2 * Times(k, c) + k
  {
  }

  /** Frequencies repeat with period len. */
  lemma {:induction false} Periodic(x: seq<Complex>, trig: Trig, start: nat, stride: nat, len: nat, k: nat, count: nat)
    requires trig.Valid() && len > 0
    ensures Strided(x, trig, start, stride, len, k + len, count) == Strided(x, trig, start, stride, len, k, count)
  {
    if count > 0 {
      var c := count - 1;
      Periodic(x, trig, start, stride, len, k, c);
      ShiftedExponent(k, len, c);
      trig.RootSum(Times(k, c), Times(c, len), len);
      trig.RootWhole(c, len);
    }
  }

  lemma ShiftedExponent(k: nat, len: nat, c: nat)
    ensures Times(k + len, c) == Times(k, c) + Times(c, len)
  {
  }

  lemma HalfTurn(trig: Trig, k: nat, len: nat)
    requires trig.Valid() && len > 0
    ensures trig.Root(k + len, 2 * len) == Sub(ZERO, trig.Root(k, 2 * len))
  {
    trig.RootSum(k, len, 2 * len);
    trig.RootHalf(len);
  }

  // ---------------------------------------------------------------- tones

  /** The tone of frequency f: once around the circle, forwards, f times over n samples. */
  function Tone(trig: Trig, f: nat, n: nat): (x: seq<Complex>)
    ensures |x| == n
  {
    seq(n, j requires 0 <= j < n => Sample(trig, Times(f, j), n))
  }

  function Sample(trig: Trig, a: nat, n: nat): Complex
    requires n > 0
  {
    Complex(trig.cos(a as real / n as real), trig.sin(a as real / n as real))
  }

  /** The transform turns backwards: its root undoes the forward turn of a sample. */
  lemma SampleUndone(trig: Trig, a: nat, n: nat)
    requires trig.Valid() && n > 0
    ensures Mul(Sample(trig, a, n), trig.Root(a, n)) == ONE
  {
    var t := a as real / n as real;
    trig.WholeTurnValues();
    assert -(a as real) / (n as real) == -t;
    assert trig.AngleSum(t, -t);
    assert t + -t == 0.0;
  }

  /** Seen at frequency k, the tone of frequency f turns k - f times. */
  lemma ToneTerm(trig: Trig, f: nat, k: nat, j: nat, n: nat)
    requires trig.Valid() && n > 0
    ensures Mul(Sample(trig, Times(f, j), n), trig.Root(Times(k, j), n)) == trig.Root((k - f) * j, n)
  {
    var a, b := Times(f, j), (k - f) * j;
    assert Times(k, j) == a + b;
    hide Times, Mul, Sample;
    trig.RootSum(a, b, n);
    SampleUndone(trig, a, n);
    MulAssociates(Sample(trig, a, n), trig.Root(a, n), trig.Root(b, n));
    OneLeft(trig.Root(b, n));
  }

  lemma OneLeft(z: Complex)
    ensures Mul(ONE, z) == z
  {
  }

  /** The sum of the first `count` powers of a root. */
  function Turns(trig: Trig, m: int, n: nat, count: nat): Complex
    requires n > 0
  {
    if count == 0 then ZERO else Add(Turns(trig, m, n, count - 1), trig.Root(m * (count - 1), n))
  }

  lemma {:induction false} ToneTurns(trig: Trig, f: nat, k: nat, n: nat, count: nat)
    requires trig.Valid() && n > 0 && count <= n
    ensures DftTerms(Tone(trig, f, n), trig, k, count) == Turns(trig, k - f, n, count)
  {
    if count > 0 {
      hide Times, Mul, Add, Sample;
      ToneTurns(trig, f, k, n, count - 1);
      ToneTerm(trig, f, k, count - 1, n);
    }
  }

  /** Without turning, every term is one. */
  lemma {:induction false} NoTurns(trig: Trig, n: nat, count: nat)
    requires trig.Valid() && n > 0
    ensures Turns(trig, 0, n, count) == Complex(count as real, 0.0)
  {
    if count > 0 {
      NoTurns(trig, n, count - 1);
      trig.RootOne(n);
    }
  }

  /** The geometric sum: (1 - r) (1 + r + ... + r^(count - 1)) = 1 - r^count. */
  lemma {:induction false} GeometricSum(trig: Trig, m: int, n: nat, count: nat)
    requires trig.Valid() && n > 0
    ensures Mul(Sub(ONE, trig.Root(m, n)), Turns(trig, m, n, count)) == Sub(ONE, trig.Root(m * count, n))
  {
    var r := trig.Root(m, n);
    if count == 0 {
      trig.RootOne(n);
    } else {
      var c := count - 1;
      GeometricSum(trig, m, n, c);
      var p := trig.Root(m * c, n);
      assert m * count == m * c + m;
      trig.RootSum(m * c, m, n);
      Telescope(Turns(trig, m, n, c), r, p);
    }
  }

  lemma Telescope(s: Complex, r: Complex, p: Complex)
    requires Mul(Sub(ONE, r), s) == Sub(ONE, p)
    ensures Mul(Sub(ONE, r), Add(s, p)) == Sub(ONE, Mul(p, r))
  {
    MulDistributes(Sub(ONE, r), s, p);
  }

  /** The plane has no zero divisors. */
  lemma ZeroProduct(a: Complex, b: Complex)
    requires Mul(a, b) == ZERO && a != ZERO
    ensures b == ZERO
  {
    var norm := a.re * a.re + a.im * a.im;
    assert a.re * a.re >= 0.0 && a.im * a.im >= 0.0;
    assert a.re != 0.0 ==> a.re * a.re > 0.0;
    assert a.im != 0.0 ==> a.im * a.im > 0.0;
    assert norm * b.re == a.re * (a.re * b.re - a.im * b.im) + a.im * (a.re * b.im + a.im * b.re);
    assert norm * b.im == a.re * (a.re * b.im + a.im * b.re) - a.im * (a.re * b.re - a.im * b.im);
  }

  /** Whole turns backwards come back to one as well. */
  lemma WholeTurns(trig: Trig, m: int, n: nat)
    requires trig.Valid() && n > 0
    ensures trig.Root(m * n, n) == ONE
  {
    if m >= 0 {
      trig.RootWhole(m, n);
      TimesIs(m, n);
    } else {
      trig.RootWhole(-m, n);
      TimesIs(-m, n);
      trig.RootSum(m * n, -m * n, n);
      trig.RootOne(n);
      assert m * n + -m * n == 0;
      OneLeft(trig.Root(m * n, n));
    }
  }

  /** A tone has a spike of n at its own frequency, and nothing at any frequency whose root
      differs from its own. */
  lemma ToneIsSpike(trig: Trig, f: nat, k: nat, n: nat)
    requires trig.Valid() && n > 0
    ensures Dft(Tone(trig, f, n), trig, f) == Complex(n as real, 0.0)
    ensures trig.Root(k - f, n) != ONE ==> Dft(Tone(trig, f, n), trig, k) == ZERO
  {
    hide Mul, Sub, Trig.Root, Tone;
    ToneTurns(trig, f, f, n, n);
    NoTurns(trig, n, n);
    ToneTurns(trig, f, k, n, n);
    if trig.Root(k - f, n) != ONE {
      GeometricSum(trig, k - f, n, n);
      WholeTurns(trig, k - f, n);
      NotOne(trig.Root(k - f, n));
      ZeroProduct(Sub(ONE, trig.Root(k - f, n)), Turns(trig, k - f, n, n));
    }
  }

  lemma NotOne(r: Complex)
    ensures Sub(ONE, ONE) == ZERO && (r != ONE ==> Sub(ONE, r) != ZERO)
  {
  }

  /** The transform of a sum, and of a multiple. */
  lemma {:induction false} DftLinear(x: seq<Complex>, y: seq<Complex>, z: seq<Complex>, c: Complex, trig: Trig, k: nat,
                                     count: nat)
    requires |x| == |y| == |z| && count <= |x|
    requires forall j :: 0 <= j < |x| ==> z[j] == Add(Mul(c, x[j]), y[j])
    ensures DftTerms(z, trig, k, count) == Add(Mul(c, DftTerms(x, trig, k, count)), DftTerms(y, trig, k, count))
  {
    if count == 0 {
      ZeroLaws(c);
    } else {
      var j := count - 1;
      DftLinear(x, y, z, c, trig, k, j);
      hide Mul, Add;
      LinearTerm(DftTerms(x, trig, k, j), DftTerms(y, trig, k, j), x[j], y[j], c, trig.Root(Times(k, j), |x|));
    }
  }

  lemma LinearTerm(s: Complex, t: Complex, a: Complex, b: Complex, c: Complex, r: Complex)
    ensures Add(Add(Mul(c, s), t), Mul(Add(Mul(c, a), b), r)) == Add(Mul(c, Add(s, Mul(a, r))), Add(t, Mul(b, r)))
  {
    MulDistributes(c, s, Mul(a, r));
    MulAssociates(c, a, r);
    MulDistributes(r, Mul(c, a), b);
    assert forall u, v :: Mul(u, v) == Mul(v, u);
  }

  // ---------------------------------------------------------------- one stage

  /** What element i of the output holds when spans of `len` are finished and `bits`
      doublings remain: the transform, at frequency i % len, of every 2^bits-th sample. */
  function Spectrum(x: seq<Complex>, trig: Trig, bits: nat, len: nat, i: nat): Complex
    requires len > 0
  {
    Strided(x, trig, Rev(Div(i, len), bits), Pow2(bits), len, Mod(i, len), len)
  }

  /** The value a stage of span 2 * half leaves at i. */
  function StageAt(buf: seq<Complex>, trig: Trig, half: nat, i: nat): Complex
    requires half > 0
  {
    var within := Mod(Mod(i, 2 * half), half);
    var root := trig.Root(within, 2 * half);
    if IsLow(i, half) then Add(At(buf, i), Mul(At(buf, i + half), root))
    else if i < half then ZERO
    else Sub(At(buf, i - half), Mul(At(buf, i), root))
  }

  ghost predicate Holds(buf: seq<Complex>, x: seq<Complex>, trig: Trig, bits: nat, len: nat)
    requires len > 0
  {
    && |buf| == Times(Pow2(bits), len)
    && forall i :: 0 <= i < |buf| ==> buf[i] == Spectrum(x, trig, bits, len, i)
  }

  lemma RevOfChildren(b: nat, bits: nat)
    ensures Rev(2 * b, bits + 1) == Rev(b, bits)
    ensures Rev(2 * b + 1, bits + 1) == Rev(b, bits) + Pow2(bits)
  {
    assert 2 * b / 2 == b && (2 * b + 1) / 2 == b;
    assert 2 * b % 2 == 0 && (2 * b + 1) % 2 == 1;
  }

  /** One stage doubles the span over which the output holds finished transforms. */
  lemma StageDoubles(buf: seq<Complex>, x: seq<Complex>, trig: Trig, bits: nat, len: nat, i: nat)
    requires trig.Valid() && len > 0
    requires Holds(buf, x, trig, bits + 1, len) && i < |buf|
    ensures StageAt(buf, trig, len, i) == Spectrum(x, trig, bits, 2 * len, i)
  {
    hide Mul, Add, Sub, Strided, Times, Div, Mod, Rev, Pow2, Trig.Valid, Trig.Root;
    var b, v := Div(i, 2 * len), Mod(Mod(i, 2 * len), len);
    var stride := Pow2(bits);
    Pow2Step(bits);
    Doubles(stride, len);
    PairInBlocks(i, len, stride);
    RevOfChildren(b, bits);
    Combine(x, trig, Rev(b, bits), stride, len, v);
  }

  lemma Combine(x: seq<Complex>, trig: Trig, start: nat, stride: nat, len: nat, v: nat)
    requires trig.Valid() && len > 0
    ensures var even := Strided(x, trig, start, 2 * stride, len, v, len);
            var odd := Strided(x, trig, start + stride, 2 * stride, len, v, len);
            var root := trig.Root(v, 2 * len);
            && Strided(x, trig, start, stride, 2 * len, v, 2 * len) == Add(even, Mul(odd, root))
            && Strided(x, trig, start, stride, 2 * len, v + len, 2 * len) == Sub(even, Mul(odd, root))
  {
    hide Mul, Add, Sub;
    Split(x, trig, start, stride, len, v, len);
    Split(x, trig, start, stride, len, v + len, len);
    Periodic(x, trig, start, 2 * stride, len, v, len);
    Periodic(x, trig, start + stride, 2 * stride, len, v, len);
    HalfTurn(trig, v, len);
    var even := Strided(x, trig, start, 2 * stride, len, v, len);
    var odd := Strided(x, trig, start + stride, 2 * stride, len, v, len);
    NegatedRoot(even, odd, trig.Root(v, 2 * len));
  }

  lemma NegatedRoot(even: Complex, odd: Complex, root: Complex)
    ensures Add(even, Mul(root, odd)) == Add(even, Mul(odd, root))
    ensures Add(even, Mul(Sub(ZERO, root), odd)) == Sub(even, Mul(odd, root))
  {
  }

  /** Before the first stage: the bit-reversed copy. */
  lemma CopyHolds(x: seq<Complex>, trig: Trig, bits: nat, i: nat)
    requires trig.Valid() && |x| == Pow2(bits) && i < |x|
    ensures Spectrum(x, trig, bits, 1, i) == x[Rev(i, bits)]
  {
    trig.RootOne(1);
    TimesZero(0);
    assert Div(i, 1) == i && Mod(i, 1) == 0;
    var r := Rev(i, bits);
    assert Strided(x, trig, r, Pow2(bits), 1, 0, 0) == ZERO;
    assert Strided(x, trig, r, Pow2(bits), 1, 0, 1) == Add(ZERO, Mul(At(x, r), trig.Root(0, 1)));
  }

  lemma {:induction false} StridedIsDft(x: seq<Complex>, trig: Trig, k: nat, count: nat)
    requires count <= |x| && |x| > 0
    ensures Strided(x, trig, 0, 1, |x|, k, count) == DftTerms(x, trig, k, count)
  {
    if count > 0 {
      StridedIsDft(x, trig, k, count - 1);
    }
  }

  /** After the last stage: the transform itself. */
  lemma FinishedIsDft(x: seq<Complex>, trig: Trig, i: nat)
    requires i < |x|
    ensures Spectrum(x, trig, 0, |x|, i) == Dft(x, trig, i)
  {
    Quotient(0, i, |x|);
    TimesZero(|x|);
    StridedIsDft(x, trig, i, |x|);
  }

  // ---------------------------------------------------------------- the two kernels

  /** The complex numbers held by a real and an imaginary buffer. */
  function Pairs(re: seq<real>, im: seq<real>): (s: seq<Complex>)
    requires |re| == |im|
    ensures |s| == |re| && forall i :: 0 <= i < |re| ==> s[i] == Complex(re[i], im[i])
  {
    seq(|re|, i requires 0 <= i < |re| => Complex(re[i], im[i]))
  }

  /** The buffers hold cosine and sine of f turns forwards. */
  ghost predicate IsTone(re: seq<real>, im: seq<real>, trig: Trig, f: nat, n: nat)
    requires |re| == |im| == n
  {
    forall j :: 0 <= j < n ==>
      && re[j] == trig.cos((f * j) as real / n as real)
      && im[j] == trig.sin((f * j) as real / n as real)
  }

  /** Written with cosine and sine alone: cos(2 pi f j / n) + i sin(2 pi f j / n) transforms to n at
      frequency f. */
  lemma ToneInBuffers(re: seq<real>, im: seq<real>, trig: Trig, f: nat, n: nat)
    requires trig.Valid() && n > 0 && |re| == |im| == n && IsTone(re, im, trig, f, n)
    ensures Dft(Pairs(re, im), trig, f) == Complex(n as real, 0.0)
  {
    forall j | 0 <= j < n ensures Pairs(re, im)[j] == Tone(trig, f, n)[j] {
      TimesIs(f, j);
    }
    assert Pairs(re, im) == Tone(trig, f, n);
    hide Dft, Tone, Pairs, IsTone;
    ToneIsSpike(trig, f, f, n);
  }

  method BitReverseThread(outR: array<real>, outI: array<real>, inR: array<real>, inI: array<real>,
                          n: nat, log2n: nat, id: nat)
    requires outR != outI && outR !in {inR, inI} && outI !in {inR, inI}
    requires n == Pow2(log2n) && n <= outR.Length && n <= outI.Length && n <= inR.Length && n <= inI.Length
    modifies outR, outI
    ensures id < n ==>
      && outR[..] == old(outR[..])[Rev(id, log2n) := inR[id]]
      && outI[..] == old(outI[..])[Rev(id, log2n) := inI[id]]
    ensures id >= n ==> outR[..] == old(outR[..]) && outI[..] == old(outI[..])
  {
    if id >= n {
      return;
    }
    var rev := BitReverse(id, log2n);
    outR[rev] := inR[id];
    outI[rev] := inI[id];
  }

  method BitReverseDispatch(outR: array<real>, outI: array<real>, inR: array<real>, inI: array<real>,
                            n: nat, log2n: nat, order: seq<nat>)
    requires outR != outI && outR !in {inR, inI} && outI !in {inR, inI}
    requires n == Pow2(log2n) && n <= outR.Length && n <= outI.Length && n <= inR.Length && n <= inI.Length
    requires IsSchedule(order, Threads(n))
    modifies outR, outI
    ensures forall i :: 0 <= i < n ==> outR[i] == inR[Rev(i, log2n)] && outI[i] == inI[Rev(i, log2n)]
    ensures outR[n..] == old(outR[n..]) && outI[n..] == old(outI[n..])
  {
    for p := 0 to |order|
      invariant forall i :: 0 <= i < n && Rev(i, log2n) in order[..p] ==>
        outR[i] == inR[Rev(i, log2n)] && outI[i] == inI[Rev(i, log2n)]
      invariant outR[n..] == old(outR[n..]) && outI[n..] == old(outI[n..])
    {
      var id := order[p];
      BitReverseThread(outR, outI, inR, inI, n, log2n, id);
      forall i | 0 <= i < n && Rev(i, log2n) in order[..p + 1]
        ensures outR[i] == inR[Rev(i, log2n)] && outI[i] == inI[Rev(i, log2n)]
      {
        RevInvolution(i, log2n);
        if id < n {
          RevInvolution(id, log2n);
        }
        assert outR[i] == outR[..][i] && outI[i] == outI[..][i];
      }
    }
    assert order[..|order|] == order;
  }

  /** The arithmetic of one butterfly on the elements i0 and i1, with the root cw + i sw. */
  method CombinePair(outR: array<real>, outI: array<real>, i0: nat, i1: nat, cw: real, sw: real)
    requires outR != outI && outR.Length == outI.Length && i0 < i1 < outR.Length
    modifies outR, outI
    ensures var a, b := Complex(old(outR[i0]), old(outI[i0])), Complex(old(outR[i1]), old(outI[i1]));
            var t := Mul(b, Complex(cw, sw));
            && outR[..] == old(outR[..])[i0 := Add(a, t).re][i1 := Sub(a, t).re]
            && outI[..] == old(outI[..])[i0 := Add(a, t).im][i1 := Sub(a, t).im]
  {
    var ar := outR[i0];
    var ai := outI[i0];
    var br := outR[i1];
    var bi := outI[i1];
    var tr := br * cw - bi * sw;
    var ti := br * sw + bi * cw;
    outR[i0] := ar + tr;
    outI[i0] := ai + ti;
    outR[i1] := ar - tr;
    outI[i1] := ai - ti;
    ghost var a, b := Complex(ar, ai), Complex(br, bi);
    ghost var t := Mul(b, Complex(cw, sw));
    assert t == Complex(tr, ti);
    assert Add(a, t) == Complex(ar + tr, ai + ti);
    assert Sub(a, t) == Complex(ar - tr, ai - ti);
    assert outR[..] == old(outR[..])[i0 := ar + tr][i1 := ar - tr];
    assert outI[..] == old(outI[..])[i0 := ai + ti][i1 := ai - ti];
  }

  /** The pair of thread k after its butterfly holds what the stage leaves there. */
  lemma ThreadMeetsStage(buf: seq<Complex>, trig: Trig, half: nat, k: nat, blocks: nat)
    requires half > 0 && k < Times(blocks, half) && Times(blocks, 2 * half) <= |buf|
    ensures var i0, i1 := Low(k, half), High(k, half);
            && i0 < i1 < Times(blocks, 2 * half)
            && var t := Mul(buf[i1], trig.Root(Mod(k, half), 2 * half));
            && StageAt(buf, trig, half, i0) == Add(buf[i0], t)
            && StageAt(buf, trig, half, i1) == Sub(buf[i0], t)
  {
    hide Mul, Add, Sub, Times, Div, Mod;
    PairOwned(k, half, blocks);
    var b, w := Div(k, half), Mod(k, half);
    Quotient(b, w, 2 * half);
    Quotient(b, w + half, 2 * half);
    ModHalf(w, half);
    ModHalf(w + half, half);
  }

  /** Thread k of a stage changes exactly the two elements it owns, to what the stage
      leaves there; a thread past the last pair changes nothing. */
  method StageThread(outR: array<real>, outI: array<real>, n: nat, len: nat, trig: Trig, k: nat, ghost blocks: nat)
    requires outR != outI && outR.Length == outI.Length >= n
    requires len > 0 && len % 2 == 0 && n == Times(blocks, len)
    modifies outR, outI
    ensures forall i :: 0 <= i < n ==>
      var buf := old(Pairs(outR[..n], outI[..n]));
      Complex(outR[i], outI[i])
      == if k < n / 2 && Owner(i, len / 2) == k then StageAt(buf, trig, len / 2, i) else buf[i]
    ensures outR[n..] == old(outR[n..]) && outI[n..] == old(outI[n..])
  {
    hide Mul, Add, Sub, StageAt, Times, Owner, IsLow;
    if k >= n / 2 {
      return;
    }
    ghost var half := len / 2;
    ghost var buf := Pairs(outR[..n], outI[..n]);
    Doubles(blocks, half);
    ThreadMeetsStage(buf, trig, half, k, blocks);
    var block := k / (len / 2);
    var within := k % (len / 2);
    var i0 := block * len + within;
    var i1 := i0 + len / 2;
    assert i0 == Low(k, half) by {
      TimesIs(block, len);
    }
    var turn := -(within as real) / (len as real);
    CombinePair(outR, outI, i0, i1, trig.cos(turn), trig.sin(turn));
    forall i | 0 <= i < n
      ensures Complex(outR[i], outI[i]) == if Owner(i, half) == k then StageAt(buf, trig, half, i) else buf[i]
    {
      PairCovers(i, half, blocks);
      PairOwned(k, half, blocks);
      assert outR[i] == outR[..][i] && outI[i] == outI[..][i];
    }
  }

  /** A whole stage, for any order of the threads. */
  method StageDispatch(outR: array<real>, outI: array<real>, n: nat, len: nat, trig: Trig, order: seq<nat>,
                       ghost blocks: nat)
    requires outR != outI && outR.Length == outI.Length >= n
    requires len > 0 && len % 2 == 0 && n == Times(blocks, len)
    requires IsSchedule(order, Threads(n / 2))
    modifies outR, outI
    ensures forall i :: 0 <= i < n ==>
      Complex(outR[i], outI[i]) == StageAt(old(Pairs(outR[..n], outI[..n])), trig, len / 2, i)
    ensures outR[n..] == old(outR[n..]) && outI[n..] == old(outI[n..])
  {
    hide StageAt, Times, Owner, IsLow, Low, High;
    var half := len / 2;
    ghost var buf := Pairs(outR[..n], outI[..n]);
    Doubles(blocks, half);
    for p := 0 to |order|
      invariant forall i :: 0 <= i < n ==>
        Complex(outR[i], outI[i]) == if Owner(i, half) in order[..p] then StageAt(buf, trig, half, i) else buf[i]
      invariant outR[n..] == old(outR[n..]) && outI[n..] == old(outI[n..])
    {
      ghost var was := Pairs(outR[..n], outI[..n]);
      StageThread(outR, outI, n, len, trig, order[p], blocks);
      forall i | 0 <= i < n
        ensures Complex(outR[i], outI[i])
             == if Owner(i, half) in order[..p + 1] then StageAt(buf, trig, half, i) else buf[i]
      {
        PairCovers(i, half, blocks);
        if Owner(i, half) == order[p] {
          PairUntouched(was, buf, trig, half, i, order, p, blocks);
        }
      }
    }
    forall i | 0 <= i < n
      ensures Complex(outR[i], outI[i]) == StageAt(buf, trig, half, i)
    {
      PairCovers(i, half, blocks);
      assert order[..|order|] == order;
    }
  }

  /** When thread order[p] starts, its pair is as the stage found it. */
  lemma PairUntouched(was: seq<Complex>, buf: seq<Complex>, trig: Trig, half: nat, i: nat,
                      order: seq<nat>, p: nat, blocks: nat)
    requires half > 0 && |was| == |buf| == Times(blocks, 2 * half) && i < |buf| && p < |order|
    requires Owner(i, half) == order[p] && order[p] < Times(blocks, half)
    requires forall q :: 0 <= q < p ==> order[q] != order[p]
    requires forall j :: 0 <= j < |buf| ==>
      was[j] == if Owner(j, half) in order[..p] then StageAt(buf, trig, half, j) else buf[j]
    ensures order[p] !in order[..p]
    ensures StageAt(was, trig, half, i) == StageAt(buf, trig, half, i)
  {
    hide Mul, Add, Sub, Times, Div, Mod, Owner, IsLow;
    PairOwned(order[p], half, blocks);
    PairCovers(i, half, blocks);
  }

  // ---------------------------------------------------------------- the driver

  /** One turn of the stage loop: finished transforms of len / 2 become ones of len. */
  method Stage(outR: array<real>, outI: array<real>, n: nat, len: nat, trig: Trig, order: seq<nat>,
               ghost x: seq<Complex>, ghost bits: nat)
    requires trig.Valid() && IsSchedule(order, Threads(n / 2))
    requires outR != outI && outR.Length == outI.Length >= n
    requires len >= 2 && len % 2 == 0 && n == Times(Pow2(bits), len)
    requires Holds(Pairs(outR[..n], outI[..n]), x, trig, bits + 1, len / 2)
    modifies outR, outI
    ensures Holds(Pairs(outR[..n], outI[..n]), x, trig, bits, len)
    ensures outR[n..] == old(outR[n..]) && outI[n..] == old(outI[n..])
  {
    hide StageAt, Spectrum;
    ghost var buf := Pairs(outR[..n], outI[..n]);
    StageDispatch(outR, outI, n, len, trig, order, Pow2(bits));
    forall i | 0 <= i < n
      ensures Complex(outR[i], outI[i]) == Spectrum(x, trig, bits, len, i)
    {
      StageDoubles(buf, x, trig, bits, len / 2, i);
    }
  }

  /** The copy that precedes the stages. */
  method Load(outR: array<real>, outI: array<real>, inR: array<real>, inI: array<real>,
              n: nat, log2n: nat, trig: Trig, order: seq<nat>)
    requires trig.Valid() && IsSchedule(order, Threads(n))
    requires outR != outI && outR !in {inR, inI} && outI !in {inR, inI}
    requires outR.Length == outI.Length >= n && inR.Length == inI.Length >= n
    requires n == Pow2(log2n)
    modifies outR, outI
    ensures Holds(Pairs(outR[..n], outI[..n]), Pairs(inR[..n], inI[..n]), trig, log2n, 1)
    ensures outR[n..] == old(outR[n..]) && outI[n..] == old(outI[n..])
  {
    hide Spectrum;
    BitReverseDispatch(outR, outI, inR, inI, n, log2n, order);
    ghost var x := Pairs(inR[..n], inI[..n]);
    forall i | 0 <= i < n
      ensures Complex(outR[i], outI[i]) == Spectrum(x, trig, log2n, 1, i)
    {
      CopyHolds(x, trig, log2n, i);
    }
  }

  /** The transform of src/dxfft/dxfft.cpp, for every scheduling of its dispatches: the
      out buffers receive the discrete Fourier transform of the in buffers.  A length
      that is not a power of two (or is below 2) leaves them alone. */
  method Fft1dRadix2(outR: array<real>, outI: array<real>, inR: array<real>, inI: array<real>,
                     n: nat, trig: Trig, scheduler: Scheduler)
    requires trig.Valid() && Fair(scheduler)
    requires outR != outI && outR !in {inR, inI} && outI !in {inR, inI}
    requires outR.Length == outI.Length && inR.Length == inI.Length
    requires n < 0x1_0000_0000
    requires n >= 2 && IsPow2(n) ==> n <= 0x4000_0000 && n <= outR.Length && n <= inR.Length
    modifies outR, outI
    ensures n >= 2 && IsPow2(n) ==>
      && (forall k :: 0 <= k < n ==>
           Complex(outR[k], outI[k]) == Dft(Pairs(inR[..n], inI[..n]), trig, k))
      && outR[n..] == old(outR[n..]) && outI[n..] == old(outI[n..])
    ensures n >= 2 && IsPow2(n) ==>
      forall f: nat :: f < n && IsTone(inR[..n], inI[..n], trig, f, n) ==> outR[f] == n as real && outI[f] == 0.0
    ensures !(n >= 2 && IsPow2(n)) ==> outR[..] == old(outR[..]) && outI[..] == old(outI[..])
  {
    hide Holds, Spectrum, Dft;
    if n > 0 {
      MaskTestFindsPowersOfTwo(n);
    }
    if n < 2 || BitAnd(n, n - 1) != 0 {
      return;
    }
    var log2n := Log2(n);
    Load(outR, outI, inR, inI, n, log2n, trig, scheduler(0, Threads(n)));
    ghost var x := Pairs(inR[..n], inI[..n]);
    ghost var bits := log2n;
    var len, stage := 2, 1;
    while len <= n
      invariant bits + stage == log2n + 1 && stage >= 1
      invariant len == Pow2(stage) && SpanOf(n, bits, len)
      invariant Holds(Pairs(outR[..n], outI[..n]), x, trig, bits, len / 2)
      invariant outR[n..] == old(outR[n..]) && outI[n..] == old(outI[n..])
      decreases bits
    {
      NextSpan(n, bits, len);
      bits := bits - 1;
      Stage(outR, outI, n, len, trig, scheduler(stage, Threads(n / 2)), x, bits);
      len, stage := 2 * len, stage + 1;
    }
    LastSpan(n, bits, len);
    FinishedHolds(Pairs(outR[..n], outI[..n]), x, trig);
    forall k | 0 <= k < n
      ensures Complex(outR[k], outI[k]) == Dft(x, trig, k)
    {
      assert Pairs(outR[..n], outI[..n])[k] == Complex(outR[k], outI[k]);
    }
    forall f: nat | f < n && IsTone(inR[..n], inI[..n], trig, f, n)
      ensures Complex(outR[f], outI[f]) == Complex(n as real, 0.0)
    {
      ToneInBuffers(inR[..n], inI[..n], trig, f, n);
    }
  }

  lemma FinishedHolds(buf: seq<Complex>, x: seq<Complex>, trig: Trig)
    requires |x| > 0 && Holds(buf, x, trig, 0, |x|)
    ensures |buf| == |x| && forall k :: 0 <= k < |x| ==> buf[k] == Dft(x, trig, k)
  {
    forall k | 0 <= k < |x| ensures buf[k] == Dft(x, trig, k) {
      FinishedIsDft(x, trig, k);
    }
  }

  /** About to run the stage of span len with `bits` doublings to go. */
  ghost predicate SpanOf(n: nat, bits: nat, len: nat) {
    len >= 2 && len % 2 == 0 && n == Times(Pow2(bits), len / 2)
  }

  lemma NextSpan(n: nat, bits: nat, len: nat)
    requires SpanOf(n, bits, len) && len <= n
    ensures bits > 0 && n == Times(Pow2(bits - 1), len) && SpanOf(n, bits - 1, 2 * len)
  {
    if bits > 0 {
      Doubles(Pow2(bits - 1), len / 2);
    } else {
      TimesZero(len / 2);
    }
  }

  lemma LastSpan(n: nat, bits: nat, len: nat)
    requires SpanOf(n, bits, len) && len > n
    ensures bits == 0 && len / 2 == n
  {
    TimesZero(len / 2);
    if bits > 0 {
      Doubles(Pow2(bits - 1), len / 2);
      RowFits(0, Pow2(bits - 1), len / 2);
    }
  }

  /** Counting the shifts that bring a power of two down to 1. */
  method Log2(n: nat) returns (log2n: nat)
    requires n > 0 && IsPow2(n)
    ensures n == Pow2(log2n)
  {
    log2n := 0;
    ghost var k: nat :| n == Pow2(k);
    var t := n;
    while t > 1
      invariant k >= log2n && t == Pow2(k - log2n)
    {
      t := t / 2;
      log2n := log2n + 1;
    }
  }

  // ---------------------------------------------------------------- the uint32 loop counter

  /** `len <<= 1` on a 32-bit unsigned counter. */
  function ShiftedSpan(turns: nat): (len: nat)
    ensures len < 0x1_0000_0000
  {
    if turns == 0 then 2 else ShiftLeft(ShiftedSpan(turns - 1))
  }

  lemma {:induction false} SpanBeforeWrap(turns: nat)
    ensures ShiftedSpan(turns) == if turns <= 30 then Pow2(turns + 1) else 0
  {
    hide Pow2, ShiftLeft;
    LargePowers();
    Pow2OfZero();
    Pow2Step(0);
    if turns > 0 {
      SpanBeforeWrap(turns - 1);
      Pow2Step(turns);
      if turns <= 30 {
        Pow2Monotone(turns + 1, 31);
      }
    }
  }

  /** The stage loop over a power of two n ends if and only if n <= 2^30: at n = 2^31
      the counter wraps to 0, which never exceeds n. */
  lemma StageLoopEnds(n: nat)
    requires 2 <= n < 0x1_0000_0000 && IsPow2(n)
    ensures (exists turns: nat :: ShiftedSpan(turns) > n) <==> n <= 0x4000_0000
  {
    LargePowers();
    if n <= 0x4000_0000 {
      SpanBeforeWrap(30);
      assert ShiftedSpan(30) > n;
    } else {
      var k: nat :| n == Pow2(k);
      if k <= 30 {
        Pow2Monotone(k, 30);
      }
      Pow2Monotone(31, k);
      forall turns: nat
        ensures ShiftedSpan(turns) <= n
      {
        SpanBeforeWrap(turns);
        if turns <= 30 {
          Pow2Monotone(turns + 1, 31);
        }
      }
    }
  }
}
