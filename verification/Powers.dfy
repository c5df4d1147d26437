/** Powers of two, and the two tests for them that the source writes with shifts and masks. */
module Powers {

  function Pow2(k: nat): (p: nat)
    ensures p > 0
  {
    if k == 0 then 1 else 2 * Pow2(k - 1)
  }

  ghost predicate IsPow2(n: int) {
    exists k: nat :: n == Pow2(k)
  }

  lemma Pow2Monotone(a: nat, b: nat)
    requires a <= b
    ensures Pow2(a) <= Pow2(b)
    decreases b
  {
    if a < b {
      Pow2Monotone(a, b - 1);
    }
  }

  lemma Pow2OfZero()
    ensures Pow2(0) == 1
  {
  }

  lemma Pow2Step(k: nat)
    ensures Pow2(k + 1) == 2 * Pow2(k)
  {
  }

  lemma Pow2Add(a: nat, b: nat)
    ensures Pow2(a + b) == Pow2(a) * Pow2(b)
  {
    if a > 0 {
      Pow2Add(a - 1, b);
    }
  }

  /** The bitwise AND of two unsigned numbers, bit by bit from the low end. */
  function BitAnd(a: nat, b: nat): (r: nat)
    ensures r <= a && r <= b
  {
    if a == 0 || b == 0 then 0 else 2 * BitAnd(a / 2, b / 2) + (if a % 2 == 1 && b % 2 == 1 then 1 else 0)
  }

  lemma {:induction false} BitAndSelf(a: nat)
    ensures BitAnd(a, a) == a
  {
    if a > 0 {
      BitAndSelf(a / 2);
    }
  }

  /** The mask test `(n & (n - 1)) == 0` holds of exactly the powers of two. */
  lemma {:induction false} MaskTestFindsPowersOfTwo(n: nat)
    requires n > 0
    ensures BitAnd(n, n - 1) == 0 <==> IsPow2(n)
  {
    if n == 1 {
      assert n == Pow2(0);
    } else if n % 2 == 1 {
      BitAndSelf(n / 2);
    } else {
      MaskTestFindsPowersOfTwo(n / 2);
      assert (n - 1) / 2 == n / 2 - 1;
      if k: nat :| n == Pow2(k) {
        assert k > 0 && n / 2 == Pow2(k - 1);
      }
      if k: nat :| n / 2 == Pow2(k) {
        assert n == Pow2(k + 1);
      }
    }
  }

  /** `x << 1` on a 32-bit unsigned number. */
  function ShiftLeft(x: nat): (r: nat)
    requires x < 0x1_0000_0000
    ensures r < 0x1_0000_0000
    ensures r == if x < 0x8000_0000 then 2 * x else 2 * x - 0x1_0000_0000
  {
    2 * x % 0x1_0000_0000
  }

  lemma LargePowers()
    ensures Pow2(30) == 0x4000_0000 && Pow2(31) == 0x8000_0000
  {
    assert Pow2(10) == 1024;
    Pow2Add(10, 10);
    Pow2Add(20, 10);
  }
}
