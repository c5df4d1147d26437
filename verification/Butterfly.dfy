/** The index pairs of one butterfly stage.  With span `len == 2 * half`, thread k
    owns element `Low(k, half)` and the element `half` further on; both transforms
    compute their pairs this way. */
module Butterfly {
  import opened Index

  function Low(k: nat, half: nat): nat
    requires half > 0
  {
    Times(Div(k, half), 2 * half) + Mod(k, half)
  }

  function High(k: nat, half: nat): nat
    requires half > 0
  {
    Low(k, half) + half
  }

  /** The only thread that touches element i. */
  function Owner(i: nat, half: nat): nat
    requires half > 0
  {
    Times(Div(i, 2 * half), half) + Mod(Mod(i, 2 * half), half)
  }

  predicate IsLow(i: nat, half: nat)
    requires half > 0
  {
    Mod(i, 2 * half) < half
  }

  /** Element w of block b belongs to thread w mod half of that block's threads. */
  lemma OwnerOf(b: nat, w: nat, half: nat)
    requires half > 0 && w < 2 * half
    ensures var i := Times(b, 2 * half) + w;
            && Owner(i, half) == Times(b, half) + Mod(w, half)
            && IsLow(i, half) == (w < half)
            && Mod(w, half) == if w < half then w else w - half
  {
    hide Times, Div, Mod;
    Quotient(b, w, 2 * half);
    ModHalf(w, half);
  }

  lemma LowOf(b: nat, v: nat, half: nat)
    requires v < half
    ensures Low(Times(b, half) + v, half) == Times(b, 2 * half) + v
  {
    hide Times, Div, Mod;
    Quotient(b, v, half);
  }

  /** A thread inside the count owns both of its elements, and they are in range. */
  lemma PairOwned(k: nat, half: nat, blocks: nat)
    requires half > 0 && k < Times(blocks, half)
    ensures Low(k, half) < High(k, half) < Times(blocks, 2 * half)
    ensures Owner(Low(k, half), half) == k == Owner(High(k, half), half)
    ensures IsLow(Low(k, half), half) && !IsLow(High(k, half), half)
  {
    hide Times, Div, Mod;
    var b, v := Div(k, half), Mod(k, half);
    Euclid(k, half);
    RowOf(k, blocks, half);
    OwnerOf(b, v, half);
    OwnerOf(b, v + half, half);
    RowFits(b, blocks, 2 * half);
  }

  /** Every element is owned by a thread inside the count. */
  lemma PairCovers(i: nat, half: nat, blocks: nat)
    requires half > 0 && i < Times(blocks, 2 * half)
    ensures Owner(i, half) < Times(blocks, half)
    ensures i == if IsLow(i, half) then Low(Owner(i, half), half) else High(Owner(i, half), half)
  {
    hide Times, Div, Mod;
    var d := 2 * half;
    var b, w := Div(i, d), Mod(i, d);
    Euclid(i, d);
    RowOf(i, blocks, d);
    OwnerOf(b, w, half);
    LowOf(b, Mod(w, half), half);
    RowFits(b, blocks, half);
  }

  /** The pairs of a stage partition the buffer, so the order of the threads cannot matter. */
  lemma PairsPartition(i: nat, half: nat, blocks: nat)
    requires half > 0 && i < Times(blocks, 2 * half)
    ensures exists k: nat :: k < Times(blocks, half) && (i == Low(k, half) || i == High(k, half))
    ensures forall k: nat ::
      k < Times(blocks, half) && (i == Low(k, half) || i == High(k, half)) ==> k == Owner(i, half)
  {
    hide Times, Div, Mod;
    PairCovers(i, half, blocks);
    forall k: nat | k < Times(blocks, half) && (i == Low(k, half) || i == High(k, half))
      ensures k == Owner(i, half)
    {
      PairOwned(k, half, blocks);
    }
  }

  /** Where element i of a stage of span 2 * len sits: its pair is the v-th element of
      the blocks 2 * b and 2 * b + 1 of length len. */
  lemma PairInBlocks(i: nat, len: nat, blocks: nat)
    requires len > 0 && i < Times(blocks, 2 * len)
    ensures var b, v := Div(i, 2 * len), Mod(Mod(i, 2 * len), len);
            var lo := Times(b, 2 * len) + v;
            && b < blocks
            && i == (if IsLow(i, len) then lo else lo + len)
            && Mod(i, 2 * len) == (if IsLow(i, len) then v else v + len)
            && lo + len < Times(blocks, 2 * len)
            && Div(lo, len) == 2 * b && Mod(lo, len) == v
            && Div(lo + len, len) == 2 * b + 1 && Mod(lo + len, len) == v
  {
    hide Times, Div, Mod;
    var d := 2 * len;
    var b, w := Div(i, d), Mod(i, d);
    var v := Mod(w, len);
    Euclid(i, d);
    ModHalf(w, len);
    RowOf(i, blocks, d);
    RowFits(b, blocks, d);
    Doubles(b, len);
    Quotient(2 * b, v, len);
    Quotient(2 * b + 1, v, len);
  }
}
