/** Matrix products: the reference operator of src/core/dx_ops_api.cpp, and the tiled and
    packed kernels of src/dxblas/dxblas.cpp that must compute the same. */
module Gemm {
  import opened Dispatch
  import opened Index
  import opened Reals

  const SIZE_MAX := 0xFFFF_FFFF_FFFF_FFFF
  const TILE := 16

  /** Element i; the products below stay inside their matrices (`IndexInside`). */
  function At(s: seq<real>, i: nat): real {
    if i < |s| then s[i] else 0.0
  }

  /** The first `count` terms of row `row` of A times column `col` of B. */
  function Dot(a: seq<real>, b: seq<real>, row: nat, col: nat, n: nat, k: nat, count: nat): real {
    if count == 0 then 0.0
    else Dot(a, b, row, col, n, k, count - 1)
         + Product(At(a, Times(row, k) + (count - 1)), At(b, Times(count - 1, n) + col))
  }

  /** Every index of the reference loops is below the size of its matrix. */
  lemma IndexInside(row: nat, rows: nat, col: nat, cols: nat)
    requires row < rows && col < cols
    ensures Times(row, cols) + col < Times(rows, cols)
  {
    RowFits(row, rows, cols);
  }

  lemma DistinctCells(row: nat, col: nat, row': nat, col': nat, cols: nat)
    requires col < cols && col' < cols && Times(row, cols) + col == Times(row', cols) + col'
    ensures row == row' && col == col'
  {
    hide Times, Div, Mod;
    Quotient(row, col, cols);
    Quotient(row', col', cols);
  }

  function Entry(b: seq<real>, cols: nat, row: nat, col: nat): real {
    At(b, Times(row, cols) + col)
  }

  /** The k x k identity. */
  ghost predicate IsIdentity(b: seq<real>, k: nat) {
    forall t: nat, c: nat :: t < k && c < k ==> Entry(b, k, t, c) == if t == c then 1.0 else 0.0
  }

  /** A times the identity is A. */
  lemma {:induction false} TimesIdentity(a: seq<real>, b: seq<real>, row: nat, col: nat, k: nat, count: nat)
    requires IsIdentity(b, k) && col < k && count <= k
    ensures Dot(a, b, row, col, k, k, count) == if col < count then At(a, Times(row, k) + col) else 0.0
  {
    hide Times, At;
    if count > 0 {
      var t := count - 1;
      TimesIdentity(a, b, row, col, k, t);
      ByOne(At(a, Times(row, k) + t));
      assert Entry(b, k, t, col) == if t == col then 1.0 else 0.0;
    }
  }

  /** The identity times B is B. */
  lemma {:induction false} IdentityTimes(a: seq<real>, b: seq<real>, row: nat, col: nat, n: nat, k: nat, count: nat)
    requires IsIdentity(a, k) && row < k && count <= k
    ensures Dot(a, b, row, col, n, k, count) == if row < count then At(b, Times(row, n) + col) else 0.0
  {
    hide Times, At;
    if count > 0 {
      var t := count - 1;
      IdentityTimes(a, b, row, col, n, k, t);
      ByOne(At(b, Times(t, n) + col));
      assert Entry(a, k, row, t) == if row == t then 1.0 else 0.0;
    }
  }

  lemma ByOne(x: real)
    ensures Product(x, 1.0) == Product(1.0, x) == x && Product(x, 0.0) == Product(0.0, x) == 0.0
  {
  }

  /** The product is linear in A; with the two laws above that determines it. */
  lemma {:induction false} DotLinear(z: seq<real>, x: seq<real>, y: seq<real>, s: real, b: seq<real>,
                                     row: nat, col: nat, n: nat, k: nat, count: nat)
    requires |z| == |x| == |y| && forall i :: 0 <= i < |z| ==> z[i] == Product(s, x[i]) + y[i]
    ensures Dot(z, b, row, col, n, k, count)
         == Product(s, Dot(x, b, row, col, n, k, count)) + Dot(y, b, row, col, n, k, count)
  {
    ByOne(s);
    if count > 0 {
      var t := count - 1;
      DotLinear(z, x, y, s, b, row, col, n, k, t);
      var i, w := Times(row, k) + t, At(b, Times(t, n) + col);
      hide Times, Product;
      assert At(z, i) == Product(s, At(x, i)) + At(y, i);
      LinearTerm(s, Dot(x, b, row, col, n, k, t), At(x, i), At(y, i), w);
    }
  }

  lemma LinearTerm(s: real, d: real, x: real, y: real, w: real)
    ensures Product(s, d) + Product(Product(s, x) + y, w) == Product(s, d + Product(x, w)) + Product(y, w)
  {
  }

  // ---------------------------------------------------------------- the reference operator

  method MatrixSizeOk(lhs: nat, rhs: nat) returns (ok: bool, result: nat)
    requires lhs <= SIZE_MAX && rhs <= SIZE_MAX
    ensures ok <==> Times(lhs, rhs) <= SIZE_MAX
    ensures ok ==> result == Times(lhs, rhs)
  {
    if lhs != 0 {
      ProductWithinIff(lhs, rhs, SIZE_MAX);
      if rhs > SIZE_MAX / lhs {
        return false, 0;
      }
    } else {
      TimesZero(rhs);
    }
    return true, lhs * rhs;
  }

  /** Sizes the operator accepts: no matrix exceeds the address space. */
  ghost predicate SizesOk(m: nat, n: nat, k: nat) {
    Times(m, n) <= SIZE_MAX / 4 && Times(m, k) <= SIZE_MAX / 4 && Times(k, n) <= SIZE_MAX / 4
  }

  /** Element i of alpha * A B + beta * C. */
  function Combined(a: seq<real>, b: seq<real>, c: seq<real>, n: nat, k: nat, alpha: real, beta: real, i: nat): real
    requires n > 0 && i < |c|
  {
    Product(alpha, Dot(a, b, Div(i, n), Mod(i, n), n, k, k)) + Product(beta, c[i])
  }

  /** Alpha weighs the product and beta what was there: with the identity for B, the result is
      alpha * A + beta * C. */
  lemma CombinedWithIdentity(a: seq<real>, b: seq<real>, c: seq<real>, k: nat, alpha: real, beta: real, i: nat)
    requires k > 0 && i < |c| && i < |a| && IsIdentity(b, k)
    ensures Combined(a, b, c, k, k, alpha, beta, i) == alpha * a[i] + beta * c[i]
  {
    hide Times, Div, Mod, IsIdentity;
    Euclid(i, k);
    TimesIdentity(a, b, Div(i, k), Mod(i, k), k, k);
  }

  /** In general, alpha and beta weigh what they weigh alone. */
  lemma CombinedIsBoth(a: seq<real>, b: seq<real>, c: seq<real>, n: nat, k: nat, alpha: real, beta: real, i: nat)
    requires n > 0 && i < |c|
    ensures Combined(a, b, c, n, k, 0.0, 1.0, i) == c[i]
    ensures Combined(a, b, c, n, k, 1.0, 0.0, i) == Dot(a, b, Div(i, n), Mod(i, n), n, k, k)
    ensures Combined(a, b, c, n, k, alpha, beta, i)
         == alpha * Combined(a, b, c, n, k, 1.0, 0.0, i) + beta * Combined(a, b, c, n, k, 0.0, 1.0, i)
  {
    ByOne(c[i]);
    ByOne(Dot(a, b, Div(i, n), Mod(i, n), n, k, k));
    hide Dot, Div, Mod;
  }

  /** The reference product: c = alpha * A B + beta * c.  It refuses empty matrices and
      sizes that do not fit the address space. */
  method GemmF32(a: array<real>, b: array<real>, c: array<real>, m: nat, n: nat, k: nat, alpha: real, beta: real)
    returns (code: int)
    requires m <= SIZE_MAX && n <= SIZE_MAX && k <= SIZE_MAX && c != a && c != b
    requires m > 0 && n > 0 && k > 0 && SizesOk(m, n, k) ==>
      a.Length >= Times(m, k) && b.Length >= Times(k, n) && c.Length >= Times(m, n)
    modifies c
    ensures code == -1 <==> m == 0 || n == 0 || k == 0
    ensures code == 0 <==> code != -1 && SizesOk(m, n, k)
    ensures code in {0, -1, -2}
    ensures code != 0 ==> c[..] == old(c[..])
    ensures code == 0 ==> forall i :: 0 <= i < c.Length ==>
      c[i] == if i < Times(m, n) then Combined(a[..], b[..], old(c[..]), n, k, alpha, beta, i) else old(c[i])
  {
    if m == 0 || n == 0 || k == 0 {
      return -1;
    }
    var okMn, mn := MatrixSizeOk(m, n);
    var okMk, mk := MatrixSizeOk(m, k);
    var okKn, kn := MatrixSizeOk(k, n);
    if !okMn || !okMk || !okKn || mn > SIZE_MAX / 4 || mk > SIZE_MAX / 4 || kn > SIZE_MAX / 4 {
      return -2;
    }
    ReferenceLoops(a, b, c, m, n, k, alpha, beta);
    code := 0;
  }

  method ReferenceLoops(a: array<real>, b: array<real>, c: array<real>, m: nat, n: nat, k: nat, alpha: real, beta: real)
    requires n > 0 && c != a && c != b
    requires a.Length >= Times(m, k) && b.Length >= Times(k, n) && c.Length >= Times(m, n)
    modifies c
    ensures forall i :: 0 <= i < c.Length ==>
      c[i] == if i < Times(m, n) then Combined(a[..], b[..], old(c[..]), n, k, alpha, beta, i) else old(c[i])
  {
    hide Times, Dot, Div, Mod, Product;
    ghost var was, sa, sb := c[..], a[..], b[..];
    TimesZero(n);
    for row := 0 to m
      invariant Times(row, n) <= Times(m, n) && a[..] == sa && b[..] == sb
      invariant forall i :: 0 <= i < c.Length ==>
        c[i] == if i < Times(row, n) then Combined(sa, sb, was, n, k, alpha, beta, i) else was[i]
    {
      RowFits(row, m, n);
      for column := 0 to n
        invariant a[..] == sa && b[..] == sb
        invariant forall i :: 0 <= i < c.Length ==>
          c[i] == if i < Times(row, n) + column then Combined(sa, sb, was, n, k, alpha, beta, i) else was[i]
      {
        var sum := RowTimesColumn(a, b, m, n, k, row, column);
        Quotient(row, column, n);
        var at := Times(row, n) + column;
        c[at] := Product(alpha, sum) + Product(beta, c[at]);
      }
      TimesStep(row, n);
    }
  }

  method RowTimesColumn(a: array<real>, b: array<real>, m: nat, n: nat, k: nat, row: nat, column: nat)
    returns (sum: real)
    requires row < m && column < n && a.Length >= Times(m, k) && b.Length >= Times(k, n)
    ensures sum == Dot(a[..], b[..], row, column, n, k, k)
  {
    hide Times, Product;
    sum := 0.0;
    for inner := 0 to k
      invariant sum == Dot(a[..], b[..], row, column, n, k, inner)
    {
      IndexInside(row, m, inner, k);
      IndexInside(inner, k, column, n);
      sum := sum + Product(a[Times(row, k) + inner], b[Times(inner, n) + column]);
    }
  }

  // ---------------------------------------------------------------- one tile

  /** Slot (y, x) of a 16 x 16 shared tile; also the index of thread (y, x) in its group. */
  function Slot(y: nat, x: nat): nat {
    TILE * y + x
  }

  predicate Tile(s: seq<real>) {
    |s| == TILE * TILE
  }

  /** What thread t must put into the A tile of the k-tile at kk, and into the B tile. */
  function LoadA(a: seq<real>, k: nat, gy: nat, kk: nat, t: nat): real {
    var ak := kk + t % TILE;
    if ak < k then At(a, Times(TILE * gy + t / TILE, k) + ak) else 0.0
  }

  function LoadB(b: seq<real>, n: nat, k: nat, gx: nat, kk: nat, t: nat): real {
    var bk := kk + t / TILE;
    if bk < k then At(b, Times(bk, n) + (TILE * gx + t % TILE)) else 0.0
  }

  /** The first j products of thread t over the shared tiles. */
  function TileSum(sa: seq<real>, sb: seq<real>, t: nat, j: nat): real
    requires Tile(sa) && Tile(sb) && t < TILE * TILE && j <= TILE
  {
    if j == 0 then 0.0
    else TileSum(sa, sb, t, j - 1) + Product(sa[Slot(t / TILE, j - 1)], sb[Slot(j - 1, t % TILE)])
  }

  /** Row and column of thread t in group (gy, gx). */
  function RowOfThread(gy: nat, t: nat): nat {
    TILE * gy + t / TILE
  }

  function ColOfThread(gx: nat, t: nat): nat {
    TILE * gx + t % TILE
  }

  /** A loaded tile pair continues every thread's dot product; past the end of k the padding
      zeros add nothing. */
  lemma {:induction false} TileExtendsDot(a: seq<real>, b: seq<real>, sa: seq<real>, sb: seq<real>,
                                          n: nat, k: nat, gy: nat, gx: nat, kk: nat, t: nat, j: nat)
    requires Tile(sa) && Tile(sb) && t < TILE * TILE && j <= TILE && kk <= k
    requires forall u :: 0 <= u < TILE * TILE ==> sa[u] == LoadA(a, k, gy, kk, u)
    requires forall u :: 0 <= u < TILE * TILE ==> sb[u] == LoadB(b, n, k, gx, kk, u)
    ensures Dot(a, b, RowOfThread(gy, t), ColOfThread(gx, t), n, k, Min(kk + j, k))
         == Dot(a, b, RowOfThread(gy, t), ColOfThread(gx, t), n, k, kk) + TileSum(sa, sb, t, j)
  {
    hide Times, Product, At, LoadA, LoadB, RowOfThread, ColOfThread, Slot;
    if j > 0 {
      var i := j - 1;
      TileExtendsDot(a, b, sa, sb, n, k, gy, gx, kk, t, i);
      TileTerm(a, b, n, k, gy, gx, kk, t, i);
      ZeroProduct();
    }
  }

  /** The cells behind the j-th product of thread t hold the term kk + j of its dot product, or
      zeros past the end. */
  lemma TileTerm(a: seq<real>, b: seq<real>, n: nat, k: nat, gy: nat, gx: nat, kk: nat, t: nat, j: nat)
    requires t < TILE * TILE && j < TILE
    ensures Slot(t / TILE, j) < TILE * TILE && Slot(j, t % TILE) < TILE * TILE
    ensures LoadA(a, k, gy, kk, Slot(t / TILE, j))
         == if kk + j < k then At(a, Times(RowOfThread(gy, t), k) + (kk + j)) else 0.0
    ensures LoadB(b, n, k, gx, kk, Slot(j, t % TILE))
         == if kk + j < k then At(b, Times(kk + j, n) + ColOfThread(gx, t)) else 0.0
  {
    hide Times, At;
    assert Slot(t / TILE, j) / TILE == t / TILE && Slot(t / TILE, j) % TILE == j;
    assert Slot(j, t % TILE) / TILE == j && Slot(j, t % TILE) % TILE == t % TILE;
  }

  lemma ZeroProduct()
    ensures Product(0.0, 0.0) == 0.0
  {
  }

  // ---------------------------------------------------------------- one group

  /** First phase: every thread inside the matrix loads its two cells, in any order.  The
      others have returned; with whole tiles there are none. */
  method LoadTiles(a: seq<real>, b: seq<real>, m: nat, n: nat, k: nat, gy: nat, gx: nat, kk: nat,
                   sa: array<real>, sb: array<real>, order: seq<nat>)
    requires m % TILE == 0 && n % TILE == 0 && TILE * gy < m && TILE * gx < n
    requires sa != sb && sa.Length == sb.Length == TILE * TILE && IsSchedule(order, TILE * TILE)
    modifies sa, sb
    ensures forall u :: 0 <= u < TILE * TILE ==> sa[u] == LoadA(a, k, gy, kk, u)
    ensures forall u :: 0 <= u < TILE * TILE ==> sb[u] == LoadB(b, n, k, gx, kk, u)
  {
    hide Times, At;
    for p := 0 to |order|
      invariant forall u :: 0 <= u < TILE * TILE && u in order[..p] ==>
        sa[u] == LoadA(a, k, gy, kk, u) && sb[u] == LoadB(b, n, k, gx, kk, u)
    {
      var t := order[p];
      var tx, ty := t % TILE, t / TILE;
      var row, col := gy * TILE + ty, gx * TILE + tx;
      var ak, bk := kk + tx, kk + ty;
      if row < m && col < n {
        sa[Slot(ty, tx)] := if row < m && ak < k then At(a, Times(row, k) + ak) else 0.0;
        sb[Slot(ty, tx)] := if bk < k && col < n then At(b, Times(bk, n) + col) else 0.0;
      }
    }
    assert order[..|order|] == order;
  }

  /** Second phase: every thread adds its products over the shared tiles, in any order. */
  method AccumulateTiles(sa: array<real>, sb: array<real>, acc: array<real>, order: seq<nat>)
    requires acc != sa && acc != sb && sa.Length == sb.Length == acc.Length == TILE * TILE
    requires IsSchedule(order, TILE * TILE)
    modifies acc
    ensures forall t :: 0 <= t < TILE * TILE ==> acc[t] == old(acc[t]) + TileSum(sa[..], sb[..], t, TILE)
  {
    hide Product;
    ghost var ta, tb := sa[..], sb[..];
    for p := 0 to |order|
      invariant sa[..] == ta && sb[..] == tb
      invariant forall t :: 0 <= t < TILE * TILE ==>
        acc[t] == if t in order[..p] then old(acc[t]) + TileSum(ta, tb, t, TILE) else old(acc[t])
    {
      var t := order[p];
      var start := acc[t];
      var sum := start;
      for j := 0 to TILE
        invariant sum == start + TileSum(ta, tb, t, j)
      {
        sum := sum + Product(sa[Slot(t / TILE, j)], sb[Slot(j, t % TILE)]);
      }
      assert t !in order[..p] by {
        forall q | 0 <= q < p ensures order[q] != t {
        }
      }
      acc[t] := sum;
    }
    assert order[..|order|] == order;
  }

  /** One 16 x 16 group of the tiled kernel.  Loading and accumulating are separated by
      barriers, so each phase is a whole round of the threads. */
  method GemmGroup(a: seq<real>, b: seq<real>, out: array<real>, m: nat, n: nat, k: nat, gy: nat, gx: nat,
                   scheduler: Scheduler)
    requires Fair(scheduler) && m % TILE == 0 && n % TILE == 0 && TILE * gy < m && TILE * gx < n
    requires out.Length >= Times(m, n)
    modifies out
    ensures forall t :: 0 <= t < TILE * TILE ==>
      var at := Times(RowOfThread(gy, t), n) + ColOfThread(gx, t);
      at < Times(m, n) && out[at] == Dot(a, b, RowOfThread(gy, t), ColOfThread(gx, t), n, k, k)
    ensures forall i :: 0 <= i < out.Length && !InGroup(n, gy, gx, i) ==> out[i] == old(out[i])
  {
    hide Times, Dot, LoadA, LoadB, TileSum, Div, Mod;
    var sa, sb := new real[TILE * TILE], new real[TILE * TILE];
    var acc := new real[TILE * TILE](_ => 0.0);
    EmptyDots(a, b, n, k, gy, gx);
    var kk := 0;
    while kk < k
      invariant forall t :: 0 <= t < TILE * TILE ==>
        acc[t] == Dot(a, b, RowOfThread(gy, t), ColOfThread(gx, t), n, k, Min(kk, k))
      invariant out[..] == old(out[..])
    {
      LoadTiles(a, b, m, n, k, gy, gx, kk, sa, sb, scheduler(2 * kk, TILE * TILE));
      AccumulateTiles(sa, sb, acc, scheduler(2 * kk + 1, TILE * TILE));
      forall t | 0 <= t < TILE * TILE
        ensures acc[t] == Dot(a, b, RowOfThread(gy, t), ColOfThread(gx, t), n, k, Min(kk + TILE, k))
      {
        TileExtendsDot(a, b, sa[..], sb[..], n, k, gy, gx, kk, t, TILE);
      }
      kk := kk + TILE;
    }
    WriteGroup(acc, out, m, n, gy, gx);
  }

  lemma EmptyDots(a: seq<real>, b: seq<real>, n: nat, k: nat, gy: nat, gx: nat)
    ensures forall t :: 0 <= t < TILE * TILE ==> Dot(a, b, RowOfThread(gy, t), ColOfThread(gx, t), n, k, 0) == 0.0
  {
  }

  /** Element i belongs to the output block of the group. */
  predicate InGroup(n: nat, gy: nat, gx: nat, i: nat)
    requires n > 0
  {
    Div(i, n) / TILE == gy && Mod(i, n) / TILE == gx
  }

  method WriteGroup(acc: array<real>, out: array<real>, m: nat, n: nat, gy: nat, gx: nat)
    requires acc != out && acc.Length == TILE * TILE && out.Length >= Times(m, n)
    requires m % TILE == 0 && n % TILE == 0 && TILE * gy < m && TILE * gx < n
    modifies out
    ensures forall t :: 0 <= t < TILE * TILE ==>
      var at := Times(RowOfThread(gy, t), n) + ColOfThread(gx, t);
      at < Times(m, n) && out[at] == acc[t]
    ensures forall i :: 0 <= i < out.Length && !InGroup(n, gy, gx, i) ==> out[i] == old(out[i])
  {
    hide Times, Div, Mod;
    forall t | 0 <= t < TILE * TILE
      ensures Times(RowOfThread(gy, t), n) + ColOfThread(gx, t) < Times(m, n)
    {
      IndexInside(RowOfThread(gy, t), m, ColOfThread(gx, t), n);
    }
    for t := 0 to TILE * TILE
      invariant forall u :: 0 <= u < t ==> out[Times(RowOfThread(gy, u), n) + ColOfThread(gx, u)] == acc[u]
      invariant forall i :: 0 <= i < out.Length && !InGroup(n, gy, gx, i) ==> out[i] == old(out[i])
    {
      var row, col := RowOfThread(gy, t), ColOfThread(gx, t);
      Quotient(row, col, n);
      forall u | 0 <= u < t
        ensures Times(RowOfThread(gy, u), n) + ColOfThread(gx, u) != Times(row, n) + col
      {
        if Times(RowOfThread(gy, u), n) + ColOfThread(gx, u) == Times(row, n) + col {
          DistinctCells(RowOfThread(gy, u), ColOfThread(gx, u), row, col, n);
          assert false;
        }
      }
      if row < m && col < n {
        out[Times(row, n) + col] := acc[t];
      }
    }
  }

  // ---------------------------------------------------------------- all groups

  /** Group id of element i in a grid of `cols` groups a row. */
  function GroupOf(n: nat, cols: nat, i: nat): nat
    requires n > 0
  {
    Times(Div(i, n) / TILE, cols) + Mod(i, n) / TILE
  }

  lemma InGroupIff(m: nat, n: nat, i: nat, g: nat)
    requires n > 0 && n % TILE == 0 && i < Times(m, n)
    ensures InGroup(n, Div(g, n / TILE), Mod(g, n / TILE), i) <==> GroupOf(n, n / TILE, i) == g
  {
    hide Times, Div, Mod;
    var cols := n / TILE;
    assert Mod(i, n) / TILE < cols;
    Quotient(Div(i, n) / TILE, Mod(i, n) / TILE, cols);
    Euclid(g, cols);
  }

  lemma GroupExists(m: nat, n: nat, i: nat)
    requires n > 0 && m % TILE == 0 && n % TILE == 0 && i < Times(m, n)
    ensures GroupOf(n, n / TILE, i) < Times(m / TILE, n / TILE)
  {
    hide Times, Div, Mod;
    RowOf(i, m, n);
    IndexInside(Div(i, n) / TILE, m / TILE, Mod(i, n) / TILE, n / TILE);
  }

  /** A group never reaches past the matrix. */
  lemma OutsideEveryGroup(m: nat, n: nat, gy: nat, gx: nat, i: nat)
    requires n > 0 && m % TILE == 0 && gy < m / TILE && i >= Times(m, n)
    ensures !InGroup(n, gy, gx, i)
  {
    hide Times, Div, Mod;
    Euclid(i, n);
    if Div(i, n) < m {
      RowFits(Div(i, n), m, n);
      assert false;
    }
  }

  /** What the group wrote at the cell of a thread is what its element must hold. */
  lemma GroupWrote(a: seq<real>, b: seq<real>, out: seq<real>, m: nat, n: nat, k: nat, gy: nat, gx: nat, i: nat)
    requires n > 0 && i < Times(m, n) <= |out| && InGroup(n, gy, gx, i)
    requires forall t :: 0 <= t < TILE * TILE ==>
      var at := Times(RowOfThread(gy, t), n) + ColOfThread(gx, t);
      at < Times(m, n) && out[at] == Dot(a, b, RowOfThread(gy, t), ColOfThread(gx, t), n, k, k)
    ensures out[i] == Dot(a, b, Div(i, n), Mod(i, n), n, k, k)
  {
    hide Times, Div, Mod, Dot;
    var t := Slot(Div(i, n) % TILE, Mod(i, n) % TILE);
    assert t / TILE == Div(i, n) % TILE && t % TILE == Mod(i, n) % TILE;
    assert RowOfThread(gy, t) == Div(i, n) && ColOfThread(gx, t) == Mod(i, n);
    Euclid(i, n);
  }

  lemma AlphaOneBetaZero(a: seq<real>, b: seq<real>, c: seq<real>, n: nat, k: nat, i: nat)
    requires n > 0 && i < |c|
    ensures Combined(a, b, c, n, k, 1.0, 0.0, i) == Dot(a, b, Div(i, n), Mod(i, n), n, k, k)
  {
  }

  /** The whole tiled dispatch, groups in any order, leaves in `out` what the reference
      operator with alpha 1 and beta 0 would put there. */
  method GemmTiled(a: seq<real>, b: seq<real>, out: array<real>, m: nat, n: nat, k: nat,
                   groups: seq<nat>, scheduler: Scheduler)
    requires Fair(scheduler) && n > 0 && m % TILE == 0 && n % TILE == 0
    requires |a| >= Times(m, k) && |b| >= Times(k, n) && out.Length >= Times(m, n)
    requires IsSchedule(groups, Times(m / TILE, n / TILE))
    modifies out
    ensures forall i :: 0 <= i < out.Length ==>
      out[i] == if i < Times(m, n) then Combined(a, b, old(out[..]), n, k, 1.0, 0.0, i) else old(out[i])
  {
    hide Times, Div, Mod, Dot, InGroup, GroupOf, Combined, RowOfThread, ColOfThread;
    var cols := n / TILE;
    for p := 0 to |groups|
      invariant forall i :: 0 <= i < Times(m, n) ==>
        out[i] == if GroupOf(n, cols, i) in groups[..p] then Dot(a, b, Div(i, n), Mod(i, n), n, k, k) else old(out[i])
      invariant forall i :: Times(m, n) <= i < out.Length ==> out[i] == old(out[i])
    {
      var g := groups[p];
      var gy, gx := Div(g, cols), Mod(g, cols);
      RowOf(g, m / TILE, cols);
      ghost var before := out[..];
      GemmGroup(a, b, out, m, n, k, gy, gx, scheduler);
      ghost var after := out[..];
      forall i | 0 <= i < Times(m, n)
        ensures out[i] == if GroupOf(n, cols, i) == g then Dot(a, b, Div(i, n), Mod(i, n), n, k, k) else before[i]
      {
        InGroupIff(m, n, i, g);
        if GroupOf(n, cols, i) == g {
          GroupWrote(a, b, after, m, n, k, gy, gx, i);
        }
      }
      forall i | Times(m, n) <= i < out.Length ensures out[i] == before[i] {
        OutsideEveryGroup(m, n, gy, gx, i);
      }
      assert groups[..p + 1] == groups[..p] + [g];
    }
    assert groups[..|groups|] == groups;
    forall i | 0 <= i < Times(m, n)
      ensures out[i] == Combined(a, b, old(out[..]), n, k, 1.0, 0.0, i)
    {
      GroupExists(m, n, i);
      AlphaOneBetaZero(a, b, old(out[..]), n, k, i);
    }
  }

  // ---------------------------------------------------------------- why whole tiles are needed

  /** Thread t of group (gy, gx) does not return before the loads. */
  predicate Active(m: nat, n: nat, gy: nat, gx: nat, t: nat) {
    RowOfThread(gy, t) < m && ColOfThread(gx, t) < n
  }

  /** Every shared cell that active thread t reads was loaded by an active thread. */
  predicate ReadsLoaded(m: nat, n: nat, gy: nat, gx: nat, t: nat) {
    Active(m, n, gy, gx, t) ==>
      forall j :: 0 <= j < TILE ==>
        Active(m, n, gy, gx, Slot(t / TILE, j)) && Active(m, n, gy, gx, Slot(j, t % TILE))
  }

  ghost predicate EveryReadLoaded(m: nat, n: nat) {
    forall gy: nat, gx: nat, t: nat ::
      TILE * gy < m && TILE * gx < n && t < TILE * TILE ==> ReadsLoaded(m, n, gy, gx, t)
  }

  /** Threads at the edge return before loading, so the tiles are complete for every thread
      that reads them exactly when the tiles divide the matrix. */
  lemma EveryReadLoadedIff(m: nat, n: nat)
    requires m > 0 && n > 0
    ensures EveryReadLoaded(m, n) <==> m % 16 == 0 && n % 16 == 0
  {
    if m % TILE == 0 && n % TILE == 0 {
      forall gy: nat, gx: nat, t: nat | TILE * gy < m && TILE * gx < n && t < TILE * TILE
        ensures ReadsLoaded(m, n, gy, gx, t)
      {
        forall j | 0 <= j < TILE
          ensures Active(m, n, gy, gx, Slot(t / TILE, j)) && Active(m, n, gy, gx, Slot(j, t % TILE))
        {
          assert Slot(t / TILE, j) / TILE == t / TILE && Slot(t / TILE, j) % TILE == j;
          assert Slot(j, t % TILE) / TILE == j && Slot(j, t % TILE) % TILE == t % TILE;
        }
      }
    } else {
      var gy, gx := if m % TILE != 0 then m / TILE else 0, if n % TILE != 0 then n / TILE else 0;
      var j := TILE - 1;
      assert Active(m, n, gy, gx, 0);
      assert !Active(m, n, gy, gx, Slot(0 / TILE, j)) || !Active(m, n, gy, gx, Slot(j, 0 % TILE));
      assert !ReadsLoaded(m, n, gy, gx, 0);
    }
  }

  // ---------------------------------------------------------------- packed halves

  /** Element e of a word that packs two 16-bit codes, the first one low. */
  function HalfCode(word: nat, e: nat): nat {
    if e % 2 == 0 then word % 0x1_0000 else word / 0x1_0000
  }

  /** The first of two codes is in the low half of their word. */
  lemma HalvesOf(lo: nat, hi: nat)
    requires lo < 0x1_0000 && hi < 0x1_0000
    ensures HalfCode(lo + 0x1_0000 * hi, 0) == lo && HalfCode(lo + 0x1_0000 * hi, 1) == hi
  {
  }

  predicate PackedA(words: seq<nat>, a: seq<nat>, k: nat, row: nat, c: nat) {
    && Times(row, k) + c < |a| && Times(row, k / 2) + c / 2 < |words|
    && HalfCode(words[Times(row, k / 2) + c / 2], c) == a[Times(row, k) + c]
  }

  predicate PackedB(words: seq<nat>, b: seq<nat>, n: nat, k: nat, col: nat, c: nat) {
    && Times(c, n) + col < |b| && Times(col, k / 2) + c / 2 < |words|
    && HalfCode(words[Times(col, k / 2) + c / 2], c) == b[Times(c, n) + col]
  }

  /** Row r of A occupies k / 2 words, its columns packed in pairs. */
  ghost predicate PacksRows(words: seq<nat>, a: seq<nat>, m: nat, k: nat) {
    forall row: nat, c: nat :: row < m && c < k ==> PackedA(words, a, k, row, c)
  }

  /** Column col of B occupies k / 2 words, its rows packed in pairs. */
  ghost predicate PacksColumns(words: seq<nat>, b: seq<nat>, n: nat, k: nat) {
    forall col: nat, c: nat :: col < n && c < k ==> PackedB(words, b, n, k, col, c)
  }

  function Decoded(decode: nat -> real, codes: seq<nat>): (values: seq<real>)
    ensures |values| == |codes|
    ensures forall i :: 0 <= i < |codes| ==> values[i] == decode(codes[i])
  {
    seq(|codes|, i requires 0 <= i < |codes| => decode(codes[i]))
  }

  function Word(words: seq<nat>, i: nat): nat {
    if i < |words| then words[i] else 0
  }

  /** Half e of a word of A times half e of a word of B. */
  function HalfProduct(decode: nat -> real, wa: nat, wb: nat, e: nat): real {
    Product(decode(HalfCode(wa, e)), decode(HalfCode(wb, e)))
  }

  /** The products of the first `pairs` words of row `row` of A and column `col` of B. */
  function PairSum(decode: nat -> real, aw: seq<nat>, bw: seq<nat>, k: nat, row: nat, col: nat, pairs: nat): real {
    if pairs == 0 then 0.0
    else
      var p := pairs - 1;
      var wa, wb := Word(aw, Times(row, k / 2) + p), Word(bw, Times(col, k / 2) + p);
      PairSum(decode, aw, bw, k, row, col, p) + HalfProduct(decode, wa, wb, 0) + HalfProduct(decode, wa, wb, 1)
  }

  /** What an odd K adds: the low half of the word after the row's last in A, and a half
      picked by the parity of the column from B addressed by rows. */
  function OddTail(decode: nat -> real, aw: seq<nat>, bw: seq<nat>, n: nat, k: nat, row: nat, col: nat): real
    requires k % 2 == 1
  {
    var wa, wb := Word(aw, Times(row, k / 2) + (k - 1) / 2), Word(bw, Times(k - 1, n / 2) + col / 2);
    Product(decode(HalfCode(wa, k - 1)), decode(HalfCode(wb, col)))
  }

  /** One thread of `gemm_f16_dot2`. */
  method DotPacked(decode: nat -> real, aw: seq<nat>, bw: seq<nat>, n: nat, k: nat, row: nat, col: nat)
    returns (acc: real)
    ensures acc == PairSum(decode, aw, bw, k, row, col, k / 2)
                   + if k % 2 == 1 then OddTail(decode, aw, bw, n, k, row, col) else 0.0
  {
    hide Times, HalfCode, Product;
    acc := 0.0;
    var kk := 0;
    while kk + 1 < k
      invariant kk <= k && kk % 2 == 0
      invariant acc == PairSum(decode, aw, bw, k, row, col, kk / 2)
    {
      var wa, wb := Word(aw, Times(row, k / 2) + kk / 2), Word(bw, Times(col, k / 2) + kk / 2);
      acc := acc + HalfProduct(decode, wa, wb, 0) + HalfProduct(decode, wa, wb, 1);
      kk := kk + 2;
    }
    if k % 2 != 0 {
      var last := k - 1;
      var wa, wb := Word(aw, Times(row, k / 2) + last / 2), Word(bw, Times(last, n / 2) + col / 2);
      acc := acc + Product(decode(HalfCode(wa, last)), decode(HalfCode(wb, col)));
    }
  }

  /** On packed matrices the word pairs give the dot product, two terms a pair. */
  lemma {:induction false} PairSumIsDot(decode: nat -> real, aw: seq<nat>, bw: seq<nat>, a: seq<nat>, b: seq<nat>,
                                        m: nat, n: nat, k: nat, row: nat, col: nat, pairs: nat)
    requires 2 * pairs <= k && row < m && col < n
    requires PacksRows(aw, a, m, k) && PacksColumns(bw, b, n, k)
    ensures PairSum(decode, aw, bw, k, row, col, pairs)
         == Dot(Decoded(decode, a), Decoded(decode, b), row, col, n, k, 2 * pairs)
  {
    hide Times, HalfProduct, Word, Decoded, PacksRows, PacksColumns;
    if pairs == 0 {
      assert Dot(Decoded(decode, a), Decoded(decode, b), row, col, n, k, 0) == 0.0;
    } else {
      var p := pairs - 1;
      PairSumIsDot(decode, aw, bw, a, b, m, n, k, row, col, p);
      hide Dot;
      PairTerms(decode, aw, bw, a, b, m, n, k, row, col, 2 * p);
      assert 2 * p + 2 == 2 * pairs && 2 * p / 2 == p;
    }
  }

  /** One word of A and one of B hold the next two terms of the dot product. */
  lemma PairTerms(decode: nat -> real, aw: seq<nat>, bw: seq<nat>, a: seq<nat>, b: seq<nat>,
                  m: nat, n: nat, k: nat, row: nat, col: nat, kk: nat)
    requires kk % 2 == 0 && kk + 1 < k && row < m && col < n
    requires PacksRows(aw, a, m, k) && PacksColumns(bw, b, n, k)
    ensures var wa, wb := Word(aw, Times(row, k / 2) + kk / 2), Word(bw, Times(col, k / 2) + kk / 2);
      Dot(Decoded(decode, a), Decoded(decode, b), row, col, n, k, kk + 2)
      == Dot(Decoded(decode, a), Decoded(decode, b), row, col, n, k, kk)
         + HalfProduct(decode, wa, wb, 0) + HalfProduct(decode, wa, wb, 1)
  {
    hide Times, Product;
    var c := kk + 1;
    assert kk / 2 == c / 2 && kk < k && c < k;
    assert PackedA(aw, a, k, row, kk) && PackedA(aw, a, k, row, c);
    assert PackedB(bw, b, n, k, col, kk) && PackedB(bw, b, n, k, col, c);
    assert At(Decoded(decode, a), Times(row, k) + kk) == decode(a[Times(row, k) + kk]);
    assert At(Decoded(decode, a), Times(row, k) + c) == decode(a[Times(row, k) + c]);
    assert At(Decoded(decode, b), Times(kk, n) + col) == decode(b[Times(kk, n) + col]);
    assert At(Decoded(decode, b), Times(c, n) + col) == decode(b[Times(c, n) + col]);
  }

  /** For even K, which this layout can hold, the kernel computes the dot product of the
      unpacked row and column. */
  method EvenPackedDot(decode: nat -> real, aw: seq<nat>, bw: seq<nat>, a: seq<nat>, b: seq<nat>,
                       m: nat, n: nat, k: nat, row: nat, col: nat) returns (acc: real)
    requires k % 2 == 0 && row < m && col < n && PacksRows(aw, a, m, k) && PacksColumns(bw, b, n, k)
    ensures acc == Dot(Decoded(decode, a), Decoded(decode, b), row, col, n, k, k)
  {
    hide PairSum, Dot, PacksRows, PacksColumns;
    acc := DotPacked(decode, aw, bw, n, k, row, col);
    PairSumIsDot(decode, aw, bw, a, b, m, n, k, row, col, k / 2);
  }

  /** For odd K the extra A term is not the row's own: it is the first half of the next row. */
  lemma OddTailReadsNextRow(k: nat, row: nat)
    requires k % 2 == 1
    ensures Times(row, k / 2) + (k - 1) / 2 == Times(row + 1, k / 2)
  {
    TimesStep(row, k / 2);
  }

  /** Words a row or column depend on half of K only. */
  lemma {:induction false} PairSumHalf(decode: nat -> real, aw: seq<nat>, bw: seq<nat>, k: nat, k': nat,
                                       row: nat, col: nat, pairs: nat)
    requires k / 2 == k' / 2
    ensures PairSum(decode, aw, bw, k, row, col, pairs) == PairSum(decode, aw, bw, k', row, col, pairs)
  {
    hide Times, HalfProduct, Word;
    if pairs > 0 {
      PairSumHalf(decode, aw, bw, k, k', row, col, pairs - 1);
    }
  }

  /** The two factors of the tail, on rows and columns of which K - 1 elements are packed: A's
      is the first half of the word after the row's, B's a half of a word of rows of n / 2
      words, which the columns are not packed by. */
  function TailA(aw: seq<nat>, k: nat, row: nat): nat {
    HalfCode(Word(aw, Times(row + 1, k / 2)), 0)
  }

  function TailB(bw: seq<nat>, n: nat, k: nat, col: nat): nat
    requires k > 0
  {
    HalfCode(Word(bw, Times(k - 1, n / 2) + col / 2), col)
  }

  /** A's factor is the next row's first element; in the last row of a buffer of m rows it is
      read past the end, which is taken as zero. */
  lemma TailAIs(aw: seq<nat>, a: seq<nat>, m: nat, k: nat, row: nat)
    requires k % 2 == 1 && row < m && PacksRows(aw, a, m, k - 1)
    ensures k > 1 && row + 1 < m ==> Times(row + 1, k - 1) < |a| && TailA(aw, k, row) == a[Times(row + 1, k - 1)]
    ensures row + 1 == m && |aw| == Times(m, k / 2) ==> TailA(aw, k, row) == 0
  {
    hide Times;
    var next := row + 1;
    if k > 1 && next < m {
      assert PackedA(aw, a, k - 1, next, 0);
    }
  }

  /** What the accumulator is worth for odd K, on rows and columns of which K - 1 elements
      are packed: their dot product, plus the product of the two factors of the tail. */
  method OddPackedDot(decode: nat -> real, aw: seq<nat>, bw: seq<nat>, a: seq<nat>, b: seq<nat>,
                      m: nat, n: nat, k: nat, row: nat, col: nat) returns (acc: real)
    requires k % 2 == 1 && row < m && col < n
    requires PacksRows(aw, a, m, k - 1) && PacksColumns(bw, b, n, k - 1)
    ensures acc == Dot(Decoded(decode, a), Decoded(decode, b), row, col, n, k - 1, k - 1)
                   + Product(decode(TailA(aw, k, row)), decode(TailB(bw, n, k, col)))
    ensures k > 1 && row + 1 < m ==> Times(row + 1, k - 1) < |a| && TailA(aw, k, row) == a[Times(row + 1, k - 1)]
    ensures row + 1 == m && |aw| == Times(m, k / 2) ==> TailA(aw, k, row) == 0
  {
    hide PairSum, Dot, Times, Product, Word, PacksRows, PacksColumns;
    acc := DotPacked(decode, aw, bw, n, k, row, col);
    PairSumHalf(decode, aw, bw, k, k - 1, row, col, k / 2);
    PairSumIsDot(decode, aw, bw, a, b, m, n, k - 1, row, col, k / 2);
    OddTailReadsNextRow(k, row);
    TailAIs(aw, a, m, k, row);
  }
}
