/**
 * The promise of the doc comment of lagrangeInterpolationAtZero: when the
 * y-values of k roots with distinct x are the values of an integer polynomial
 * of degree below k, and every term's division is exact, the computed sum is
 * the polynomial's value at zero. The argument runs over the reals, where the
 * Lagrange weights prod_{j != i} (0 - x_j) / (x_i - x_j) are exact, and comes
 * back to the integer computation through the exactness of each division.
 */
module Polynomial {
  import opened Lagrange

  /** The value at x of the polynomial with coefficients c, constant term first. */
  function Eval(c: seq<int>, x: int): int {
    if c == [] then 0 else c[0] + x * Eval(c[1..], x)
  }

  /** prod_{j < m, j != i} (c - x_j), over the reals: at m = |rs| it is Lagrange.Prod
      over Without(rs, i) cast to real (OthersAsProd). The weights are fractions
      of these products, and recursion on m gives the induction over the roots. */
  ghost function Others(c: int, rs: seq<Root>, i: nat, m: nat): real
    requires m <= |rs|
  {
    if m == 0 then 1.0
    else if m - 1 == i then Others(c, rs, i, m - 1)
    else Others(c, rs, i, m - 1) * ((c - rs[m - 1].x) as real)
  }

  /** n / d, and 0 when d is 0. */
  ghost function Frac(n: real, d: real): real {
    if d == 0.0 then 0.0 else n / d
  }

  /** The weight of root i at x = 0, prod_{j != i} (0 - x_j) / (x_i - x_j). */
  ghost function Weight(rs: seq<Root>, i: nat): real
    requires i < |rs|
  {
    Frac(Others(0, rs, i, |rs|), Others(rs[i].x, rs, i, |rs|))
  }

  /** No root of rs has the x-coordinate of p, stated root by root from the left.
      Together with Distinct it restates Lagrange.DistinctX (DistinctXIsDistinct)
      in the recursive form the induction on the number of roots peels off. */
  ghost predicate Apart(rs: seq<Root>, p: Root)
    decreases |rs|
  {
    rs == [] || (Apart(rs[..|rs| - 1], p) && rs[|rs| - 1].x != p.x)
  }

  lemma {:induction false} ApartAt(rs: seq<Root>, p: Root, i: nat)
    requires Apart(rs, p) && i < |rs|
    ensures rs[i].x != p.x
    decreases |rs|
  {
    var n := |rs| - 1;
    if i < n {
      ApartAt(rs[..n], p, i);
      assert rs[..n][i] == rs[i];
    }
  }

  lemma {:induction false} ApartOf(rs: seq<Root>, p: Root)
    requires forall i :: 0 <= i < |rs| ==> rs[i].x != p.x
    ensures Apart(rs, p)
    decreases |rs|
  {
    if rs != [] {
      var n := |rs| - 1;
      assert forall i :: 0 <= i < n ==> rs[..n][i] == rs[i];
      ApartOf(rs[..n], p);
    }
  }

  /** Distinct x-coordinates, stated root by root from the left: the recursive
      form of Lagrange.DistinctX, equivalent to it by DistinctXIsDistinct. */
  ghost predicate Distinct(rs: seq<Root>)
    decreases |rs|
  {
    rs == [] || (Distinct(rs[..|rs| - 1]) && Apart(rs[..|rs| - 1], rs[|rs| - 1]))
  }

  lemma {:induction false} DistinctXIsDistinct(rs: seq<Root>)
    requires DistinctX(rs)
    ensures Distinct(rs)
    decreases |rs|
  {
    if rs != [] {
      var n := |rs| - 1;
      assert DistinctX(rs[..n]);
      DistinctXIsDistinct(rs[..n]);
      assert forall i :: 0 <= i < n ==> rs[..n][i] == rs[i];
      ApartOf(rs[..n], rs[n]);
    }
  }

  /** sum_{i < m} vs[i] * ws[i] */
  ghost function Dot(vs: seq<int>, ws: seq<real>, m: nat): real
    requires m <= |vs| && m <= |ws|
  {
    if m == 0 then 0.0 else Dot(vs, ws, m - 1) + (vs[m - 1] as real) * ws[m - 1]
  }

  /** The weight of every root of rs, in order. */
  ghost function Weights(rs: seq<Root>): seq<real> {
    seq(|rs|, i requires 0 <= i < |rs| => Weight(rs, i))
  }

  /** P(x_i) for every root, with P the polynomial with coefficients c. */
  function Values(rs: seq<Root>, c: seq<int>): seq<int> {
    seq(|rs|, i requires 0 <= i < |rs| => Eval(c, rs[i].x))
  }

  /** (x_i - a) * Q(x_i) for every root, with Q the polynomial with coefficients q. */
  function Shifts(rs: seq<Root>, q: seq<int>, a: int): seq<int> {
    seq(|rs|, i requires 0 <= i < |rs| => (rs[i].x - a) * Eval(q, rs[i].x))
  }

  /** The constant polynomial 1: its values against the weights sum the weights, its shifts about a give their moments about a. */
  const One: seq<int> := [1]

  lemma {:induction false} EvalOne(x: int)
    ensures Eval(One, x) == 1
  {
    assert One[1..] == [];
  }

  /** Root i's division y_i * num / den has a non-zero divisor and leaves no remainder. */
  predicate ExactAt(roots: seq<Root>, i: nat)
    requires i < |roots|
  {
    var den := Prod(roots[i].x, Without(roots, i));
    den != 0 && (roots[i].y * Prod(0, Without(roots, i))) % den == 0
  }

  // ---------------------------------------------------------------------
  // Synthetic division: P(x) = P(a) + (x - a) * Q(x)

  /** The quotient of the polynomial c by (x - a), constant term first. */
  function Quot(c: seq<int>, a: int): (q: seq<int>)
    ensures |c| <= 1 ==> q == []
    ensures |c| >= 1 ==> |q| == |c| - 1
  {
    if |c| <= 1 then [] else [Eval(c[1..], a)] + Quot(c[1..], a)
  }

  lemma {:induction false} QuotAt(c: seq<int>, a: int, x: int)
    ensures Eval(c, x) == Eval(c, a) + (x - a) * Eval(Quot(c, a), x)
  {
    if |c| == 1 {
      assert c[1..] == [];
    } else if |c| > 1 {
      var r := c[1..];
      QuotAt(r, a, x);
      assert Quot(c, a)[1..] == Quot(r, a);
      QuotArith(c[0], Eval(r, a), Eval(r, x), Eval(Quot(r, a), x), a, x);
    }
  }

  /** QuotAt at x = 0. */
  lemma {:induction false} QuotAtZero(c: seq<int>, a: int)
    ensures IsProduct((Eval(c, 0) - Eval(c, a)) as real, Eval(Quot(c, a), 0) as real, (0 - a) as real)
  {
    QuotAt(c, a, 0);
    CastMul(Eval(Quot(c, a), 0), 0 - a);
  }

  lemma {:induction false} QuotArith(c0: int, ra: int, rx: int, qx: int, a: int, x: int)
    requires rx == ra + (x - a) * qx
    ensures c0 + x * rx == (c0 + a * ra) + (x - a) * (ra + x * qx)
  {
  }

  // ---------------------------------------------------------------------
  // Real arithmetic steps

  lemma {:induction false} CastMul(m: int, n: int)
    ensures (m * n) as real == (m as real) * (n as real)
  {
  }

  lemma {:induction false} SplitFraction(n: real, d: real, u: real, v: real)
    requires d != 0.0 && v != 0.0
    ensures (n * u) / (d * v) == (n / d) * (u / v)
  {
  }

  lemma {:induction false} CancelFactor(d: real, u: real, g: real, w: real)
    requires d != 0.0
    ensures (d * g) * (w * (u / d)) == u * (g * w)
  {
  }

  lemma {:induction false} ExactQuotient(t: int, d: int, y: int, n: int)
    requires d != 0 && t * d == y * n
    ensures t as real == (y as real) * ((n as real) / (d as real))
  {
    CastMul(t, d);
    CastMul(y, n);
  }

  /** Integer t is, over the reals, y times the fraction n / d. */
  ghost predicate Quotient(t: int, y: int, n: int, d: int)
  {
    d != 0 && t as real == (y as real) * ((n as real) / (d as real))
  }

  /** A truncating division that leaves no remainder is the exact quotient. */
  lemma {:induction false} ExactDivision(y: int, n: int, d: int)
    requires d != 0 && (y * n) % d == 0
    ensures Quotient(TruncDiv(y * n, d), y, n, d)
  {
    TruncDivExact(y * n, d);
    ExactQuotient(TruncDiv(y * n, d), d, y, n);
  }

  /** Casting a sum to the reals casts each summand. */
  lemma {:induction false} CastSum(am: int, um: real, a: int, b: int, u: real, v: real)
    requires am == a + b && um == u + v && a as real == u && b as real == v
    ensures am as real == um
  {
  }

  // ---------------------------------------------------------------------
  // Products over the other roots

  /** The product only looks at the first m roots and skips index i among them. */
  lemma {:induction false} OthersAgree(c: int, xs: seq<Root>, i: nat, ys: seq<Root>, j: nat, m: nat)
    requires m <= |xs| && m <= |ys| && xs[..m] == ys[..m]
    requires i == j || (i >= m && j >= m)
    ensures Others(c, xs, i, m) == Others(c, ys, j, m)
  {
    if m > 0 {
      assert xs[m - 1] == xs[..m][m - 1] == ys[..m][m - 1] == ys[m - 1];
      assert xs[..m - 1] == xs[..m][..m - 1] == ys[..m][..m - 1] == ys[..m - 1];
      OthersAgree(c, xs, i, ys, j, m - 1);
    }
  }

  lemma {:induction false} NonZeroProduct(a: real, b: real)
    requires a != 0.0 && b != 0.0
    ensures a * b != 0.0
  {
  }

  /** prod (c - p.x) over the roots p of ps, over the reals: Lagrange.Prod cast to
      real (RealProdIsProd), kept so that the real-valued steps need no casts. */
  ghost function RealProd(c: int, ps: seq<Root>): real {
    if ps == [] then 1.0 else RealProd(c, ps[..|ps| - 1]) * ((c - ps[|ps| - 1].x) as real)
  }

  lemma {:induction false} RealProdIsProd(c: int, ps: seq<Root>)
    ensures RealProd(c, ps) == Prod(c, ps) as real
  {
    if ps != [] {
      var init := ps[..|ps| - 1];
      RealProdIsProd(c, init);
      ProdSnoc(c, init, ps[|ps| - 1]);
      assert init + [ps[|ps| - 1]] == ps;
      CastStep(RealProd(c, init), Prod(c, init), c - ps[|ps| - 1].x);
    }
  }

  lemma {:induction false} CastStep(r: real, n: int, d: int)
    requires r == n as real
    ensures r * (d as real) == (n * d) as real
  {
    CastMul(n, d);
  }

  /** Below the skipped index the product runs over a prefix. */
  lemma {:induction false} OthersBelow(c: int, rs: seq<Root>, i: nat, m: nat)
    requires m <= i && m <= |rs|
    ensures Others(c, rs, i, m) == RealProd(c, rs[..m])
  {
    if m > 0 {
      OthersBelow(c, rs, i, m - 1);
      assert rs[..m][..m - 1] == rs[..m - 1];
    }
  }

  /** Past the skipped index the product runs over a prefix with index i taken out. */
  lemma {:induction false} OthersAbove(c: int, rs: seq<Root>, i: nat, m: nat)
    requires i < m <= |rs|
    ensures Others(c, rs, i, m) == RealProd(c, rs[..i] + rs[i + 1..m])
  {
    if m == i + 1 {
      OthersBelow(c, rs, i, i);
      assert rs[..i] + rs[i + 1..m] == rs[..i];
    } else {
      OthersAbove(c, rs, i, m - 1);
      var w := rs[..i] + rs[i + 1..m];
      assert w[..|w| - 1] == rs[..i] + rs[i + 1..m - 1];
      assert w[|w| - 1] == rs[m - 1];
    }
  }

  /** Over the whole list, the product is the integer one of the computation. */
  lemma {:induction false} OthersAsProd(c: int, rs: seq<Root>, i: nat)
    requires i < |rs|
    ensures Others(c, rs, i, |rs|) == Prod(c, Without(rs, i)) as real
  {
    OthersAbove(c, rs, i, |rs|);
    assert rs[..i] + rs[i + 1..|rs|] == Without(rs, i);
    RealProdIsProd(c, Without(rs, i));
  }

  lemma {:induction false} WeightAsFraction(rs: seq<Root>, i: nat)
    requires i < |rs|
    ensures var den := Prod(rs[i].x, Without(rs, i));
            den != 0 ==> Weight(rs, i) == (Prod(0, Without(rs, i)) as real) / (den as real)
  {
    OthersAsProd(0, rs, i);
    OthersAsProd(rs[i].x, rs, i);
  }

  // ---------------------------------------------------------------------
  // Weights

  /** a is b times u. */
  ghost predicate IsProduct(a: real, b: real, u: real)
  {
    a == b * u
  }

  lemma {:induction false} SameProduct(a: real, b: real, a': real, b': real, u: real)
    requires IsProduct(a, b, u) && IsProduct(a', b', u) && b == b'
    ensures a == a'
  {
  }

  /** Appending a root p multiplies the product for an earlier index by (c - p.x). */
  lemma {:induction false} OthersDropLast(c: int, rs: seq<Root>, p: Root, i: nat)
    requires i < |rs|
    ensures IsProduct(Others(c, rs + [p], i, |rs| + 1), Others(c, rs, i, |rs|), (c - p.x) as real)
  {
    var all, n := rs + [p], |rs|;
    assert all[n] == p && all[..n] == rs[..n];
    OthersAgree(c, all, i, rs, i, n);
  }

  /** The arithmetic of WeightDropLast: both parts of a fraction scaled by u and v. */
  lemma {:induction false} FractionStep(na: real, da: real, nr: real, dr: real, u: real, v: real)
    requires v != 0.0 && IsProduct(na, nr, u) && IsProduct(da, dr, v)
    ensures IsProduct(Frac(na, da), Frac(nr, dr), u / v)
  {
    if dr != 0.0 {
      NonZeroProduct(dr, v);
      SplitFraction(nr, dr, u, v);
    }
  }

  /** Appending a root p multiplies each earlier weight by (0 - p.x) / (x_i - p.x). */
  lemma {:induction false} WeightDropLast(rs: seq<Root>, p: Root, i: nat)
    requires i < |rs| && rs[i].x != p.x
    ensures IsProduct(Weight(rs + [p], i), Weight(rs, i), ((0 - p.x) as real) / ((rs[i].x - p.x) as real))
  {
    var all, n, x := rs + [p], |rs|, rs[i].x;
    assert all[i] == rs[i] && |all| == n + 1;
    OthersDropLast(0, rs, p, i);
    OthersDropLast(x, rs, p, i);
    FractionStep(Others(0, all, i, n + 1), Others(x, all, i, n + 1), Others(0, rs, i, n), Others(x, rs, i, n),
                 (0 - p.x) as real, (x - p.x) as real);
    assert Weight(all, i) == Frac(Others(0, all, i, n + 1), Others(x, all, i, n + 1));
    assert Weight(rs, i) == Frac(Others(0, rs, i, n), Others(x, rs, i, n));
  }

  /** Two more roots add their two factors, unless one of them is the skipped index. */
  lemma {:induction false} OthersTwoMore(c: int, rs: seq<Root>, i: nat, n: nat)
    requires n + 2 <= |rs|
    ensures Others(c, rs, i, n + 2) ==
            Others(c, rs, i, n) * (if i == n then 1.0 else (c - rs[n].x) as real)
                                * (if i == n + 1 then 1.0 else (c - rs[n + 1].x) as real)
  {
    assert Others(c, rs, i, n + 1) == Others(c, rs, i, n) * (if i == n then 1.0 else (c - rs[n].x) as real);
  }

  /** Exchanging the last two roots exchanges their products and keeps the others. */
  lemma {:induction false} OthersSwap(c: int, rs: seq<Root>, b: Root, a: Root, i: nat)
    requires i < |rs| + 2
    ensures var xs, ys, n := rs + [b] + [a], rs + [a] + [b], |rs|;
            Others(c, xs, i, n + 2) == Others(c, ys, if i == n then n + 1 else if i == n + 1 then n else i, n + 2)
  {
    var xs, ys, n := rs + [b] + [a], rs + [a] + [b], |rs|;
    var j := if i == n then n + 1 else if i == n + 1 then n else i;
    assert xs[..n] == ys[..n];
    assert xs[n] == ys[n + 1] == b && xs[n + 1] == ys[n] == a;
    OthersAgree(c, xs, i, ys, j, n);
    OthersTwoMore(c, xs, i, n);
    OthersTwoMore(c, ys, j, n);
  }

  /** Exchanging the last two roots exchanges their weights and keeps the others. */
  lemma {:induction false} WeightSwap(rs: seq<Root>, b: Root, a: Root, i: nat)
    requires i < |rs| + 2
    ensures var xs, ys, n := rs + [b] + [a], rs + [a] + [b], |rs|;
            Weight(xs, i) == Weight(ys, if i == n then n + 1 else if i == n + 1 then n else i)
  {
    var xs, ys, n := rs + [b] + [a], rs + [a] + [b], |rs|;
    var j := if i == n then n + 1 else if i == n + 1 then n else i;
    assert xs[i] == ys[j];
    OthersSwap(0, rs, b, a, i);
    OthersSwap(xs[i].x, rs, b, a, i);
  }

  // ---------------------------------------------------------------------
  // Distinct x-coordinates

  lemma {:induction false} DistinctSnoc(rs: seq<Root>, p: Root)
    ensures Distinct(rs + [p]) <==> Distinct(rs) && Apart(rs, p)
  {
    assert (rs + [p])[..|rs|] == rs;
  }

  lemma {:induction false} ApartSnoc(rs: seq<Root>, q: Root, p: Root)
    ensures Apart(rs + [q], p) <==> Apart(rs, p) && q.x != p.x
  {
    assert (rs + [q])[..|rs|] == rs;
  }

  /** Taking the last two roots apart keeps the x-coordinates distinct. */
  lemma {:induction false} DistinctSplit(front: seq<Root>, b: Root, a: Root)
    requires Distinct(front + [b] + [a])
    ensures b.x != a.x && Distinct(front + [b]) && Distinct(front + [a])
    ensures Apart(front + [b], a) && Apart(front + [a], b)
  {
    DistinctSnoc(front + [b], a);
    DistinctSnoc(front, b);
    ApartSnoc(front, b, a);
    DistinctSnoc(front, a);
    ApartSnoc(front, a, b);
  }

  lemma {:induction false} ZeroFactor(x: real, y: real)
    requires x != 0.0 && x * y == 0.0
    ensures y == 0.0
  {
  }

  // ---------------------------------------------------------------------
  // Sums of products

  lemma {:induction false} SplitStep(vm: real, sm: real, om: real, v: real, s: real, o: real, px: int, sx: int, ox: int, e: int, t: real)
    requires vm == v + (px as real) * t && sm == s + (sx as real) * t && om == o + (ox as real) * t
    requires v == s + (e as real) * o && px == e + sx && ox == 1
    ensures vm == sm + (e as real) * om
  {
  }

  /** Values that are e plus other values give e times the weight sum more. */
  lemma {:induction false} DotSplit(vs: seq<int>, ss: seq<int>, os: seq<int>, ws: seq<real>, e: int, m: nat)
    requires m <= |vs| && m <= |ss| && m <= |os| && m <= |ws|
    requires forall i :: 0 <= i < m ==> vs[i] == e + ss[i] && os[i] == 1
    ensures Dot(vs, ws, m) == Dot(ss, ws, m) + (e as real) * Dot(os, ws, m)
  {
    if m > 0 {
      DotSplit(vs, ss, os, ws, e, m - 1);
      SplitStep(Dot(vs, ws, m), Dot(ss, ws, m), Dot(os, ws, m), Dot(vs, ws, m - 1), Dot(ss, ws, m - 1), Dot(os, ws, m - 1),
                vs[m - 1], ss[m - 1], os[m - 1], e, ws[m - 1]);
    }
  }

  /** A common factor of two summands comes out of their sum. */
  lemma {:induction false} ScaleStep(sm: real, tm: real, s0: real, t0: real, s: real, t: real, c: real)
    requires sm == s0 + s && tm == t0 + t
    requires IsProduct(s0, t0, c) && IsProduct(s, t, c)
    ensures IsProduct(sm, tm, c)
  {
  }

  /** Product i of vs and ws is c times product i of us and zs. */
  ghost predicate ScaledAt(vs: seq<int>, ws: seq<real>, us: seq<int>, zs: seq<real>, c: real, i: nat)
    requires i < |vs| && i < |ws| && i < |us| && i < |zs|
  {
    IsProduct((vs[i] as real) * ws[i], (us[i] as real) * zs[i], c)
  }

  /** Products that are c times other products sum to c times their sum. */
  lemma {:induction false} DotScale(vs: seq<int>, ws: seq<real>, us: seq<int>, zs: seq<real>, c: real, m: nat)
    requires m <= |vs| && m <= |ws| && m <= |us| && m <= |zs|
    requires forall i :: 0 <= i < m ==> ScaledAt(vs, ws, us, zs, c, i)
    ensures IsProduct(Dot(vs, ws, m), Dot(us, zs, m), c)
  {
    if m > 0 {
      DotScale(vs, ws, us, zs, c, m - 1);
      assert ScaledAt(vs, ws, us, zs, c, m - 1);
      ScaleStep(Dot(vs, ws, m), Dot(us, zs, m), Dot(vs, ws, m - 1), Dot(us, zs, m - 1),
                (vs[m - 1] as real) * ws[m - 1], (us[m - 1] as real) * zs[m - 1], c);
    }
  }

  /** Equal products have equal sums. */
  lemma {:induction false} DotAgree(vs: seq<int>, ws: seq<real>, us: seq<int>, zs: seq<real>, m: nat)
    requires m <= |vs| && m <= |ws| && m <= |us| && m <= |zs|
    requires forall i :: 0 <= i < m ==> vs[i] == us[i] && ws[i] == zs[i]
    ensures Dot(vs, ws, m) == Dot(us, zs, m)
  {
    if m > 0 {
      DotAgree(vs, ws, us, zs, m - 1);
    }
  }

  /** Exchanging the last two products leaves the sum unchanged. */
  lemma {:induction false} DotSwapLast(vs: seq<int>, ws: seq<real>, us: seq<int>, zs: seq<real>, n: nat)
    requires n + 2 <= |vs| && n + 2 <= |ws| && n + 2 <= |us| && n + 2 <= |zs|
    requires forall i :: 0 <= i < n ==> vs[i] == us[i] && ws[i] == zs[i]
    requires vs[n] == us[n + 1] && ws[n] == zs[n + 1] && vs[n + 1] == us[n] && ws[n + 1] == zs[n]
    ensures Dot(vs, ws, n + 2) == Dot(us, zs, n + 2)
  {
    DotAgree(vs, ws, us, zs, n);
    assert Dot(vs, ws, n + 2) == Dot(vs, ws, n) + (vs[n] as real) * ws[n] + (vs[n + 1] as real) * ws[n + 1];
    assert Dot(us, zs, n + 2) == Dot(us, zs, n) + (us[n] as real) * zs[n] + (us[n + 1] as real) * zs[n + 1];
  }

  /** One more product that is zero leaves the sum unchanged. */
  lemma {:induction false} DotZeroLast(vs: seq<int>, ws: seq<real>, n: nat)
    requires n + 1 <= |vs| && n + 1 <= |ws| && vs[n] == 0
    ensures Dot(vs, ws, n + 1) == Dot(vs, ws, n)
  {
  }

  // ---------------------------------------------------------------------
  // P(x) = P(a) + (x - a) Q(x), summed against the weights

  /** At root i, P(x_i) = P(a) + (x_i - a) Q(x_i), and the constant polynomial 1 is 1. */
  lemma {:induction false} SplitAt(rs: seq<Root>, c: seq<int>, a: int, i: nat)
    requires i < |rs|
    ensures Values(rs, c)[i] == Eval(c, a) + Shifts(rs, Quot(c, a), a)[i] && Values(rs, One)[i] == 1
  {
    QuotAt(c, a, rs[i].x);
    EvalOne(rs[i].x);
  }

  /**
   * sum_i P(x_i) w_i = sum_i (x_i - a) Q(x_i) w_i + P(a), with Q the quotient
   * of P by (x - a), because the weights sum to one.
   */
  lemma {:induction false} SplitValues(rs: seq<Root>, c: seq<int>, a: int)
    requires Distinct(rs) && |rs| > 0
    ensures Dot(Values(rs, c), Weights(rs), |rs|) ==
            Dot(Shifts(rs, Quot(c, a), a), Weights(rs), |rs|) + Eval(c, a) as real
  {
    WeightsSumToOne(rs);
    forall i | 0 <= i < |rs|
      ensures Values(rs, c)[i] == Eval(c, a) + Shifts(rs, Quot(c, a), a)[i] && Values(rs, One)[i] == 1
    {
      SplitAt(rs, c, a, i);
    }
    DotSplit(Values(rs, c), Shifts(rs, Quot(c, a), a), Values(rs, One), Weights(rs), Eval(c, a), |rs|);
  }

  // ---------------------------------------------------------------------
  // Dropping the last root

  /** A product scaled by d in its value and by u / d in its weight is scaled by u. */
  lemma {:induction false} ScaledByShift(vs: seq<int>, ws: seq<real>, us: seq<int>, zs: seq<real>, i: nat, d: int, u: int)
    requires i < |vs| && i < |ws| && i < |us| && i < |zs| && d != 0
    requires vs[i] == d * us[i] && IsProduct(ws[i], zs[i], (u as real) / (d as real))
    ensures ScaledAt(vs, ws, us, zs, u as real, i)
  {
    CastMul(d, us[i]);
    CancelFactor(d as real, u as real, us[i] as real, zs[i]);
  }

  /** The shifted term of root i against the weights of rs + [p] is (0 - p.x) times its plain term against those of rs. */
  lemma {:induction false} DropTermAt(rs: seq<Root>, p: Root, q: seq<int>, i: nat)
    requires Apart(rs, p) && i < |rs|
    ensures ScaledAt(Shifts(rs + [p], q, p.x), Weights(rs + [p]), Values(rs, q), Weights(rs), (0 - p.x) as real, i)
  {
    var all, x := rs + [p], rs[i].x;
    assert all[i] == rs[i];
    ApartAt(rs, p, i);
    WeightDropLast(rs, p, i);
    ScaledByShift(Shifts(all, q, p.x), Weights(all), Values(rs, q), Weights(rs), i, x - p.x, 0 - p.x);
  }

  /** The first |rs| shifted terms over rs + [p] are (0 - p.x) times the plain terms over rs. */
  lemma {:induction false} ShiftsDropFront(rs: seq<Root>, p: Root, q: seq<int>)
    requires Apart(rs, p)
    ensures IsProduct(Dot(Shifts(rs + [p], q, p.x), Weights(rs + [p]), |rs|), Dot(Values(rs, q), Weights(rs), |rs|), (0 - p.x) as real)
  {
    var u := (0 - p.x) as real;
    forall i | 0 <= i < |rs|
      ensures ScaledAt(Shifts(rs + [p], q, p.x), Weights(rs + [p]), Values(rs, q), Weights(rs), u, i)
    {
      DropTermAt(rs, p, q, i);
    }
    DotScale(Shifts(rs + [p], q, p.x), Weights(rs + [p]), Values(rs, q), Weights(rs), (0 - p.x) as real, |rs|);
  }

  /** The shifted term of p itself is zero. */
  lemma {:induction false} ShiftsLastZero(rs: seq<Root>, p: Root, q: seq<int>)
    ensures Dot(Shifts(rs + [p], q, p.x), Weights(rs + [p]), |rs| + 1) ==
            Dot(Shifts(rs + [p], q, p.x), Weights(rs + [p]), |rs|)
  {
    assert (rs + [p])[|rs|] == p;
    assert Shifts(rs + [p], q, p.x)[|rs|] == 0 * Eval(q, p.x) == 0;
    DotZeroLast(Shifts(rs + [p], q, p.x), Weights(rs + [p]), |rs|);
  }

  /** sum_i (x_i - p.x) Q(x_i) w_i over rs + [p] is (0 - p.x) * sum_i Q(x_i) w'_i over rs: the term of p is zero. */
  lemma {:induction false} ShiftsDropLast(rs: seq<Root>, p: Root, q: seq<int>)
    requires Apart(rs, p)
    ensures IsProduct(Dot(Shifts(rs + [p], q, p.x), Weights(rs + [p]), |rs| + 1), Dot(Values(rs, q), Weights(rs), |rs|), (0 - p.x) as real)
  {
    ShiftsDropFront(rs, p, q);
    ShiftsLastZero(rs, p, q);
  }

  // ---------------------------------------------------------------------
  // Exchanging the last two roots

  /** The shifted sum does not depend on the order of the last two roots. */
  lemma {:induction false} ShiftsSwap(front: seq<Root>, b: Root, a: Root, q: seq<int>, c: int)
    ensures var xs, ys := front + [b] + [a], front + [a] + [b];
            Dot(Shifts(xs, q, c), Weights(xs), |front| + 2) == Dot(Shifts(ys, q, c), Weights(ys), |front| + 2)
  {
    var xs, ys, n := front + [b] + [a], front + [a] + [b], |front|;
    var vs, ws, us, zs := Shifts(xs, q, c), Weights(xs), Shifts(ys, q, c), Weights(ys);
    forall i | 0 <= i < n
      ensures vs[i] == us[i] && ws[i] == zs[i]
    {
      assert xs[i] == front[i] == ys[i];
      WeightSwap(front, b, a, i);
    }
    assert xs[n] == ys[n + 1] && xs[n + 1] == ys[n];
    WeightSwap(front, b, a, n);
    WeightSwap(front, b, a, n + 1);
    DotSwapLast(vs, ws, us, zs, n);
  }

  // ---------------------------------------------------------------------
  // The weights sum to one

  lemma {:induction false} ShiftOne(x: int, a: int, b: int)
    ensures (x - a) * Eval(One, x) == (b - a) + (x - b) * Eval(One, x) && Eval(One, x) == 1
  {
    EvalOne(x);
  }

  lemma {:induction false} MomentAt(rs: seq<Root>, a: int, b: int, i: nat)
    requires i < |rs|
    ensures Shifts(rs, One, a)[i] == (b - a) + Shifts(rs, One, b)[i] && Values(rs, One)[i] == 1
  {
    ShiftOne(rs[i].x, a, b);
  }

  /** Moments about a and about b differ by (b - a) times the sum of the weights. */
  lemma {:induction false} MomentsDiff(rs: seq<Root>, a: int, b: int)
    ensures Dot(Shifts(rs, One, a), Weights(rs), |rs|) ==
            Dot(Shifts(rs, One, b), Weights(rs), |rs|) + ((b - a) as real) * Dot(Values(rs, One), Weights(rs), |rs|)
  {
    forall i | 0 <= i < |rs|
      ensures Shifts(rs, One, a)[i] == (b - a) + Shifts(rs, One, b)[i] && Values(rs, One)[i] == 1
    {
      MomentAt(rs, a, b, i);
    }
    DotSplit(Shifts(rs, One, a), Shifts(rs, One, b), Values(rs, One), Weights(rs), b - a, |rs|);
  }

  /** If the moments about a != b are -a and -b, the weights sum to one. */
  lemma {:induction false} OneFromMoments(rs: seq<Root>, a: int, b: int)
    requires a != b
    requires Dot(Shifts(rs, One, a), Weights(rs), |rs|) == (0 - a) as real
    requires Dot(Shifts(rs, One, b), Weights(rs), |rs|) == (0 - b) as real
    ensures Dot(Values(rs, One), Weights(rs), |rs|) == 1.0
  {
    MomentsDiff(rs, a, b);
    ZeroFactor((b - a) as real, Dot(Values(rs, One), Weights(rs), |rs|) - 1.0);
  }

  /** With the weights of front + [b] summing to one, the moment of front + [b] + [a] about a is -a. */
  lemma {:induction false} MomentAbout(front: seq<Root>, b: Root, a: Root)
    requires Apart(front + [b], a)
    requires Dot(Values(front + [b], One), Weights(front + [b]), |front| + 1) == 1.0
    ensures Dot(Shifts(front + [b] + [a], One, a.x), Weights(front + [b] + [a]), |front| + 2) == (0 - a.x) as real
  {
    assert |front + [b]| == |front| + 1;
    ShiftsDropLast(front + [b], a, One);
  }

  /**
   * With the weights of front + [b] and of front + [a] summing to one, so do
   * those of front + [b] + [a]: their moment about a is -a by dropping a, their
   * moment about b is -b by exchanging a and b and dropping b, and the two
   * moments differ by (b - a) times the sum of the weights.
   */
  lemma {:induction false} SumToOneStep(front: seq<Root>, b: Root, a: Root)
    requires Apart(front + [b], a) && Apart(front + [a], b) && b.x != a.x
    requires Dot(Values(front + [b], One), Weights(front + [b]), |front| + 1) == 1.0
    requires Dot(Values(front + [a], One), Weights(front + [a]), |front| + 1) == 1.0
    ensures Dot(Values(front + [b] + [a], One), Weights(front + [b] + [a]), |front| + 2) == 1.0
  {
    var xs, ys, n := front + [b] + [a], front + [a] + [b], |front| + 2;
    assert |front + [b]| == |front + [a]| == |front| + 1 && |xs| == n;
    MomentAbout(front, b, a);
    MomentAbout(front, a, b);
    ShiftsSwap(front, b, a, One, b.x);
    OneFromMoments(xs, a.x, b.x);
  }

  /** A single root has weight one. */
  lemma {:induction false} OneWeight(r: Root)
    ensures Dot(Values([r], One), Weights([r]), 1) == 1.0
  {
    assert Others(r.x, [r], 0, 1) == Others(0, [r], 0, 1) == 1.0;
    assert Weights([r])[0] == Weight([r], 0) == 1.0;
    EvalOne(r.x);
    assert Values([r], One)[0] == 1;
  }

  /** The weights of roots with distinct x sum to one. */
  lemma {:induction false} WeightsSumToOne(rs: seq<Root>)
    requires Distinct(rs) && |rs| > 0
    ensures Dot(Values(rs, One), Weights(rs), |rs|) == 1.0
    decreases |rs|
  {
    if |rs| == 1 {
      assert rs == [rs[0]];
      OneWeight(rs[0]);
    } else {
      var n := |rs| - 2;
      var front, b, a := rs[..n], rs[n], rs[n + 1];
      assert rs == front + [b] + [a];
      DistinctSplit(front, b, a);
      WeightsSumToOne(front + [b]);
      WeightsSumToOne(front + [a]);
      SumToOneStep(front, b, a);
    }
  }

  // ---------------------------------------------------------------------
  // Polynomials

  /**
   * With the weights of init reproducing Q = P / (x - a) at zero, the shifted
   * sum of Q over init + [p] is P(0) - P(a), where a = p.x.
   */
  lemma {:induction false} ShiftsAtZero(init: seq<Root>, p: Root, c: seq<int>)
    requires Apart(init, p)
    requires Dot(Values(init, Quot(c, p.x)), Weights(init), |init|) == Eval(Quot(c, p.x), 0) as real
    ensures Dot(Shifts(init + [p], Quot(c, p.x), p.x), Weights(init + [p]), |init| + 1) == (Eval(c, 0) - Eval(c, p.x)) as real
  {
    ShiftsDropLast(init, p, Quot(c, p.x));
    QuotAtZero(c, p.x);
    SameProduct(Dot(Shifts(init + [p], Quot(c, p.x), p.x), Weights(init + [p]), |init| + 1),
                Dot(Values(init, Quot(c, p.x)), Weights(init), |init|),
                (Eval(c, 0) - Eval(c, p.x)) as real, Eval(Quot(c, p.x), 0) as real, (0 - p.x) as real);
  }

  /**
   * The Lagrange weights reproduce any polynomial of degree below the number
   * of roots: sum_i P(x_i) * w_i = P(0).
   */
  lemma {:induction false} PolynomialAtZero(rs: seq<Root>, c: seq<int>)
    requires Distinct(rs) && |c| <= |rs|
    ensures Dot(Values(rs, c), Weights(rs), |rs|) == Eval(c, 0) as real
    decreases |rs|, 1
  {
    if rs != [] {
      var n := |rs| - 1;
      assert rs == rs[..n] + [rs[n]];
      AtZeroStep(rs[..n], rs[n], c);
    }
  }

  /** The induction step of PolynomialAtZero: P(x) = P(p.x) + (x - p.x) Q(x) at the roots and at zero. */
  lemma {:induction false} AtZeroStep(init: seq<Root>, p: Root, c: seq<int>)
    requires Distinct(init + [p]) && |c| <= |init| + 1
    ensures Dot(Values(init + [p], c), Weights(init + [p]), |init| + 1) == Eval(c, 0) as real
    decreases |init| + 1, 0
  {
    var rs, n := init + [p], |init|;
    assert |rs| == n + 1;
    DistinctSnoc(init, p);
    PolynomialAtZero(init, Quot(c, p.x));
    SplitValues(rs, c, p.x);
    ShiftsAtZero(init, p, c);
  }

  // ---------------------------------------------------------------------
  // Back to the integer computation

  /** An exact term is y_i times the fraction num / den, read over the reals. */
  lemma {:induction false} TermExact(roots: seq<Root>, i: nat)
    requires i < |roots| && !HasPartner(roots, i) && ExactAt(roots, i)
    ensures var w := Without(roots, i);
            Quotient(Term(roots, i), roots[i].y, Prod(0, w), Prod(roots[i].x, w))
  {
    var w := Without(roots, i);
    ExactDivision(roots[i].y, Prod(0, w), Prod(roots[i].x, w));
  }

  /** Any value equal to y_i * num / den is y_i times the weight of root i. */
  lemma {:induction false} ScaledWeight(roots: seq<Root>, i: nat, t: int)
    requires i < |roots|
    requires var w := Without(roots, i);
             Quotient(t, roots[i].y, Prod(0, w), Prod(roots[i].x, w))
    ensures Scaled(t, roots[i].y, Weight(roots, i))
  {
    WeightAsFraction(roots, i);
  }

  /** Integer t is, over the reals, y times w. */
  ghost predicate Scaled(t: int, y: int, w: real)
  {
    t as real == (y as real) * w
  }

  /** An exact term is the root's y times its weight. */
  lemma {:induction false} TermAsWeight(roots: seq<Root>, i: nat)
    requires i < |roots| && !HasPartner(roots, i) && ExactAt(roots, i)
    ensures Scaled(Term(roots, i), roots[i].y, Weight(roots, i))
  {
    TermExact(roots, i);
    ScaledWeight(roots, i, Term(roots, i));
  }

  /** ts[0] + ... + ts[m - 1]: Lagrange.SumTerms over a sequence of terms
      (SumTermsAsTotal), so that the sum can be split off as a dot product. */
  function Total(ts: seq<int>, m: nat): int
    requires m <= |ts|
  {
    if m == 0 then 0 else Total(ts, m - 1) + ts[m - 1]
  }

  /** The term of every root, in order. */
  function TermsOf(roots: seq<Root>): seq<int>
    requires forall i :: 0 <= i < |roots| ==> !HasPartner(roots, i)
  {
    seq(|roots|, i requires 0 <= i < |roots| => Term(roots, i))
  }

  lemma {:induction false} SumTermsAsTotal(roots: seq<Root>, m: nat)
    requires m <= |roots| && forall i :: 0 <= i < |roots| ==> !HasPartner(roots, i)
    ensures SumTerms(roots, m) == Total(TermsOf(roots), m)
  {
    if m > 0 {
      SumTermsAsTotal(roots, m - 1);
    }
  }

  /** Integer ts[i] is, over the reals, the product of vs[i] and ws[i]. */
  ghost predicate CastAt(ts: seq<int>, vs: seq<int>, ws: seq<real>, i: nat)
    requires i < |ts| && i < |vs| && i < |ws|
  {
    Scaled(ts[i], vs[i], ws[i])
  }

  /** Integers that are products sum to the sum of the products. */
  lemma {:induction false} TotalAsDot(ts: seq<int>, vs: seq<int>, ws: seq<real>, m: nat)
    requires m <= |ts| && m <= |vs| && m <= |ws|
    requires forall i :: 0 <= i < m ==> CastAt(ts, vs, ws, i)
    ensures Total(ts, m) as real == Dot(vs, ws, m)
  {
    if m > 0 {
      TotalAsDot(ts, vs, ws, m - 1);
      assert CastAt(ts, vs, ws, m - 1);
      CastSum(Total(ts, m), Dot(vs, ws, m), Total(ts, m - 1), ts[m - 1], Dot(vs, ws, m - 1), (vs[m - 1] as real) * ws[m - 1]);
    }
  }

  /** An exact term of a root on P is its value of P times its weight. */
  lemma {:induction false} TermAsProduct(roots: seq<Root>, c: seq<int>, i: nat)
    requires forall j :: 0 <= j < |roots| ==> !HasPartner(roots, j)
    requires i < |roots| && ExactAt(roots, i) && roots[i].y == Eval(c, roots[i].x)
    ensures CastAt(TermsOf(roots), Values(roots, c), Weights(roots), i)
  {
    assert TermsOf(roots)[i] == Term(roots, i) && Values(roots, c)[i] == roots[i].y && Weights(roots)[i] == Weight(roots, i);
    TermAsWeight(roots, i);
  }

  /** With every division exact and every y on P, the terms sum to sum_i P(x_i) * w_i. */
  lemma {:induction false} TermsWeighted(roots: seq<Root>, c: seq<int>)
    requires forall i :: 0 <= i < |roots| ==> !HasPartner(roots, i) && ExactAt(roots, i)
    requires forall i :: 0 <= i < |roots| ==> roots[i].y == Eval(c, roots[i].x)
    ensures SumTerms(roots, |roots|) as real == Dot(Values(roots, c), Weights(roots), |roots|)
  {
    SumTermsAsTotal(roots, |roots|);
    forall i | 0 <= i < |roots|
      ensures CastAt(TermsOf(roots), Values(roots, c), Weights(roots), i)
    {
      TermAsProduct(roots, c, i);
    }
    TotalAsDot(TermsOf(roots), Values(roots, c), Weights(roots), |roots|);
  }

  /**
   * The doc comment's promise: roots with distinct x whose y-values are those
   * of an integer polynomial with at most as many coefficients as there are
   * roots, and whose every division is exact, give the polynomial's value at 0.
   */
  lemma {:induction false} InterpolatesPolynomial(roots: seq<Root>, c: seq<int>)
    requires DistinctX(roots) && |c| <= |roots|
    requires forall i :: 0 <= i < |roots| ==> roots[i].y == Eval(c, roots[i].x)
    requires forall i :: 0 <= i < |roots| ==> ExactAt(roots, i)
    ensures Interpolate(roots) == Eval(c, 0)
  {
    DistinctIff(roots);
    DistinctXIsDistinct(roots);
    TermsWeighted(roots, c);
    PolynomialAtZero(roots, c);
  }
}
