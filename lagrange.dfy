/** Lagrange interpolation evaluated at x = 0 over exact integers, as
    `Main.lagrangeInterpolationAtZero` computes it: for each root i the
    products num = prod_{j != i} (0 - x_j) and den = prod_{j != i} (x_i - x_j),
    then sum += y_i * num / den with BigInteger's truncating division. */
module Lagrange {
  import opened Wrappers

  /** One point (x_i, y_i) of the polynomial. */
  datatype Root = Root(x: int, y: int)

  /** BigInteger.divide by zero, raised while computing the term of root `at`. */
  datatype ArithError = DivisionByZero(at: nat)

  function Abs(a: int): nat {
    if a < 0 then -a else a
  }

  lemma EuclidOnNat(a: nat, b: nat)
    requires b > 0
    ensures a == (a / b) * b + a % b && 0 <= a % b < b
  {
  }

  /** BigInteger.divide: the quotient rounded toward zero, so the remainder
      is smaller than the divisor in magnitude and has the dividend's sign. */
  function TruncDiv(a: int, b: int): (q: int)
    requires b != 0
    ensures Abs(a - q * b) < Abs(b)
    ensures a - q * b == 0 || (a - q * b > 0 <==> a > 0)
  {
    TruncDivFacts(a, b);
    var m := Abs(a) / Abs(b);
    if (a < 0) == (b < 0) then m else -m
  }

  lemma TruncDivFacts(a: int, b: int)
    requires b != 0
    ensures var m := Abs(a) / Abs(b);
      var q := if (a < 0) == (b < 0) then m else -m;
      Abs(a - q * b) < Abs(b) && (a - q * b == 0 || (a - q * b > 0 <==> a > 0))
  {
    var A, B := Abs(a), Abs(b);
    var m: int := A / B;
    var q := if (a < 0) == (b < 0) then m else -m;
    EuclidOnNat(A, B);
    TruncRemainder(a, b, m, A % B, q);
  }

  lemma TruncRemainder(a: int, b: int, m: int, rm: int, q: int)
    requires b != 0 && m >= 0 && Abs(a) == m * Abs(b) + rm && 0 <= rm < Abs(b)
    requires q == if (a < 0) == (b < 0) then m else -m
    ensures Abs(a - q * b) < Abs(b) && (a - q * b == 0 || (a - q * b > 0 <==> a > 0))
  {
    var B := Abs(b);
    if b < 0 {
      assert m * b == -(m * B);
    } else {
      assert m * b == m * B;
    }
    assert a - q * b == if a < 0 then -rm else rm;
    if a == 0 {
      assert m * B >= 0;
    }
  }

  /** When b divides a, truncating and Euclidean division agree and are exact. */
  lemma TruncDivExact(a: int, b: int)
    requires b != 0 && a % b == 0
    ensures TruncDiv(a, b) == a / b && TruncDiv(a, b) * b == a
  {
    var q, e := TruncDiv(a, b), a / b;
    ExactQuotientOf(a, b);
    SubMul(e, q, b);
    if e != q {
      MagnitudeAtLeast(e - q, b);
    }
  }

  lemma ExactQuotientOf(a: int, b: int)
    requires b != 0 && a % b == 0
    ensures a == (a / b) * b
  {
  }

  lemma SubMul(e: int, q: int, b: int)
    ensures e * b - q * b == (e - q) * b
  {
  }

  lemma MagnitudeAtLeast(t: int, b: int)
    requires t != 0 && b != 0
    ensures Abs(t * b) >= Abs(b)
  {
    if t > 0 {
      if b > 0 { assert t * b >= b; } else { assert t * b <= b; }
    } else {
      if b > 0 { assert t * b <= -b; } else { assert t * b >= -b; }
    }
  }

  /** The two divisions differ on negative operands: -7 / 2 is -3 for
      BigInteger.divide and -4 for Euclidean division. */
  lemma TruncDivNotEuclidean()
    ensures TruncDiv(-7, 2) == -3 && -7 / 2 == -4
  {
  }

  /** prod (a - p.x) over the roots p of ps; zero exactly when some p.x is a. */
  function Prod(a: int, ps: seq<Root>): (r: int)
    ensures r == 0 <==> exists t :: 0 <= t < |ps| && ps[t].x == a
  {
    if ps == [] then 1
    else
      var init := ps[..|ps| - 1];
      var r := Prod(a, init) * (a - ps[|ps| - 1].x);
      assert forall t :: 0 <= t < |init| ==> init[t] == ps[t];
      r
  }

  lemma ProdSnoc(a: int, ps: seq<Root>, p: Root)
    ensures Prod(a, ps + [p]) == Prod(a, ps) * (a - p.x)
    ensures a == 0 ==> Prod(a, ps + [p]) == Prod(a, ps) * -p.x
  {
    assert (ps + [p])[..|ps|] == ps;
  }

  /** s with its element at index k taken out. */
  function Without(s: seq<Root>, k: nat): (w: seq<Root>)
    requires k < |s|
    ensures |w| == |s| - 1
    ensures forall t :: 0 <= t < |w| ==> w[t] == s[if t < k then t else t + 1]
  {
    seq(|s| - 1, t requires 0 <= t < |s| - 1 => s[if t < k then t else t + 1])
  }

  lemma WithoutMultiset(s: seq<Root>, k: nat)
    requires k < |s|
    ensures multiset(Without(s, k)) == multiset(s) - multiset{s[k]}
  {
    assert Without(s, k) == s[..k] + s[k + 1..];
    assert s == s[..k] + [s[k]] + s[k + 1..];
  }

  /** Some other root shares the x-coordinate of root i. */
  predicate HasPartner(roots: seq<Root>, i: nat)
    requires i < |roots|
  {
    exists j :: 0 <= j < |roots| && j != i && roots[j].x == roots[i].x
  }

  predicate DistinctX(roots: seq<Root>) {
    forall i, j :: 0 <= i < j < |roots| ==> roots[i].x != roots[j].x
  }

  lemma DistinctIff(roots: seq<Root>)
    ensures DistinctX(roots) <==> forall i :: 0 <= i < |roots| ==> !HasPartner(roots, i)
  {
    if !DistinctX(roots) {
      var i, j :| 0 <= i < j < |roots| && roots[i].x == roots[j].x;
      assert HasPartner(roots, i);
    }
  }

  /** Root i's denominator prod_{j != i} (x_i - x_j) vanishes exactly when
      another root has the same x. */
  lemma PartnerIffZeroDen(roots: seq<Root>, i: nat)
    requires i < |roots|
    ensures HasPartner(roots, i) <==> Prod(roots[i].x, Without(roots, i)) == 0
  {
    var w := Without(roots, i);
    if HasPartner(roots, i) {
      var j :| 0 <= j < |roots| && j != i && roots[j].x == roots[i].x;
      var t := if j < i then j else j - 1;
      assert w[t] == roots[j];
    }
    if Prod(roots[i].x, w) == 0 {
      var t :| 0 <= t < |w| && w[t].x == roots[i].x;
      var j := if t < i then t else t + 1;
      assert roots[j] == w[t];
    }
  }

  /** The term y_i * num / den of root i. */
  function Term(roots: seq<Root>, i: nat): int
    requires i < |roots| && !HasPartner(roots, i)
  {
    var others := Without(roots, i);
    PartnerIffZeroDen(roots, i);
    TruncDiv(roots[i].y * Prod(0, others), Prod(roots[i].x, others))
  }

  /** The sum of the terms of roots 0 .. m-1. */
  function SumTerms(roots: seq<Root>, m: nat): int
    requires m <= |roots|
    requires forall i :: 0 <= i < m ==> !HasPartner(roots, i)
  {
    if m == 0 then 0 else SumTerms(roots, m - 1) + Term(roots, m - 1)
  }

  /** The value the source computes for roots with distinct x-coordinates. */
  function Interpolate(roots: seq<Root>): int
    requires DistinctX(roots)
  {
    DistinctIff(roots);
    SumTerms(roots, |roots|)
  }

  /** The roots the inner loop has multiplied in after visiting indices 0 .. j-1. */
  ghost function Seen(roots: seq<Root>, i: nat, j: nat): seq<Root>
    requires i < |roots| && j <= |roots|
  {
    if j == 0 then []
    else if j - 1 == i then Seen(roots, i, j - 1)
    else Seen(roots, i, j - 1) + [roots[j - 1]]
  }

  /** Seen is roots[..j] with index i left out. */
  lemma {:induction false} SeenPrefix(roots: seq<Root>, i: nat, j: nat)
    requires i < |roots| && j <= |roots|
    ensures Seen(roots, i, j) == if j <= i then roots[..j] else roots[..i] + roots[i + 1..j]
  {
    if j > 0 {
      SeenPrefix(roots, i, j - 1);
      if j - 1 < i {
        assert roots[..j] == roots[..j - 1] + [roots[j - 1]];
      } else if j - 1 > i {
        assert roots[i + 1..j] == roots[i + 1..j - 1] + [roots[j - 1]];
      }
    }
  }

  /** Once the loop has visited every index, it has multiplied in every root but root i. */
  lemma {:induction false} SeenAll(roots: seq<Root>, i: nat)
    requires i < |roots|
    ensures Seen(roots, i, |roots|) == Without(roots, i)
  {
    SeenPrefix(roots, i, |roots|);
    assert roots[i + 1..|roots|] == roots[i + 1..];
  }

  /** prod (a - x_t) over the indices t < j other than i: what the inner
      loop has multiplied in after visiting indices 0 .. j-1. */
  ghost function PartialProd(a: int, roots: seq<Root>, i: nat, j: nat): int
    requires j <= |roots|
  {
    if j == 0 then 1
    else if j - 1 == i then PartialProd(a, roots, i, j - 1)
    else PartialProd(a, roots, i, j - 1) * (a - roots[j - 1].x)
  }

  /** The partial product is the product over the roots seen so far. */
  lemma {:induction false} PartialProdSeen(a: int, roots: seq<Root>, i: nat, j: nat)
    requires i < |roots| && j <= |roots|
    ensures PartialProd(a, roots, i, j) == Prod(a, Seen(roots, i, j))
  {
    if j > 0 {
      PartialProdSeen(a, roots, i, j - 1);
      if j - 1 != i {
        ProdSnoc(a, Seen(roots, i, j - 1), roots[j - 1]);
      }
    }
  }

  /** Over all indices, the partial product is the product over every root but root i. */
  lemma {:induction false} PartialProdAll(a: int, roots: seq<Root>, i: nat)
    requires i < |roots|
    ensures PartialProd(a, roots, i, |roots|) == Prod(a, Without(roots, i))
  {
    PartialProdSeen(a, roots, i, |roots|);
    SeenAll(roots, i);
  }

  /** The inner loop of the source: num = prod_{j != i} (0 - x_j) and
      den = prod_{j != i} (x_i - x_j). */
  method BasisProducts(roots: seq<Root>, i: nat) returns (num: int, den: int)
    requires i < |roots|
    ensures num == Prod(0, Without(roots, i))
    ensures den == Prod(roots[i].x, Without(roots, i))
  {
    num, den := 1, 1;
    var j := 0;
    while j < |roots|
      invariant 0 <= j <= |roots|
      invariant num == PartialProd(0, roots, i, j)
      invariant den == PartialProd(roots[i].x, roots, i, j)
    {
      if i != j {
        num := num * (0 - roots[j].x);
        den := den * (roots[i].x - roots[j].x);
      }
      j := j + 1;
    }
    PartialProdAll(0, roots, i);
    PartialProdAll(roots[i].x, roots, i);
  }

  /** The nested loops of the source. Fails at the first root whose
      x-coordinate is shared; otherwise returns the sum of the terms. */
  method LagrangeInterpolationAtZero(roots: seq<Root>) returns (r: Result<int, ArithError>)
    ensures r.Success? <==> DistinctX(roots)
    ensures r.Success? ==> r.value == Interpolate(roots)
    ensures r.Failure? ==>
              && r.error.at < |roots|
              && HasPartner(roots, r.error.at)
              && forall i :: 0 <= i < r.error.at ==> !HasPartner(roots, i)
  {
    var sum := 0;
    var k := |roots|;
    var i := 0;
    while i < k
      invariant 0 <= i <= k
      invariant forall i' :: 0 <= i' < i ==> !HasPartner(roots, i')
      invariant sum == SumTerms(roots, i)
    {
      var num, den := BasisProducts(roots, i);
      PartnerIffZeroDen(roots, i);
      if den == 0 {
        DistinctIff(roots);
        return Failure(DivisionByZero(i));
      }
      sum := sum + TruncDiv(roots[i].y * num, den);
      i := i + 1;
    }
    DistinctIff(roots);
    return Success(sum);
  }

  // Reordering the roots does not change the result.

  lemma {:induction false} ProdRemove(a: int, ps: seq<Root>, k: nat)
    requires k < |ps|
    ensures Prod(a, ps) == Prod(a, Without(ps, k)) * (a - ps[k].x)
    decreases |ps|
  {
    var n := |ps| - 1;
    var init := ps[..n];
    if k == n {
      assert Without(ps, k) == init;
    } else {
      ProdRemove(a, init, k);
      assert Without(ps, k) == Without(init, k) + [ps[n]];
      ProdSnoc(a, Without(init, k), ps[n]);
      Rotate(Prod(a, Without(init, k)), a - ps[k].x, a - ps[n].x);
    }
  }

  lemma Rotate(p: int, f: int, g: int)
    ensures p * f * g == p * g * f
  {
  }

  /** A product over the roots depends only on the multiset of roots. */
  lemma {:induction false} ProdPermutation(a: int, ps: seq<Root>, qs: seq<Root>)
    requires multiset(ps) == multiset(qs)
    ensures Prod(a, ps) == Prod(a, qs)
    decreases |ps|
  {
    if ps == [] {
      assert |qs| == |multiset(qs)| == 0;
    } else {
      var n := |ps| - 1;
      var init, last := ps[..n], ps[n];
      var k := MatchLast(ps, qs);
      ProdPermutation(a, init, Without(qs, k));
      ProdRemove(a, qs, k);
      assert ps == init + [last];
      ProdSnoc(a, init, last);
      MulCongruence(Prod(a, init), Prod(a, Without(qs, k)), a - last.x, a - qs[k].x);
    }
  }

  /** The last root of ps at some index k of qs, and what remains on both sides. */
  lemma MatchLast(ps: seq<Root>, qs: seq<Root>) returns (k: nat)
    requires multiset(ps) == multiset(qs) && ps != []
    ensures k < |qs| && qs[k] == ps[|ps| - 1]
    ensures multiset(ps[..|ps| - 1]) == multiset(Without(qs, k))
  {
    var n := |ps| - 1;
    assert ps == ps[..n] + [ps[n]];
    assert ps[n] in multiset(qs);
    k :| 0 <= k < |qs| && qs[k] == ps[n];
    WithoutMultiset(qs, k);
  }

  lemma MulCongruence(p: int, q: int, f: int, g: int)
    requires p == q && f == g
    ensures p * f == q * g
  {
  }

  /** s with the first occurrence of p taken out, if any. */
  function RemoveFirst(s: seq<Root>, p: Root): (w: seq<Root>)
    ensures multiset(w) == multiset(s) - multiset{p}
  {
    if s == [] then []
    else
      assert s == [s[0]] + s[1..];
      if s[0] == p then s[1..] else [s[0]] + RemoveFirst(s[1..], p)
  }

  /** The term of root p when the other roots are `rest` (0 if its denominator vanishes). */
  ghost function TermOf(p: Root, rest: seq<Root>): int {
    var den := Prod(p.x, rest);
    if den == 0 then 0 else TruncDiv(p.y * Prod(0, rest), den)
  }

  /** The sum of f over the roots ps. */
  ghost function SumOf(ps: seq<Root>, f: Root -> int): int {
    if ps == [] then 0 else SumOf(ps[..|ps| - 1], f) + f(ps[|ps| - 1])
  }

  /** Each root's term taken against the roots of ctx without that root. */
  ghost function TermIn(ctx: seq<Root>): Root -> int {
    p => TermOf(p, RemoveFirst(ctx, p))
  }

  lemma TermOfPermutation(p: Root, r1: seq<Root>, r2: seq<Root>)
    requires multiset(r1) == multiset(r2)
    ensures TermOf(p, r1) == TermOf(p, r2)
  {
    ProdPermutation(0, r1, r2);
    ProdPermutation(p.x, r1, r2);
  }

  lemma {:induction false} SumOfPointwise(ps: seq<Root>, f: Root -> int, g: Root -> int)
    requires forall p :: p in ps ==> f(p) == g(p)
    ensures SumOf(ps, f) == SumOf(ps, g)
    decreases |ps|
  {
    if ps != [] {
      var init := ps[..|ps| - 1];
      assert forall p :: p in init ==> p in ps;
      SumOfPointwise(init, f, g);
    }
  }

  lemma {:induction false} SumOfRemove(ps: seq<Root>, k: nat, f: Root -> int)
    requires k < |ps|
    ensures SumOf(ps, f) == SumOf(Without(ps, k), f) + f(ps[k])
    decreases |ps|
  {
    var n := |ps| - 1;
    var init := ps[..n];
    if k == n {
      assert Without(ps, k) == init;
    } else {
      SumOfRemove(init, k, f);
      var w := Without(init, k) + [ps[n]];
      assert Without(ps, k) == w;
      assert w[..|w| - 1] == Without(init, k);
    }
  }

  /** A sum over the roots depends only on the multiset of roots. */
  lemma {:induction false} SumOfPermutation(ps: seq<Root>, qs: seq<Root>, f: Root -> int)
    requires multiset(ps) == multiset(qs)
    ensures SumOf(ps, f) == SumOf(qs, f)
    decreases |ps|
  {
    if ps == [] {
      assert |qs| == |multiset(qs)| == 0;
      assert qs == [];
    } else {
      var n := |ps| - 1;
      var last := ps[n];
      assert ps == ps[..n] + [last];
      assert last in multiset(qs);
      var k :| 0 <= k < |qs| && qs[k] == last;
      SumOfRemove(qs, k, f);
      WithoutMultiset(qs, k);
      SumOfPermutation(ps[..n], Without(qs, k), f);
    }
  }

  /** The term of root i depends only on that root and the multiset of the others. */
  lemma TermAsTermOf(roots: seq<Root>, i: nat)
    requires i < |roots| && !HasPartner(roots, i)
    ensures Term(roots, i) == TermOf(roots[i], RemoveFirst(roots, roots[i]))
  {
    PartnerIffZeroDen(roots, i);
    WithoutMultiset(roots, i);
    TermOfPermutation(roots[i], Without(roots, i), RemoveFirst(roots, roots[i]));
  }

  lemma {:induction false} SumTermsAsSumOf(roots: seq<Root>, m: nat)
    requires m <= |roots|
    requires forall i :: 0 <= i < m ==> !HasPartner(roots, i)
    ensures SumTerms(roots, m) == SumOf(roots[..m], TermIn(roots))
  {
    if m > 0 {
      var f := TermIn(roots);
      assert roots[..m][..m - 1] == roots[..m - 1];
      assert SumOf(roots[..m], f) == SumOf(roots[..m - 1], f) + f(roots[m - 1]);
      SumTermsAsSumOf(roots, m - 1);
      TermAsTermOf(roots, m - 1);
    }
  }

  /** Having pairwise distinct x-coordinates depends only on the multiset of roots. */
  lemma DistinctPermutation(a: seq<Root>, b: seq<Root>)
    requires multiset(a) == multiset(b) && DistinctX(a)
    ensures DistinctX(b)
  {
    DistinctIff(a);
    DistinctIff(b);
    forall i | 0 <= i < |b|
      ensures !HasPartner(b, i)
    {
      assert b[i] in multiset(a);
      var t :| 0 <= t < |a| && a[t] == b[i];
      WithoutMultiset(a, t);
      WithoutMultiset(b, i);
      PartnerIffZeroDen(a, t);
      PartnerIffZeroDen(b, i);
      ProdPermutation(b[i].x, Without(a, t), Without(b, i));
    }
  }

  /** Permuting the roots neither changes whether the computation fails
      nor the value it returns, even with truncating division. */
  lemma InterpolatePermutation(a: seq<Root>, b: seq<Root>)
    requires multiset(a) == multiset(b)
    ensures DistinctX(a) <==> DistinctX(b)
    ensures DistinctX(a) ==> Interpolate(a) == Interpolate(b)
  {
    if DistinctX(a) {
      DistinctPermutation(a, b);
      DistinctIff(a);
      DistinctIff(b);
      SumTermsAsSumOf(a, |a|);
      SumTermsAsSumOf(b, |b|);
      assert a[..|a|] == a && b[..|b|] == b;
      SumOfPermutation(a, b, TermIn(a));
      forall p | p in b
        ensures TermIn(a)(p) == TermIn(b)(p)
      {
        TermOfPermutation(p, RemoveFirst(a, p), RemoveFirst(b, p));
      }
      SumOfPointwise(b, TermIn(a), TermIn(b));
    } else if DistinctX(b) {
      DistinctPermutation(b, a);
    }
  }

  // Values of polynomials are recovered.

  /** A single root: the constant polynomial through it, whose value is its y. */
  lemma SingleRoot(r: Root)
    ensures DistinctX([r]) && Interpolate([r]) == r.y
  {
    var w := Without([r], 0);
    assert w == [];
    TruncDivExact(r.y, 1);
    assert Term([r], 0) == TruncDiv(r.y * 1, 1) == r.y;
    assert SumTerms([r], 1) == SumTerms([r], 0) + Term([r], 0);
  }

  lemma LineArith(c0: int, c1: int, x1: int, x2: int, t1: int, t2: int)
    requires x1 != x2
    requires t1 * (x1 - x2) == (c0 + c1 * x1) * (0 - x2)
    requires t2 * (x2 - x1) == (c0 + c1 * x2) * (0 - x1)
    ensures t1 + t2 == c0
  {
    calc {
      (t1 + t2) * (x1 - x2);
      t1 * (x1 - x2) - t2 * (x2 - x1);
      (c0 + c1 * x1) * (0 - x2) - (c0 + c1 * x2) * (0 - x1);
      c0 * (x1 - x2);
    }
    assert (t1 + t2 - c0) * (x1 - x2) == 0;
  }

  /** Interpolate unfolded for two roots. */
  lemma TwoRoots(r1: Root, r2: Root)
    requires r1.x != r2.x
    ensures DistinctX([r1, r2])
    ensures Interpolate([r1, r2]) ==
      TruncDiv(r1.y * (0 - r2.x), r1.x - r2.x) + TruncDiv(r2.y * (0 - r1.x), r2.x - r1.x)
  {
    var roots := [r1, r2];
    assert DistinctX(roots);
    DistinctIff(roots);
    assert Without(roots, 0) == [r2] && Without(roots, 1) == [r1];
    SoleProd(0, r2);
    SoleProd(r1.x, r2);
    SoleProd(0, r1);
    SoleProd(r2.x, r1);
    assert SumTerms(roots, 1) == SumTerms(roots, 0) + Term(roots, 0);
    assert SumTerms(roots, 2) == SumTerms(roots, 1) + Term(roots, 1);
  }

  lemma SoleProd(a: int, p: Root)
    ensures Prod(a, [p]) == a - p.x
  {
    ProdSnoc(a, [], p);
    assert [] + [p] == [p];
  }

  /** Two roots on a line c0 + c1*x, when both divisions are exact, give c0. */
  lemma LineThroughTwoRoots(c0: int, c1: int, x1: int, x2: int)
    requires x1 != x2
    requires ((c0 + c1 * x1) * (0 - x2)) % (x1 - x2) == 0
    requires ((c0 + c1 * x2) * (0 - x1)) % (x2 - x1) == 0
    ensures var roots := [Root(x1, c0 + c1 * x1), Root(x2, c0 + c1 * x2)];
      DistinctX(roots) && Interpolate(roots) == c0
  {
    var r1, r2 := Root(x1, c0 + c1 * x1), Root(x2, c0 + c1 * x2);
    TwoRoots(r1, r2);
    var t1, t2 := TruncDiv(r1.y * (0 - x2), x1 - x2), TruncDiv(r2.y * (0 - x1), x2 - x1);
    TruncDivExact(r1.y * (0 - x2), x1 - x2);
    TruncDivExact(r2.y * (0 - x1), x2 - x1);
    LineArith(c0, c1, x1, x2, t1, t2);
  }

  /** Interpolate unfolded for three roots, as the sum of its three terms. */
  lemma ThreeRoots(r1: Root, r2: Root, r3: Root)
    requires r1.x != r2.x && r1.x != r3.x && r2.x != r3.x
    ensures DistinctX([r1, r2, r3])
    ensures Interpolate([r1, r2, r3]) ==
      TruncDiv(r1.y * Prod(0, [r2, r3]), Prod(r1.x, [r2, r3])) +
      TruncDiv(r2.y * Prod(0, [r1, r3]), Prod(r2.x, [r1, r3])) +
      TruncDiv(r3.y * Prod(0, [r1, r2]), Prod(r3.x, [r1, r2]))
  {
    var roots := [r1, r2, r3];
    assert DistinctX(roots);
    DistinctIff(roots);
    assert Without(roots, 0) == [r2, r3];
    assert Without(roots, 1) == [r1, r3];
    assert Without(roots, 2) == [r1, r2];
    assert SumTerms(roots, 1) == SumTerms(roots, 0) + Term(roots, 0);
    assert SumTerms(roots, 2) == SumTerms(roots, 1) + Term(roots, 1);
    assert SumTerms(roots, 3) == SumTerms(roots, 2) + Term(roots, 2);
  }

  lemma PairProd(a: int, p: Root, q: Root)
    ensures Prod(a, [p, q]) == (a - p.x) * (a - q.x)
  {
    SoleProd(a, p);
    ProdSnoc(a, [p], q);
    assert [p] + [q] == [p, q];
  }

  /** Worked examples: y = 2x + 1 through x = 1, 2 gives 1; the points
      (1, 3), (2, 6), (3, 11) lie on y = x*x + 2 and give 2; the points
      (1, 4), (2, 7), (3, 12) lie on y = x*x + 3 and give 3. */
  lemma InterpolateExamples()
    ensures DistinctX([Root(1, 3), Root(2, 5)])
    ensures Interpolate([Root(1, 3), Root(2, 5)]) == 1
    ensures DistinctX([Root(1, 3), Root(2, 6), Root(3, 11)])
    ensures Interpolate([Root(1, 3), Root(2, 6), Root(3, 11)]) == 2
    ensures DistinctX([Root(1, 4), Root(2, 7), Root(3, 12)])
    ensures Interpolate([Root(1, 4), Root(2, 7), Root(3, 12)]) == 3
  {
    LineExample();
    SquareExample();
    TripleExample();
  }

  lemma LineExample()
    ensures DistinctX([Root(1, 3), Root(2, 5)])
    ensures Interpolate([Root(1, 3), Root(2, 5)]) == 1
  {
    TwoRoots(Root(1, 3), Root(2, 5));
    assert TruncDiv(3 * -2, -1) == 6 && TruncDiv(5 * -1, 1) == -5;
  }

  lemma SquareExample()
    ensures DistinctX([Root(1, 3), Root(2, 6), Root(3, 11)])
    ensures Interpolate([Root(1, 3), Root(2, 6), Root(3, 11)]) == 2
  {
    ThreeExample(3, 6, 11);
    assert TruncDiv(3 * 6, 2) == 9 && TruncDiv(6 * 3, -1) == -18 && TruncDiv(11 * 2, 2) == 11;
  }

  lemma TripleExample()
    ensures DistinctX([Root(1, 4), Root(2, 7), Root(3, 12)])
    ensures Interpolate([Root(1, 4), Root(2, 7), Root(3, 12)]) == 3
  {
    ThreeExample(4, 7, 12);
    assert TruncDiv(4 * 6, 2) == 12 && TruncDiv(7 * 3, -1) == -21 && TruncDiv(12 * 2, 2) == 12;
  }

  /** Three roots at x = 1, 2, 3: num and den of each term. */
  lemma ThreeExample(y1: int, y2: int, y3: int)
    ensures DistinctX([Root(1, y1), Root(2, y2), Root(3, y3)])
    ensures Interpolate([Root(1, y1), Root(2, y2), Root(3, y3)]) ==
      TruncDiv(y1 * 6, 2) + TruncDiv(y2 * 3, -1) + TruncDiv(y3 * 2, 2)
  {
    var r1, r2, r3 := Root(1, y1), Root(2, y2), Root(3, y3);
    ThreeRoots(r1, r2, r3);
    PairProd(0, r2, r3);
    PairProd(1, r2, r3);
    PairProd(0, r1, r3);
    PairProd(2, r1, r3);
    PairProd(0, r1, r2);
    PairProd(3, r1, r2);
    MulCongruence(y1, y1, Prod(0, [r2, r3]), 6);
    MulCongruence(y2, y2, Prod(0, [r1, r3]), 3);
    MulCongruence(y3, y3, Prod(0, [r1, r2]), 2);
  }

  /** Truncation is visible: the rational value through (1, 1) and (3, 2) is 1/2,
      the terms 3/2 and -1 truncate to 1 and -1, and the result is 0 (Euclidean
      division would have given 2 - 1 = 1). */
  lemma InterpolateTruncates()
    ensures DistinctX([Root(1, 1), Root(3, 2)])
    ensures Interpolate([Root(1, 1), Root(3, 2)]) == 0
  {
    TwoRoots(Root(1, 1), Root(3, 2));
    assert TruncDiv(1 * -3, -2) == 1 && TruncDiv(2 * -1, 2) == -1;
    assert (1 * -3) / -2 == 2;
  }

  /** Truncation even when the y-values are integer values of a polynomial:
      (1, 1), (2, 4), (4, 16) lie on x * x, whose value at zero is 0, but the
      terms 8/3, -8 and 32/6 truncate to 2, -8 and 5, and the result is -1. */
  lemma InterpolateSquareTruncates()
    ensures DistinctX([Root(1, 1), Root(2, 4), Root(4, 16)])
    ensures Interpolate([Root(1, 1), Root(2, 4), Root(4, 16)]) == -1
  {
    var r1, r2, r3 := Root(1, 1), Root(2, 4), Root(4, 16);
    ThreeRoots(r1, r2, r3);
    PairProd(0, r2, r3);
    PairProd(1, r2, r3);
    PairProd(0, r1, r3);
    PairProd(2, r1, r3);
    PairProd(0, r1, r2);
    PairProd(4, r1, r2);
    MulCongruence(1, 1, Prod(0, [r2, r3]), 8);
    MulCongruence(4, 4, Prod(0, [r1, r3]), 4);
    MulCongruence(16, 16, Prod(0, [r1, r2]), 2);
    assert TruncDiv(8, 3) == 2 && TruncDiv(16, -2) == -8 && TruncDiv(32, 6) == 5;
  }
}
