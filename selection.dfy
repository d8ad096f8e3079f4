/** The root-collection loop of `Main.main` (the first k share indices
    present, in ascending order, each decoded into a root) and its
    composition with the interpolation. Whether share i is present and its
    base and value fields are given as the map `shares`; reading and
    scanning the JSON text is not part of this module. */
module Selection {
  import opened Wrappers
  import opened Radix
  import opened Lagrange

  /** The "base" and "value" fields of the JSON object keyed by a share index. */
  datatype Share = Share(base: int, value: string)

  /** BadShare: decoding the value of share `index` threw (the process dies
      with an uncaught IllegalArgumentException). TooFewRoots: fewer than k
      roots were found, which `main` reports with exit status 2. */
  datatype SelectError = BadShare(index: int, cause: DecodeError) | TooFewRoots(found: nat, k: int)

  /** The indices 1 .. m present in shares, in ascending order. */
  function PresentUpTo(shares: map<int, Share>, m: int): seq<int>
    decreases m
  {
    if m <= 0 then [] else PresentUpTo(shares, m - 1) + (if m in shares then [m] else [])
  }

  /** PresentUpTo lists exactly the present indices of 1 .. m, strictly ascending. */
  lemma {:induction false} PresentUpToMeaning(shares: map<int, Share>, m: int)
    ensures forall t, u :: 0 <= t < u < |PresentUpTo(shares, m)| ==>
              PresentUpTo(shares, m)[t] < PresentUpTo(shares, m)[u]
    ensures forall t :: 0 <= t < |PresentUpTo(shares, m)| ==>
              1 <= PresentUpTo(shares, m)[t] <= m && PresentUpTo(shares, m)[t] in shares
    ensures forall i :: 1 <= i <= m && i in shares ==> i in PresentUpTo(shares, m)
    decreases m
  {
    if m > 0 {
      PresentUpToMeaning(shares, m - 1);
      var q := PresentUpTo(shares, m - 1);
      var p := PresentUpTo(shares, m);
      if m in shares {
        assert p == q + [m];
        forall i | 1 <= i <= m && i in shares
          ensures i in p
        {
          if i < m {
            assert i in q;
          } else {
            assert p[|q|] == m;
          }
        }
      } else {
        assert p == q;
      }
    }
  }

  /** A shorter scan lists a prefix of what a longer one lists. */
  lemma {:induction false} PresentUpToPrefix(shares: map<int, Share>, m: int, m': int)
    requires m <= m'
    ensures |PresentUpTo(shares, m)| <= |PresentUpTo(shares, m')|
    ensures PresentUpTo(shares, m) == PresentUpTo(shares, m')[..|PresentUpTo(shares, m)|]
    decreases m' - m
  {
    if m < m' {
      PresentUpToPrefix(shares, m, m' - 1);
      var p, q := PresentUpTo(shares, m), PresentUpTo(shares, m' - 1);
      if m' > 0 {
        assert PresentUpTo(shares, m')[..|q|] == q;
        assert q[..|p|] == p;
      }
    }
  }

  /** The first k present indices (all of them when fewer than k are present). */
  function Selected(shares: map<int, Share>, n: int, k: int): seq<int> {
    var p := PresentUpTo(shares, n);
    if k <= 0 then [] else if k >= |p| then p else p[..k]
  }

  /** The selection is the first k present indices of 1 .. n: strictly
      ascending (so pairwise distinct), in range, present, at most k of them,
      exactly k when at least k are present, and every present index left
      out comes after all selected ones. */
  lemma SelectedMeaning(shares: map<int, Share>, n: int, k: int)
    ensures var sel, p := Selected(shares, n, k), PresentUpTo(shares, n);
      && |sel| == (if k <= 0 then 0 else if k >= |p| then |p| else k)
      && (forall t, u :: 0 <= t < u < |sel| ==> sel[t] < sel[u])
      && (forall t :: 0 <= t < |sel| ==> 1 <= sel[t] <= n && sel[t] in shares)
      && (forall i :: 1 <= i <= n && i in shares && i !in sel ==>
            (k <= 0 || |sel| == k) && forall t :: 0 <= t < |sel| ==> sel[t] < i)
  {
    PresentUpToMeaning(shares, n);
    var sel, p := Selected(shares, n, k), PresentUpTo(shares, n);
    assert forall t :: 0 <= t < |sel| ==> sel[t] == p[t];
    forall i | 1 <= i <= n && i in shares && i !in sel
      ensures (k <= 0 || |sel| == k) && forall t :: 0 <= t < |sel| ==> sel[t] < i
    {
      assert i in p;
      var u :| 0 <= u < |p| && p[u] == i;
      assert u >= |sel|;
    }
  }

  predicate Decodes(shares: map<int, Share>, i: int)
    requires i in shares
  {
    Decode(shares[i].value, shares[i].base).Success?
  }

  /** Every listed index is present and its value decodes. */
  predicate AllDecode(shares: map<int, Share>, idx: seq<int>) {
    forall t :: 0 <= t < |idx| ==> idx[t] in shares && Decodes(shares, idx[t])
  }

  /** The roots (i, decoded value of share i) for the listed indices. */
  function RootsOf(shares: map<int, Share>, idx: seq<int>): (roots: seq<Root>)
    requires AllDecode(shares, idx)
    ensures |roots| == |idx|
    ensures forall t :: 0 <= t < |idx| ==>
              roots[t] == Root(idx[t], Decode(shares[idx[t]].value, shares[idx[t]].base).value)
  {
    if idx == [] then []
    else
      var i := idx[|idx| - 1];
      assert AllDecode(shares, idx[..|idx| - 1]);
      RootsOf(shares, idx[..|idx| - 1]) + [Root(i, Decode(shares[i].value, shares[i].base).value)]
  }

  /** The roots of a successful selection have pairwise distinct x. */
  lemma SelectedRootsDistinct(shares: map<int, Share>, n: int, k: int)
    requires AllDecode(shares, Selected(shares, n, k))
    ensures DistinctX(RootsOf(shares, Selected(shares, n, k)))
  {
    SelectedMeaning(shares, n, k);
  }

  /** Why the collection failed: the first selected share that does not
      decode, or, when all of them decode, fewer than k present shares. */
  predicate ExplainsFailure(shares: map<int, Share>, n: int, k: int, e: SelectError) {
    var sel := Selected(shares, n, k);
    match e
    case TooFewRoots(found, k') =>
      AllDecode(shares, sel) && found == |PresentUpTo(shares, n)| && found < k && k' == k
    case BadShare(i, cause) =>
      exists t :: 0 <= t < |sel| && sel[t] == i && i in shares &&
        Decode(shares[i].value, shares[i].base) == Failure(cause) && AllDecode(shares, sel[..t])
  }

  /** The loop of `main` that collects the first k roots, and the check after it. */
  method CollectRoots(n: int, k: int, shares: map<int, Share>) returns (r: Result<seq<Root>, SelectError>)
    ensures r.Success? <==> AllDecode(shares, Selected(shares, n, k)) && |PresentUpTo(shares, n)| >= k
    ensures r.Success? ==> r.value == RootsOf(shares, Selected(shares, n, k))
    ensures r.Failure? ==> ExplainsFailure(shares, n, k, r.error)
  {
    var roots: seq<Root> := [];
    var i := 1;
    while i <= n && |roots| < k
      invariant 1 <= i && (i <= n + 1 || i == 1)
      invariant AllDecode(shares, PresentUpTo(shares, i - 1))
      invariant roots == RootsOf(shares, PresentUpTo(shares, i - 1))
      invariant |roots| <= k || roots == []
    {
      if i in shares {
        var share := shares[i];
        var y := DecodeBaseToBigInteger(share.value, share.base);
        if y.Failure? {
          BadShareFound(shares, n, k, i);
          return Failure(BadShare(i, y.error));
        }
        AppendRoot(shares, i);
        roots := roots + [Root(i, y.value)];
      } else {
        assert PresentUpTo(shares, i) == PresentUpTo(shares, i - 1) + [];
      }
      i := i + 1;
    }
    if |roots| < k {
      ScanFinished(shares, n, k, i);
      return Failure(TooFewRoots(|roots|, k));
    }
    if k > 0 {
      EnoughFound(shares, n, k, i - 1);
    }
    return Success(roots);
  }

  /** Every index up to n was scanned and fewer than k were present. */
  lemma ScanFinished(shares: map<int, Share>, n: int, k: int, i: int)
    requires i == n + 1 || (i == 1 && n < 1)
    requires AllDecode(shares, PresentUpTo(shares, i - 1)) && |PresentUpTo(shares, i - 1)| < k
    ensures Selected(shares, n, k) == PresentUpTo(shares, i - 1) == PresentUpTo(shares, n)
    ensures ExplainsFailure(shares, n, k, TooFewRoots(|PresentUpTo(shares, i - 1)|, k))
  {
  }

  /** k present indices were found among 1 .. m: they are the selection. */
  lemma EnoughFound(shares: map<int, Share>, n: int, k: int, m: int)
    requires m <= n && 0 < k == |PresentUpTo(shares, m)|
    ensures |PresentUpTo(shares, n)| >= k
    ensures Selected(shares, n, k) == PresentUpTo(shares, m)
  {
    PresentUpToPrefix(shares, m, n);
  }

  lemma AppendRoot(shares: map<int, Share>, i: int)
    requires i >= 1 && i in shares && Decodes(shares, i)
    requires AllDecode(shares, PresentUpTo(shares, i - 1))
    ensures PresentUpTo(shares, i) == PresentUpTo(shares, i - 1) + [i]
    ensures AllDecode(shares, PresentUpTo(shares, i))
    ensures RootsOf(shares, PresentUpTo(shares, i)) ==
      RootsOf(shares, PresentUpTo(shares, i - 1)) + [Root(i, Decode(shares[i].value, shares[i].base).value)]
  {
  }

  /** A share met by the loop before k roots are collected is a selected one. */
  lemma BadShareFound(shares: map<int, Share>, n: int, k: int, i: int)
    requires 1 <= i <= n && i in shares && !Decodes(shares, i)
    requires AllDecode(shares, PresentUpTo(shares, i - 1)) && |PresentUpTo(shares, i - 1)| < k
    ensures ExplainsFailure(shares, n, k, BadShare(i, Decode(shares[i].value, shares[i].base).error))
  {
    var q := PresentUpTo(shares, i - 1);
    var p := PresentUpTo(shares, i);
    assert p == q + [i];
    PresentUpToPrefix(shares, i, n);
    var sel := Selected(shares, n, k);
    var t := |q|;
    assert sel[t] == p[t] == i;
    assert sel[..t] == q;
  }

  /** Steps 3 and 4 of `main`: collect the roots, then interpolate at zero.
      The interpolation cannot fail here, because the selected x are distinct. */
  method RecoverSecret(n: int, k: int, shares: map<int, Share>) returns (r: Result<int, SelectError>)
    ensures r.Success? <==> AllDecode(shares, Selected(shares, n, k)) && |PresentUpTo(shares, n)| >= k
    ensures r.Success? ==>
              && DistinctX(RootsOf(shares, Selected(shares, n, k)))
              && r.value == Interpolate(RootsOf(shares, Selected(shares, n, k)))
    ensures r.Failure? ==> ExplainsFailure(shares, n, k, r.error)
  {
    var collected := CollectRoots(n, k, shares);
    if collected.Failure? {
      return Failure(collected.error);
    }
    SelectedRootsDistinct(shares, n, k);
    var secret := LagrangeInterpolationAtZero(collected.value);
    return Success(secret.value);
  }
}
