/** `Main.extractObject`: the `{...}` block that follows the first
    occurrence of a quoted key, found by counting brace depth. Strings and
    escapes inside the JSON text are not recognised, as in the source. */
module JsonScan {
  import opened Wrappers

  /** MissingKey: the quoted key does not occur. NoOpeningBrace: no '{'
      follows it, so the scan starts at index -1 and charAt throws.
      UnmatchedBraces: the text ends before the depth returns to zero. */
  datatype ScanError = MissingKey(key: string) | NoOpeningBrace(key: string) | UnmatchedBraces(key: string)

  predicate OccursAt(s: string, pat: string, q: int) {
    0 <= q && q + |pat| <= |s| && s[q..q + |pat|] == pat
  }

  /** String.indexOf(pat, from): the first occurrence at or after from, or -1. */
  function IndexOf(s: string, pat: string, from: nat): (r: int)
    requires from <= |s|
    ensures r == -1 || (from <= r && OccursAt(s, pat, r))
    ensures forall q :: from <= q && (r == -1 || q < r) ==> !OccursAt(s, pat, q)
    decreases |s| - from
  {
    if from + |pat| > |s| then -1
    else if s[from..from + |pat|] == pat then from
    else IndexOf(s, pat, from + 1)
  }

  /** The key between double quotes, as searched for. */
  function Quoted(key: string): (q: string)
    ensures |q| == |key| + 2 && q[0] == '"' && q[|q| - 1] == '"'
    ensures q[1..|q| - 1] == key
  {
    "\"" + key + "\""
  }

  /** The number of '{' minus the number of '}' in s. */
  function Depth(s: string): int {
    if s == [] then 0
    else
      var c := s[|s| - 1];
      Depth(s[..|s| - 1]) + (if c == '{' then 1 else if c == '}' then -1 else 0)
  }

  /** o opens with '{' and its depth first returns to zero at its last character. */
  predicate MatchedBlock(o: string) {
    && |o| >= 1
    && o[0] == '{'
    && Depth(o) == 0
    && forall p :: 1 <= p < |o| ==> Depth(o[..p]) > 0
  }

  /** The depth drops to zero only on a closing brace. */
  lemma MatchedBlockCloses(o: string)
    requires MatchedBlock(o)
    ensures |o| >= 2 && o[|o| - 1] == '}'
  {
    assert o[..1] == [o[0]];
    assert Depth(o[..1]) == 1;
    var n := |o|;
    assert o[..n] == o;
    if n > 1 {
      assert Depth(o[..n - 1]) > 0;
    }
  }

  /** At most one prefix of a text is a matched block: the block found is
      the one that ends at the brace matching the first. */
  lemma MatchedBlockUnique(s: string, a: nat, b: nat)
    requires a <= |s| && b <= |s|
    requires MatchedBlock(s[..a]) && MatchedBlock(s[..b])
    ensures a == b
  {
    if a < b {
      PrefixOfPrefix(s, a, b);
    } else if b < a {
      PrefixOfPrefix(s, b, a);
    }
  }

  lemma PrefixOfPrefix(s: string, a: nat, b: nat)
    requires a < b <= |s|
    ensures s[..b][..a] == s[..a]
  {
  }

  lemma DepthStep(json: string, start: nat, i: nat)
    requires start <= i < |json|
    ensures Depth(json[start..i + 1]) == Depth(json[start..i]) +
      (if json[i] == '{' then 1 else if json[i] == '}' then -1 else 0)
  {
    assert json[start..i + 1][..i - start] == json[start..i];
  }

  /** The depth first returns to zero after index i: the block is matched. */
  lemma ClosedAt(json: string, start: nat, i: nat)
    requires start <= i < |json| && json[start] == '{'
    requires Depth(json[start..i + 1]) == 0
    requires forall p :: start < p <= i ==> Depth(json[start..p]) > 0
    ensures MatchedBlock(json[start..i + 1])
  {
    var o := json[start..i + 1];
    assert forall p :: 1 <= p < |o| ==> o[..p] == json[start..start + p];
  }

  /** The scan of the source, from the first '{' after the quoted key. */
  method ExtractObject(json: string, key: string) returns (r: Result<string, ScanError>)
    ensures r.Failure? ==> r.error.key == key
    ensures r == Failure(MissingKey(key)) <==> IndexOf(json, Quoted(key), 0) == -1
    ensures r == Failure(NoOpeningBrace(key)) <==>
              var idx := IndexOf(json, Quoted(key), 0);
              idx != -1 && IndexOf(json, "{", idx) == -1
    ensures r.Success? ==>
              var start := IndexOf(json, "{", IndexOf(json, Quoted(key), 0));
              && 0 <= start
              && start + |r.value| <= |json|
              && r.value == json[start..start + |r.value|]
              && MatchedBlock(r.value)
    ensures r == Failure(UnmatchedBraces(key)) ==>
              var start := IndexOf(json, "{", IndexOf(json, Quoted(key), 0));
              && 0 <= start
              && forall p :: start < p <= |json| ==> Depth(json[start..p]) > 0
  {
    var idx := IndexOf(json, Quoted(key), 0);
    if idx < 0 {
      return Failure(MissingKey(key));
    }
    var start := IndexOf(json, "{", idx);
    if start < 0 {
      return Failure(NoOpeningBrace(key));
    }
    assert OccursAt(json, "{", start) && |"{"| == 1;
    assert json[start..start + 1][0] == json[start] == '{';
    var end := MatchBrace(json, start);
    if end < 0 {
      return Failure(UnmatchedBraces(key));
    }
    return Success(json[start..end]);
  }

  /** The loop of the source: counts depth from the '{' at start and returns
      the index just past the brace that brings it back to zero, or -1 when
      the text ends first. */
  method MatchBrace(json: string, start: nat) returns (end: int)
    requires start < |json| && json[start] == '{'
    ensures end == -1 || (start < end <= |json| && MatchedBlock(json[start..end]))
    ensures end == -1 ==> forall p :: start < p <= |json| ==> Depth(json[start..p]) > 0
  {
    var depth := 0;
    var i := start;
    while i < |json|
      invariant start <= i <= |json|
      invariant depth == Depth(json[start..i])
      invariant forall p :: start < p <= i ==> Depth(json[start..p]) > 0
    {
      var c := json[i];
      DepthStep(json, start, i);
      if c == '{' {
        depth := depth + 1;
      } else if c == '}' {
        depth := depth - 1;
        if depth == 0 {
          ClosedAt(json, start, i);
          return i + 1;
        }
      }
      i := i + 1;
    }
    return -1;
  }
}
