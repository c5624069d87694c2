/**
 * The one regular expression every front end applies to a redirect URL,
 * `re.search(r'code=([A-Z0-9]+)', s)`, and the value of its group 1.
 */
module CodeExtraction {
  import opened Wrappers
  import opened Text

  /** The literal part of the pattern. */
  const Key: string := "code="

  /** The character class `[A-Z0-9]`. */
  predicate IsCodeChar(c: char) {
    'A' <= c <= 'Z' || '0' <= c <= '9'
  }

  /** A string `[A-Z0-9]+` matches in full: what a redemption code looks like. */
  predicate IsCode(s: string) {
    s != [] && forall k :: 0 <= k < |s| ==> IsCodeChar(s[k])
  }

  /** The pattern can start matching at index `i`: `code=` followed by at least one code character. */
  predicate MatchAt(s: string, i: nat) {
    i + |Key| < |s| && s[i..i + |Key|] == Key && IsCodeChar(s[i + |Key|])
  }

  /** `i` is where `re.search` finds its match: the first index at which the pattern matches. */
  ghost predicate IsLeftmostMatch(s: string, i: nat) {
    MatchAt(s, i) && forall j: nat :: j < i ==> !MatchAt(s, j)
  }

  /** `v` is the greedy `[A-Z0-9]+` starting at `j`: it occurs there and cannot be extended. */
  ghost predicate IsMaximalRun(s: string, j: nat, v: string) {
    j + |v| <= |s| && s[j..j + |v|] == v && IsCode(v) && (j + |v| == |s| || !IsCodeChar(s[j + |v|]))
  }

  /** The end of the longest run of code characters starting at `j`. */
  function RunEnd(s: string, j: nat): (e: nat)
    requires j <= |s|
    ensures j <= e <= |s|
    ensures forall k :: j <= k < e ==> IsCodeChar(s[k])
    ensures e == |s| || !IsCodeChar(s[e])
    decreases |s| - j
  {
    if j < |s| && IsCodeChar(s[j]) then RunEnd(s, j + 1) else j
  }

  /** The first index from `i` on at which the pattern matches, trying start positions left to right. */
  function FindMatch(s: string, i: nat): (k: Option<nat>)
    requires i <= |s|
    ensures k.Some? ==> i <= k.value && MatchAt(s, k.value)
    ensures k.Some? ==> forall j: nat :: i <= j < k.value ==> !MatchAt(s, j)
    ensures k.None? ==> forall j: nat :: i <= j ==> !MatchAt(s, j)
    decreases |s| - i
  {
    if MatchAt(s, i) then Some(i)
    else if i == |s| then None
    else FindMatch(s, i + 1)
  }

  /** `m = re.search(r'code=([A-Z0-9]+)', s)`, then `m.group(1)` when `m` is not `None`. */
  function SearchCode(s: string): (r: Option<string>)
    ensures r.Some? ==> IsCode(r.value)
    ensures r.None? <==> forall i: nat :: !MatchAt(s, i)
  {
    match FindMatch(s, 0)
    case None => None
    case Some(k) => Some(s[k + |Key|..RunEnd(s, k + |Key|)])
  }

  /** `RunEnd` is the only end a run of code characters from `j` can have. */
  lemma {:induction false} RunEndUnique(s: string, j: nat, e: nat)
    requires j <= e <= |s|
    requires forall k :: j <= k < e ==> IsCodeChar(s[k])
    requires e == |s| || !IsCodeChar(s[e])
    ensures RunEnd(s, j) == e
    decreases e - j
  {
    if j < e {
      RunEndUnique(s, j + 1, e);
    }
  }

  /** A maximal run is determined by where it starts. */
  lemma MaximalRunEndsAtRunEnd(s: string, j: nat, v: string)
    requires IsMaximalRun(s, j, v)
    ensures s[j..RunEnd(s, j)] == v
  {
    assert forall k :: j <= k < j + |v| ==> s[k] == v[k - j];
    RunEndUnique(s, j, j + |v|);
  }

  /** `re.search` finds the leftmost match. */
  lemma LeftmostMatchIsFound(s: string, i: nat)
    requires IsLeftmostMatch(s, i)
    ensures FindMatch(s, 0) == Some(i)
  {
  }

  /**
   * The group found is exactly the greedy code run after the leftmost `code=` that is followed by
   * a code character; there is a group exactly when such an occurrence exists.
   */
  lemma SearchCodeIsLeftmostMaximal(s: string, v: string)
    ensures SearchCode(s) == Some(v) <==> exists i: nat :: IsLeftmostMatch(s, i) && IsMaximalRun(s, i + |Key|, v)
  {
    if SearchCode(s) == Some(v) {
      SearchCodeMatch(s);
    }
    if i: nat :| IsLeftmostMatch(s, i) && IsMaximalRun(s, i + |Key|, v) {
      LeftmostMatchIsFound(s, i);
      MaximalRunEndsAtRunEnd(s, i + |Key|, v);
    }
  }

  /** The group `SearchCode` returns is the maximal run after the leftmost match. */
  lemma SearchCodeMatch(s: string)
    requires SearchCode(s).Some?
    ensures IsLeftmostMatch(s, FindMatch(s, 0).value)
    ensures IsMaximalRun(s, FindMatch(s, 0).value + |Key|, SearchCode(s).value)
  {
    var j := FindMatch(s, 0).value + |Key|;
    var v := SearchCode(s).value;
    assert v == s[j..RunEnd(s, j)];
    assert forall t :: 0 <= t < |v| ==> v[t] == s[j + t];
  }

  /** A code is found only in a string that contains `code=`. */
  lemma SearchCodeNeedsKey(s: string)
    requires SearchCode(s).Some?
    ensures Contains(s, Key)
  {
    var k := FindMatch(s, 0).value;
    assert OccursAt(s, Key, k);
  }

  /** The example of the greedy group: `code=AB1cd` yields `AB1`, stopping at the lower-case letter. */
  lemma SearchCodeExample()
    ensures SearchCode("code=AB1cd") == Some("AB1")
  {
    var s := "code=AB1cd";
    assert s[0..5] == Key;
    assert FindMatch(s, 0) == Some(0);
    assert RunEnd(s, 8) == 8;
    assert RunEnd(s, 7) == 8;
    assert RunEnd(s, 5) == 8;
    assert s[5..8] == "AB1";
  }
}
