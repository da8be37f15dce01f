/** `cleanText.match(/\[.*\]/s)`, step 3 of `cleanAiResponse`. With the `s` flag `.` matches
    every character, newlines included. */
module ArrayExtract {
  import opened Wrappers

  /** Some `[` stands before some `]`. */
  predicate HasBracketPair(s: string) {
    exists i, j :: 0 <= i < j < |s| && s[i] == '[' && s[j] == ']'
  }

  /** `i` holds the first `[` of `s`. */
  predicate IsFirstOpen(s: string, i: int) {
    0 <= i < |s| && s[i] == '[' && forall k :: 0 <= k < i ==> s[k] != '['
  }

  /** `j` holds the last `]` of `s`. */
  predicate IsLastClose(s: string, j: int) {
    0 <= j < |s| && s[j] == ']' && forall k :: j < k < |s| ==> s[k] != ']'
  }

  /** `r` is the contiguous part of `s` that begins at `i`. */
  predicate OccursAt(r: string, s: string, i: nat) {
    i + |r| <= |s| && s[i..i + |r|] == r
  }

  /** For a match that starts at `start`, the greedy `.*` first takes everything up to `e`
      and gives characters back one at a time until `\]` matches the last one taken.
      The result is the exclusive end of the match. */
  function BackOff(s: string, start: nat, e: nat): (r: Option<nat>)
    requires start < |s| && e <= |s|
    ensures r.Some? ==> start + 2 <= r.value <= e && s[r.value - 1] == ']'
    ensures r.Some? ==> forall k :: r.value <= k < e ==> s[k] != ']'
    ensures r.None? <==> forall k :: start < k < e ==> s[k] != ']'
    decreases e
  {
    if e < start + 2 then None
    else if s[e - 1] == ']' then Some(e)
    else BackOff(s, start, e - 1)
  }

  /** The match of `\[.*\]` that begins exactly at `start`, as its exclusive end. */
  function MatchAt(s: string, start: nat): (r: Option<nat>)
    requires start < |s|
    ensures r.Some? ==> s[start] == '[' && start + 2 <= r.value <= |s| && s[r.value - 1] == ']'
    ensures r.Some? ==> forall k :: r.value <= k < |s| ==> s[k] != ']'
    ensures r.None? <==> s[start] != '[' || forall k :: start < k < |s| ==> s[k] != ']'
  {
    if s[start] == '[' then BackOff(s, start, |s|) else None
  }

  /** The regex engine's search: starting positions are tried from `from` rightwards and
      the first one at which the pattern matches wins. */
  function Search(s: string, from: nat): (r: Option<(nat, nat)>)
    ensures r.Some? ==> from <= r.value.0 && r.value.0 + 2 <= r.value.1 <= |s|
    ensures r.Some? ==> s[r.value.0] == '[' && s[r.value.1 - 1] == ']'
    ensures r.Some? ==> forall k :: from <= k < r.value.0 ==> s[k] != '['
    ensures r.Some? ==> forall k :: r.value.1 <= k < |s| ==> s[k] != ']'
    ensures r.None? <==> !exists i, j :: from <= i < j < |s| && s[i] == '[' && s[j] == ']'
    decreases |s| - from
  {
    if from >= |s| then None
    else match MatchAt(s, from)
      case Some(e) => Some((from, e))
      case None => Search(s, from + 1)
  }

  /** `jsonArrayMatch[0]`, or no match. A match is a contiguous part of the text that
      starts with `[` and ends with `]`, and there is one exactly when some `[` stands
      before some `]`. */
  function MatchArray(s: string): (r: Option<string>)
    ensures r.Some? <==> HasBracketPair(s)
    ensures r.Some? ==> |r.value| >= 2 && r.value[0] == '[' && r.value[|r.value| - 1] == ']'
    ensures r.Some? ==> exists i: nat :: OccursAt(r.value, s, i)
  {
    match Search(s, 0)
    case Some((i, e)) =>
      assert OccursAt(s[i..e], s, i);
      Some(s[i..e])
    case None => None
  }

  /** Leftmost and greedy: the match runs from the first `[` to the last `]`, inclusive. */
  lemma MatchIsFirstOpenToLastClose(s: string, i: int, j: int)
    requires IsFirstOpen(s, i) && IsLastClose(s, j) && i < j
    ensures MatchArray(s) == Some(s[i..j + 1])
  {
    assert HasBracketPair(s);
    var r := Search(s, 0);
    assert r.Some?;
    assert r.value.0 == i;
    assert r.value.1 == j + 1;
  }

  /** There is no match exactly when the first `[`, if any, comes after the last `]`, if any. */
  lemma NoMatchIffNoOpenBeforeLastClose(s: string)
    ensures MatchArray(s).None? <==>
      forall i, j :: IsFirstOpen(s, i) && IsLastClose(s, j) ==> j < i
  {
    if HasBracketPair(s) {
      var i0, j0 :| 0 <= i0 < j0 < |s| && s[i0] == '[' && s[j0] == ']';
      var i := FirstOpen(s, i0);
      var j := LastClose(s, j0);
      assert IsFirstOpen(s, i) && IsLastClose(s, j) && i < j;
    } else {
      forall i, j | IsFirstOpen(s, i) && IsLastClose(s, j) ensures j < i {
        assert !(i < j);
        assert i != j;
      }
    }
  }

  /** The first `[`, found at or before a known one. */
  lemma {:induction false} FirstOpen(s: string, i0: int) returns (i: int)
    requires 0 <= i0 < |s| && s[i0] == '['
    ensures IsFirstOpen(s, i) && i <= i0
    decreases i0
  {
    if exists k :: 0 <= k < i0 && s[k] == '[' {
      var k :| 0 <= k < i0 && s[k] == '[';
      i := FirstOpen(s, k);
    } else {
      i := i0;
    }
  }

  /** The last `]`, found at or after a known one. */
  lemma {:induction false} LastClose(s: string, j0: int) returns (j: int)
    requires 0 <= j0 < |s| && s[j0] == ']'
    ensures IsLastClose(s, j) && j0 <= j
    decreases |s| - j0
  {
    if exists k :: j0 < k < |s| && s[k] == ']' {
      var k :| j0 < k < |s| && s[k] == ']';
      j := LastClose(s, k);
    } else {
      j := j0;
    }
  }

  /** An array between text with no `[` before it and no `]` after it is the match. */
  lemma MatchBetweenBracketFree(a: string, body: string, b: string)
    requires forall k :: 0 <= k < |a| ==> a[k] != '['
    requires forall k :: 0 <= k < |b| ==> b[k] != ']'
    ensures MatchArray(a + ("[" + body + "]") + b) == Some("[" + body + "]")
  {
    var p := "[" + body + "]";
    var s := a + p + b;
    var e := |a| + |body| + 1;
    assert s[|a|] == '[';
    assert s[e] == ']';
    assert forall k :: 0 <= k < |a| ==> s[k] == a[k];
    assert forall k :: e < k < |s| ==> s[k] == b[k - e - 1];
    MatchIsFirstOpenToLastClose(s, |a|, e);
    assert s[|a|..e + 1] == p;
  }
}
