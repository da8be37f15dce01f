/** String.prototype.trim, as `cleanAiResponse` applies it to the model's reply (step 1). */
module TextTrim {

  /** The code points `trim` removes: ECMAScript WhiteSpace (tab, vertical tab, form feed,
      space, no-break space, byte order mark and every Zs space separator) and
      LineTerminator (line feed, carriage return, line and paragraph separators). */
  predicate IsJsWhitespace(c: char) {
    || c == '\t' || c == '\n' || c == '\U{000B}' || c == '\U{000C}' || c == '\r'
    || c == ' ' || c == '\U{00A0}' || c == '\U{1680}'
    || ('\U{2000}' <= c && c <= '\U{200A}')
    || c == '\U{2028}' || c == '\U{2029}' || c == '\U{202F}' || c == '\U{205F}'
    || c == '\U{3000}' || c == '\U{FEFF}'
  }

  /** `r` occurs in `s` at offset `i`, and all of `s` outside that occurrence is whitespace. */
  ghost predicate WhitespacePadded(s: string, r: string, i: nat) {
    && i + |r| <= |s|
    && s[i..i + |r|] == r
    && (forall k :: 0 <= k < i ==> IsJsWhitespace(s[k]))
    && (forall k :: i + |r| <= k < |s| ==> IsJsWhitespace(s[k]))
  }

  /** The first position at or after `from` that does not hold whitespace, or the end. */
  function SkipLeading(s: string, from: nat): (r: nat)
    requires from <= |s|
    ensures from <= r <= |s|
    ensures forall k :: from <= k < r ==> IsJsWhitespace(s[k])
    ensures r == |s| || !IsJsWhitespace(s[r])
    decreases |s| - from
  {
    if from < |s| && IsJsWhitespace(s[from]) then SkipLeading(s, from + 1) else from
  }

  /** The end of the text in `s[lo..hi]` once trailing whitespace is cut off: every
      character from there up to `hi` is whitespace, and the one before it is not. */
  function SkipTrailing(s: string, lo: nat, hi: nat): (r: nat)
    requires lo <= hi <= |s|
    ensures lo <= r <= hi
    ensures forall k :: r <= k < hi ==> IsJsWhitespace(s[k])
    ensures r == lo || !IsJsWhitespace(s[r - 1])
    decreases hi
  {
    if lo < hi && IsJsWhitespace(s[hi - 1]) then SkipTrailing(s, lo, hi - 1) else hi
  }

  /** `responseText.trim()`: the result neither starts nor ends with whitespace, and it is
      a contiguous part of the input with only whitespace cut off either side. */
  function Trim(s: string): (r: string)
    ensures r == [] || (!IsJsWhitespace(r[0]) && !IsJsWhitespace(r[|r| - 1]))
    ensures exists i: nat :: WhitespacePadded(s, r, i)
  {
    var i := SkipLeading(s, 0);
    var j := SkipTrailing(s, i, |s|);
    assert WhitespacePadded(s, s[i..j], i);
    s[i..j]
  }

  /** Trim is determined by its contract: any whitespace-padded infix of `s` that neither
      starts nor ends with whitespace is the trimmed text. */
  lemma TrimUnique(s: string, t: string, i: nat)
    requires WhitespacePadded(s, t, i)
    requires t != [] && !IsJsWhitespace(t[0]) && !IsJsWhitespace(t[|t| - 1])
    ensures Trim(s) == t
  {
    var e := i + |t|;
    assert s[i] == t[0] by { assert s[i..e][0] == s[i]; }
    assert s[e - 1] == t[|t| - 1] by { assert s[i..e][|t| - 1] == s[e - 1]; }
    var x := SkipLeading(s, 0);
    assert x <= i;
    assert x == i;
    var y := SkipTrailing(s, x, |s|);
    assert e <= y;
    assert y == e;
  }

  /** Trimming text around a core that neither starts nor ends with whitespace keeps the
      core whole: only a suffix of what precedes it and a prefix of what follows it remain. */
  lemma TrimAroundCore(a: string, p: string, b: string) returns (i: nat, j: nat)
    requires p != [] && !IsJsWhitespace(p[0]) && !IsJsWhitespace(p[|p| - 1])
    ensures i <= |a| && j <= |b|
    ensures Trim(a + p + b) == a[i..] + p + b[..j]
  {
    var s := a + p + b;
    var e := |a| + |p|;
    assert s[|a|] == p[0];
    assert s[e - 1] == p[|p| - 1];
    var x := SkipLeading(s, 0);
    assert x <= |a|;
    var y := SkipTrailing(s, x, |s|);
    assert e <= y;
    i, j := x, y - e;
    SliceAround(a, p, b, i, j);
  }

  lemma SliceAround(a: string, p: string, b: string, i: nat, j: nat)
    requires i <= |a| && j <= |b|
    ensures (a + p + b)[i..|a| + |p| + j] == a[i..] + p + b[..j]
  {
    var s := a + p + b;
    var r := a[i..] + p + b[..j];
    assert |s[i..|a| + |p| + j]| == |r|;
    forall k | 0 <= k < |r| ensures s[i..|a| + |p| + j][k] == r[k] {
      if k < |a| - i {
        assert r[k] == a[i + k];
      } else if k < |a| - i + |p| {
        assert r[k] == p[k - (|a| - i)];
      } else {
        assert r[k] == b[k - (|a| - i) - |p|];
      }
    }
  }
}
