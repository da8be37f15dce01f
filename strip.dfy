/** `cleanText.replace(/(json|```|`)/g, "")`, step 2 of `cleanAiResponse`. */
module TokenStrip {

  /** The lowercase word `json` begins at `k`. */
  predicate JsonAt(s: string, k: nat) {
    k + 4 <= |s| && s[k] == 'j' && s[k + 1] == 's' && s[k + 2] == 'o' && s[k + 3] == 'n'
  }

  /** A code fence of three backticks begins at `k`. */
  predicate FenceAt(s: string, k: nat) {
    k + 3 <= |s| && s[k] == '`' && s[k + 1] == '`' && s[k + 2] == '`'
  }

  /** A backtick stands at `k`. */
  predicate TickAt(s: string, k: nat) {
    k < |s| && s[k] == '`'
  }

  /** The length of the text the pattern `json|```|`` matches at the start of `s`, trying
      its alternatives in that order; 0 when none matches. */
  function MatchLength(s: string): (n: nat)
    ensures n <= |s|
    ensures n == 0 <==> !TickAt(s, 0) && !JsonAt(s, 0)
  {
    if JsonAt(s, 0) then 4
    else if FenceAt(s, 0) then 3
    else if TickAt(s, 0) then 1
    else 0
  }

  /** A global replace by the empty string: scanning left to right, a match is deleted
      and the scan resumes right after it; otherwise one character is kept. Deleted text
      is never rescanned, so two halves of `json` that meet across a deletion survive. */
  function StripTokens(s: string): (r: string)
    ensures |r| <= |s|
    ensures forall k :: 0 <= k < |r| ==> r[k] != '`'
    decreases |s|
  {
    if s == [] then []
    else
      var n := MatchLength(s);
      if n > 0 then StripTokens(s[n..]) else [s[0]] + StripTokens(s[1..])
  }

  /** A token of the pattern begins at `k`: a backtick (alone or as part of a fence),
      or the lowercase word `json`. */
  predicate TokenAt(s: string, k: nat) {
    TickAt(s, k) || JsonAt(s, k)
  }

  predicate HasToken(s: string) {
    exists k: nat :: k < |s| && TokenAt(s, k)
  }

  /** `r` is obtained from `s` by deleting characters. */
  ghost predicate IsSubsequence(r: string, s: string)
    decreases |s|
  {
    if s == [] then r == []
    else IsSubsequence(r, s[1..]) || (r != [] && r[0] == s[0] && IsSubsequence(r[1..], s[1..]))
  }

  lemma {:induction false} SubsequenceOfSuffix(r: string, s: string, n: nat)
    requires n <= |s| && IsSubsequence(r, s[n..])
    ensures IsSubsequence(r, s)
    decreases n
  {
    if n > 0 {
      assert s[1..][n - 1..] == s[n..];
      SubsequenceOfSuffix(r, s[1..], n - 1);
    }
  }

  /** Step 2 only deletes: its result is a subsequence of its input. */
  lemma {:induction false} StripIsSubsequence(s: string)
    ensures IsSubsequence(StripTokens(s), s)
    decreases |s|
  {
    if s != [] {
      var n := MatchLength(s);
      if n > 0 {
        StripIsSubsequence(s[n..]);
        SubsequenceOfSuffix(StripTokens(s), s, n);
      } else {
        StripIsSubsequence(s[1..]);
        var r := StripTokens(s);
        assert r[1..] == StripTokens(s[1..]);
      }
    }
  }

  /** Deleting characters adds none: a character absent from `s` is absent from `r`. */
  lemma {:induction false} SubsequenceOmits(r: string, s: string, c: char)
    requires IsSubsequence(r, s) && forall k :: 0 <= k < |s| ==> s[k] != c
    ensures forall k :: 0 <= k < |r| ==> r[k] != c
    decreases |s|
  {
    if s != [] {
      if IsSubsequence(r, s[1..]) {
        SubsequenceOmits(r, s[1..], c);
      } else {
        SubsequenceOmits(r[1..], s[1..], c);
        assert forall k :: 1 <= k < |r| ==> r[k] == r[1..][k - 1];
      }
    }
  }

  lemma TokenInTail(s: string, k: nat)
    requires 0 < k < |s|
    ensures TokenAt(s, k) <==> TokenAt(s[1..], k - 1)
  {}

  /** Step 2 leaves its input untouched exactly when the input holds no token;
      otherwise it makes it strictly shorter. */
  lemma StripUnchangedIffNoToken(s: string)
    ensures StripTokens(s) == s <==> !HasToken(s)
    ensures HasToken(s) ==> |StripTokens(s)| < |s|
  {
    if HasToken(s) {
      StripShrinks(s);
    } else {
      StripIdentity(s);
    }
  }

  lemma {:induction false} StripIdentity(s: string)
    requires !HasToken(s)
    ensures StripTokens(s) == s
    decreases |s|
  {
    if s != [] {
      assert !TokenAt(s, 0);
      assert !HasToken(s[1..]) by {
        forall k: nat | k < |s[1..]| ensures !TokenAt(s[1..], k) {
          TokenInTail(s, k + 1);
        }
      }
      StripIdentity(s[1..]);
      assert s == [s[0]] + s[1..];
    }
  }

  lemma {:induction false} StripShrinks(s: string)
    requires HasToken(s)
    ensures |StripTokens(s)| < |s|
    decreases |s|
  {
    if MatchLength(s) == 0 {
      var k: nat :| k < |s| && TokenAt(s, k);
      assert k != 0;
      TokenInTail(s, k);
      StripShrinks(s[1..]);
    }
  }

  /** `c` occurs in none of the tokens. */
  predicate OutsideTokens(c: char) {
    c != 'j' && c != 's' && c != 'o' && c != 'n' && c != '`'
  }

  /** Before a text that starts outside every token, the pattern sees only `x`. */
  lemma MatchSeesPrefix(x: string, y: string)
    requires x != [] && y != [] && OutsideTokens(y[0])
    ensures MatchLength(x + y) == MatchLength(x)
  {
    var s := x + y;
    assert s[|x|] == y[0];
    assert forall k :: 0 <= k < |x| ==> s[k] == x[k];
  }

  /** One step of the scan on a non-empty text. */
  lemma StripStep(s: string)
    requires s != []
    ensures MatchLength(s) > 0 ==> StripTokens(s) == StripTokens(s[MatchLength(s)..])
    ensures MatchLength(s) == 0 ==> StripTokens(s) == [s[0]] + StripTokens(s[1..])
  {}

  lemma ConcatAssoc(a: string, b: string, c: string)
    ensures a + (b + c) == (a + b) + c
  {}

  lemma DropConcat(x: string, y: string, n: nat)
    requires n <= |x|
    ensures (x + y)[n..] == x[n..] + y
  {}

  /** A text that starts outside every token splits the scan: no match straddles the
      boundary. */
  lemma {:induction false} StripSplits(x: string, y: string)
    requires y != [] && OutsideTokens(y[0])
    ensures StripTokens(x + y) == StripTokens(x) + StripTokens(y)
    decreases |x|
  {
    if x == [] {
      assert x + y == y;
    } else {
      var n := MatchLength(x);
      assert MatchLength(x + y) == n by {
        MatchSeesPrefix(x, y);
      }
      if n > 0 {
        assert StripTokens(x + y) == StripTokens(x[n..] + y) by {
          StripStep(x + y);
          DropConcat(x, y, n);
        }
        assert StripTokens(x) == StripTokens(x[n..]) by {
          StripStep(x);
        }
        StripSplits(x[n..], y);
      } else {
        assert StripTokens(x + y) == [x[0]] + StripTokens(x[1..] + y) by {
          StripStep(x + y);
          DropConcat(x, y, 1);
          assert (x + y)[0] == x[0];
        }
        assert StripTokens(x) == [x[0]] + StripTokens(x[1..]) by {
          StripStep(x);
        }
        StripSplits(x[1..], y);
        ConcatAssoc([x[0]], StripTokens(x[1..]), StripTokens(y));
      }
    }
  }

  /** A character outside every token splits the scan and is kept. */
  lemma StripSplitsAt(x: string, c: char, z: string)
    requires OutsideTokens(c)
    ensures StripTokens(x + [c] + z) == StripTokens(x) + [c] + StripTokens(z)
  {
    var y := [c] + z;
    assert x + [c] + z == x + y;
    StripSplits(x, y);
    StripStep(y);
    assert y[1..] == z;
  }

  /** Step 2 keeps a bracketed text that holds no token, and works on either side of it
      separately. */
  lemma StripAroundArray(a: string, body: string, b: string)
    requires !HasToken(body)
    ensures StripTokens(a + ("[" + body + "]") + b) == StripTokens(a) + ("[" + body + "]") + StripTokens(b)
  {
    var sa, sb := StripTokens(a), StripTokens(b);
    var tail := [']'] + b;
    var y := ['['] + (body + tail);
    ArrayShape(a, body, b);
    assert StripTokens(a + y) == sa + StripTokens(y) by {
      StripSplits(a, y);
    }
    assert StripTokens(tail) == [']'] + sb by {
      StripStep(tail);
      assert tail[1..] == b;
    }
    assert StripTokens(body + tail) == body + ([']'] + sb) by {
      StripSplits(body, tail);
      StripIdentity(body);
    }
    assert StripTokens(y) == ['['] + (body + ([']'] + sb)) by {
      StripStep(y);
      assert y[1..] == body + tail;
    }
    ArrayShape(sa, body, sb);
  }

  lemma ArrayShape(a: string, body: string, b: string)
    ensures a + ("[" + body + "]") + b == a + (['['] + (body + ([']'] + b)))
  {}

  /** Step 2 introduces no character its input lacks. */
  lemma StripOmits(s: string, c: char)
    requires forall k :: 0 <= k < |s| ==> s[k] != c
    ensures forall k :: 0 <= k < |StripTokens(s)| ==> StripTokens(s)[k] != c
  {
    StripIsSubsequence(s);
    SubsequenceOmits(StripTokens(s), s, c);
  }

  /** A character that cannot begin a token is kept, and the scan moves on. */
  lemma KeepsPlain(s: string)
    requires s != [] && s[0] != '`' && (s[0] != 'j' || |s| < 3 || s[2] != 'o')
    ensures StripTokens(s) == [s[0]] + StripTokens(s[1..])
  {
  }

  /** Text free of `j` and backticks passes through unchanged, whatever follows it. */
  lemma {:induction false} KeepsPlainPrefix(a: string, b: string)
    requires forall k :: 0 <= k < |a| ==> a[k] != '`' && a[k] != 'j'
    ensures StripTokens(a + b) == a + StripTokens(b)
    decreases |a|
  {
    if a != [] {
      var s := a + b;
      assert StripTokens(s) == [a[0]] + StripTokens(a[1..] + b) by {
        assert s[0] == a[0];
        KeepsPlain(s);
        DropConcat(a, b, 1);
      }
      KeepsPlainPrefix(a[1..], b);
      ConcatAssoc([a[0]], a[1..], StripTokens(b));
      assert [a[0]] + a[1..] == a;
    } else {
      assert a + b == b;
    }
  }

  lemma DropsJson(s: string)
    requires JsonAt(s, 0)
    ensures StripTokens(s) == StripTokens(s[4..])
  {}

  lemma DropsTick(s: string)
    requires s != [] && s[0] == '`' && (|s| == 1 || s[1] != '`')
    ensures StripTokens(s) == StripTokens(s[1..])
  {}

  /** Deletion can assemble a new `json` that survives the single pass: the scan never
      looks back at text it has already kept. Deleting either `json` or a backtick from
      between `js` and `on` leaves the word `json` behind. */
  lemma StripCanCreateJson(x: string, t: string, z: string)
    requires x == "js" && z == "on"
    requires t == "json" || t == "`"
    ensures StripTokens(x + t + z) == x + z
    ensures JsonAt(StripTokens(x + t + z), 0)
  {
    assert StripTokens(x + t + z) == x + z by {
      KeptBeforeToken(x, t, z);
    }
    assert JsonAt(x + z, 0);
  }

  lemma KeptBeforeToken(x: string, t: string, z: string)
    requires x == "js" && z == "on"
    requires t == "json" || t == "`"
    ensures StripTokens(x + t + z) == x + z
  {
    var u := t + z;
    var y := x[1..] + u;
    assert StripTokens(y) == x[1..] + z by {
      DropsTokenBefore(t, z);
      KeepsPlainPrefix(x[1..], u);
    }
    var s := x + t + z;
    assert StripTokens(s) == [x[0]] + StripTokens(y) by {
      assert s[0] == x[0] && s[2] == t[0];
      KeepsPlain(s);
      assert s[1..] == y;
    }
    assert [x[0]] + (x[1..] + z) == x + z;
  }

  /** So the replace is not idempotent: a second pass can change its result. */
  lemma StripTwiceCanDiffer(x: string, t: string, z: string)
    requires x == "js" && z == "on"
    requires t == "json" || t == "`"
    ensures StripTokens(StripTokens(x + t + z)) != StripTokens(x + t + z)
  {
    StripCanCreateJson(x, t, z);
    var r := StripTokens(x + t + z);
    assert TokenAt(r, 0);
    StripUnchangedIffNoToken(r);
  }

  lemma DropsTokenBefore(t: string, z: string)
    requires t == "json" || t == "`"
    requires z == "on"
    ensures StripTokens(t + z) == z
  {
    var u := t + z;
    assert StripTokens(z) == z by {
      KeepsPlainPrefix(z, []);
      assert z + [] == z;
    }
    if t == "json" {
      DropsJson(u);
      assert u[4..] == z;
    } else {
      DropsTick(u);
      assert u[1..] == z;
    }
  }

  /** Lowercase `json` is removed from question and answer text too. */
  lemma StripAltersWords()
    ensures StripTokens("package." + "json") == "package."
  {
    DropsJson("json");
    KeepsPlainPrefix("package.", "json");
  }

  /** So are backticks used as inline code marks. */
  lemma StripAltersCode()
    ensures StripTokens("`" + "npm i" + "`") == "npm i"
  {
    DropsTick("`");
    KeepsPlainPrefix("npm i", "`");
    DropsTick("`" + "npm i" + "`");
    assert ("`" + "npm i" + "`")[1..] == "npm i" + "`";
  }
}
