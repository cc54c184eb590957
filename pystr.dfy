/** The Python `str` primitives the preprocessor relies on: whitespace as
    `str.isspace` defines it (the regex class `\s` uses the same test on
    `str` patterns), `lstrip`/`rstrip`/`strip` without arguments, and
    substring containment `needle in haystack`. */
module PyStr {

  /** A character Python counts as whitespace. */
  predicate IsSpace(c: char) {
    || ('\t' <= c <= '\r')
    || ('\U{1C}' <= c <= '\U{1F}')
    || c == ' '
    || c == '\U{85}'
    || c == '\U{A0}'
    || c == '\U{1680}'
    || ('\U{2000}' <= c <= '\U{200A}')
    || c == '\U{2028}'
    || c == '\U{2029}'
    || c == '\U{202F}'
    || c == '\U{205F}'
    || c == '\U{3000}'
  }

  /** Neither end of `s` is whitespace. */
  predicate Trimmed(s: string) {
    |s| == 0 || (!IsSpace(s[0]) && !IsSpace(s[|s| - 1]))
  }

  /** `s.lstrip()`: the longest suffix of `s` that does not start with
      whitespace, everything cut off being whitespace. */
  function LStrip(s: string): (r: string)
    ensures |r| <= |s| && r == s[|s| - |r|..]
    ensures forall k :: 0 <= k < |s| - |r| ==> IsSpace(s[k])
    ensures r == [] || !IsSpace(r[0])
    ensures |s| > 0 && IsSpace(s[0]) ==> |r| < |s|
  {
    if |s| > 0 && IsSpace(s[0]) then LStrip(s[1..]) else s
  }

  /** `s.rstrip()`: the longest prefix of `s` that does not end with
      whitespace, everything cut off being whitespace. */
  function RStrip(s: string): (r: string)
    ensures |r| <= |s| && r == s[..|r|]
    ensures forall k :: |r| <= k < |s| ==> IsSpace(s[k])
    ensures r == [] || !IsSpace(r[|r| - 1])
  {
    if |s| > 0 && IsSpace(s[|s| - 1]) then RStrip(s[..|s| - 1]) else s
  }

  /** Every character of `t` is whitespace. */
  ghost predicate AllSpace(t: string) {
    forall k :: 0 <= k < |t| ==> IsSpace(t[k])
  }

  /** `r` is the piece `s[i..i + |r|]` of `s`, and what comes before and
      after that piece is whitespace. */
  ghost predicate CutFrom(s: string, i: int, r: string) {
    && 0 <= i <= |s| - |r|
    && r == s[i..i + |r|]
    && AllSpace(s[..i])
    && AllSpace(s[i + |r|..])
  }

  /** `s.strip()`: whitespace cut from both ends. The result is one
      contiguous piece of the input, only whitespace is cut off, and
      neither end of the result is whitespace. */
  function Strip(s: string): (r: string)
    ensures Trimmed(r)
    ensures |r| <= |s|
    ensures exists i :: CutFrom(s, i, r)
  {
    var l := LStrip(s);
    var r := RStrip(l);
    assert Trimmed(r) by {
      if |r| > 0 { assert r[0] == l[0]; }
    }
    StripCut(s);
    r
  }

  /** The piece `rstrip` keeps of what `lstrip` keeps is cut from `s`. */
  lemma StripCut(s: string)
    ensures CutFrom(s, |s| - |LStrip(s)|, RStrip(LStrip(s)))
  {
    var l := LStrip(s);
    var r := RStrip(l);
    LStripCut(s);
    RStripCut(l);
    CutCompose(s, l, r);
  }

  /** Cutting whitespace off the front, then off the back of what is left,
      cuts one piece out of the whole. */
  lemma CutCompose(s: string, l: string, r: string)
    requires |l| <= |s| && l == s[|s| - |l|..] && AllSpace(s[..|s| - |l|])
    requires |r| <= |l| && r == l[..|r|] && AllSpace(l[|r|..])
    ensures CutFrom(s, |s| - |l|, r)
  {
    var i := |s| - |l|;
    assert l[..|r|] == s[i..i + |r|];
    assert l[|r|..] == s[i + |r|..];
  }

  /** `lstrip()` cuts only whitespace. */
  lemma LStripCut(s: string)
    ensures AllSpace(s[..|s| - |LStrip(s)|])
  {
    var i := |s| - |LStrip(s)|;
    forall k | 0 <= k < i ensures IsSpace(s[..i][k]) {
      assert s[..i][k] == s[k];
    }
  }

  /** `rstrip()` cuts only whitespace. */
  lemma RStripCut(l: string)
    ensures AllSpace(l[|RStrip(l)|..])
  {
    var n := |RStrip(l)|;
    forall k | 0 <= k < |l| - n ensures IsSpace(l[n..][k]) {
      assert l[n..][k] == l[n + k];
    }
  }

  /** `strip()` cuts nothing else: text without whitespace at its ends is
      left as it is. */
  lemma StripFixesTrimmed(s: string)
    requires Trimmed(s)
    ensures Strip(s) == s
  {
  }

  /** `needle` occurs in `haystack` starting at index `i`. */
  ghost predicate OccursAt(needle: string, haystack: string, i: int) {
    0 <= i && i + |needle| <= |haystack| && haystack[i..i + |needle|] == needle
  }

  /** Python's `needle in haystack` on strings (true for an empty needle). */
  function Contains(haystack: string, needle: string): bool
    decreases |haystack|
  {
    if |haystack| < |needle| then false
    else haystack[..|needle|] == needle || Contains(haystack[1..], needle)
  }

  /** Containment means an occurrence at some position. */
  lemma {:induction false} ContainsIff(haystack: string, needle: string)
    ensures Contains(haystack, needle) <==> exists i :: OccursAt(needle, haystack, i)
    decreases |haystack|
  {
    if |haystack| < |needle| {
    } else if haystack[..|needle|] == needle {
      assert OccursAt(needle, haystack, 0);
    } else {
      var tail := haystack[1..];
      ContainsIff(tail, needle);
      if Contains(tail, needle) {
        var i :| OccursAt(needle, tail, i);
        assert haystack[i + 1..i + 1 + |needle|] == tail[i..i + |needle|];
        assert OccursAt(needle, haystack, i + 1);
      }
      if i :| OccursAt(needle, haystack, i) {
        assert i != 0;
        assert tail[i - 1..i - 1 + |needle|] == haystack[i..i + |needle|];
        assert OccursAt(needle, tail, i - 1);
      }
    }
  }
}
