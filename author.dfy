/** `WhatsappPreprocessor.normalize_author`: the canonical form of an author
    name, built by a fixed pipeline of rewrites (NFKC, zero-width removal,
    no-break spaces to spaces, one leading tilde off, whitespace collapsed
    and trimmed). Unicode NFKC is not modelled; it is passed in as `nfkc`. */
module Author {
  import opened PyStr

  /** The regex class `[\u200B-\u200D\uFEFF]`: zero-width space, non-joiner,
      joiner and the byte-order mark. */
  predicate IsZeroWidth(c: char) {
    c == '\U{200B}' || c == '\U{200C}' || c == '\U{200D}' || c == '\U{FEFF}'
  }

  /** The regex class `[~\u223C]`: ASCII tilde and the tilde operator. */
  predicate IsTilde(c: char) {
    c == '~' || c == '\U{223C}'
  }

  const Nbsp: char := '\U{A0}'
  const NarrowNbsp: char := '\U{202F}'

  ghost predicate NoZeroWidth(s: string) {
    forall k :: 0 <= k < |s| ==> !IsZeroWidth(s[k])
  }

  /** Every whitespace character is the plain space. */
  ghost predicate PlainSpaces(s: string) {
    forall k :: 0 <= k < |s| && IsSpace(s[k]) ==> s[k] == ' '
  }

  /** No two whitespace characters stand next to each other. */
  ghost predicate NoDoubleSpace(s: string) {
    forall i, j :: 0 <= i && j == i + 1 && j < |s| ==> !(IsSpace(s[i]) && IsSpace(s[j]))
  }

  ghost predicate StartsWithTilde(s: string) {
    |s| > 0 && IsTilde(s[0])
  }

  /** The shape every normalized name has. */
  ghost predicate WellFormed(s: string) {
    NoZeroWidth(s) && PlainSpaces(s) && NoDoubleSpace(s) && Trimmed(s)
  }

  /** A name the pipeline leaves as it is. */
  ghost predicate Canonical(s: string) {
    WellFormed(s) && !StartsWithTilde(s)
  }

  /** The characters of `s` a reader sees, in order: everything except
      whitespace and zero-width characters. */
  function Visible(s: string): (v: string)
    ensures |v| <= |s|
  {
    if s == [] then []
    else (if IsSpace(s[0]) || IsZeroWidth(s[0]) then [] else [s[0]]) + Visible(s[1..])
  }

  lemma {:induction false} VisibleConcat(a: string, b: string)
    ensures Visible(a + b) == Visible(a) + Visible(b)
  {
    if a == [] {
      assert a + b == b;
    } else {
      var head := if IsSpace(a[0]) || IsZeroWidth(a[0]) then [] else [a[0]];
      assert (a + b)[0] == a[0];
      assert (a + b)[1..] == a[1..] + b;
      assert Visible(a + b) == head + Visible(a[1..] + b);
      assert Visible(a) == head + Visible(a[1..]);
      VisibleConcat(a[1..], b);
      assert head + (Visible(a[1..]) + Visible(b)) == (head + Visible(a[1..])) + Visible(b);
    }
  }

  lemma VisibleSingle(c: char)
    ensures Visible([c]) == if IsSpace(c) || IsZeroWidth(c) then [] else [c]
  {
  }

  /** Cutting whitespace off either end leaves the visible text alone. */
  lemma {:induction false} VisibleLStrip(s: string)
    ensures Visible(LStrip(s)) == Visible(s)
  {
    if |s| > 0 && IsSpace(s[0]) {
      VisibleLStrip(s[1..]);
    }
  }

  lemma {:induction false} VisibleRStrip(s: string)
    ensures Visible(RStrip(s)) == Visible(s)
  {
    if |s| > 0 && IsSpace(s[|s| - 1]) {
      var init := s[..|s| - 1];
      assert s == init + [s[|s| - 1]];
      VisibleConcat(init, [s[|s| - 1]]);
      VisibleSingle(s[|s| - 1]);
      VisibleRStrip(init);
    }
  }

  /** Step 2, `re.sub(r"[\u200B-\u200D\uFEFF]", "", s)`. */
  function RemoveZeroWidth(s: string): (r: string)
    ensures |r| <= |s|
    ensures NoZeroWidth(r)
    ensures NoZeroWidth(s) ==> r == s
    ensures |s| == 1 && IsZeroWidth(s[0]) ==> r == []
  {
    if s == [] then []
    else if IsZeroWidth(s[0]) then RemoveZeroWidth(s[1..])
    else [s[0]] + RemoveZeroWidth(s[1..])
  }

  /** Removing zero-width characters leaves the visible text alone. */
  lemma {:induction false} RemoveZeroWidthKeepsVisible(s: string)
    ensures Visible(RemoveZeroWidth(s)) == Visible(s)
  {
    if s != [] {
      RemoveZeroWidthKeepsVisible(s[1..]);
      if !IsZeroWidth(s[0]) {
        VisibleConcat([s[0]], RemoveZeroWidth(s[1..]));
        VisibleConcat([s[0]], s[1..]);
        assert s == [s[0]] + s[1..];
      }
    }
  }

  /** Step 3, `s.replace(from, to)` for one character. */
  function Replace(s: string, from: char, to: char): (r: string)
    ensures |r| == |s|
    ensures forall k :: 0 <= k < |s| ==> r[k] == if s[k] == from then to else s[k]
  {
    if s == [] then [] else [if s[0] == from then to else s[0]] + Replace(s[1..], from, to)
  }

  /** Replacing a whitespace character by the plain space leaves the
      visible text alone. */
  lemma {:induction false} VisibleReplaceSpace(s: string, from: char)
    requires IsSpace(from)
    ensures Visible(Replace(s, from, ' ')) == Visible(s)
  {
    if s != [] {
      var r := Replace(s, from, ' ');
      assert r[1..] == Replace(s[1..], from, ' ');
      VisibleReplaceSpace(s[1..], from);
    }
  }

  /** Step 4, `re.sub(r"^[~\u223C]\s*", "", s)`: one leading tilde and the
      whitespace right after it go; anything else is kept. */
  function StripTilde(s: string): (r: string)
    ensures StartsWithTilde(s) ==>
              && |r| < |s| && r == s[|s| - |r|..]
              && (forall k :: 1 <= k < |s| - |r| ==> IsSpace(s[k]))
              && (r == [] || !IsSpace(r[0]))
    ensures !StartsWithTilde(s) ==> r == s
  {
    if |s| > 0 && IsTilde(s[0]) then LStrip(s[1..]) else s
  }

  /** Step 5 before the final strip, `re.sub(r"\s+", " ", s)`: each run of
      whitespace becomes one plain space. */
  function Collapse(s: string): (r: string)
    ensures PlainSpaces(r) && NoDoubleSpace(r)
    ensures |r| <= |s|
    ensures |r| == 0 <==> |s| == 0
    ensures |r| > 0 ==> (IsSpace(r[0]) <==> IsSpace(s[0]))
    ensures NoZeroWidth(s) ==> NoZeroWidth(r)
    decreases |s|
  {
    if s == [] then []
    else if IsSpace(s[0]) then
      var rest := LStrip(s);
      [' '] + Collapse(rest)
    else
      [s[0]] + Collapse(s[1..])
  }

  /** Collapsing whitespace leaves the visible text alone. */
  lemma {:induction false} CollapseKeepsVisible(s: string)
    ensures Visible(Collapse(s)) == Visible(s)
    decreases |s|
  {
    if s == [] {
    } else if IsSpace(s[0]) {
      var rest := LStrip(s);
      CollapseKeepsVisible(rest);
      VisibleLStrip(s);
      VisibleConcat([' '], Collapse(rest));
      VisibleSingle(' ');
    } else {
      CollapseKeepsVisible(s[1..]);
      VisibleConcat([s[0]], Collapse(s[1..]));
      VisibleConcat([s[0]], s[1..]);
      assert s == [s[0]] + s[1..];
    }
  }

  /** Text whose whitespace is already single plain spaces is left as it is. */
  lemma {:induction false} CollapseFixes(s: string)
    requires PlainSpaces(s) && NoDoubleSpace(s)
    ensures Collapse(s) == s
    decreases |s|
  {
    if s == [] {
    } else {
      assert PlainSpaces(s[1..]) && NoDoubleSpace(s[1..]) by {
        forall k | 0 <= k < |s[1..]| ensures s[1..][k] == s[k + 1] { }
      }
      if IsSpace(s[0]) {
        assert |s| > 1 ==> !IsSpace(s[1]);
        assert LStrip(s) == s[1..];
      }
      CollapseFixes(s[1..]);
      assert s == [s[0]] + s[1..];
    }
  }

  /** `lstrip()` of a text that is not all whitespace, followed by more
      text, cuts the same prefix. */
  lemma {:induction false} LStripAppend(a: string, t: string)
    requires LStrip(a) != []
    ensures LStrip(a + t) == LStrip(a) + t
    decreases |a|
  {
    assert (a + t)[0] == a[0];
    if IsSpace(a[0]) {
      assert (a + t)[1..] == a[1..] + t;
      LStripAppend(a[1..], t);
    }
  }

  /** `lstrip()` removes a whitespace run in front of text that does not
      start with whitespace. */
  lemma {:induction false} LStripRun(w: string, b: string)
    requires AllSpace(w)
    requires b == [] || !IsSpace(b[0])
    ensures LStrip(w + b) == b
    decreases |w|
  {
    if w == [] {
      assert w + b == b;
    } else {
      assert IsSpace(w[0]);
      assert (w + b)[0] == w[0] && (w + b)[1..] == w[1..] + b;
      assert AllSpace(w[1..]) by {
        forall k | 0 <= k < |w| - 1 ensures IsSpace(w[1..][k]) {
          assert w[1..][k] == w[k + 1];
        }
      }
      LStripRun(w[1..], b);
    }
  }

  /** Each whitespace run becomes exactly one plain space where it stood:
      between text ending and text starting with something other than
      whitespace, a run of any length and kind collapses to `" "`. */
  lemma {:induction false} CollapseRun(a: string, w: string, b: string)
    requires a == [] || !IsSpace(a[|a| - 1])
    requires |w| > 0 && AllSpace(w)
    requires b == [] || !IsSpace(b[0])
    ensures Collapse(a + w + b) == Collapse(a) + " " + Collapse(b)
    decreases |a|
  {
    if a == [] {
      assert a + w + b == w + b;
      CollapseRunFront(w, b);
    } else if IsSpace(a[0]) {
      var la := LStrip(a);
      assert |la| > 0 by {
        assert !IsSpace(a[|a| - 1]);
      }
      assert la[|la| - 1] == a[|a| - 1];
      CollapseRun(la, w, b);
      CollapseRunSpaceStep(a, w, b);
    } else {
      var rest := a[1..];
      assert rest == [] || rest[|rest| - 1] == a[|a| - 1];
      CollapseRun(rest, w, b);
      CollapseRunCharStep(a, w, b);
    }
  }

  /** `CollapseRun` with nothing before the run. */
  lemma CollapseRunFront(w: string, b: string)
    requires |w| > 0 && AllSpace(w)
    requires b == [] || !IsSpace(b[0])
    ensures Collapse(w + b) == [' '] + Collapse(b)
  {
    assert IsSpace(w[0]) && (w + b)[0] == w[0];
    LStripRun(w, b);
    CollapseSpaceHead(w + b);
  }

  /** `CollapseRun` for text starting with whitespace, from the case for
      that text with its leading whitespace cut. */
  lemma CollapseRunSpaceStep(a: string, w: string, b: string)
    requires |a| > 0 && IsSpace(a[0]) && LStrip(a) != []
    requires Collapse(LStrip(a) + w + b) == Collapse(LStrip(a)) + " " + Collapse(b)
    ensures Collapse(a + w + b) == Collapse(a) + " " + Collapse(b)
  {
    var la, t := LStrip(a), w + b;
    Assoc(a, w, b);
    Assoc(la, w, b);
    assert (a + t)[0] == a[0];
    LStripAppend(a, t);
    CollapseSpaceHead(a + t);
    CollapseSpaceHead(a);
    var c, cb := Collapse(la), Collapse(b);
    assert Collapse(a + t) == [' '] + (c + " " + cb);
    Assoc([' '], c + " ", cb);
    Assoc([' '], c, " ");
  }

  /** `CollapseRun` for text starting with another character, from the
      case for the rest of that text. */
  lemma CollapseRunCharStep(a: string, w: string, b: string)
    requires |a| > 0 && !IsSpace(a[0])
    requires Collapse(a[1..] + w + b) == Collapse(a[1..]) + " " + Collapse(b)
    ensures Collapse(a + w + b) == Collapse(a) + " " + Collapse(b)
  {
    var rest, t := a[1..], w + b;
    Assoc(a, w, b);
    Assoc(rest, w, b);
    HeadTail(a, t);
    CollapseCharHead(a + t);
    CollapseCharHead(a);
    ConsAssoc([a[0]], Collapse(rest), Collapse(b));
  }

  lemma HeadTail(a: string, t: string)
    requires |a| > 0
    ensures (a + t)[0] == a[0] && (a + t)[1..] == a[1..] + t
  {
  }

  lemma ConsAssoc(h: string, c: string, cb: string)
    ensures h + (c + " " + cb) == h + c + " " + cb
  {
  }

  lemma CollapseSpaceHead(x: string)
    requires |x| > 0 && IsSpace(x[0])
    ensures Collapse(x) == [' '] + Collapse(LStrip(x))
  {
  }

  lemma CollapseCharHead(x: string)
    requires |x| > 0 && !IsSpace(x[0])
    ensures Collapse(x) == [x[0]] + Collapse(x[1..])
  {
  }

  lemma Assoc(x: string, y: string, z: string)
    ensures x + (y + z) == x + y + z
  {
  }

  /** A piece of a string keeps the shape of the whole. */
  lemma SliceKeepsShape(s: string, i: nat, j: nat)
    requires i <= j <= |s|
    ensures NoZeroWidth(s) ==> NoZeroWidth(s[i..j])
    ensures PlainSpaces(s) ==> PlainSpaces(s[i..j])
    ensures NoDoubleSpace(s) ==> NoDoubleSpace(s[i..j])
  {
  }

  /** Whitespace shape and zero-width freedom survive `strip()`. */
  lemma StripKeepsShape(s: string)
    ensures NoZeroWidth(s) ==> NoZeroWidth(Strip(s))
    ensures PlainSpaces(s) ==> PlainSpaces(Strip(s))
    ensures NoDoubleSpace(s) ==> NoDoubleSpace(Strip(s))
  {
    var r := Strip(s);
    var k :| CutFrom(s, k, r);
    SliceKeepsShape(s, k, k + |r|);
  }

  /** `strip()` only cuts whitespace: the visible text is kept. */
  lemma StripKeepsVisible(s: string)
    ensures Visible(Strip(s)) == Visible(s)
  {
    VisibleLStrip(s);
    VisibleRStrip(LStrip(s));
  }

  /** A well-formed name holds none of the characters the pipeline removes
      or replaces. */
  lemma WellFormedExcludes(r: string)
    requires WellFormed(r)
    ensures forall k :: 0 <= k < |r| ==>
              r[k] !in {'\U{200B}', '\U{200C}', '\U{200D}', '\U{FEFF}', Nbsp, NarrowNbsp}
  {
    forall k | 0 <= k < |r|
      ensures r[k] !in {'\U{200B}', '\U{200C}', '\U{200D}', '\U{FEFF}', Nbsp, NarrowNbsp}
    {
      assert !IsZeroWidth(r[k]);
      assert IsSpace(r[k]) ==> r[k] == ' ';
    }
  }

  /** `normalize_author(name)`. The result is well formed: no zero-width
      character and no no-break space survive, each whitespace character is
      the plain space, no two spaces stand together and neither end is a
      space. */
  function Normalize(nfkc: string -> string, name: string): (r: string)
    ensures WellFormed(r)
    ensures forall k :: 0 <= k < |r| ==>
              r[k] !in {'\U{200B}', '\U{200C}', '\U{200D}', '\U{FEFF}', Nbsp, NarrowNbsp}
  {
    var s1 := RemoveZeroWidth(nfkc(name));
    var s2 := Replace(Replace(s1, Nbsp, ' '), NarrowNbsp, ' ');
    var s3 := StripTilde(s2);
    var s4 := Collapse(s3);
    assert NoZeroWidth(s2);
    assert NoZeroWidth(s3);
    StripKeepsShape(s4);
    var r := Strip(s4);
    WellFormedExcludes(r);
    r
  }

  /** NFKC leaves pure ASCII text alone (true of Unicode NFKC). */
  ghost predicate KeepsAscii(nfkc: string -> string) {
    forall s :: IsAscii(s) ==> nfkc(s) == s
  }

  ghost predicate IsAscii(s: string) {
    forall k :: 0 <= k < |s| ==> s[k] < '\U{80}'
  }

  /** Visible text is preserved, case and all: the normalized name shows
      exactly the characters NFKC produced, except a tilde that stood first
      once zero-width characters were gone. */
  lemma NormalizeKeepsText(nfkc: string -> string, name: string)
    ensures var n := nfkc(name); var z := RemoveZeroWidth(n);
      if StartsWithTilde(z) then Visible(n) == [z[0]] + Visible(Normalize(nfkc, name))
      else Visible(n) == Visible(Normalize(nfkc, name))
  {
    var n := nfkc(name);
    var s1 := RemoveZeroWidth(n);
    RemoveZeroWidthKeepsVisible(n);
    var s2a := Replace(s1, Nbsp, ' ');
    var s2 := Replace(s2a, NarrowNbsp, ' ');
    VisibleReplaceSpace(s1, Nbsp);
    VisibleReplaceSpace(s2a, NarrowNbsp);
    assert StartsWithTilde(s2) <==> StartsWithTilde(s1);
    var s3 := StripTilde(s2);
    if StartsWithTilde(s1) {
      assert s2 == [s2[0]] + s2[1..];
      VisibleConcat([s2[0]], s2[1..]);
      VisibleSingle(s2[0]);
      VisibleLStrip(s2[1..]);
      assert Visible(s2) == [s1[0]] + Visible(s3);
    }
    var s4 := Collapse(s3);
    CollapseKeepsVisible(s3);
    StripKeepsVisible(s4);
  }

  /** A name already in canonical form after NFKC comes out as NFKC made it. */
  lemma NormalizeFixesCanonical(nfkc: string -> string, name: string)
    requires Canonical(nfkc(name))
    ensures Normalize(nfkc, name) == nfkc(name)
  {
    var n := nfkc(name);
    assert Replace(n, Nbsp, ' ') == n;
    assert Replace(n, NarrowNbsp, ' ') == n;
    CollapseFixes(n);
    StripFixesTrimmed(n);
  }

  /** Exactly one leading tilde is removed: a tilde followed by an otherwise
      well-formed name (which may itself start with a tilde) loses that one
      tilde and nothing else. */
  lemma NormalizeStripsOneTilde(nfkc: string -> string, name: string)
    requires StartsWithTilde(nfkc(name)) && WellFormed(nfkc(name)[1..])
    ensures Normalize(nfkc, name) == nfkc(name)[1..]
  {
    var n := nfkc(name);
    var w := n[1..];
    assert NoZeroWidth(n) by {
      forall k | 0 <= k < |n| ensures !IsZeroWidth(n[k]) {
        if k > 0 { assert n[k] == w[k - 1]; }
      }
    }
    assert PlainSpaces(n) by {
      forall k | 0 <= k < |n| && IsSpace(n[k]) ensures n[k] == ' ' {
        assert k > 0 && n[k] == w[k - 1];
      }
    }
    assert Replace(n, Nbsp, ' ') == n;
    assert Replace(n, NarrowNbsp, ' ') == n;
    assert LStrip(w) == w;
    CollapseFixes(w);
    StripFixesTrimmed(w);
  }

  /** `normalize_author` is idempotent on a name exactly when its result does
      not start with a tilde (given that NFKC leaves the result alone). */
  lemma NormalizeIdempotentIff(nfkc: string -> string, name: string)
    requires nfkc(Normalize(nfkc, name)) == Normalize(nfkc, name)
    ensures Normalize(nfkc, Normalize(nfkc, name)) == Normalize(nfkc, name)
            <==> !StartsWithTilde(Normalize(nfkc, name))
  {
    var r := Normalize(nfkc, name);
    if StartsWithTilde(r) {
      NormalizeKeepsText(nfkc, r);
      assert RemoveZeroWidth(r) == r;
      assert r == [r[0]] + r[1..];
      VisibleConcat([r[0]], r[1..]);
      VisibleSingle(r[0]);
      assert |Visible(Normalize(nfkc, r))| + 1 == |Visible(r)|;
    } else {
      NormalizeFixesCanonical(nfkc, r);
    }
  }

  /** Steps 2 and 3 on two well-formed pieces around a whitespace run: the
      pieces are kept, and the run stays a whitespace run of its length. */
  lemma PiecesAroundRun(a: string, w: string, b: string) returns (w2: string)
    requires WellFormed(a) && WellFormed(b) && AllSpace(w)
    ensures |w2| == |w| && AllSpace(w2)
    ensures Replace(Replace(RemoveZeroWidth(a + w + b), Nbsp, ' '), NarrowNbsp, ' ') == a + w2 + b
  {
    assert NoZeroWidth(w) by {
      forall k | 0 <= k < |w| ensures !IsZeroWidth(w[k]) {
        assert IsSpace(w[k]);
      }
    }
    RemoveZeroWidthConcat(a + w, b);
    RemoveZeroWidthConcat(a, w);
    assert RemoveZeroWidth(a + w + b) == a + w + b;
    WellFormedExcludes(a);
    WellFormedExcludes(b);
    var w1 := ReplaceAround(a, w, b, Nbsp);
    w2 := ReplaceAround(a, w1, b, NarrowNbsp);
  }

  /** Replacing a character the two pieces do not hold by a space touches
      only the whitespace run between them. */
  lemma ReplaceAround(a: string, w: string, b: string, from: char) returns (w1: string)
    requires AllSpace(w)
    requires forall k :: 0 <= k < |a| ==> a[k] != from
    requires forall k :: 0 <= k < |b| ==> b[k] != from
    ensures w1 == Replace(w, from, ' ') && |w1| == |w| && AllSpace(w1)
    ensures Replace(a + w + b, from, ' ') == a + w1 + b
  {
    w1 := Replace(w, from, ' ');
    ReplaceConcat(a + w, b, from, ' ');
    ReplaceConcat(a, w, from, ' ');
    ReplaceAbsent(a, from, ' ');
    ReplaceAbsent(b, from, ' ');
    assert AllSpace(w1) by {
      forall k | 0 <= k < |w1| ensures IsSpace(w1[k]) {
        assert IsSpace(w[k]);
      }
    }
  }

  /** Every whitespace run inside a name becomes exactly one plain space:
      two pieces already in normalized form (the first not starting with a
      tilde) with a run of any whitespace between them come out joined by
      a single `" "`. */
  lemma NormalizeSingleSpace(nfkc: string -> string, name: string, a: string, w: string, b: string)
    requires nfkc(name) == a + w + b
    requires Canonical(a) && |a| > 0
    requires WellFormed(b) && |b| > 0
    requires |w| > 0 && AllSpace(w)
    ensures Normalize(nfkc, name) == a + " " + b
  {
    var w2 := PiecesAroundRun(a, w, b);
    var s2 := a + w2 + b;
    assert s2[0] == a[0] && !IsTilde(a[0]);
    assert StripTilde(s2) == s2;
    CollapseRun(a, w2, b);
    CollapseFixes(a);
    CollapseFixes(b);
    var r := a + " " + b;
    assert Collapse(s2) == r;
    assert r[0] == a[0] && r[|r| - 1] == b[|b| - 1];
    StripFixesTrimmed(r);
  }

  /** `"Jane  Doe"`, with two spaces, becomes `"Jane Doe"`. */
  lemma NormalizeDoubleSpace(nfkc: string -> string, name: string)
    requires nfkc(name) == "Jane  Doe"
    ensures Normalize(nfkc, name) == "Jane Doe"
  {
    var a, w, b := "Jane", "  ", "Doe";
    assert IsWord(a) && IsWord(b);
    WordWellFormed(a);
    WordWellFormed(b);
    assert AllSpace(w) by {
      assert w[0] == ' ' && w[1] == ' ';
    }
    assert a + w + b == "Jane  Doe";
    assert a + " " + b == "Jane Doe";
    NormalizeSingleSpace(nfkc, name, a, w, b);
  }

  /** A single tilde in front of a plain ASCII word goes, and nothing
      else does. */
  lemma NormalizeTildeWord(nfkc: string -> string, name: string)
    requires KeepsAscii(nfkc) && |name| > 0 && name[0] == '~'
    requires IsAscii(name[1..]) && IsWord(name[1..])
    ensures Normalize(nfkc, name) == name[1..]
  {
    var w := name[1..];
    assert IsAscii(name) by {
      forall k | 0 <= k < |name| ensures name[k] < '\U{80}' {
        if k > 0 { assert name[k] == w[k - 1]; }
      }
    }
    WordWellFormed(w);
    NormalizeStripsOneTilde(nfkc, name);
  }

  /** A word is a well-formed name. */
  lemma WordWellFormed(w: string)
    requires IsWord(w)
    ensures WellFormed(w)
  {
  }

  /** A tilde and a space in front of a plain ASCII word both go. */
  lemma NormalizeTildeSpaceWord(nfkc: string -> string, name: string)
    requires KeepsAscii(nfkc) && |name| > 1 && name[0] == '~' && name[1] == ' '
    requires IsAscii(name[2..]) && IsWord(name[2..])
    ensures Normalize(nfkc, name) == name[2..]
  {
    var w := name[2..];
    assert IsAscii(name) by {
      forall k | 0 <= k < |name| ensures name[k] < '\U{80}' {
        if k > 1 { assert name[k] == w[k - 2]; }
      }
    }
    assert NoZeroWidth(name) by {
      forall k | 0 <= k < |name| ensures !IsZeroWidth(name[k]) {
        if k > 1 { assert name[k] == w[k - 2]; }
      }
    }
    assert nfkc(name) == name;
    assert RemoveZeroWidth(name) == name;
    assert Replace(name, Nbsp, ' ') == name;
    assert Replace(name, NarrowNbsp, ' ') == name;
    assert name[1..] == [' '] + w;
    LStripCons(' ', w);
    assert LStrip(w) == w;
    assert StripTilde(name) == w;
    WordWellFormed(w);
    CollapseFixes(w);
    StripFixesTrimmed(w);
  }

  /** `"~ Jane"` becomes `"Jane"`. */
  lemma TildeSpaceJane(nfkc: string -> string)
    requires KeepsAscii(nfkc)
    ensures Normalize(nfkc, "~ Jane") == "Jane"
  {
    var w := "Jane";
    assert IsWord(w) && IsAscii(w);
    NormalizeTildeSpaceWord(nfkc, "~ Jane");
  }

  /** Not idempotent: `"~~Jane"` becomes `"~Jane"`, which becomes `"Jane"`. */
  lemma DoubleTildeNotIdempotent(nfkc: string -> string)
    requires KeepsAscii(nfkc)
    ensures Normalize(nfkc, "~~Jane") == "~Jane"
    ensures Normalize(nfkc, "~Jane") == "Jane"
  {
    var w1, w2 := "~Jane", "Jane";
    assert IsWord(w1) && IsAscii(w1);
    assert IsWord(w2) && IsAscii(w2);
    NormalizeTildeWord(nfkc, "~~Jane");
    NormalizeTildeWord(nfkc, "~Jane");
  }

  /** A name NFKC leaves without zero-width characters, irregular spaces
      or a leading tilde is only trimmed. */
  lemma NormalizeOnlyTrims(nfkc: string -> string, name: string)
    requires var n := nfkc(name);
      NoZeroWidth(n) && PlainSpaces(n) && NoDoubleSpace(n) && !StartsWithTilde(n)
    ensures Normalize(nfkc, name) == Strip(nfkc(name))
  {
    var n := nfkc(name);
    assert Replace(n, Nbsp, ' ') == n;
    assert Replace(n, NarrowNbsp, ' ') == n;
    CollapseFixes(n);
  }

  lemma StripShieldedTilde()
    ensures Strip(" ~a") == "~a"
  {
    var n := " ~a";
    assert n[0] == ' ' && n[1..] == "~a";
    assert !IsSpace('~');
    assert LStrip("~a") == "~a";
    assert LStrip(n) == LStrip(n[1..]);
    assert RStrip("~a") == "~a";
  }

  lemma NormalizeShieldedTilde(nfkc: string -> string)
    requires KeepsAscii(nfkc)
    ensures Normalize(nfkc, " ~a") == "~a"
  {
    var n := " ~a";
    assert IsAscii(n);
    assert NoZeroWidth(n) && PlainSpaces(n) && NoDoubleSpace(n);
    NormalizeOnlyTrims(nfkc, n);
    StripShieldedTilde();
  }

  /** Not idempotent: a space before the tilde shields it, `" ~a"` becomes
      `"~a"`, which becomes `"a"`. */
  lemma SpaceBeforeTildeNotIdempotent(nfkc: string -> string)
    requires KeepsAscii(nfkc)
    ensures Normalize(nfkc, " ~a") == "~a"
    ensures Normalize(nfkc, "~a") == "a"
  {
    var w := "a";
    assert IsWord(w) && IsAscii(w);
    NormalizeTildeWord(nfkc, "~a");
    NormalizeShieldedTilde(nfkc);
  }

  lemma RemoveZeroWidthCons(c: char, t: string)
    ensures RemoveZeroWidth([c] + t) == (if IsZeroWidth(c) then [] else [c]) + RemoveZeroWidth(t)
  {
  }

  lemma {:induction false} RemoveZeroWidthConcat(a: string, b: string)
    ensures RemoveZeroWidth(a + b) == RemoveZeroWidth(a) + RemoveZeroWidth(b)
  {
    if a == [] {
      assert a + b == b;
    } else {
      var c, t := a[0], a[1..];
      assert a + b == [c] + (t + b) by {}
      assert a == [c] + t by {}
      var x := if IsZeroWidth(c) then [] else [c];
      RemoveZeroWidthCons(c, t + b);
      RemoveZeroWidthCons(c, t);
      RemoveZeroWidthConcat(t, b);
      Assoc(x, RemoveZeroWidth(t), RemoveZeroWidth(b));
    }
  }

  /** A word: at least one character, none of them whitespace or
      zero-width. */
  ghost predicate IsWord(w: string) {
    |w| > 0 && forall k :: 0 <= k < |w| ==> !IsSpace(w[k]) && !IsZeroWidth(w[k])
  }

  /** Two words joined by one plain space form a canonical name. */
  lemma TwoWordsCanonical(first: string, last: string)
    requires IsWord(first) && IsWord(last) && !IsTilde(first[0])
    ensures Canonical(first + " " + last)
  {
  }

  lemma ReplaceConcat(a: string, b: string, from: char, to: char)
    ensures Replace(a + b, from, to) == Replace(a, from, to) + Replace(b, from, to)
  {
  }

  lemma ReplaceAbsent(s: string, from: char, to: char)
    requires forall k :: 0 <= k < |s| ==> s[k] != from
    ensures Replace(s, from, to) == s
  {
  }

  /** The two words with their single space contain no no-break space. */
  lemma TwoWordsNoNbsp(first: string, last: string)
    requires IsWord(first) && IsWord(last)
    ensures var w := first + " " + last;
      forall k :: 0 <= k < |w| ==> w[k] != Nbsp && w[k] != NarrowNbsp
  {
  }

  /** A word behind a prefix free of zero-width characters adds none. */
  lemma WordFreeOfZeroWidth(prefix: string, w: string)
    requires IsWord(w) && NoZeroWidth(prefix)
    ensures RemoveZeroWidth(prefix + w) == prefix + w
  {
  }

  /** Removing zero-width characters from text holding a single one, between
      two parts free of them, joins the two parts. */
  lemma RemoveZeroWidthDropsOne(a: string, z: char, b: string)
    requires NoZeroWidth(a) && IsZeroWidth(z) && NoZeroWidth(b)
    ensures RemoveZeroWidth(a + ([z] + b)) == a + b
  {
    RemoveZeroWidthConcat(a, [z] + b);
    RemoveZeroWidthCons(z, b);
  }

  /** Step 2 on `"~<sp><first><ZWSP> <last>"`: only the zero-width space goes. */
  lemma TildedTwoWordsZeroWidth(sp: char, first: string, last: string)
    requires IsWord(first) && IsWord(last) && sp in {Nbsp, ' '}
    ensures RemoveZeroWidth(['~', sp] + first + ['\U{200B}', ' '] + last) == ['~', sp] + (first + " " + last)
  {
    var a := ['~', sp] + first;
    var b := [' '] + last;
    assert NoZeroWidth(a) by { WordFreeOfZeroWidth(['~', sp], first); }
    assert NoZeroWidth(b) by { WordFreeOfZeroWidth([' '], last); }
    RemoveZeroWidthDropsOne(a, '\U{200B}', b);
    assert ['~', sp] + first + ['\U{200B}', ' '] + last == a + (['\U{200B}'] + b);
    assert a + b == ['~', sp] + (first + " " + last);
  }

  /** Step 3 on `"~<sp><first> <last>"`: the space after the tilde becomes
      a plain one, the words are untouched. */
  lemma TildedTwoWordsReplace(sp: char, first: string, last: string)
    requires IsWord(first) && IsWord(last) && sp in {Nbsp, ' '}
    ensures Replace(Replace(['~', sp] + (first + " " + last), Nbsp, ' '), NarrowNbsp, ' ') == ['~', ' '] + (first + " " + last)
  {
    var w := first + " " + last;
    TwoWordsNoNbsp(first, last);
    ReplaceConcat(['~', sp], w, Nbsp, ' ');
    ReplaceAbsent(w, Nbsp, ' ');
    assert Replace(['~', sp], Nbsp, ' ') == ['~', ' '];
    ReplaceConcat(['~', ' '], w, NarrowNbsp, ' ');
    ReplaceAbsent(w, NarrowNbsp, ' ');
    assert Replace(['~', ' '], NarrowNbsp, ' ') == ['~', ' '];
  }

  /** Step 4 and 5 on `"~ <first> <last>"`. */
  lemma TildedTwoWordsRest(first: string, last: string)
    requires IsWord(first) && IsWord(last) && !IsTilde(first[0])
    ensures Strip(Collapse(StripTilde(['~', ' '] + (first + " " + last)))) == first + " " + last
  {
    var w := first + " " + last;
    assert (['~', ' '] + w)[1..] == [' '] + w;
    assert StripTilde(['~', ' '] + w) == LStrip([' '] + w);
    LStripCons(' ', w);
    assert LStrip(w) == w by {
      assert w[0] == first[0];
    }
    TwoWordsCanonical(first, last);
    CollapseFixes(w);
    StripFixesTrimmed(w);
  }

  /** A tilde, a space or no-break space, and a zero-width space before the
      separating space all go: `"~<NBSP><first><ZWSP> <last>"` becomes
      `"<first> <last>"`. */
  lemma NormalizeTildedTwoWords(nfkc: string -> string, name: string, sp: char, first: string, last: string)
    requires IsWord(first) && IsWord(last) && !IsTilde(first[0]) && sp in {Nbsp, ' '}
    requires nfkc(name) == ['~', sp] + first + ['\U{200B}', ' '] + last
    ensures Normalize(nfkc, name) == first + " " + last
  {
    var w := first + " " + last;
    TildedTwoWordsZeroWidth(sp, first, last);
    TildedTwoWordsReplace(sp, first, last);
    assert Replace(Replace(RemoveZeroWidth(nfkc(name)), Nbsp, ' '), NarrowNbsp, ' ') == ['~', ' '] + w;
    TildedTwoWordsRest(first, last);
  }

  /** The worked example: a tilde, a no-break space and a zero-width space
      around "Jane Doe" all disappear, whether or not NFKC has already
      turned the no-break space into a space. */
  lemma NormalizeExample(nfkc: string -> string, name: string)
    requires name == "~\U{A0}Jane\U{200B} Doe"
    requires nfkc(name) in {name, "~ Jane\U{200B} Doe"}
    ensures Normalize(nfkc, name) == "Jane Doe"
  {
    var n := nfkc(name);
    assert IsWord("Jane") && IsWord("Doe");
    assert "Jane" + " " + "Doe" == "Jane Doe";
    var sp := if n == "~ Jane\U{200B} Doe" then ' ' else Nbsp;
    ExampleShape(sp);
    NormalizeTildedTwoWords(nfkc, name, sp, "Jane", "Doe");
  }

  /** The example text, with either kind of space after its tilde, has the
      shape the two-word lemma requires. */
  lemma ExampleShape(sp: char)
    requires sp in {Nbsp, ' '}
    ensures ['~', sp] + "Jane" + ['\U{200B}', ' '] + "Doe" == (if sp == ' ' then "~ Jane\U{200B} Doe" else "~\U{A0}Jane\U{200B} Doe")
  {
  }

  lemma LStripCons(c: char, t: string)
    ensures LStrip([c] + t) == if IsSpace(c) then LStrip(t) else [c] + t
  {
  }
}
