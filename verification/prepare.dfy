/** clean_text from the Hindi corpus preparation: drop markup tags, blank out
    every character outside the Devanagari block and basic punctuation,
    collapse whitespace runs and strip the ends. */
module Prepare {
  import opened Text

  /** The Devanagari block, U+0900 to U+097F. */
  predicate Devanagari(c: char) {
    'ऀ' <= c <= 'ॿ'
  }

  /** The non-whitespace characters clean_text keeps. */
  predicate Kept(c: char) {
    Devanagari(c) || c == '.' || c == ',' || c == '?' || c == '!'
  }

  /** The complement of the class [^ऀ-ॿ\s\.,\?!]. */
  predicate Allowed(c: char) {
    Kept(c) || IsSpace(c)
  }

  /** No kept character is whitespace. */
  lemma KeptIsNotSpace(c: char)
    requires Kept(c)
    ensures !IsSpace(c)
  {
  }

  /** Index of the first '>' in s, or |s| when there is none. */
  function FirstClose(s: string): (n: nat)
    ensures n <= |s|
    ensures forall k :: 0 <= k < n ==> s[k] != '>'
    ensures n < |s| ==> s[n] == '>'
    decreases |s|
  {
    if |s| == 0 || s[0] == '>' then 0 else 1 + FirstClose(s[1..])
  }

  /** Length of the match of <[^>]+> at the start of s, or 0 when the
      pattern does not match there. */
  function TagLength(s: string): (n: nat)
    ensures n > 0 ==> 3 <= n <= |s| && s[0] == '<' && s[n - 1] == '>'
    ensures n > 0 ==> forall k :: 1 <= k < n - 1 ==> s[k] != '>'
    ensures n == 0 ==> |s| == 0 || s[0] != '<' || (|s| >= 2 && s[1] == '>') ||
                       (forall k :: 1 <= k < |s| ==> s[k] != '>')
  {
    if |s| == 0 || s[0] != '<' then 0
    else
      var k := FirstClose(s[1..]);
      if 1 <= k < |s| - 1 then
        assert forall j :: 1 <= j < k + 1 ==> s[j] == s[1..][j - 1];
        k + 2
      else
        assert forall j :: 1 <= j < |s| ==> s[j] == s[1..][j - 1];
        0
  }

  /** re.sub(r'<[^>]+>', ' ', s): scanning left to right, each match is
      replaced by one space and scanning resumes after it. */
  function StripTags(s: string): (r: string)
    ensures |r| <= |s|
    ensures forall i :: 0 <= i < |r| ==> r[i] == ' ' || r[i] in s
    decreases |s|
  {
    if |s| == 0 then ""
    else
      var n := TagLength(s);
      if n > 0 then " " + StripTags(s[n..])
      else [s[0]] + StripTags(s[1..])
  }

  /** re.sub(r'[^ऀ-ॿ\s\.,\?!]', ' ', s) */
  function FilterChars(s: string): (r: string)
    ensures |r| == |s|
    ensures forall i :: 0 <= i < |s| ==> r[i] == (if Allowed(s[i]) then s[i] else ' ')
  {
    seq(|s|, i requires 0 <= i < |s| => if Allowed(s[i]) then s[i] else ' ')
  }

  /** re.sub(r'\s+', ' ', s): every maximal whitespace run becomes one
      space. */
  function CollapseSpaces(s: string): string
    decreases |s|
  {
    if |s| == 0 then ""
    else if IsSpace(s[0]) then
      assert TrimLeft(s) == TrimLeft(s[1..]);
      " " + CollapseSpaces(TrimLeft(s))
    else
      [s[0]] + CollapseSpaces(s[1..])
  }

  /** Every character allowed by the filter. */
  predicate AllAllowed(s: string) {
    forall i :: 0 <= i < |s| ==> Allowed(s[i])
  }

  /** Every character kept or a plain space. */
  predicate KeptOrBlank(s: string) {
    forall i :: 0 <= i < |s| ==> Kept(s[i]) || s[i] == ' '
  }

  /** No two whitespace characters next to each other. */
  predicate SingleSpaced(s: string) {
    forall i :: 0 <= i < |s| - 1 ==> !IsSpace(s[i]) || !IsSpace(s[i + 1])
  }

  /** Collapsing a filtered text leaves kept characters and single spaces,
      never two whitespace characters together. The result starts with
      whitespace exactly when s does. */
  lemma {:induction false} CollapseShape(s: string)
    requires AllAllowed(s)
    ensures var r := CollapseSpaces(s);
      && (|r| == 0 <==> |s| == 0)
      && (|r| > 0 ==> (IsSpace(r[0]) <==> IsSpace(s[0])))
      && KeptOrBlank(r)
      && SingleSpaced(r)
    decreases |s|
  {
    if |s| > 0 {
      var r := CollapseSpaces(s);
      if IsSpace(s[0]) {
        var t := TrimLeft(s);
        assert t == TrimLeft(s[1..]);
        assert AllAllowed(t) by {
          assert t == s[|s| - |t|..];
        }
        CollapseShape(t);
        var rest := CollapseSpaces(t);
        assert r == " " + rest;
        CollapseStep(' ', rest);
      } else {
        assert AllAllowed(s[1..]);
        CollapseShape(s[1..]);
        var rest := CollapseSpaces(s[1..]);
        assert r == [s[0]] + rest;
        AllowedNonSpaceIsKept(s[0]);
        CollapseStep(s[0], rest);
      }
    }
  }

  lemma AllowedNonSpaceIsKept(c: char)
    requires Allowed(c) && !IsSpace(c)
    ensures Kept(c)
  {
  }

  /** Putting a character in front of a single-spaced text. */
  lemma CollapseStep(c: char, rest: string)
    requires Kept(c) || c == ' '
    requires KeptOrBlank(rest) && SingleSpaced(rest)
    requires IsSpace(c) && |rest| > 0 ==> !IsSpace(rest[0])
    ensures KeptOrBlank([c] + rest) && SingleSpaced([c] + rest)
  {
    var r := [c] + rest;
    forall i | 1 <= i < |r|
      ensures r[i] == rest[i - 1]
    {
    }
  }

  /** The shape of clean_text's output: kept characters and single
      spaces, no two whitespace characters together, none at either end. */
  predicate Clean(t: string) {
    && KeptOrBlank(t)
    && SingleSpaced(t)
    && (|t| > 0 ==> !IsSpace(t[0]) && !IsSpace(t[|t| - 1]))
  }

  /** clean_text(text) */
  function CleanText(s: string): (r: string)
    ensures Clean(r)
  {
    var c := CollapseSpaces(FilterChars(StripTags(s)));
    CollapseShape(FilterChars(StripTags(s)));
    StripShape(c);
    Strip(c)
  }

  /** The stripped text is a contiguous piece of the original. */
  lemma StripInfix(c: string) returns (k: nat)
    ensures k + |Strip(c)| <= |c|
    ensures forall i :: 0 <= i < |Strip(c)| ==> Strip(c)[i] == c[k + i]
  {
    var l := TrimLeft(c);
    k := |c| - |l|;
    var r := Strip(c);
    assert r == TrimRight(l) && r == l[..|r|] && l == c[k..];
  }

  /** Stripping the ends of a single-spaced text of kept characters and
      blanks makes it clean. */
  lemma StripShape(c: string)
    requires KeptOrBlank(c) && SingleSpaced(c)
    ensures Clean(Strip(c))
  {
    var r := Strip(c);
    var k := StripInfix(c);
    assert KeptOrBlank(r) by {
      forall i | 0 <= i < |r|
        ensures Kept(r[i]) || r[i] == ' '
      {
        assert r[i] == c[k + i];
      }
    }
    assert SingleSpaced(r) by {
      forall i | 0 <= i < |r| - 1
        ensures !IsSpace(r[i]) || !IsSpace(r[i + 1])
      {
        assert r[i] == c[k + i] && r[i + 1] == c[k + i + 1];
      }
    }
  }

  /** s with everything but its kept characters removed. */
  function KeptChars(s: string): (r: string)
    ensures forall i :: 0 <= i < |r| ==> Kept(r[i])
    ensures |r| <= |s|
    decreases |s|
  {
    if |s| == 0 then ""
    else if Kept(s[0]) then [s[0]] + KeptChars(s[1..])
    else KeptChars(s[1..])
  }

  lemma {:induction false} RemoveSpacesOfAllSpace(s: string)
    requires AllSpace(s)
    ensures RemoveSpaces(s) == ""
    decreases |s|
  {
    if |s| > 0 {
      RemoveSpacesOfAllSpace(s[1..]);
    }
  }

  /** Blanking out the disallowed characters leaves exactly the kept ones
      as the non-whitespace content. */
  lemma {:induction false} FilterKeeps(s: string)
    ensures RemoveSpaces(FilterChars(s)) == KeptChars(s)
    decreases |s|
  {
    if |s| > 0 {
      var f := FilterChars(s);
      assert f[1..] == FilterChars(s[1..]);
      FilterKeeps(s[1..]);
      if Kept(s[0]) {
        KeptIsNotSpace(s[0]);
      }
    }
  }

  /** Collapsing whitespace runs keeps the non-whitespace content. */
  lemma {:induction false} CollapseKeeps(s: string)
    ensures RemoveSpaces(CollapseSpaces(s)) == RemoveSpaces(s)
    decreases |s|
  {
    if |s| > 0 {
      if IsSpace(s[0]) {
        var t := TrimLeft(s);
        var p := s[..|s| - |t|];
        assert s == p + t;
        RemoveSpacesAppend(p, t);
        RemoveSpacesOfAllSpace(p);
        assert t == TrimLeft(s[1..]);
        CollapseKeeps(t);
        RemoveSpacesAppend(" ", CollapseSpaces(t));
      } else {
        CollapseKeeps(s[1..]);
        RemoveSpacesAppend([s[0]], CollapseSpaces(s[1..]));
      }
    }
  }

  /** Stripping the ends keeps the non-whitespace content. */
  lemma StripKeeps(s: string)
    ensures RemoveSpaces(Strip(s)) == RemoveSpaces(s)
  {
    TrimLeftKeeps(s);
    TrimRightKeeps(TrimLeft(s));
  }

  lemma TrimLeftKeeps(s: string)
    ensures RemoveSpaces(TrimLeft(s)) == RemoveSpaces(s)
  {
    var l := TrimLeft(s);
    var blank := s[..|s| - |l|];
    assert s == blank + l;
    RemoveSpacesAppend(blank, l);
    RemoveSpacesOfAllSpace(blank);
  }

  lemma TrimRightKeeps(s: string)
    ensures RemoveSpaces(TrimRight(s)) == RemoveSpaces(s)
  {
    var r := TrimRight(s);
    var blank := s[|r|..];
    assert s == r + blank;
    RemoveSpacesAppend(r, blank);
    RemoveSpacesOfAllSpace(blank);
  }

  /** The kept characters outside the tags survive, in order, and nothing
      else but single spaces is left. */
  lemma CleanTextKeeps(s: string)
    ensures RemoveSpaces(CleanText(s)) == KeptChars(StripTags(s))
  {
    var f := FilterChars(StripTags(s));
    StripKeeps(CollapseSpaces(f));
    CollapseKeeps(f);
    FilterKeeps(StripTags(s));
  }

  /** A '<' that does not open a tag. */
  predicate NoTags(s: string) {
    forall i :: 0 <= i < |s| ==> TagLength(s[i..]) == 0
  }

  /** Without a '<', the tag pass changes nothing. */
  lemma {:induction false} StripTagsNoOpen(s: string)
    requires forall i :: 0 <= i < |s| ==> s[i] != '<'
    ensures StripTags(s) == s
    decreases |s|
  {
    if |s| > 0 {
      StripTagsNoOpen(s[1..]);
      assert s == [s[0]] + s[1..];
    }
  }

  /** clean_text leaves an already clean text as it is. */
  lemma CleanFixed(t: string)
    requires Clean(t)
    ensures CleanText(t) == t
  {
    assert StripTags(t) == t by {
      forall i | 0 <= i < |t|
        ensures t[i] != '<'
      {
        assert Kept(t[i]) || t[i] == ' ';
      }
      StripTagsNoOpen(t);
    }
    assert FilterChars(t) == t by {
      forall i | 0 <= i < |t|
        ensures Allowed(t[i])
      {
        assert Kept(t[i]) || t[i] == ' ';
      }
    }
    CollapseFixed(t);
    assert TrimLeft(t) == t;
    assert TrimRight(t) == t;
  }

  lemma {:induction false} CollapseFixed(t: string)
    requires KeptOrBlank(t) && SingleSpaced(t)
    ensures CollapseSpaces(t) == t
    decreases |t|
  {
    if |t| > 0 {
      var u := t[1..];
      assert KeptOrBlank(u) && SingleSpaced(u) by {
        forall i | 0 <= i < |u|
          ensures u[i] == t[i + 1]
        {
        }
      }
      CollapseFixed(u);
      if Kept(t[0]) {
        KeptIsNotSpace(t[0]);
        assert CollapseSpaces(t) == [t[0]] + u;
      } else {
        assert TrimLeft(t) == u by {
          if |u| > 0 {
            assert !IsSpace(u[0]) by {
              assert IsSpace(t[0]);
            }
          }
        }
        assert CollapseSpaces(t) == " " + u;
      }
      assert t == [t[0]] + u;
    }
  }

  /** clean_text is idempotent. */
  lemma CleanIdempotent(s: string)
    ensures CleanText(CleanText(s)) == CleanText(s)
  {
    CleanFixed(CleanText(s));
  }

  /** The tag pass leaves no tag behind. */
  lemma {:induction false} StripTagsLeavesNoTags(s: string)
    ensures NoTags(StripTags(s))
    decreases |s|
  {
    if |s| > 0 {
      var n := TagLength(s);
      var r := StripTags(s);
      if n > 0 {
        StripTagsLeavesNoTags(s[n..]);
        forall i | 0 <= i < |r|
          ensures TagLength(r[i..]) == 0
        {
          if i > 0 {
            assert r[i..] == StripTags(s[n..])[i - 1..];
          }
        }
      } else {
        StripTagsLeavesNoTags(s[1..]);
        var rest := StripTags(s[1..]);
        forall i | 0 <= i < |r|
          ensures TagLength(r[i..]) == 0
        {
          if i > 0 {
            assert r[i..] == rest[i - 1..];
          } else if s[0] == '<' {
            NoCloseAfter(s, rest);
          }
        }
      }
    }
  }

  /** When no tag starts at a '<', the rest of the text after the tag pass
      gives none either: its first character is '>' or it has no '>'. */
  lemma NoCloseAfter(s: string, rest: string)
    requires |s| > 0 && s[0] == '<' && TagLength(s) == 0
    requires rest == StripTags(s[1..])
    ensures TagLength([s[0]] + rest) == 0
  {
    var r := [s[0]] + rest;
    if |s| >= 2 && s[1] == '>' {
      StripTagsHead(s[1..]);
      assert r[1] == '>';
    } else {
      assert forall k :: 1 <= k < |s| ==> s[k] != '>';
      NoCloseStays(s[1..]);
      assert forall k :: 1 <= k < |r| ==> r[k] == rest[k - 1];
    }
  }

  /** A leading '>' passes through the tag pass. */
  lemma StripTagsHead(s: string)
    requires |s| > 0 && s[0] == '>'
    ensures |StripTags(s)| > 0 && StripTags(s)[0] == '>'
  {
  }

  /** The tag pass introduces no '>'. */
  lemma NoCloseStays(s: string)
    requires forall k :: 0 <= k < |s| ==> s[k] != '>'
    ensures forall k :: 0 <= k < |StripTags(s)| ==> StripTags(s)[k] != '>'
  {
  }

  /** A tag in the middle of a word becomes a space; a '<' with nothing
      before the next '>' is not a tag. */
  lemma StripTagsExamples()
    ensures StripTags("a<b>c") == "a c"
    ensures StripTags("<>") == "<>"
  {
    assert TagLength("a<b>c") == 0;
    assert "a<b>c"[1..] == "<b>c";
    assert "<b>c"[1..] == "b>c";
    assert FirstClose("b>c") == 1;
    assert TagLength("<b>c") == 3;
    assert "<b>c"[3..] == "c";
    assert StripTags("c") == "c";
    assert "<>"[1..] == ">";
    assert TagLength("<>") == 0;
    assert StripTags(">") == ">";
  }
}
