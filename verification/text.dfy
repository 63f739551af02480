/** Python's string primitives used throughout the tokenizer: whitespace,
    str.split(), ' '.join, ''.join, list(s) and str.strip(). All of them
    agree on one notion of whitespace, IsSpace. */
module Text {

  /** Python's whitespace: str.isspace(), the regex class \s on str patterns,
      and the default separator of str.split() and str.strip(). */
  predicate IsSpace(c: char) {
    || c == ' '
    || ('\t' <= c <= '\r')
    || ('\U{1C}' <= c <= '\U{1F}')
    || c == '\U{85}' || c == '\U{A0}' || c == '\U{1680}'
    || ('\U{2000}' <= c <= '\U{200A}')
    || c == '\U{2028}' || c == '\U{2029}' || c == '\U{202F}'
    || c == '\U{205F}' || c == '\U{3000}'
  }

  predicate NoSpace(s: string) {
    forall i :: 0 <= i < |s| ==> !IsSpace(s[i])
  }

  predicate AllSpace(s: string) {
    forall i :: 0 <= i < |s| ==> IsSpace(s[i])
  }

  /** A symbol is what str.split() can produce: non-empty, no whitespace. */
  predicate IsSymbol(s: string) {
    |s| > 0 && NoSpace(s)
  }

  predicate AllSymbols(ss: seq<string>) {
    forall i :: 0 <= i < |ss| ==> IsSymbol(ss[i])
  }

  /** ''.join(ss) */
  function Concat(ss: seq<string>): string
  {
    if |ss| == 0 then "" else ss[0] + Concat(ss[1..])
  }

  lemma {:induction false} ConcatAppend(a: seq<string>, b: seq<string>)
    ensures Concat(a + b) == Concat(a) + Concat(b)
    decreases |a|
  {
    if |a| == 0 {
      assert a + b == b;
    } else {
      assert (a + b)[1..] == a[1..] + b;
      ConcatAppend(a[1..], b);
    }
  }

  /** Concatenating single characters gives a string of the same length. */
  lemma {:induction false} ConcatOfSingles(ss: seq<string>)
    requires forall i :: 0 <= i < |ss| ==> |ss[i]| == 1
    ensures |Concat(ss)| == |ss|
    decreases |ss|
  {
    if |ss| > 0 {
      ConcatOfSingles(ss[1..]);
    }
  }

  /** list(s): one single-character string per character. */
  function Chars(s: string): seq<string>
  {
    seq(|s|, i requires 0 <= i < |s| => [s[i]])
  }

  lemma {:induction false} ConcatChars(s: string)
    ensures Concat(Chars(s)) == s
    decreases |s|
  {
    if |s| > 0 {
      assert Chars(s)[1..] == Chars(s[1..]);
      ConcatChars(s[1..]);
      assert s == [s[0]] + s[1..];
    }
  }

  /** The non-whitespace characters of s, in order. */
  function RemoveSpaces(s: string): (r: string)
    ensures NoSpace(r)
    ensures |r| <= |s|
    decreases |s|
  {
    if |s| == 0 then ""
    else if IsSpace(s[0]) then RemoveSpaces(s[1..])
    else [s[0]] + RemoveSpaces(s[1..])
  }

  lemma {:induction false} RemoveSpacesAppend(a: string, b: string)
    ensures RemoveSpaces(a + b) == RemoveSpaces(a) + RemoveSpaces(b)
    decreases |a|
  {
    if |a| == 0 {
      assert a + b == b;
    } else {
      assert (a + b)[0] == a[0];
      assert (a + b)[1..] == a[1..] + b;
      RemoveSpacesAppend(a[1..], b);
    }
  }

  lemma {:induction false} RemoveSpacesOfNoSpace(s: string)
    requires NoSpace(s)
    ensures RemoveSpaces(s) == s
    decreases |s|
  {
    if |s| > 0 {
      RemoveSpacesOfNoSpace(s[1..]);
      assert s == [s[0]] + s[1..];
    }
  }

  /** Length of the leading run of non-whitespace characters. */
  function ChunkLength(s: string): (n: nat)
    ensures n <= |s|
    ensures forall i :: 0 <= i < n ==> !IsSpace(s[i])
    ensures n < |s| ==> IsSpace(s[n])
    decreases |s|
  {
    if |s| == 0 || IsSpace(s[0]) then 0 else 1 + ChunkLength(s[1..])
  }

  /** str.split() with no separator: the maximal runs of non-whitespace,
      left to right; leading and trailing whitespace yield nothing. */
  function Split(s: string): (r: seq<string>)
    ensures AllSymbols(r)
    ensures forall k, j :: 0 <= k < |r| && 0 <= j < |r[k]| ==> r[k][j] in s
    decreases |s|
  {
    if |s| == 0 then []
    else if IsSpace(s[0]) then Split(s[1..])
    else
      var n := ChunkLength(s);
      [s[..n]] + Split(s[n..])
  }

  /** ''.join(s.split()) keeps exactly the non-whitespace characters. */
  lemma {:induction false} SplitSpelling(s: string)
    ensures Concat(Split(s)) == RemoveSpaces(s)
    decreases |s|
  {
    if |s| == 0 {
    } else if IsSpace(s[0]) {
      SplitSpelling(s[1..]);
    } else {
      var n := ChunkLength(s);
      var rest := Split(s[n..]);
      assert Split(s) == [s[..n]] + rest;
      assert ([s[..n]] + rest)[1..] == rest;
      SplitSpelling(s[n..]);
      assert s == s[..n] + s[n..];
      RemoveSpacesAppend(s[..n], s[n..]);
      RemoveSpacesOfNoSpace(s[..n]);
    }
  }

  /** s.split() is empty exactly when s is empty or all whitespace. */
  lemma {:induction false} SplitEmpty(s: string)
    ensures Split(s) == [] <==> AllSpace(s)
    decreases |s|
  {
    if |s| > 0 && IsSpace(s[0]) {
      SplitEmpty(s[1..]);
      assert AllSpace(s) <==> AllSpace(s[1..]);
    }
  }

  /** ' '.join(ss) */
  function JoinSpaced(ss: seq<string>): string
    decreases |ss|
  {
    if |ss| == 0 then ""
    else if |ss| == 1 then ss[0]
    else ss[0] + " " + JoinSpaced(ss[1..])
  }

  lemma {:induction false} ChunkLengthOfPrefix(w: string, tail: string)
    requires NoSpace(w)
    requires |tail| == 0 || IsSpace(tail[0])
    ensures ChunkLength(w + tail) == |w|
    decreases |w|
  {
    if |w| == 0 {
      assert w + tail == tail;
    } else {
      assert (w + tail)[1..] == w[1..] + tail;
      ChunkLengthOfPrefix(w[1..], tail);
    }
  }

  /** A symbol followed by whitespace or nothing is the first chunk. */
  lemma SplitOfChunk(w: string, tail: string)
    requires IsSymbol(w)
    requires |tail| == 0 || IsSpace(tail[0])
    ensures Split(w + tail) == [w] + Split(tail)
  {
    var s := w + tail;
    ChunkLengthOfPrefix(w, tail);
    assert s[..|w|] == w && s[|w|..] == tail;
    assert s[0] == w[0] && !IsSpace(w[0]);
  }

  /** A leading space separates nothing. */
  lemma SplitSkipsSpace(rest: string)
    ensures Split(" " + rest) == Split(rest)
  {
    assert (" " + rest)[1..] == rest;
  }

  /** Joining symbols with single spaces and splitting again gives them back. */
  lemma {:induction false} SplitJoin(ss: seq<string>)
    requires AllSymbols(ss)
    ensures Split(JoinSpaced(ss)) == ss
    decreases |ss|
  {
    if |ss| == 1 {
      assert Split(JoinSpaced(ss)) == ss by {
        SplitOfChunk(ss[0], "");
        assert ss[0] + "" == ss[0];
      }
    } else if |ss| > 1 {
      var rest := JoinSpaced(ss[1..]);
      assert Split(JoinSpaced(ss)) == [ss[0]] + Split(rest) by {
        assert JoinSpaced(ss) == ss[0] + (" " + rest);
        SplitOfChunk(ss[0], " " + rest);
        SplitSkipsSpace(rest);
      }
      assert Split(rest) == ss[1..] by {
        SplitJoin(ss[1..]);
      }
      assert ss == [ss[0]] + ss[1..];
    }
  }

  function TrimLeft(s: string): (r: string)
    ensures |r| <= |s| && r == s[|s| - |r|..]
    ensures AllSpace(s[..|s| - |r|])
    ensures |r| > 0 ==> !IsSpace(r[0])
    decreases |s|
  {
    if |s| > 0 && IsSpace(s[0]) then TrimLeft(s[1..]) else s
  }

  function TrimRight(s: string): (r: string)
    ensures |r| <= |s| && r == s[..|r|]
    ensures AllSpace(s[|r|..])
    ensures |r| > 0 ==> !IsSpace(r[|r| - 1])
    decreases |s|
  {
    if |s| > 0 && IsSpace(s[|s| - 1]) then TrimRight(s[..|s| - 1]) else s
  }

  /** str.strip() with no argument: drop leading and trailing whitespace. */
  function Strip(s: string): (r: string)
    ensures r == "" <==> AllSpace(s)
    ensures |r| > 0 ==> !IsSpace(r[0]) && !IsSpace(r[|r| - 1])
  {
    TrimRight(TrimLeft(s))
  }
}
