/** merge_vocab: replacing an adjacent symbol pair by a new symbol.

    The Python code joins each word with single spaces, substitutes the
    regex (?<!\S)a b(?!\S) by the new token and splits the result again.
    Because symbols are non-empty and free of whitespace, the look-around
    anchors only match whole symbols, and re.sub scans left to right
    without overlap; ReplacePairs is that substitution at the symbol level. */
module Merging {
  import opened Text
  import opened Words
  import opened PairStats

  /** An ordered merge table: (pair, new token) entries in insertion order. */
  type MergeTable = seq<(Pair, string)>

  /** re.sub reads backslashes in its replacement as escapes; a new token
      free of them is inserted literally. */
  predicate NoBackslash(s: string) {
    '\\' !in s
  }

  /** Left to right, replace each occurrence of a immediately followed by b
      with t and resume after it. */
  function ReplacePairs(w: Word, a: string, b: string, t: string): (r: Word)
    ensures |r| <= |w|
    ensures |w| > 0 ==> |r| > 0
    ensures forall x :: x in r ==> x == t || x in w
    decreases |w|
  {
    if |w| < 2 then w
    else if w[0] == a && w[1] == b then [t] + ReplacePairs(w[2..], a, b, t)
    else [w[0]] + ReplacePairs(w[1..], a, b, t)
  }

  /** One word of merge_vocab: the substituted, space-joined word split
      again on whitespace. */
  function MergeWord(w: Word, a: string, b: string, t: string): (r: Word)
    requires AllSymbols(w) && IsSymbol(a) && IsSymbol(b) && NoBackslash(t)
    ensures AllSymbols(r)
  {
    Split(JoinSpaced(ReplacePairs(w, a, b, t)))
  }

  /** merge_vocab(words, pair, new_token) */
  function MergeVocab(words: seq<Word>, pair: Pair, t: string): (r: seq<Word>)
    requires forall i :: 0 <= i < |words| ==> AllSymbols(words[i])
    requires IsSymbol(pair.0) && IsSymbol(pair.1) && NoBackslash(t)
    ensures |r| == |words|
    ensures forall i :: 0 <= i < |r| ==> AllSymbols(r[i])
  {
    seq(|words|, i requires 0 <= i < |words| => MergeWord(words[i], pair.0, pair.1, t))
  }

  /** When the new token is itself a symbol, splitting undoes the joining
      and merge_vocab is exactly the symbol-level replacement. */
  lemma MergeWordIsReplace(w: Word, a: string, b: string, t: string)
    requires AllSymbols(w) && IsSymbol(a) && IsSymbol(b) && NoBackslash(t)
    requires IsSymbol(t)
    ensures MergeWord(w, a, b, t) == ReplacePairs(w, a, b, t)
  {
    var r := ReplacePairs(w, a, b, t);
    forall k | 0 <= k < |r| ensures IsSymbol(r[k]) {
      assert r[k] in r;
    }
    SplitJoin(r);
  }

  /** A word without the pair is left exactly as it is; in particular a
      longer symbol that merely contains a + b is never split. */
  lemma {:induction false} ReplacePairsAbsent(w: Word, a: string, b: string, t: string)
    requires AdjacentCount(w, (a, b)) == 0
    ensures ReplacePairs(w, a, b, t) == w
    decreases |w|
  {
    if |w| >= 2 {
      ReplacePairsAbsent(w[1..], a, b, t);
      assert w == [w[0]] + w[1..];
    }
  }

  /** Each replacement removes one symbol, there is at least one replacement
      when the pair occurs, and never more than its number of occurrences. */
  lemma {:induction false} ReplacePairsLength(w: Word, a: string, b: string, t: string)
    ensures |w| - AdjacentCount(w, (a, b)) <= |ReplacePairs(w, a, b, t)|
    ensures AdjacentCount(w, (a, b)) > 0 ==> |ReplacePairs(w, a, b, t)| < |w|
    decreases |w|
  {
    if |w| >= 2 {
      if w[0] == a && w[1] == b {
        ReplacePairsLength(w[2..], a, b, t);
        assert w[1..][1..] == w[2..];
      } else {
        ReplacePairsLength(w[1..], a, b, t);
      }
    }
  }

  /** With t = a + b the replacement never changes the characters spelled. */
  lemma {:induction false} ReplacePairsSpelling(w: Word, a: string, b: string)
    ensures Concat(ReplacePairs(w, a, b, a + b)) == Concat(w)
    decreases |w|
  {
    var t := a + b;
    if |w| >= 2 {
      if w[0] == a && w[1] == b {
        ReplacePairsSpelling(w[2..], a, b);
        assert ([t] + ReplacePairs(w[2..], a, b, t))[1..] == ReplacePairs(w[2..], a, b, t);
        assert w[1..][1..] == w[2..];
      } else {
        ReplacePairsSpelling(w[1..], a, b);
        assert ([w[0]] + ReplacePairs(w[1..], a, b, t))[1..] == ReplacePairs(w[1..], a, b, t);
      }
    }
  }

  /** The first symbol after replacement. */
  lemma ReplacePairsHead(w: Word, a: string, b: string, t: string)
    requires |w| > 0
    ensures ReplacePairs(w, a, b, t)[0] == (if |w| >= 2 && w[0] == a && w[1] == b then t else w[0])
  {
  }

  /** The scan is exhaustive: when t differs from a and b, no occurrence of
      the pair is left behind. */
  lemma {:induction false} ReplacePairsExhaustive(w: Word, a: string, b: string, t: string)
    requires t != a && t != b
    ensures AdjacentCount(ReplacePairs(w, a, b, t), (a, b)) == 0
    decreases |w|
  {
    if |w| >= 2 {
      var r := ReplacePairs(w, a, b, t);
      if w[0] == a && w[1] == b {
        ReplacePairsExhaustive(w[2..], a, b, t);
        assert r[1..] == ReplacePairs(w[2..], a, b, t);
      } else {
        ReplacePairsExhaustive(w[1..], a, b, t);
        assert r[1..] == ReplacePairs(w[1..], a, b, t);
        if |r| >= 2 {
          ReplacePairsHead(w[1..], a, b, t);
          assert w[1..][1..] == w[2..];
        }
      }
    }
  }

  /** Symbols made only of symbols without backslashes have none. */
  predicate NoBackslashes(words: seq<Word>) {
    forall i, j :: 0 <= i < |words| && 0 <= j < |words[i]| ==> NoBackslash(words[i][j])
  }

  /** What merge_vocab does to the training words when the new token is the
      concatenation of the pair: same number of words, all still non-empty
      symbols, spelling unchanged, every symbol either old or the new token,
      and the token count drops by at least one and at most the pair's
      frequency. */
  lemma MergeVocabEffect(words: seq<Word>, pair: Pair, vocab: set<string>)
    requires WellFormed(words)
    requires IsSymbol(pair.0) && IsSymbol(pair.1) && NoBackslash(pair.0 + pair.1)
    ensures var r := MergeVocab(words, pair, pair.0 + pair.1);
      && WellFormed(r)
      && Spelling(r) == Spelling(words)
      && (SymbolsIn(words, vocab) && pair.0 + pair.1 in vocab ==> SymbolsIn(r, vocab))
      && (NoBackslashes(words) ==> NoBackslashes(r))
      && TokenCount(words) - PairCount(words, pair) <= TokenCount(r) <= TokenCount(words)
      && (PairCount(words, pair) > 0 ==> TokenCount(r) < TokenCount(words))
  {
    var t := pair.0 + pair.1;
    var r := MergeVocab(words, pair, t);
    assert IsSymbol(t);
    forall i | 0 <= i < |words|
      ensures r[i] == ReplacePairs(words[i], pair.0, pair.1, t)
    {
      MergeWordIsReplace(words[i], pair.0, pair.1, t);
    }
    MergeVocabEffectRec(words, pair, vocab, r);
  }

  lemma {:induction false} MergeVocabEffectRec(words: seq<Word>, pair: Pair, vocab: set<string>, r: seq<Word>)
    requires WellFormed(words)
    requires IsSymbol(pair.0 + pair.1) && NoBackslash(pair.0 + pair.1)
    requires |r| == |words|
    requires forall i :: 0 <= i < |words| ==> r[i] == ReplacePairs(words[i], pair.0, pair.1, pair.0 + pair.1)
    ensures WellFormed(r)
    ensures Spelling(r) == Spelling(words)
    ensures SymbolsIn(words, vocab) && pair.0 + pair.1 in vocab ==> SymbolsIn(r, vocab)
    ensures NoBackslashes(words) ==> NoBackslashes(r)
    ensures TokenCount(words) - PairCount(words, pair) <= TokenCount(r) <= TokenCount(words)
    ensures PairCount(words, pair) > 0 ==> TokenCount(r) < TokenCount(words)
    decreases |words|
  {
    var t := pair.0 + pair.1;
    if |words| > 0 {
      var w, rest, rw, rrest := words[0], words[1..], r[0], r[1..];
      assert WellFormed(rest) by {
        forall i | 0 <= i < |rest|
          ensures rest[i] == words[i + 1]
        {
        }
      }
      assert forall i :: 0 <= i < |rest| ==> rrest[i] == ReplacePairs(rest[i], pair.0, pair.1, t) by {
        forall i | 0 <= i < |rest|
          ensures rest[i] == words[i + 1] && rrest[i] == r[i + 1]
        {
        }
      }
      MergeVocabEffectRec(rest, pair, vocab, rrest);
      assert TokenCount(words) - PairCount(words, pair) <= TokenCount(r) <= TokenCount(words)
          && (PairCount(words, pair) > 0 ==> TokenCount(r) < TokenCount(words)) by {
        ReplacePairsLength(w, pair.0, pair.1, t);
        assert TokenCount(r) == |rw| + TokenCount(rrest);
        assert TokenCount(words) == |w| + TokenCount(rest);
        assert PairCount(words, pair) == AdjacentCount(w, pair) + PairCount(rest, pair);
      }
      assert Spelling(r) == Spelling(words) by {
        ReplacePairsSpelling(w, pair.0, pair.1);
        assert Flatten(r) == rw + Flatten(rrest);
        assert Flatten(words) == w + Flatten(rest);
        ConcatAppend(rw, Flatten(rrest));
        ConcatAppend(w, Flatten(rest));
      }
      forall i, j | 0 <= i < |r| && 0 <= j < |r[i]|
        ensures IsSymbol(r[i][j])
        ensures r[i][j] == t || r[i][j] in words[i]
      {
        assert r[i][j] in r[i];
      }
    }
  }

  lemma MergeVocabSingle(w: Word, pair: Pair, t: string)
    requires AllSymbols(w) && IsSymbol(pair.0) && IsSymbol(pair.1) && IsSymbol(t) && NoBackslash(t)
    ensures MergeVocab([w], pair, t) == [ReplacePairs(w, pair.0, pair.1, t)]
  {
    MergeWordIsReplace(w, pair.0, pair.1, t);
  }

  /** The merge from the test suite: ('न', 'म') -> 'नम' on ['न', 'म', 'स्', 'ते']. */
  lemma MergeVocabExample()
    ensures MergeVocab([["न", "म", "स्", "ते"]], ("न", "म"), "नम") == [["नम", "स्", "ते"]]
  {
    var w: Word := ["न", "म", "स्", "ते"];
    assert AllSymbols(w) && IsSymbol("नम") by {
      assert IsSymbol("न") && IsSymbol("म") && IsSymbol("स्") && IsSymbol("ते");
    }
    assert ReplacePairs(w, "न", "म", "नम") == ["नम", "स्", "ते"] by {
      assert w[2..] == ["स्", "ते"];
      assert ReplacePairs(w[2..], "न", "म", "नम") == ["स्", "ते"];
    }
    MergeVocabSingle(w, ("न", "म"), "नम");
  }

  /** Matches do not overlap: ['x', 'x', 'x'] with ('x', 'x') becomes ['xx', 'x']. */
  lemma NonOverlappingExample()
    ensures MergeVocab([["x", "x", "x"]], ("x", "x"), "xx") == [["xx", "x"]]
  {
    var w: Word := ["x", "x", "x"];
    assert ReplacePairs(w, "x", "x", "xx") == ["xx", "x"] by {
      assert w[2..] == ["x"];
      assert ReplacePairs(w[2..], "x", "x", "xx") == ["x"];
    }
    MergeVocabSingle(w, ("x", "x"), "xx");
  }
}
