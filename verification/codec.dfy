/** HindiBPE.encode and HindiBPE.decode: replaying a merge table over a text,
    and the lossy reconstruction of text from tokens. */
module Codec {
  import opened Text
  import opened Words
  import opened PairStats
  import opened Merging
  import Training
  import Metrics
  import OrderedMaps

  /** A table merge_vocab can replay: every key a pair of symbols, no value
      with a backslash. Tables built by fit, and tables loaded from a model
      file, have this shape. */
  predicate Replayable(merges: MergeTable) {
    forall i :: 0 <= i < |merges| ==>
      IsSymbol(merges[i].0.0) && IsSymbol(merges[i].0.1) && NoBackslash(merges[i].1)
  }

  /** Every word a list of symbols (empty words allowed). */
  predicate SymbolWords(words: seq<Word>) {
    forall i :: 0 <= i < |words| ==> AllSymbols(words[i])
  }

  /** for pair, new_token in merges.items(): words = merge_vocab(words, pair, new_token) */
  function ApplyMerges(words: seq<Word>, merges: MergeTable): (r: seq<Word>)
    requires SymbolWords(words) && Replayable(merges)
    ensures |r| == |words| && SymbolWords(r)
    decreases |merges|
  {
    if |merges| == 0 then words
    else ApplyMerges(MergeVocab(words, merges[0].0, merges[0].1), merges[1..])
  }

  /** encode(text) */
  function Encode(merges: MergeTable, text: string): (r: seq<string>)
    requires Replayable(merges)
    ensures AllSymbols(r)
  {
    InitialWordsShape(text);
    FlattenAllSymbols(ApplyMerges(InitialWords(text), merges));
    Flatten(ApplyMerges(InitialWords(text), merges))
  }

  /** decode(tokens): the characters of the joined tokens, one space between
      each two of them. */
  function Decode(tokens: seq<string>): (r: string)
    ensures var c := Concat(tokens);
      && |r| == (if |c| == 0 then 0 else 2 * |c| - 1)
      && (forall i :: 0 <= i < |c| ==> r[2 * i] == c[i])
      && (forall i :: 0 <= i < |c| - 1 ==> r[2 * i + 1] == ' ')
  {
    SpacedChars(Concat(tokens));
    JoinSpaced(Chars(Concat(tokens)))
  }

  lemma {:induction false} FlattenAllSymbols(words: seq<Word>)
    requires SymbolWords(words)
    ensures AllSymbols(Flatten(words))
    decreases |words|
  {
    if |words| > 0 {
      FlattenAllSymbols(words[1..]);
    }
  }

  /** ' '.join(list(s)) interleaves the characters of s with single spaces. */
  lemma {:induction false} SpacedChars(s: string)
    ensures var r := JoinSpaced(Chars(s));
      && |r| == (if |s| == 0 then 0 else 2 * |s| - 1)
      && (forall i :: 0 <= i < |s| ==> r[2 * i] == s[i])
      && (forall i :: 0 <= i < |s| - 1 ==> r[2 * i + 1] == ' ')
      && RemoveSpaces(r) == RemoveSpaces(s)
    decreases |s|
  {
    var r := JoinSpaced(Chars(s));
    if |s| == 1 {
      assert r == [s[0]];
    } else if |s| > 1 {
      assert Chars(s)[1..] == Chars(s[1..]);
      SpacedChars(s[1..]);
      var rest := JoinSpaced(Chars(s[1..]));
      assert r == [s[0]] + " " + rest;
      forall i | 1 <= i < |s|
        ensures r[2 * i] == s[i]
      {
        assert r[2 * i] == rest[2 * (i - 1)];
      }
      forall i | 1 <= i < |s| - 1
        ensures r[2 * i + 1] == ' '
      {
        assert r[2 * i + 1] == rest[2 * (i - 1) + 1];
      }
      RemoveSpacesAppend([s[0]] + " ", rest);
      RemoveSpacesAppend([s[0]], " ");
      RemoveSpacesAppend([s[0]], s[1..]);
      assert s == [s[0]] + s[1..];
    }
  }

  /** Tables whose every value is the concatenation of its key, as fit
      builds them. */
  predicate ConcatTable(merges: MergeTable) {
    forall i :: 0 <= i < |merges| ==> Training.ConcatEntry(merges[i])
  }

  lemma ConcatTableReplayable(merges: MergeTable)
    requires ConcatTable(merges)
    ensures Replayable(merges)
  {
    forall i | 0 <= i < |merges|
      ensures NoBackslash(merges[i].1)
    {
      assert Training.ConcatEntry(merges[i]);
    }
  }

  /** Replaying a concatenating table keeps the words well formed and their
      spelling unchanged. */
  lemma {:induction false} ApplyMergesSpelling(words: seq<Word>, merges: MergeTable)
    requires WellFormed(words) && ConcatTable(merges)
    ensures Replayable(merges)
    ensures WellFormed(ApplyMerges(words, merges))
    ensures Spelling(ApplyMerges(words, merges)) == Spelling(words)
    decreases |merges|
  {
    ConcatTableReplayable(merges);
    if |merges| > 0 {
      var pair := merges[0].0;
      assert Training.ConcatEntry(merges[0]);
      MergeVocabEffect(words, pair, {});
      ApplyMergesSpelling(MergeVocab(words, pair, merges[0].1), merges[1..]);
    }
  }

  /** Replaying a table whose values are symbols of vocab never leaves
      vocab. */
  lemma {:induction false} ApplyMergesInVocab(words: seq<Word>, merges: MergeTable, vocab: set<string>)
    requires SymbolWords(words) && Replayable(merges) && SymbolsIn(words, vocab)
    requires forall i :: 0 <= i < |merges| ==> IsSymbol(merges[i].1) && merges[i].1 in vocab
    ensures SymbolsIn(ApplyMerges(words, merges), vocab)
    decreases |merges|
  {
    if |merges| > 0 {
      var pair, t := merges[0].0, merges[0].1;
      var next := MergeVocab(words, pair, t);
      forall i, j | 0 <= i < |next| && 0 <= j < |next[i]|
        ensures next[i][j] in vocab
      {
        MergeWordIsReplace(words[i], pair.0, pair.1, t);
        assert next[i][j] in ReplacePairs(words[i], pair.0, pair.1, t);
      }
      ApplyMergesInVocab(next, merges[1..], vocab);
    }
  }

  /** Encoding with a concatenating table loses no character: the tokens
      spell the text without its whitespace. */
  lemma EncodeSpelling(merges: MergeTable, text: string)
    requires ConcatTable(merges)
    ensures Replayable(merges)
    ensures Concat(Encode(merges, text)) == RemoveSpaces(text)
  {
    InitialWordsShape(text);
    ApplyMergesSpelling(InitialWords(text), merges);
  }

  /** Every token encode produces is in vocab, provided every non-whitespace
      character of the text and every table value is. */
  lemma EncodeInVocab(merges: MergeTable, text: string, vocab: set<string>)
    requires Replayable(merges)
    requires forall i :: 0 <= i < |merges| ==> IsSymbol(merges[i].1) && merges[i].1 in vocab
    requires forall i :: 0 <= i < |text| && !IsSpace(text[i]) ==> [text[i]] in vocab
    ensures forall k :: 0 <= k < |Encode(merges, text)| ==> Encode(merges, text)[k] in vocab
  {
    var words := InitialWords(text);
    InitialWordsShape(text);
    forall i, j | 0 <= i < |words| && 0 <= j < |words[i]|
      ensures words[i][j] in vocab
    {
      var x := words[i][j];
      assert IsSymbol(x);
      assert x == [x[0]];
      var k :| 0 <= k < |text| && text[k] == x[0];
      assert !IsSpace(text[k]);
    }
    ApplyMergesInVocab(words, merges, vocab);
    FlattenSymbols(ApplyMerges(words, merges), vocab);
  }

  /** A table and vocabulary as fit leaves them encode the training text,
      or any text over the same characters, into vocabulary tokens that
      spell it. */
  lemma TrainedTableEncodes(merges: MergeTable, vocab: set<string>, text: string)
    requires Training.TableFacts(merges, vocab)
    requires Alphabet(InitialWords(text)) <= vocab
    ensures Replayable(merges)
    ensures forall k :: 0 <= k < |Encode(merges, text)| ==> Encode(merges, text)[k] in vocab
    ensures Concat(Encode(merges, text)) == RemoveSpaces(text)
  {
    assert ConcatTable(merges);
    ConcatTableReplayable(merges);
    forall i | 0 <= i < |merges|
      ensures IsSymbol(merges[i].1) && merges[i].1 in vocab
    {
      var e := merges[i];
      assert Training.ConcatEntry(e);
      assert forall j :: 0 <= j < |e.1| ==> e.1[j] == (if j < |e.0.0| then e.0.0[j] else e.0.1[j - |e.0.0|]);
    }
    var words := InitialWords(text);
    InitialWordsShape(text);
    assert SymbolsIn(words, vocab) by {
      forall i, j | 0 <= i < |words| && 0 <= j < |words[i]|
        ensures words[i][j] in vocab
      {
        assert words[i][j] in Alphabet(words);
      }
    }
    ApplyMergesInVocab(words, merges, vocab);
    FlattenSymbols(ApplyMerges(words, merges), vocab);
    EncodeSpelling(merges, text);
  }

  /** Replaying a table with one more entry at the end is replaying the
      table and then merging that entry's pair once more. */
  lemma {:induction false} ApplyMergesSnoc(words: seq<Word>, es: MergeTable, e: (Pair, string))
    requires SymbolWords(words) && Replayable(es)
    requires IsSymbol(e.0.0) && IsSymbol(e.0.1) && NoBackslash(e.1)
    ensures Replayable(es + [e])
    ensures ApplyMerges(words, es + [e]) == MergeVocab(ApplyMerges(words, es), e.0, e.1)
    decreases |es|
  {
    assert forall i :: 0 <= i < |es| ==> (es + [e])[i] == es[i];
    assert (es + [e])[|es|] == e;
    if |es| > 0 {
      var next := MergeVocab(words, es[0].0, es[0].1);
      assert (es + [e])[1..] == es[1..] + [e];
      ApplyMergesSnoc(next, es[1..], e);
    }
  }

  /** The assignment a Round makes is replayable, and merging it gives the
      round's resulting words. */
  lemma RoundPick(w: seq<Word>, w': seq<Word>, e: Metrics.TokenEntry, minFreq: int)
    requires Training.Round(w, w', e, minFreq)
    ensures var p := Training.Pick(w);
      && IsSymbol(p.0.0) && IsSymbol(p.0.1) && NoBackslash(p.1)
      && SymbolWords(w) && w' == MergeVocab(w, p.0, p.1)
  {
  }

  /** The assignments of the first k iterations are those of the first k-1
      followed by that of iteration k-1. */
  lemma PicksSnoc(trace: seq<seq<Word>>, k: nat)
    requires 0 < k <= |trace|
    ensures Training.Picks(trace[..k]) == Training.Picks(trace[..k - 1]) + [Training.Pick(trace[k - 1])]
  {
    assert trace[..k][..k - 1] == trace[..k - 1];
  }

  /** The words fit ends on are the table it builds replayed over the words
      it started from: after k logged rounds, replaying the assignments of
      those rounds, in order, over trace[0] gives trace[k]. */
  lemma {:induction false} ReplayTrace(trace: seq<seq<Word>>, l: Metrics.Logger, minFreq: int, k: nat)
    requires Training.Rounds(trace, l, minFreq) && k <= |l.tokenLogs|
    requires SymbolWords(trace[0])
    ensures Replayable(Training.Picks(trace[..k]))
    ensures ApplyMerges(trace[0], Training.Picks(trace[..k])) == trace[k]
    decreases k
  {
    if k == 0 {
      assert trace[..0] == [];
    } else {
      ReplayTrace(trace, l, minFreq, k - 1);
      PicksSnoc(trace, k);
      RoundPick(trace[k - 1], trace[k], l.tokenLogs[k - 1], minFreq);
      ApplyMergesSnoc(trace[0], Training.Picks(trace[..k - 1]), Training.Pick(trace[k - 1]));
    }
  }

  /** encode on the training text reproduces fit's segmentation: when no
      pair was merged twice, the table fit returns encodes the text into
      exactly the tokens of the words fit stopped on. */
  lemma FitEncodesTrainingText(b: Training.Bpe, trace: seq<seq<Word>>, text: string, minFreq: int)
    requires Training.GreedyRun(b, trace, InitialWords(text), minFreq)
    requires OrderedMaps.DistinctKeys(Training.Picks(trace[..|b.metrics.tokenLogs|]))
    ensures Replayable(b.merges)
    ensures Encode(b.merges, text) == Flatten(trace[|b.metrics.tokenLogs|])
  {
    var n := |b.metrics.tokenLogs|;
    InitialWordsShape(text);
    ReplayTrace(trace, b.metrics, minFreq, n);
    var picks := Training.Picks(trace[..n]);
    assert [] + picks == picks;
    OrderedMaps.PutAllFresh([], picks);
  }

  /** With an empty table encode is list(text) without the whitespace. */
  lemma EncodeEmptyTable(text: string)
    ensures Encode([], text) == Chars(RemoveSpaces(text))
  {
    InitialWordsShape(text);
    var flat := Flatten(InitialWords(text));
    FlattenSingles(InitialWords(text));
    SinglesAreChars(flat);
  }

  lemma {:induction false} FlattenSingles(words: seq<Word>)
    requires forall i, j :: 0 <= i < |words| && 0 <= j < |words[i]| ==> |words[i][j]| == 1
    ensures forall k :: 0 <= k < |Flatten(words)| ==> |Flatten(words)[k]| == 1
    decreases |words|
  {
    if |words| > 0 {
      assert forall i, j :: 0 <= i < |words[1..]| && 0 <= j < |words[1..][i]| ==>
        words[1..][i][j] == words[i + 1][j];
      FlattenSingles(words[1..]);
    }
  }

  lemma {:induction false} SinglesAreChars(ss: seq<string>)
    requires forall i :: 0 <= i < |ss| ==> |ss[i]| == 1
    ensures Chars(Concat(ss)) == ss
    decreases |ss|
  {
    if |ss| > 0 {
      SinglesAreChars(ss[1..]);
      var c := Concat(ss);
      assert c == ss[0] + Concat(ss[1..]);
      assert c[1..] == Concat(ss[1..]);
      assert Chars(c)[1..] == Chars(c[1..]);
      assert Chars(c)[0] == [c[0]] == ss[0];
    }
  }

  /** decode keeps every non-whitespace character of the tokens, in order. */
  lemma DecodeKeepsCharacters(tokens: seq<string>)
    ensures RemoveSpaces(Decode(tokens)) == RemoveSpaces(Concat(tokens))
  {
    SpacedChars(Concat(tokens));
  }

  /** decode(encode(text)) with its spaces removed is the text with its
      spaces removed; for a whitespace-free text it is the text itself. */
  lemma RoundTrip(merges: MergeTable, text: string)
    requires ConcatTable(merges)
    ensures Replayable(merges)
    ensures RemoveSpaces(Decode(Encode(merges, text))) == RemoveSpaces(text)
    ensures NoSpace(text) ==> RemoveSpaces(Decode(Encode(merges, text))) == text
  {
    EncodeSpelling(merges, text);
    DecodeKeepsCharacters(Encode(merges, text));
    RemoveSpacesOfNoSpace(RemoveSpaces(text));
    if NoSpace(text) {
      RemoveSpacesOfNoSpace(text);
    }
  }
}
