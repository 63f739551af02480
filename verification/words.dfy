/** Words: the whitespace-delimited chunks of a text, each held as the
    sequence of symbols it currently consists of. */
module Words {
  import opened Text

  type Word = seq<string>

  /** [[c for c in word] for word in text.split()], the starting point of
      both fit and encode. */
  function InitialWords(text: string): seq<Word>
  {
    var chunks := Split(text);
    seq(|chunks|, i requires 0 <= i < |chunks| => Chars(chunks[i]))
  }

  /** Every word non-empty and made of symbols. */
  predicate WellFormed(words: seq<Word>) {
    forall i :: 0 <= i < |words| ==> |words[i]| > 0 && AllSymbols(words[i])
  }

  /** [token for word in words for token in word] */
  function Flatten(words: seq<Word>): seq<string>
    decreases |words|
  {
    if |words| == 0 then [] else words[0] + Flatten(words[1..])
  }

  /** sum(len(word) for word in words) */
  function TokenCount(words: seq<Word>): nat
    decreases |words|
  {
    if |words| == 0 then 0 else |words[0]| + TokenCount(words[1..])
  }

  /** The text the words spell when all their symbols are concatenated. */
  function Spelling(words: seq<Word>): string
  {
    Concat(Flatten(words))
  }

  /** set(char for word in words for char in word), and more generally every
      symbol occurring in the words. */
  function Alphabet(words: seq<Word>): set<string>
  {
    set i, j | 0 <= i < |words| && 0 <= j < |words[i]| :: words[i][j]
  }

  predicate SymbolsIn(words: seq<Word>, vocab: set<string>) {
    forall i, j :: 0 <= i < |words| && 0 <= j < |words[i]| ==> words[i][j] in vocab
  }

  /** The starting words cover exactly the non-whitespace characters of the
      text, one single-character symbol each, and there are none exactly
      when the text is blank. */
  lemma InitialWordsShape(text: string)
    ensures WellFormed(InitialWords(text))
    ensures forall i, j :: 0 <= i < |InitialWords(text)| && 0 <= j < |InitialWords(text)[i]| ==>
              |InitialWords(text)[i][j]| == 1
    ensures forall i, j :: 0 <= i < |InitialWords(text)| && 0 <= j < |InitialWords(text)[i]| ==>
              InitialWords(text)[i][j][0] in text
    ensures Spelling(InitialWords(text)) == RemoveSpaces(text)
    ensures InitialWords(text) == [] <==> AllSpace(text)
  {
    var chunks := Split(text);
    var words := InitialWords(text);
    forall i | 0 <= i < |words|
      ensures |words[i]| > 0 && AllSymbols(words[i])
    {
      assert IsSymbol(chunks[i]);
      forall j | 0 <= j < |words[i]|
        ensures IsSymbol(words[i][j])
      {
        assert words[i][j] == [chunks[i][j]];
      }
    }
    SplitEmpty(text);
    SplitSpelling(text);
    SpellingOfExploded(chunks);
  }

  lemma {:induction false} SpellingOfExploded(chunks: seq<string>)
    ensures Spelling(seq(|chunks|, i requires 0 <= i < |chunks| => Chars(chunks[i]))) == Concat(chunks)
    decreases |chunks|
  {
    var words := seq(|chunks|, i requires 0 <= i < |chunks| => Chars(chunks[i]));
    if |chunks| > 0 {
      var tail := seq(|chunks| - 1, i requires 0 <= i < |chunks| - 1 => Chars(chunks[1..][i]));
      assert words[1..] == tail;
      SpellingOfExploded(chunks[1..]);
      ConcatAppend(words[0], Flatten(words[1..]));
      ConcatChars(chunks[0]);
    }
  }

  lemma {:induction false} FlattenAppend(a: seq<Word>, b: seq<Word>)
    ensures Flatten(a + b) == Flatten(a) + Flatten(b)
    decreases |a|
  {
    if |a| == 0 {
      assert a + b == b;
    } else {
      assert (a + b)[1..] == a[1..] + b;
      FlattenAppend(a[1..], b);
    }
  }

  /** The token count is the length of the flattened token list. */
  lemma {:induction false} TokenCountIsLength(words: seq<Word>)
    ensures TokenCount(words) == |Flatten(words)|
    decreases |words|
  {
    if |words| > 0 {
      TokenCountIsLength(words[1..]);
    }
  }

  /** Every token of the flattened list comes from some word. */
  lemma {:induction false} FlattenSymbols(words: seq<Word>, vocab: set<string>)
    requires SymbolsIn(words, vocab)
    ensures forall k :: 0 <= k < |Flatten(words)| ==> Flatten(words)[k] in vocab
    decreases |words|
  {
    if |words| > 0 {
      assert SymbolsIn(words[1..], vocab) by {
        forall i, j | 0 <= i < |words[1..]| && 0 <= j < |words[1..][i]|
          ensures words[1..][i][j] in vocab
        {
          assert words[1..][i] == words[i + 1];
        }
      }
      FlattenSymbols(words[1..], vocab);
    }
  }

  /** fit's original_tokens is the number of non-whitespace characters. */
  lemma InitialTokenCount(text: string)
    ensures TokenCount(InitialWords(text)) == |RemoveSpaces(text)|
  {
    var words := InitialWords(text);
    InitialWordsShape(text);
    TokenCountIsLength(words);
    assert SymbolsIn(words, Alphabet(words));
    FlattenSymbols(words, Alphabet(words));
    var flat := Flatten(words);
    forall k | 0 <= k < |flat|
      ensures |flat[k]| == 1
    {
      assert flat[k] in Alphabet(words);
    }
    ConcatOfSingles(flat);
  }

  /** Non-empty words hold at least one token each. */
  lemma {:induction false} TokenCountAtLeastWords(words: seq<Word>)
    requires WellFormed(words)
    ensures TokenCount(words) >= |words|
    decreases |words|
  {
    if |words| > 0 {
      TokenCountAtLeastWords(words[1..]);
    }
  }
}
