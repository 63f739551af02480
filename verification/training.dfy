/** HindiBPE construction and fit: greedy pair merging until the vocabulary
    reaches its target size or no pair is frequent enough. */
module Training {
  import opened Results
  import opened Text
  import opened Words
  import opened OrderedMaps
  import opened PairStats
  import opened Merging
  import opened Metrics
  import Tokenizers

  /** A HindiBPE instance: target size, merge table, vocabulary, metrics. */
  datatype Bpe = Bpe(vocabSize: int, merges: MergeTable, vocab: set<string>, metrics: Logger)

  /** HindiBPE(vocab_size): the base-class validation, then an empty table
      and a fresh logger. */
  function NewBpe(vocabSize: int): (r: Result<Bpe>)
    ensures r.Failure? <==> vocabSize <= 0
    ensures r.Failure? ==> r.error == InvalidInput
    ensures r.Success? ==> r.value.vocabSize == vocabSize && r.value.merges == [] && r.value.vocab == {}
    ensures r.Success? ==> |r.value.metrics.tokenLogs| == 0 && |r.value.metrics.compressionLogs| == 0
  {
    match Tokenizers.NewTokenizer(Tokenizers.Base, vocabSize)
    case Failure(e) => Failure(e)
    case Success(t) => Success(Bpe(t.vocabSize, [], t.vocab, NewLogger()))
  }

  /** A merge-table entry as fit creates it: a pair of symbols mapped to
      their concatenation. */
  predicate ConcatEntry(e: (Pair, string)) {
    IsSymbol(e.0.0) && IsSymbol(e.0.1) && e.1 == e.0.0 + e.0.1 && NoBackslash(e.1)
  }

  /** Every entry is a ConcatEntry whose token is in the vocabulary. */
  predicate TableFacts(merges: MergeTable, vocab: set<string>) {
    && DistinctKeys(merges)
    && forall i :: 0 <= i < |merges| ==> ConcatEntry(merges[i]) && merges[i].1 in vocab
  }

  /** fit accepts the most common pair of these words: there is a pair,
      and its count reaches min_freq. */
  predicate Accepts(words: seq<Word>, minFreq: int) {
    MostCommonPair(words).Some? && MostCommonPair(words).value.1 >= minFreq
  }

  /** fit accepts no merge at all from these starting words: the vocabulary
      is already big enough, there is no pair, or the most common pair is
      below the frequency floor. */
  predicate NoFirstMerge(words: seq<Word>, vocabSize: int, minFreq: int) {
    |Alphabet(words)| >= vocabSize || !Accepts(words, minFreq)
  }

  /** What one logged iteration of fit records. */
  predicate EntryFacts(e: TokenEntry, c: CompressionEntry, original: nat, vocabSize: int, minFreq: int, vocab: set<string>) {
    && 0 < e.vocabSize <= vocabSize
    && e.newToken in vocab
    && e.frequency >= minFreq && e.frequency > 0
    && 0 < e.tokens < original
    && c.compressionRatio == CompressionRatio(original, e.tokens)
  }

  /** What the logs of fit record, iteration by iteration. */
  predicate LogFacts(l: Logger, original: nat, vocabSize: int, minFreq: int, vocab: set<string>) {
    && Parallel(l) && NumberedFromZero(l) && TokensDecreasing(l)
    && (forall i :: 0 <= i < |l.tokenLogs| ==>
          EntryFacts(l.tokenLogs[i], l.compressionLogs[i], original, vocabSize, minFreq, vocab))
    && (|l.tokenLogs| > 0 ==> original - l.tokenLogs[0].tokens <= l.tokenLogs[0].frequency)
    && (forall i :: 0 < i < |l.tokenLogs| ==>
          l.tokenLogs[i - 1].tokens - l.tokenLogs[i].tokens <= l.tokenLogs[i].frequency)
  }

  /** The entries of the old logs survive an append unchanged. */
  lemma LogKeeps(l: Logger, m: TrainingMetrics)
    ensures forall i :: 0 <= i < |l.tokenLogs| ==> LogIteration(l, m).tokenLogs[i] == l.tokenLogs[i]
    ensures forall i :: 0 <= i < |l.compressionLogs| ==>
      LogIteration(l, m).compressionLogs[i] == l.compressionLogs[i]
  {
    var r := LogIteration(l, m);
    forall i | 0 <= i < |l.tokenLogs|
      ensures r.tokenLogs[i] == l.tokenLogs[i]
    {
      assert r.tokenLogs[..|l.tokenLogs|][i] == l.tokenLogs[i];
    }
    forall i | 0 <= i < |l.compressionLogs|
      ensures r.compressionLogs[i] == l.compressionLogs[i]
    {
      assert r.compressionLogs[..|l.compressionLogs|][i] == l.compressionLogs[i];
    }
  }

  lemma LogStepOrder(l: Logger, m: TrainingMetrics)
    requires Parallel(l) && NumberedFromZero(l) && TokensDecreasing(l)
    requires m.iteration == |l.tokenLogs|
    requires |l.tokenLogs| > 0 ==> m.tokens < l.tokenLogs[|l.tokenLogs| - 1].tokens
    ensures var r := LogIteration(l, m); Parallel(r) && NumberedFromZero(r) && TokensDecreasing(r)
  {
    LogKeeps(l, m);
  }

  lemma LogStepEntries(l: Logger, m: TrainingMetrics, original: nat, vocabSize: int, minFreq: int,
                       vocab: set<string>, vocab': set<string>)
    requires Parallel(l) && vocab <= vocab'
    requires forall i :: 0 <= i < |l.tokenLogs| ==>
      EntryFacts(l.tokenLogs[i], l.compressionLogs[i], original, vocabSize, minFreq, vocab)
    requires 0 < m.vocabSize <= vocabSize && m.newToken in vocab'
    requires m.frequency >= minFreq && m.frequency > 0
    requires 0 < m.tokens < original && m.compressionRatio == CompressionRatio(original, m.tokens)
    ensures var r := LogIteration(l, m);
      forall i :: 0 <= i < |r.tokenLogs| ==>
        EntryFacts(r.tokenLogs[i], r.compressionLogs[i], original, vocabSize, minFreq, vocab')
  {
    LogKeeps(l, m);
  }

  lemma LogStepDrops(l: Logger, m: TrainingMetrics, original: nat)
    requires (|l.tokenLogs| > 0 ==> original - l.tokenLogs[0].tokens <= l.tokenLogs[0].frequency)
    requires forall i :: 0 < i < |l.tokenLogs| ==>
      l.tokenLogs[i - 1].tokens - l.tokenLogs[i].tokens <= l.tokenLogs[i].frequency
    requires |l.tokenLogs| == 0 ==> original - m.tokens <= m.frequency
    requires |l.tokenLogs| > 0 ==> l.tokenLogs[|l.tokenLogs| - 1].tokens - m.tokens <= m.frequency
    ensures var r := LogIteration(l, m);
      && (|r.tokenLogs| > 0 ==> original - r.tokenLogs[0].tokens <= r.tokenLogs[0].frequency)
      && (forall i :: 0 < i < |r.tokenLogs| ==>
            r.tokenLogs[i - 1].tokens - r.tokenLogs[i].tokens <= r.tokenLogs[i].frequency)
  {
    LogKeeps(l, m);
  }

  /** Since each logged ratio is original / tokens and the token counts
      strictly drop, the ratios strictly rise. */
  lemma RatiosFromTokens(l: Logger, original: nat, vocabSize: int, minFreq: int, vocab: set<string>)
    requires LogFacts(l, original, vocabSize, minFreq, vocab)
    ensures RatiosIncreasing(l)
  {
    forall i, j | 0 <= i < j < |l.compressionLogs|
      ensures l.compressionLogs[i].compressionRatio < l.compressionLogs[j].compressionRatio
    {
      assert EntryFacts(l.tokenLogs[i], l.compressionLogs[i], original, vocabSize, minFreq, vocab);
      assert EntryFacts(l.tokenLogs[j], l.compressionLogs[j], original, vocabSize, minFreq, vocab);
      RatioIncreases(original, l.tokenLogs[i].tokens, l.tokenLogs[j].tokens);
    }
  }

  /** One more accepted merge keeps the log facts, for the grown vocabulary. */
  lemma LogStep(l: Logger, m: TrainingMetrics, original: nat, vocabSize: int, minFreq: int,
                vocab: set<string>, vocab': set<string>)
    requires LogFacts(l, original, vocabSize, minFreq, vocab) && vocab <= vocab'
    requires m.iteration == |l.tokenLogs|
    requires 0 < m.vocabSize <= vocabSize && m.newToken in vocab'
    requires m.frequency >= minFreq && m.frequency > 0
    requires 0 < m.tokens < original && m.compressionRatio == CompressionRatio(original, m.tokens)
    requires |l.tokenLogs| == 0 ==> original - m.tokens <= m.frequency
    requires |l.tokenLogs| > 0 ==> m.tokens < l.tokenLogs[|l.tokenLogs| - 1].tokens
    requires |l.tokenLogs| > 0 ==> l.tokenLogs[|l.tokenLogs| - 1].tokens - m.tokens <= m.frequency
    ensures LogFacts(LogIteration(l, m), original, vocabSize, minFreq, vocab')
  {
    LogStepOrder(l, m);
    LogStepEntries(l, m, original, vocabSize, minFreq, vocab, vocab');
    LogStepDrops(l, m, original);
  }

  lemma TableStep(merges: MergeTable, vocab: set<string>, pair: Pair)
    requires TableFacts(merges, vocab)
    requires ConcatEntry((pair, pair.0 + pair.1))
    ensures TableFacts(Put(merges, pair, pair.0 + pair.1), vocab + {pair.0 + pair.1})
    ensures 0 < |Put(merges, pair, pair.0 + pair.1)| <= |merges| + 1
  {
    assert HasKey(Put(merges, pair, pair.0 + pair.1), pair);
  }

  /** The working state of fit's loop: the training words, the vocabulary,
      the merge table and the logs. */
  datatype State = State(words: seq<Word>, vocab: set<string>, merges: MergeTable, logger: Logger)

  /** What holds of the loop state after any number of accepted merges,
      starting from words0 holding original tokens. */
  predicate LoopInvariant(st: State, words0: seq<Word>, original: nat, vocabSize: int, minFreq: int) {
    var n := |st.logger.tokenLogs|;
    && WellFormed(st.words) && NoBackslashes(st.words) && SymbolsIn(st.words, st.vocab)
    && original == TokenCount(words0)
    && |st.words| == |words0| && 0 < TokenCount(st.words) <= original
    && Alphabet(words0) <= st.vocab
    && |st.merges| <= n
    && LogFacts(st.logger, original, vocabSize, minFreq, st.vocab)
    && TableFacts(st.merges, st.vocab)
    && (n == 0 ==> st.words == words0 && st.vocab == Alphabet(words0) && st.merges == [])
    && (n > 0 ==>
          && |st.merges| > 0
          && !NoFirstMerge(words0, vocabSize, minFreq)
          && |st.vocab| <= vocabSize
          && st.logger.tokenLogs[n - 1].vocabSize == |st.vocab|
          && st.logger.tokenLogs[n - 1].tokens == TokenCount(st.words))
  }

  /** One iteration of fit's loop that accepts the most common pair: merge it
      in the words, record it in the table and the vocabulary, log it. The
      token count strictly drops. */
  method Step(st: State, pair: Pair, count: int, ghost words0: seq<Word>, original: nat,
              vocabSize: int, minFreq: int) returns (st': State)
    requires LoopInvariant(st, words0, original, vocabSize, minFreq)
    requires |st.vocab| < vocabSize
    requires count == PairCount(st.words, pair) && count > 0 && count >= minFreq
    requires |st.logger.tokenLogs| == 0 ==> !NoFirstMerge(words0, vocabSize, minFreq)
    ensures LoopInvariant(st', words0, original, vocabSize, minFreq)
    ensures |st'.logger.tokenLogs| == |st.logger.tokenLogs| + 1
    ensures st'.merges == Put(st.merges, pair, pair.0 + pair.1)
    ensures st'.vocab == st.vocab + {pair.0 + pair.1}
    ensures TokenCount(st.words) - count <= TokenCount(st'.words) < TokenCount(st.words)
    ensures IsSymbol(pair.0) && IsSymbol(pair.1) && NoBackslash(pair.0 + pair.1)
    ensures st'.words == MergeVocab(st.words, pair, pair.0 + pair.1)
    ensures st'.logger.tokenLogs == st.logger.tokenLogs +
      [TokenEntry(|st.logger.tokenLogs|, |st'.vocab|, TokenCount(st'.words), pair.0 + pair.1, count)]
  {
    var newToken := pair.0 + pair.1;
    assert IsSymbol(pair.0) && IsSymbol(pair.1) && NoBackslash(newToken) by {
      var wi, wj := PairWitness(st.words, pair);
      assert st.words[wi][wj] in st.words[wi] && st.words[wi][wj + 1] in st.words[wi];
    }
    var vocab' := st.vocab + {newToken};
    var merges' := Put(st.merges, pair, newToken);
    assert TableFacts(merges', vocab') && 0 < |merges'| <= |st.merges| + 1 by {
      assert ConcatEntry((pair, newToken));
      TableStep(st.merges, st.vocab, pair);
    }
    var words' := MergeVocab(st.words, pair, newToken);
    assert && WellFormed(words') && NoBackslashes(words') && SymbolsIn(words', vocab')
           && |words'| == |st.words|
           && TokenCount(st.words) - count <= TokenCount(words') < TokenCount(st.words) by {
      MergeVocabEffect(st.words, pair, vocab');
    }
    assert TokenCount(words') > 0 by {
      TokenCountAtLeastWords(words');
    }
    var current := TokenCount(words');
    var m := TrainingMetrics(|st.logger.tokenLogs|, |vocab'|, current, newToken, count,
                             CompressionRatio(original, current));
    var logger' := LogIteration(st.logger, m);
    assert LogFacts(logger', original, vocabSize, minFreq, vocab') by {
      LogStep(st.logger, m, original, vocabSize, minFreq, st.vocab, vocab');
    }
    st' := State(words', vocab', merges', logger');
  }

  /** The log is non-empty and its last entry records the vocabulary's
      final size. */
  predicate LastLogged(l: Logger, vocab: set<string>) {
    |l.tokenLogs| > 0 && l.tokenLogs[|l.tokenLogs| - 1].vocabSize == |vocab|
  }

  /** The new tokens of the first i log entries. */
  function Introduced(l: Logger, i: nat): set<string>
  {
    set j | 0 <= j < i && j < |l.tokenLogs| :: l.tokenLogs[j].newToken
  }

  /** One accepted iteration of fit, from words w to words w', logged as e:
      the first most common pair of w is merged everywhere, and e records
      its concatenation, its count and the token count of w'. */
  predicate Round(w: seq<Word>, w': seq<Word>, e: TokenEntry, minFreq: int) {
    && Accepts(w, minFreq)
    && var (pair, count) := MostCommonPair(w).value;
       && e.newToken == pair.0 + pair.1 && e.frequency == count
       && e.tokens == TokenCount(w')
       && (forall i :: 0 <= i < |w| ==> AllSymbols(w[i]))
       && IsSymbol(pair.0) && IsSymbol(pair.1) && NoBackslash(pair.0 + pair.1)
       && w' == MergeVocab(w, pair, pair.0 + pair.1)
  }

  /** The assignment merges[pair] = new_token of an iteration on words w,
      for the pair it merges (an empty pair when there is none). */
  function Pick(w: seq<Word>): (Pair, string)
  {
    var pair := if MostCommonPair(w).Some? then MostCommonPair(w).value.0 else ("", "");
    (pair, pair.0 + pair.1)
  }

  /** The assignments of iterations on the words ws, in order. */
  function Picks(ws: seq<seq<Word>>): MergeTable
  {
    if |ws| == 0 then [] else Picks(ws[..|ws| - 1]) + [Pick(ws[|ws| - 1])]
  }

  /** Appending entry e to the log leaves the tokens of the earlier
      prefixes alone and adds e's token to the full set. */
  lemma IntroducedStep(l: Logger, l': Logger, e: TokenEntry)
    requires l'.tokenLogs == l.tokenLogs + [e]
    ensures forall i :: 0 <= i <= |l.tokenLogs| ==> Introduced(l', i) == Introduced(l, i)
    ensures Introduced(l', |l.tokenLogs| + 1) == Introduced(l, |l.tokenLogs|) + {e.newToken}
  {
    forall i | 0 <= i <= |l.tokenLogs|
      ensures Introduced(l', i) == Introduced(l, i)
    {
      assert forall j :: 0 <= j < i ==> l'.tokenLogs[j] == l.tokenLogs[j];
    }
    var n := |l.tokenLogs|;
    assert l'.tokenLogs[n] == e;
    assert forall j :: 0 <= j < n ==> l'.tokenLogs[j] == l.tokenLogs[j];
  }

  /** Every logged iteration is a Round from its words to the next. */
  predicate Rounds(trace: seq<seq<Word>>, l: Logger, minFreq: int) {
    && |trace| == |l.tokenLogs| + 1
    && forall i :: 0 <= i < |l.tokenLogs| ==> Round(trace[i], trace[i + 1], l.tokenLogs[i], minFreq)
  }

  /** Every logged iteration began below the target size and logged the
      vocabulary's size after it: the characters plus the tokens so far. */
  predicate Sizes(l: Logger, alphabet: set<string>, vocabSize: int) {
    forall i :: 0 <= i < |l.tokenLogs| ==>
      |alphabet + Introduced(l, i)| < vocabSize && l.tokenLogs[i].vocabSize == |alphabet + Introduced(l, i + 1)|
  }

  lemma RoundsStep(trace: seq<seq<Word>>, w': seq<Word>, l: Logger, l': Logger, e: TokenEntry, minFreq: int)
    requires Rounds(trace, l, minFreq)
    requires l'.tokenLogs == l.tokenLogs + [e]
    requires Round(trace[|trace| - 1], w', e, minFreq)
    ensures Rounds(trace + [w'], l', minFreq)
  {
    var n := |l.tokenLogs|;
    var trace' := trace + [w'];
    assert forall i :: 0 <= i <= n ==> trace'[i] == trace[i];
    assert forall i :: 0 <= i < n ==> l'.tokenLogs[i] == l.tokenLogs[i];
  }

  lemma SizesStep(l: Logger, l': Logger, e: TokenEntry, alphabet: set<string>, vocabSize: int)
    requires Sizes(l, alphabet, vocabSize)
    requires l'.tokenLogs == l.tokenLogs + [e]
    requires |alphabet + Introduced(l, |l.tokenLogs|)| < vocabSize
    requires e.vocabSize == |alphabet + Introduced(l, |l.tokenLogs|) + {e.newToken}|
    ensures Sizes(l', alphabet, vocabSize)
    ensures Introduced(l', |l'.tokenLogs|) == Introduced(l, |l.tokenLogs|) + {e.newToken}
  {
    var n := |l.tokenLogs|;
    IntroducedStep(l, l', e);
    forall i | 0 <= i < |l'.tokenLogs|
      ensures |alphabet + Introduced(l', i)| < vocabSize
      ensures l'.tokenLogs[i].vocabSize == |alphabet + Introduced(l', i + 1)|
    {
      if i < n {
        assert l'.tokenLogs[i] == l.tokenLogs[i];
      } else {
        assert l'.tokenLogs[i] == e;
        assert alphabet + Introduced(l', i + 1) == alphabet + Introduced(l, n) + {e.newToken};
      }
    }
  }

  /** One more assignment, for a pair whose existing entry (if any) already
      maps it to its concatenation, adds the concatenation to the values
      and the assignment to the table's history. */
  lemma TableHistoryStep(merges: MergeTable, vocab: set<string>, trace: seq<seq<Word>>, w': seq<Word>, pair: Pair)
    requires TableFacts(merges, vocab)
    requires |trace| > 0 && merges == PutAll([], Picks(trace[..|trace| - 1]))
    requires Pick(trace[|trace| - 1]) == (pair, pair.0 + pair.1)
    ensures Values(Put(merges, pair, pair.0 + pair.1)) == Values(merges) + {pair.0 + pair.1}
    ensures Put(merges, pair, pair.0 + pair.1) == PutAll([], Picks((trace + [w'])[..|trace|]))
  {
    forall i | 0 <= i < |merges| && merges[i].0 == pair
      ensures merges[i].1 == pair.0 + pair.1
    {
      assert ConcatEntry(merges[i]);
    }
    PutValues(merges, pair, pair.0 + pair.1);
    assert (trace + [w'])[..|trace|] == trace;
    PutAllSnoc([], Picks(trace[..|trace| - 1]), (pair, pair.0 + pair.1));
  }

  /** The run of fit's loop so far, from words0: trace[i] holds the words
      before iteration i and trace[n] the current words, where n counts the
      logged iterations. The iterations are Rounds within Sizes; the
      vocabulary is the characters plus the logged tokens, which are also
      the table's values; and the table is the iterations' assignments in
      order. */
  predicate History(st: State, trace: seq<seq<Word>>, words0: seq<Word>, vocabSize: int, minFreq: int) {
    var l := st.logger;
    var n := |l.tokenLogs|;
    && Rounds(trace, l, minFreq) && trace[0] == words0 && trace[n] == st.words
    && Sizes(l, Alphabet(words0), vocabSize)
    && st.vocab == Alphabet(words0) + Introduced(l, n)
    && Values(st.merges) == Introduced(l, n)
    && st.merges == PutAll([], Picks(trace[..n]))
  }

  /** Merging the most common pair, when it reaches min_freq, and logging
      its token, its count and the merged words' token count is a Round. */
  lemma RoundOf(w: seq<Word>, w': seq<Word>, e: TokenEntry, minFreq: int, pair: Pair, count: int)
    requires MostCommonPair(w) == Some((pair, count)) && count >= minFreq
    requires WellFormed(w) && IsSymbol(pair.0) && IsSymbol(pair.1) && NoBackslash(pair.0 + pair.1)
    requires w' == MergeVocab(w, pair, pair.0 + pair.1)
    requires e.newToken == pair.0 + pair.1 && e.frequency == count
    requires e.tokens == TokenCount(w')
    ensures Round(w, w', e, minFreq)
  {
  }

  /** An accepted iteration, as Step performs it, extends the history by
      one round. */
  lemma HistoryStep(st: State, st': State, trace: seq<seq<Word>>, words0: seq<Word>, vocabSize: int,
                    minFreq: int, pair: Pair, count: int)
    requires History(st, trace, words0, vocabSize, minFreq)
    requires TableFacts(st.merges, st.vocab) && WellFormed(st.words)
    requires |st.vocab| < vocabSize
    requires MostCommonPair(st.words) == Some((pair, count)) && count >= minFreq
    requires IsSymbol(pair.0) && IsSymbol(pair.1) && NoBackslash(pair.0 + pair.1)
    requires st'.words == MergeVocab(st.words, pair, pair.0 + pair.1)
    requires st'.vocab == st.vocab + {pair.0 + pair.1}
    requires st'.merges == Put(st.merges, pair, pair.0 + pair.1)
    requires st'.logger.tokenLogs == st.logger.tokenLogs +
      [TokenEntry(|st.logger.tokenLogs|, |st'.vocab|, TokenCount(st'.words), pair.0 + pair.1, count)]
    ensures History(st', trace + [st'.words], words0, vocabSize, minFreq)
  {
    var l, l' := st.logger, st'.logger;
    var n := |l.tokenLogs|;
    var e := TokenEntry(n, |st'.vocab|, TokenCount(st'.words), pair.0 + pair.1, count);
    RoundOf(st.words, st'.words, e, minFreq, pair, count);
    RoundsStep(trace, st'.words, l, l', e, minFreq);
    SizesStep(l, l', e, Alphabet(words0), vocabSize);
    TableHistoryStep(st.merges, st.vocab, trace, st'.words, pair);
  }

  /** The run of fit that built b from words0. trace[i] holds the words
      before iteration i and trace[n] the words the loop stopped on, where
      n counts the logged iterations.
      - Each iteration merged the first most common pair of its words, and
        its log entry records that pair's token and count and the token
        count of the merged words (Round).
      - Each iteration began below the target size, and its log entry
        records the vocabulary's size after it (Sizes).
      - The vocabulary is the characters of words0 plus the tokens of the
        table, which are the logged tokens.
      - The table is the iterations' assignments merges[pair] = token, in
        order.
      - The loop stopped because the vocabulary reached the target size,
        or no pair was left, or the most common one fell below min_freq. */
  predicate GreedyRun(b: Bpe, trace: seq<seq<Word>>, words0: seq<Word>, minFreq: int) {
    var l := b.metrics;
    var n := |l.tokenLogs|;
    && Rounds(trace, l, minFreq) && trace[0] == words0
    && Sizes(l, Alphabet(words0), b.vocabSize)
    && b.vocab == Alphabet(words0) + Values(b.merges)
    && Values(b.merges) == Introduced(l, n)
    && b.merges == PutAll([], Picks(trace[..n]))
    && (|b.vocab| >= b.vocabSize || !Accepts(trace[n], minFreq))
  }

  /** The history before the first iteration. */
  lemma HistoryStarts(words0: seq<Word>, vocabSize: int, minFreq: int)
    ensures History(State(words0, Alphabet(words0), [], NewLogger()), [words0], words0, vocabSize, minFreq)
  {
    assert [words0][..0] == [];
  }

  /** A history that stops where fit's loop stops is a greedy run. */
  lemma HistoryEnds(st: State, trace: seq<seq<Word>>, words0: seq<Word>, vocabSize: int, minFreq: int)
    requires History(st, trace, words0, vocabSize, minFreq)
    requires |st.vocab| >= vocabSize || !Accepts(st.words, minFreq)
    ensures GreedyRun(Bpe(vocabSize, st.merges, st.vocab, st.logger), trace, words0, minFreq)
  {
  }

  /** What the loop invariant gives once at least one merge was accepted:
      every promise fit makes about the instance it returns. */
  lemma ExitFacts(st: State, words0: seq<Word>, original: nat, vocabSize: int, minFreq: int)
    requires LoopInvariant(st, words0, original, vocabSize, minFreq)
    requires |st.logger.tokenLogs| > 0
    ensures !NoFirstMerge(words0, vocabSize, minFreq)
    ensures var b := Bpe(vocabSize, st.merges, st.vocab, st.logger);
      && 0 < |b.vocab| <= vocabSize
      && Alphabet(words0) <= b.vocab
      && 0 < |b.merges| <= |b.metrics.tokenLogs|
      && TableFacts(b.merges, b.vocab)
      && LogFacts(b.metrics, original, vocabSize, minFreq, b.vocab)
      && LastLogged(b.metrics, b.vocab)
      && RatiosIncreasing(b.metrics)
  {
    var l := st.logger;
    assert LastLogged(l, st.vocab) by {
      assert l.tokenLogs[|l.tokenLogs| - 1].vocabSize == |st.vocab|;
    }
    assert EntryFacts(l.tokenLogs[0], l.compressionLogs[0], original, vocabSize, minFreq, st.vocab);
    RatiosFromTokens(l, original, vocabSize, minFreq, st.vocab);
  }

  /** Before the first iteration: the words of the text, its alphabet as the
      vocabulary, no merges and empty logs. */
  lemma InitialState(text: string, vocabSize: int, minFreq: int)
    requires NoBackslash(text) && !AllSpace(text)
    ensures var words0 := InitialWords(text);
      && 0 < |Alphabet(words0)|
      && LoopInvariant(State(words0, Alphabet(words0), [], NewLogger()), words0, |RemoveSpaces(text)|, vocabSize, minFreq)
  {
    InitialWordsShape(text);
    InitialTokenCount(text);
    var words0 := InitialWords(text);
    TokenCountAtLeastWords(words0);
    assert words0[0][0] in Alphabet(words0);
    assert NoBackslashes(words0);
  }

  /** One iteration of fit's loop on the pair it accepts: Step, with the
      history extended by the merged words. */
  method Iterate(st: State, ghost trace: seq<seq<Word>>, ghost words0: seq<Word>, original: nat,
                 vocabSize: int, minFreq: int, best: (Pair, nat)) returns (st': State, ghost trace': seq<seq<Word>>)
    requires LoopInvariant(st, words0, original, vocabSize, minFreq)
    requires History(st, trace, words0, vocabSize, minFreq)
    requires |st.vocab| < vocabSize
    requires MostCommonPair(st.words) == Some(best) && best.1 >= minFreq
    ensures LoopInvariant(st', words0, original, vocabSize, minFreq)
    ensures History(st', trace', words0, vocabSize, minFreq)
    ensures TokenCount(st'.words) < TokenCount(st.words)
    ensures |st'.logger.tokenLogs| == |st.logger.tokenLogs| + 1
  {
    assert best.1 == PairCount(st.words, best.0) && best.1 > 0 by {
      MostCommonPairIsFirstMaximal(st.words);
    }
    assert |st.logger.tokenLogs| == 0 ==> !NoFirstMerge(words0, vocabSize, minFreq);
    st' := Step(st, best.0, best.1, words0, original, vocabSize, minFreq);
    HistoryStep(st, st', trace, words0, vocabSize, minFreq, best.0, best.1);
    trace' := trace + [st'.words];
  }

  /** fit(text, min_freq) on a freshly constructed instance. */
  method Fit(bpe: Bpe, text: string, minFreq: int) returns (r: Result<Bpe>, ghost trace: seq<seq<Word>>)
    requires bpe.vocabSize > 0
    requires bpe.merges == [] && bpe.metrics == NewLogger()
    requires NoBackslash(text)
    // the two ways fit raises
    ensures r.Failure? <==> AllSpace(text) || NoFirstMerge(InitialWords(text), bpe.vocabSize, minFreq)
    ensures r.Failure? ==> (r.error == InvalidInput <==> AllSpace(text))
    ensures r.Failure? ==> r.error == InvalidInput || r.error == UnboundLocal
    // the vocabulary
    ensures r.Success? ==> r.value.vocabSize == bpe.vocabSize
    ensures r.Success? ==> 0 < |r.value.vocab| <= bpe.vocabSize
    ensures r.Success? ==> Alphabet(InitialWords(text)) <= r.value.vocab
    // the merge table
    ensures r.Success? ==> 0 < |r.value.merges| <= |r.value.metrics.tokenLogs|
    ensures r.Success? ==> TableFacts(r.value.merges, r.value.vocab)
    // the logs
    ensures r.Success? ==> LogFacts(r.value.metrics, |RemoveSpaces(text)|, bpe.vocabSize, minFreq, r.value.vocab)
    ensures r.Success? ==> LastLogged(r.value.metrics, r.value.vocab) && RatiosIncreasing(r.value.metrics)
    // the greedy choice, the vocabulary, the table and the stop, round by round
    ensures r.Success? ==> GreedyRun(r.value, trace, InitialWords(text), minFreq)
  {
    if Strip(text) == "" {
      return Failure(InvalidInput), [];
    }
    var words0 := InitialWords(text);
    var original := |RemoveSpaces(text)|;
    var st := State(words0, Alphabet(words0), bpe.merges, bpe.metrics);
    InitialState(text, bpe.vocabSize, minFreq);
    trace := [words0];
    HistoryStarts(words0, bpe.vocabSize, minFreq);
    while |st.vocab| < bpe.vocabSize
      invariant LoopInvariant(st, words0, original, bpe.vocabSize, minFreq)
      invariant History(st, trace, words0, bpe.vocabSize, minFreq)
      decreases TokenCount(st.words)
    {
      var stats := GetStats(st.words);
      if |stats| == 0 {
        assert !Accepts(st.words, minFreq);
        break;
      }
      var best := stats[MostCommon(stats)];
      assert MostCommonPair(st.words) == Some(best);
      if best.1 < minFreq {
        break;
      }
      st, trace := Iterate(st, trace, words0, original, bpe.vocabSize, minFreq, best);
    }
    var l := st.logger;
    if |l.tokenLogs| == 0 {
      return Failure(UnboundLocal), trace;
    }
    ExitFacts(st, words0, original, bpe.vocabSize, minFreq);
    HistoryEnds(st, trace, words0, bpe.vocabSize, minFreq);
    r := Success(Bpe(bpe.vocabSize, st.merges, st.vocab, l));
  }
}
