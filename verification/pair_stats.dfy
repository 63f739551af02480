/** get_stats: counting adjacent symbol pairs inside words. */
module PairStats {
  import opened Results
  import opened Text
  import opened Words
  import opened OrderedMaps

  type Pair = (string, string)

  /** The number of positions i of w holding p.0 at i and p.1 at i + 1. */
  function AdjacentCount(w: Word, p: Pair): nat
    decreases |w|
  {
    if |w| < 2 then 0
    else (if w[0] == p.0 && w[1] == p.1 then 1 else 0) + AdjacentCount(w[1..], p)
  }

  /** AdjacentCount summed over all words. */
  function PairCount(words: seq<Word>, p: Pair): nat
    decreases |words|
  {
    if |words| == 0 then 0 else AdjacentCount(words[0], p) + PairCount(words[1..], p)
  }

  /** tuple(word[i:i + 2]) for i in range(len(word) - 1) */
  function WordPairs(w: Word): (ps: seq<Pair>)
    ensures |ps| == if |w| < 2 then 0 else |w| - 1
    ensures forall i :: 0 <= i < |ps| ==> ps[i] == (w[i], w[i + 1])
    decreases |w|
  {
    if |w| < 2 then [] else [(w[0], w[1])] + WordPairs(w[1..])
  }

  /** The pairs get_stats visits, word by word, left to right. */
  function AllPairs(words: seq<Word>): seq<Pair>
    decreases |words|
  {
    if |words| == 0 then [] else WordPairs(words[0]) + AllPairs(words[1..])
  }

  /** A pair that is counted occurs adjacently in some word. */
  lemma {:induction false} AdjacentWitness(w: Word, p: Pair) returns (j: nat)
    requires AdjacentCount(w, p) > 0
    ensures j + 1 < |w| && w[j] == p.0 && w[j + 1] == p.1
    decreases |w|
  {
    if w[0] == p.0 && w[1] == p.1 {
      j := 0;
    } else {
      var k := AdjacentWitness(w[1..], p);
      j := k + 1;
    }
  }

  lemma {:induction false} PairWitness(words: seq<Word>, p: Pair) returns (i: nat, j: nat)
    requires PairCount(words, p) > 0
    ensures i < |words| && j + 1 < |words[i]| && words[i][j] == p.0 && words[i][j + 1] == p.1
    decreases |words|
  {
    if AdjacentCount(words[0], p) > 0 {
      i := 0;
      j := AdjacentWitness(words[0], p);
    } else {
      var k;
      k, j := PairWitness(words[1..], p);
      i := k + 1;
    }
  }

  lemma {:induction false} WordPairsCount(w: Word, p: Pair)
    ensures multiset(WordPairs(w))[p] == AdjacentCount(w, p)
    decreases |w|
  {
    if |w| >= 2 {
      WordPairsCount(w[1..], p);
    }
  }

  lemma {:induction false} AllPairsCount(words: seq<Word>, p: Pair)
    ensures multiset(AllPairs(words))[p] == PairCount(words, p)
    decreases |words|
  {
    if |words| > 0 {
      WordPairsCount(words[0], p);
      AllPairsCount(words[1..], p);
    }
  }

  lemma AllPairsCounts(words: seq<Word>)
    ensures forall p :: multiset(AllPairs(words))[p] == PairCount(words, p)
  {
    forall p ensures multiset(AllPairs(words))[p] == PairCount(words, p) {
      AllPairsCount(words, p);
    }
  }

  /** get_stats(words): every pair that occurs adjacently inside some word,
      with its number of occurrences, in order of first occurrence. */
  function GetStats(words: seq<Word>): (c: seq<(Pair, nat)>)
    ensures DistinctKeys(c)
    ensures forall i :: 0 <= i < |c| ==> c[i].1 == PairCount(words, c[i].0) && c[i].1 > 0
    ensures forall p :: HasKey(c, p) <==> PairCount(words, p) > 0
    ensures FirstSeenOrder(c, AllPairs(words))
  {
    AllPairsCounts(words);
    Tally(AllPairs(words))
  }

  /** get_stats(words).most_common(1)[0]: the pair fit considers next, with
      its count, or None when no word holds two symbols. */
  function MostCommonPair(words: seq<Word>): Option<(Pair, nat)>
  {
    var stats := GetStats(words);
    if |stats| == 0 then None else Some(stats[MostCommon(stats)])
  }

  /** The pair most_common(1) picks has the largest count of all pairs, and
      of the pairs with that count it is the first to occur in the words.
      There is none exactly when no pair occurs at all. */
  lemma MostCommonPairIsFirstMaximal(words: seq<Word>)
    ensures MostCommonPair(words).None? <==> forall p :: PairCount(words, p) == 0
    ensures MostCommonPair(words).Some? ==>
      var (best, n) := MostCommonPair(words).value;
      && n == PairCount(words, best) && n > 0
      && (forall p :: PairCount(words, p) <= n)
      && (forall p :: PairCount(words, p) == n ==>
            FirstIndex(AllPairs(words), best) <= FirstIndex(AllPairs(words), p))
  {
    var stats := GetStats(words);
    if |stats| == 0 {
      forall p
        ensures PairCount(words, p) == 0
      {
        assert !HasKey(stats, p);
      }
    } else {
      assert PairCount(words, stats[0].0) > 0;
      var i := MostCommon(stats);
      var n := stats[i].1;
      forall p | PairCount(words, p) > 0
        ensures PairCount(words, p) <= n
        ensures PairCount(words, p) == n ==>
          FirstIndex(AllPairs(words), stats[i].0) <= FirstIndex(AllPairs(words), p)
      {
        assert HasKey(stats, p);
        var k :| 0 <= k < |stats| && stats[k].0 == p;
        assert stats[k].1 == PairCount(words, p);
        if PairCount(words, p) == n && k != i {
          assert !(k < i);
          assert FirstIndex(AllPairs(words), stats[i].0) < FirstIndex(AllPairs(words), stats[k].0);
        }
      }
    }
  }

  /** Pairs never span two words: the pairs of a concatenation of word lists
      are the pairs of each list, one after the other. */
  lemma {:induction false} AllPairsAppend(a: seq<Word>, b: seq<Word>)
    ensures AllPairs(a + b) == AllPairs(a) + AllPairs(b)
    decreases |a|
  {
    if |a| == 0 {
      assert a + b == b;
    } else {
      assert (a + b)[0] == a[0];
      assert (a + b)[1..] == a[1..] + b;
      AllPairsAppend(a[1..], b);
    }
  }

  /** Counting over two word lists adds up. */
  lemma {:induction false} PairCountAppend(a: seq<Word>, b: seq<Word>, p: Pair)
    ensures PairCount(a + b, p) == PairCount(a, p) + PairCount(b, p)
    decreases |a|
  {
    if |a| == 0 {
      assert a + b == b;
    } else {
      assert (a + b)[0] == a[0];
      assert (a + b)[1..] == a[1..] + b;
      PairCountAppend(a[1..], b, p);
    }
  }

  /** A word of at most one symbol changes nothing in the statistics. */
  lemma ShortWordAddsNothing(words: seq<Word>, w: Word)
    requires |w| <= 1
    ensures GetStats(words + [w]) == GetStats(words)
  {
    AllPairsAppend(words, [w]);
    assert AllPairs([w]) == WordPairs(w) + AllPairs([]);
    assert AllPairs(words + [w]) == AllPairs(words);
  }

  /** The example from the test suite: in ['न', 'म', 'स्', 'ते'] every
      adjacent pair occurs once, ('न', 'म') first. */
  lemma GetStatsExample()
    ensures GetStats([["न", "म", "स्", "ते"]]) == [(("न", "म"), 1), (("म", "स्"), 1), (("स्", "ते"), 1)]
  {
    ExamplePairs();
    ExampleTally([("न", "म"), ("म", "स्"), ("स्", "ते")]);
  }

  /** Counter over the three distinct pairs of the example. */
  lemma ExampleTally(ps: seq<Pair>)
    requires ps == [("न", "म"), ("म", "स्"), ("स्", "ते")]
    ensures Tally(ps) == [(ps[0], 1), (ps[1], 1), (ps[2], 1)]
  {
    assert ps[0] != ps[1] && ps[0] != ps[2] && ps[1] != ps[2];
    TallyOfDistinct(ps);
  }

  lemma ExamplePairs()
    ensures AllPairs([["न", "म", "स्", "ते"]]) == [("न", "म"), ("म", "स्"), ("स्", "ते")]
  {
    var words: seq<Word> := [["न", "म", "स्", "ते"]];
    assert WordPairs(words[0]) == [("न", "म"), ("म", "स्"), ("स्", "ते")];
    assert AllPairs(words[1..]) == [];
  }
}
