/** HindiBPE.save and HindiBPE.load, with the JSON documents held as
    values: the file system is a parameter (a document or its absence). */
module Persistence {
  import opened Results
  import opened Text
  import opened OrderedMaps
  import opened PairStats
  import opened Merging
  import opened Metrics
  import opened Training

  /** The model document: a "merges" object of "a b" keys and a "vocab"
      list. A field is None when the document lacks it. */
  datatype ModelFile = ModelFile(merges: Option<seq<(string, string)>>, vocab: Option<seq<string>>)

  /** The metrics document written by MetricsLogger.save. */
  datatype StatsFile = StatsFile(tokenLogs: Option<seq<TokenEntry>>, compressionLogs: Option<seq<CompressionEntry>>)

  /** ' '.join(pair) */
  function EncodeKey(p: Pair): string {
    p.0 + " " + p.1
  }

  /** tuple(key.split()), accepted only when it is a pair. */
  function DecodeKey(k: string): (r: Option<Pair>)
    ensures r.Some? ==> IsSymbol(r.value.0) && IsSymbol(r.value.1)
    ensures r.Some? <==> |Split(k)| == 2
  {
    var parts := Split(k);
    if |parts| == 2 then Some((parts[0], parts[1])) else None
  }

  /** A pair of symbols survives the key encoding. */
  lemma KeyRoundTrip(p: Pair)
    requires IsSymbol(p.0) && IsSymbol(p.1)
    ensures DecodeKey(EncodeKey(p)) == Some(p)
  {
    assert JoinSpaced([p.0, p.1]) == EncodeKey(p);
    SplitJoin([p.0, p.1]);
  }

  /** Distinct pairs of symbols get distinct keys. */
  lemma KeyInjective(p: Pair, q: Pair)
    requires IsSymbol(p.0) && IsSymbol(p.1) && IsSymbol(q.0) && IsSymbol(q.1)
    requires EncodeKey(p) == EncodeKey(q)
    ensures p == q
  {
    KeyRoundTrip(p);
    KeyRoundTrip(q);
  }

  /** The pair keys of a merges object, or None if one of them is not a
      pair of symbols. */
  function DecodeEntries(es: seq<(string, string)>): (r: Option<MergeTable>)
    ensures r.None? <==> exists i :: 0 <= i < |es| && DecodeKey(es[i].0).None?
    ensures r.Some? ==> |r.value| == |es|
    ensures r.Some? ==> forall i :: 0 <= i < |es| ==>
      Some(r.value[i].0) == DecodeKey(es[i].0) && r.value[i].1 == es[i].1
    decreases |es|
  {
    if |es| == 0 then Some([])
    else match (DecodeKey(es[0].0), DecodeEntries(es[1..]))
      case (Some(p), Some(rest)) => Some([(p, es[0].1)] + rest)
      case (None, _) => None
      case (_, None) =>
        assert exists i :: 0 <= i < |es[1..]| && DecodeKey(es[1..][i].0).None?;
        var i :| 0 <= i < |es[1..]| && DecodeKey(es[1..][i].0).None?;
        assert es[1..][i] == es[i + 1];
        None
  }

  /** {' '.join(k): v for k, v in merges.items()} */
  function EncodeEntries(merges: MergeTable): (r: seq<(string, string)>)
    ensures |r| == |merges|
    ensures forall i :: 0 <= i < |r| ==> r[i] == (EncodeKey(merges[i].0), merges[i].1)
  {
    seq(|merges|, i requires 0 <= i < |merges| => (EncodeKey(merges[i].0), merges[i].1))
  }

  /** xs lists the elements of s, each once: an iteration order of a set. */
  predicate Enumerates(xs: seq<string>, s: set<string>) {
    && (forall i :: 0 <= i < |xs| ==> xs[i] in s)
    && (forall x :: x in s ==> x in xs)
    && (forall i, j :: 0 <= i < j < |xs| ==> xs[i] != xs[j])
  }

  /** save(model_path, stats_path): the model document, and the metrics
      document when a stats path is given. vocabOrder is the order in
      which list(self.vocab) happens to enumerate the set. */
  function Save(bpe: Bpe, vocabOrder: seq<string>, withStats: bool): (r: (ModelFile, Option<StatsFile>))
    requires Enumerates(vocabOrder, bpe.vocab)
    ensures r.0.merges.Some? && r.0.vocab.Some?
    ensures r.0.merges.value == EncodeEntries(bpe.merges)
    ensures r.0.vocab.value == vocabOrder && Enumerates(r.0.vocab.value, bpe.vocab)
    ensures |r.0.vocab.value| == |bpe.vocab|
    ensures r.1.Some? <==> withStats
    ensures withStats ==> r.1.value.tokenLogs == Some(bpe.metrics.tokenLogs)
    ensures withStats ==> r.1.value.compressionLogs == Some(bpe.metrics.compressionLogs)
  {
    DistinctCardinality(vocabOrder, bpe.vocab);
    var model := ModelFile(Some(EncodeEntries(bpe.merges)), Some(vocabOrder));
    var stats := if withStats then Some(StatsFile(Some(bpe.metrics.tokenLogs), Some(bpe.metrics.compressionLogs))) else None;
    (model, stats)
  }

  lemma {:induction false} DistinctCardinality(xs: seq<string>, s: set<string>)
    requires Enumerates(xs, s)
    ensures |xs| == |s|
    decreases |xs|
  {
    if |xs| > 0 {
      var rest := s - {xs[0]};
      assert Enumerates(xs[1..], rest) by {
        forall x
          ensures x in xs[1..] <==> x in rest
        {
          if x in xs[1..] {
            var k :| 0 <= k < |xs[1..]| && xs[1..][k] == x;
            assert xs[k + 1] == x;
          }
          if x in rest {
            var k :| 0 <= k < |xs| && xs[k] == x;
            assert k != 0;
            assert xs[1..][k - 1] == x;
          }
        }
        forall i, j | 0 <= i < j < |xs[1..]|
          ensures xs[1..][i] != xs[1..][j]
        {
          assert xs[1..][i] == xs[i + 1] && xs[1..][j] == xs[j + 1];
        }
      }
      DistinctCardinality(xs[1..], rest);
    } else {
      assert s == {};
    }
  }

  /** load(model_path, stats_path). model is None when the model file does
      not exist; stats is None when no stats path is given or the file does
      not exist. A JSON object with a repeated key keeps its last value at
      the position of its first occurrence, as does the dict comprehension
      that rebuilds the pair keys. */
  function Load(bpe: Bpe, model: Option<ModelFile>, stats: Option<StatsFile>): (r: Result<Bpe>)
    ensures model.None? ==> r == Failure(ModelNotFound)
    ensures model.Some? && (model.value.merges.None? || model.value.vocab.None?) ==> r == Failure(MalformedModel)
    ensures r.Failure? <==>
      || model.None?
      || model.value.merges.None? || model.value.vocab.None?
      || (exists i :: 0 <= i < |model.value.merges.value| && DecodeKey(model.value.merges.value[i].0).None?)
      || (stats.Some? && (stats.value.tokenLogs.None? || stats.value.compressionLogs.None?))
    ensures r.Failure? ==> r.error == ModelNotFound || r.error == MalformedModel
    ensures r.Success? ==> r.value.vocabSize == bpe.vocabSize
    ensures r.Success? ==> forall x :: x in r.value.vocab <==> x in model.value.vocab.value
    ensures r.Success? ==> DistinctKeys(r.value.merges)
    ensures r.Success? ==> forall i :: 0 <= i < |r.value.merges| ==>
      FromDocument(model.value.merges.value, r.value.merges[i])
    ensures r.Success? ==> Covers(model.value.merges.value, r.value.merges)
    ensures r.Success? && stats.None? ==> r.value.metrics == bpe.metrics
    ensures r.Success? && stats.Some? ==>
      r.value.metrics == Logger(stats.value.tokenLogs.value, stats.value.compressionLogs.value)
  {
    match model
    case None => Failure(ModelNotFound)
    case Some(f) =>
      if f.merges.None? || f.vocab.None? then Failure(MalformedModel)
      else
        var parsed := PutAll([], f.merges.value);
        match DecodeEntries(parsed)
        case None =>
          assert exists i :: 0 <= i < |f.merges.value| && DecodeKey(f.merges.value[i].0).None? by {
            var i :| 0 <= i < |parsed| && DecodeKey(parsed[i].0).None?;
            PutAllFrom([], f.merges.value);
          }
          Failure(MalformedModel)
        case Some(entries) =>
          assert forall i :: 0 <= i < |f.merges.value| ==> DecodeKey(f.merges.value[i].0).Some? by {
            LoadedKeysDecode(f.merges.value, parsed);
          }
          LoadedEntries(f.merges.value, parsed, entries);
          var merges := PutAll([], entries);
          var vocab := set x | x in f.vocab.value;
          match stats
          case None => Success(Bpe(bpe.vocabSize, merges, vocab, bpe.metrics))
          case Some(s) =>
            if s.tokenLogs.None? || s.compressionLogs.None? then Failure(MalformedModel)
            else Success(Bpe(bpe.vocabSize, merges, vocab, Logger(s.tokenLogs.value, s.compressionLogs.value)))
  }

  /** Every key of the document decodes when the keys of the parsed object
      do: the parsed object holds every key of the document. */
  lemma LoadedKeysDecode(es: seq<(string, string)>, parsed: seq<(string, string)>)
    requires parsed == PutAll([], es)
    requires DecodeEntries(parsed).Some?
    ensures forall i :: 0 <= i < |es| ==> DecodeKey(es[i].0).Some?
  {
    forall i | 0 <= i < |es|
      ensures DecodeKey(es[i].0).Some?
    {
      var j := LastWith(es, i);
      PutAllLast([], es, j);
      var k := Find(parsed, es[j].0);
      assert k.Some?;
      assert parsed[k.value].0 == es[i].0;
    }
  }

  /** A loaded merge comes from a document key that decodes to its pair and
      is the last one spelled that way, and holds that key's value. */
  predicate FromDocument(es: seq<(string, string)>, e: (Pair, string)) {
    exists j :: 0 <= j < |es| && LastOfKey(es, j) && DecodeKey(es[j].0) == Some(e.0) && e.1 == es[j].1
  }

  /** Every key of the document decodes, and its pair is loaded. */
  predicate Covers(es: seq<(string, string)>, merges: MergeTable) {
    forall j :: 0 <= j < |es| ==> DecodeKey(es[j].0).Some? && HasKey(merges, DecodeKey(es[j].0).value)
  }

  /** No two spellings of a key in the document decode to the same pair, as
      in every document save writes. */
  predicate OneSpelling(es: seq<(string, string)>) {
    forall i, j :: 0 <= i < |es| && 0 <= j < |es| && DecodeKey(es[i].0) == DecodeKey(es[j].0) ==> es[i].0 == es[j].0
  }

  /** An entry decoded from the parsed object comes from the last document
      entry with its key, with the same value. */
  lemma DecodedFromDocument(es: seq<(string, string)>, parsed: seq<(string, string)>,
                            entries: MergeTable, k: nat)
    requires parsed == PutAll([], es)
    requires DecodeEntries(parsed) == Some(entries)
    requires k < |entries|
    ensures FromDocument(es, entries[k])
  {
    var j := PutAllEntry(es, k);
    assert DecodeKey(es[j].0) == Some(entries[k].0);
  }

  /** The pair of every key of the document is among the decoded entries. */
  lemma DecodedCovers(es: seq<(string, string)>, parsed: seq<(string, string)>, entries: MergeTable)
    requires parsed == PutAll([], es)
    requires DecodeEntries(parsed) == Some(entries)
    ensures forall j :: 0 <= j < |es| ==> DecodeKey(es[j].0).Some? && HasKey(entries, DecodeKey(es[j].0).value)
  {
    PutAllHasKeys([], es);
    forall j | 0 <= j < |es|
      ensures DecodeKey(es[j].0).Some? && HasKey(entries, DecodeKey(es[j].0).value)
    {
      assert HasKey(parsed, es[j].0);
      var k :| 0 <= k < |parsed| && parsed[k].0 == es[j].0;
      assert Some(entries[k].0) == DecodeKey(es[j].0);
    }
  }

  /** The decoded entries have distinct pair keys, each from the last
      document entry with its key, with that entry's value; and every key
      of the document is loaded. */
  lemma LoadedEntries(es: seq<(string, string)>, parsed: seq<(string, string)>, entries: MergeTable)
    requires parsed == PutAll([], es)
    requires DecodeEntries(parsed) == Some(entries)
    ensures DistinctKeys(PutAll([], entries))
    ensures forall i :: 0 <= i < |PutAll([], entries)| ==> FromDocument(es, PutAll([], entries)[i])
    ensures Covers(es, PutAll([], entries))
  {
    PutAllDistinct([], entries);
    PutAllFrom([], entries);
    var merges := PutAll([], entries);
    forall i | 0 <= i < |merges|
      ensures FromDocument(es, merges[i])
    {
      assert merges[i] in [] || merges[i] in entries;
      var k :| 0 <= k < |entries| && entries[k] == merges[i];
      DecodedFromDocument(es, parsed, entries, k);
    }
    LoadedCovers(es, parsed, entries);
  }

  /** Every key of the document is loaded. */
  lemma LoadedCovers(es: seq<(string, string)>, parsed: seq<(string, string)>, entries: MergeTable)
    requires parsed == PutAll([], es)
    requires DecodeEntries(parsed) == Some(entries)
    ensures Covers(es, PutAll([], entries))
  {
    var merges := PutAll([], entries);
    DecodedCovers(es, parsed, entries);
    PutAllHasKeys([], entries);
    forall j | 0 <= j < |es|
      ensures HasKey(merges, DecodeKey(es[j].0).value)
    {
      var k :| 0 <= k < |entries| && entries[k].0 == DecodeKey(es[j].0).value;
    }
  }

  /** When every pair has one spelling in the document, a loaded pair holds
      the value of the document's last entry for it. */
  lemma LoadLastValue(bpe: Bpe, model: ModelFile, stats: Option<StatsFile>)
    requires Load(bpe, Some(model), stats).Success?
    requires OneSpelling(model.merges.value)
    ensures var es, merges := model.merges.value, Load(bpe, Some(model), stats).value.merges;
      forall j :: 0 <= j < |es| && LastOfKey(es, j) ==>
        DecodeKey(es[j].0).Some? && Get(merges, DecodeKey(es[j].0).value) == Some(es[j].1)
  {
    var es, merges := model.merges.value, Load(bpe, Some(model), stats).value.merges;
    forall j | 0 <= j < |es| && LastOfKey(es, j)
      ensures DecodeKey(es[j].0).Some? && Get(merges, DecodeKey(es[j].0).value) == Some(es[j].1)
    {
      var pair := DecodeKey(es[j].0).value;
      var k :| 0 <= k < |merges| && merges[k].0 == pair;
      var j' :| 0 <= j' < |es| && LastOfKey(es, j') && DecodeKey(es[j'].0) == Some(merges[k].0) && merges[k].1 == es[j'].1;
      assert es[j'].0 == es[j].0;
      assert j' == j;
      GetEntry(merges, k);
    }
  }

  /** Two spellings of one pair. The JSON object keeps both keys, in the
      order they first appear, each with its last value; the dict
      comprehension then keeps the value of the later key, which is not the
      value of the document's last entry for the pair. */
  lemma LoadSpellings(bpe: Bpe)
    ensures var doc := ModelFile(Some([("a b", "1"), ("a  b", "2"), ("a b", "3")]), Some(["a", "b"]));
      && Load(bpe, Some(doc), None).Success?
      && Load(bpe, Some(doc), None).value.merges == [(("a", "b"), "2")]
  {
    SpellingsParsed();
    SpellingsDecoded();
    SpellingsMerged();
  }

  /** The dict comprehension of the example keeps the later value. */
  lemma SpellingsMerged()
    ensures PutAll([], [(("a", "b"), "3"), (("a", "b"), "2")]) == [(("a", "b"), "2")]
  {
    var entries := [(("a", "b"), "3"), (("a", "b"), "2")];
    var m1 := Put([], ("a", "b"), "3");
    assert m1 == [(("a", "b"), "3")];
    assert Find(m1, ("a", "b")) == Some(0);
    assert PutAll(m1, entries[1..]) == PutAll(Put(m1, ("a", "b"), "2"), entries[2..]);
  }

  /** The JSON object of the example: each repeated key at its first
      position, with its last value. */
  lemma SpellingsParsed()
    ensures PutAll([], [("a b", "1"), ("a  b", "2"), ("a b", "3")]) == [("a b", "3"), ("a  b", "2")]
  {
    var es := [("a b", "1"), ("a  b", "2"), ("a b", "3")];
    var m1 := Put([], "a b", "1");
    assert m1 == [("a b", "1")];
    var m2 := Put(m1, "a  b", "2");
    assert m2 == [("a b", "1"), ("a  b", "2")];
    assert Find(m2, "a b") == Some(0);
    var m3 := Put(m2, "a b", "3");
    assert m3 == [("a b", "3"), ("a  b", "2")];
    assert PutAll([], es) == PutAll(m1, es[1..]);
    assert es[1..][1..] == es[2..] && PutAll(m1, es[1..]) == PutAll(m2, es[2..]);
    assert PutAll(m2, es[2..]) == PutAll(m3, es[3..]);
  }

  /** Both keys of the parsed example decode to the same pair. */
  lemma SpellingsDecoded()
    ensures DecodeEntries([("a b", "3"), ("a  b", "2")]) == Some([(("a", "b"), "3"), (("a", "b"), "2")])
  {
    SpellingsSplit();
    var parsed := [("a b", "3"), ("a  b", "2")];
    var last := [("a  b", "2")];
    assert DecodeKey(parsed[0].0) == Some(("a", "b")) && DecodeKey(last[0].0) == Some(("a", "b"));
    assert last[1..] == [] && DecodeEntries(last[1..]) == Some([]);
    assert [(("a", "b"), "2")] + [] == [(("a", "b"), "2")];
    assert DecodeEntries(last) == Some([(("a", "b"), "2")]);
    assert parsed[1..] == last;
    assert [(("a", "b"), "3")] + [(("a", "b"), "2")] == [(("a", "b"), "3"), (("a", "b"), "2")];
  }

  /** A run of spaces separates like a single space. */
  lemma SpellingsSplit()
    ensures Split("a b") == ["a", "b"] && Split("a  b") == ["a", "b"]
  {
    assert IsSymbol("a") && IsSymbol("b");
    assert Split("") == [];
    assert "b" == "b" + "";
    SplitOfChunk("b", "");
    SplitSkipsSpace("b");
    SplitSkipsSpace(" b");
    assert "a b" == "a" + " b" && "a  b" == "a" + "  b";
    SplitOfChunk("a", " b");
    SplitOfChunk("a", "  b");
  }

  /** A table of distinct pairs of symbols, saved and loaded again, comes
      back in order; the vocabulary comes back as the same set; the metrics
      come back when they were saved. */
  lemma SaveLoad(bpe: Bpe, vocabOrder: seq<string>, withStats: bool, target: Bpe)
    requires Enumerates(vocabOrder, bpe.vocab)
    requires DistinctKeys(bpe.merges)
    requires forall i :: 0 <= i < |bpe.merges| ==> IsSymbol(bpe.merges[i].0.0) && IsSymbol(bpe.merges[i].0.1)
    ensures var files := Save(bpe, vocabOrder, withStats);
      var r := Load(target, Some(files.0), files.1);
      && r.Success?
      && r.value.merges == bpe.merges
      && r.value.vocab == bpe.vocab
      && r.value.vocabSize == target.vocabSize
      && r.value.metrics == (if withStats then bpe.metrics else target.metrics)
  {
    var files := Save(bpe, vocabOrder, withStats);
    var es := EncodeEntries(bpe.merges);
    assert files.0 == ModelFile(Some(es), Some(vocabOrder));
    assert PutAll([], es) == es by {
      EncodedKeysDistinct(bpe.merges);
      assert [] + es == es;
      PutAllFresh([], es);
    }
    DecodeEncoded(bpe.merges);
    assert PutAll([], bpe.merges) == bpe.merges by {
      assert [] + bpe.merges == bpe.merges;
      PutAllFresh([], bpe.merges);
    }
    var r := Load(target, Some(files.0), files.1);
    assert r.Success?;
    assert r.value.vocab == bpe.vocab;
  }

  /** The saved keys decode to the pairs they were made from. */
  lemma DecodeEncoded(merges: MergeTable)
    requires forall i :: 0 <= i < |merges| ==> IsSymbol(merges[i].0.0) && IsSymbol(merges[i].0.1)
    ensures DecodeEntries(EncodeEntries(merges)) == Some(merges)
  {
    var es := EncodeEntries(merges);
    forall i | 0 <= i < |es|
      ensures DecodeKey(es[i].0) == Some(merges[i].0)
    {
      KeyRoundTrip(merges[i].0);
    }
    assert DecodeEntries(es).Some?;
    var d := DecodeEntries(es).value;
    forall i | 0 <= i < |d|
      ensures d[i] == merges[i]
    {
      assert Some(d[i].0) == Some(merges[i].0);
    }
    assert |d| == |merges|;
    assert d == merges;
  }

  /** Distinct pairs of symbols are saved under distinct keys. */
  lemma EncodedKeysDistinct(merges: MergeTable)
    requires DistinctKeys(merges)
    requires forall i :: 0 <= i < |merges| ==> IsSymbol(merges[i].0.0) && IsSymbol(merges[i].0.1)
    ensures DistinctKeys(EncodeEntries(merges))
  {
    var es := EncodeEntries(merges);
    forall i, j | 0 <= i < j < |es|
      ensures es[i].0 != es[j].0
    {
      if es[i].0 == es[j].0 {
        KeyInjective(merges[i].0, merges[j].0);
      }
    }
  }

  /** A missing model file is reported whatever else is given. */
  lemma LoadMissingModel(bpe: Bpe, stats: Option<StatsFile>)
    ensures Load(bpe, None, stats) == Failure(ModelNotFound)
  {
  }

  /** A key that is not two whitespace-separated symbols is rejected. */
  lemma LoadBadKey(bpe: Bpe)
    ensures Load(bpe, Some(ModelFile(Some([("abc", "abc")]), Some(["abc"]))), None) == Failure(MalformedModel)
  {
    assert PutAll([], [("abc", "abc")]) == [("abc", "abc")] by {
      PutAllFresh([], [("abc", "abc")]);
    }
    assert JoinSpaced(["abc"]) == "abc";
    SplitJoin(["abc"]);
  }
}
