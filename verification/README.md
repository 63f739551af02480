# Hindi BPE tokenizer, modelled in Dafny

This project models the core of the `hindi-bpe` tokenizer. That core is a
byte-pair-encoding trainer that works on whitespace-delimited words exploded into
characters. Training repeatedly merges the most frequent adjacent pair of
symbols into a new symbol until the vocabulary reaches its target size. It
records an insertion-ordered merge table and per-iteration metrics along the way.
The model also covers the encoder that replays the table and the lossy decoder. Replaying the table `fit` built over the training text gives back exactly the segmentation `fit` ended with, when no pair was merged twice.
It covers the key encoding used to persist the table, the tokenizer base
classes, and the corpus cleaner `clean_text`.

Modules, one file each:

- `results.dfy`: `Option`, `Result` and the error kinds (`InvalidInput`,
  `NotImplemented`, `UnboundLocal`, `ModelNotFound`, `MalformedModel`).
- `text.dfy`: the string operations Python provides.
  - Whitespace (`IsSpace`) is the character set of `str.isspace()`, which
    `str.split()`, `str.strip()` and `\s` all share.
  - `Split`, `JoinSpaced`, `Concat`, `Chars`, `RemoveSpaces` and `Strip` model
    `str.split()`, `' '.join`, `''.join`, `list(s)`, whitespace removal and
    `str.strip()`.
- `ordered_maps.dfy`: Python's insertion-ordered `dict` and `Counter` as
  sequences of entries.
  - `Put` is `d[k] = v`: an existing key keeps its position.
  - `Tally` is a `Counter` built element by element.
  - `MostCommon` is `most_common(1)`: the first maximal entry.
- `words.dfy`: training words, their symbols, token counts and spelling.
- `pair_stats.dfy`: `get_stats`.
- `merging.dfy`: `merge_vocab`, as a left-to-right non-overlapping pair
  replacement followed by the source's join/split round.
- `metrics.dfy`: `TrainingMetrics`, `MetricsLogger` and the
  `print_progress` firing rule.
- `tokenizers.dfy`: `BaseTokenizer` and `CharacterTokenizer`.
- `training.dfy`: the `HindiBPE` constructor and `fit`, the latter as a loop
  whose termination measure is the total token count.
- `codec.dfy`: `encode` and `decode`.
- `persistence.dfy`: `save` and `load`, with the model and metrics documents
  as values.
- `prepare.dfy`: `clean_text`.

## Model

| member | source | states |
|---|---|---|
| Text.Split | bpe/hindi_bpe.py:45 | `text.split()` yields non-empty, whitespace-free chunks made only of the text's characters |
| Text.SplitSpelling | bpe/hindi_bpe.py:45 | the chunks of `text.split()`, concatenated, are exactly the non-whitespace characters of the text, in order |
| Text.SplitEmpty | bpe/hindi_bpe.py:41 | `text.split()` is empty exactly when the text is empty or all whitespace |
| Text.SplitJoin | bpe/hindi_bpe.py:33-35 | splitting `' '.join(symbols)` gives the symbols back, so the join/split round in `merge_vocab` is lossless for symbols |
| Text.SplitOfChunk | bpe/hindi_bpe.py:35 | a symbol followed by whitespace or by nothing is the first chunk `str.split()` returns, and the rest is split on its own |
| Text.SplitSkipsSpace | bpe/hindi_bpe.py:35 | a leading space adds no chunk to `str.split()` |
| Text.Strip | bpe/hindi_bpe.py:41 | `text.strip()` is empty exactly when the text is all whitespace; otherwise it neither starts nor ends with whitespace |
| Text.RemoveSpaces | bpe/hindi_bpe.py:45 | the non-whitespace characters of a text contain no whitespace and are no longer than the text |
| Text.ConcatChars | bpe/tokenizer.py:24-27 | `''.join(list(s)) == s` |
| Text.ConcatAppend | bpe/hindi_bpe.py:104 | `''.join(a + b)` is `''.join(a) + ''.join(b)` |
| Text.ConcatOfSingles | bpe/hindi_bpe.py:104 | joining one-character strings gives a string with one character per element |
| OrderedMaps.Put | bpe/hindi_bpe.py:62 | `merges[pair] = new_token`: a present key keeps its position and takes the new value; an absent key is appended; every other entry is unchanged; keys stay distinct |
| OrderedMaps.PutAllFacts | bpe/hindi_bpe.py:123 | a dict comprehension keeps keys distinct, holds only entries it was given, and gives each key the value of its last occurrence |
| OrderedMaps.PutAllDistinct | bpe/hindi_bpe.py:123 | a run of dict assignments keeps the keys distinct |
| OrderedMaps.PutAllFrom | bpe/hindi_bpe.py:123 | after a run of dict assignments every entry was there before or was assigned |
| OrderedMaps.PutAllLast | bpe/hindi_bpe.py:123 | after a run of dict assignments a key holds the value of its last assignment |
| OrderedMaps.PutAllFresh | bpe/hindi_bpe.py:123 | rebuilding a dict from entries with distinct keys gives those entries back in order |
| OrderedMaps.PutAllSnoc | bpe/hindi_bpe.py:62 | a run of assignments followed by one more is that assignment applied to the result of the run |
| OrderedMaps.PutValues | bpe/hindi_bpe.py:62 | assigning a key that is absent or already holds v adds exactly v to the dict's values |
| OrderedMaps.LastWith | bpe/hindi_bpe.py:123 | every entry has a last entry with the same key, at or after it |
| OrderedMaps.GetEntry | bpe/hindi_bpe.py:123 | corollary of `Find`: in a dict with distinct keys each entry is found at its own position and reads its own value |
| OrderedMaps.PutAllHasKeys | bpe/hindi_bpe.py:123 | every key assigned in a run of assignments is present afterwards |
| OrderedMaps.PutAllEntry | bpe/hindi_bpe.py:123 | an entry of a dict built from a list of entries is the last entry of the list with its key, value included |
| OrderedMaps.GetPutOther | bpe/hindi_bpe.py:62 | corollary of `Put`: assigning one key leaves every other key's value unchanged |
| OrderedMaps.Tally | bpe/hindi_bpe.py:20-23 | a `Counter` fed with `+= 1` holds each distinct element once, with its number of occurrences, keyed in order of first occurrence |
| OrderedMaps.BumpTally | bpe/hindi_bpe.py:23 | one `counter[x] += 1` keeps the counter an exact tally of the elements seen so far |
| OrderedMaps.TallyOfDistinct | bpe/hindi_bpe.py:20-23 | a `Counter` of pairwise distinct elements counts each once, in their order |
| OrderedMaps.MostCommon | bpe/hindi_bpe.py:56 | `most_common(1)` picks an entry whose count is maximal, and no earlier entry has that count (ties go to the first-seen pair) |
| PairStats.MostCommonPairIsFirstMaximal | bpe/hindi_bpe.py:52-60 | `get_stats(words).most_common(1)` is empty exactly when no pair occurs. Otherwise it is a pair with a maximal count, that count, and of all pairs with that count the one seen first |
| OrderedMaps.FirstIndexAppend | bpe/hindi_bpe.py:20-23 | seeing one more element does not move the first occurrence of any element already seen |
| Words.InitialWordsShape | bpe/hindi_bpe.py:45-46 | the starting words are non-empty lists of one-character symbols drawn from the text; they spell the text without its whitespace; there are none exactly when the text is blank |
| Words.InitialTokenCount | bpe/hindi_bpe.py:48 | `original_tokens` equals the number of non-whitespace characters of the text |
| Words.TokenCountIsLength | bpe/hindi_bpe.py:68 | `sum(len(word) for word in words)` is the length of the flattened token list |
| Words.TokenCountAtLeastWords | bpe/hindi_bpe.py:68 | well-formed words hold at least one token each |
| Words.FlattenSymbols | bpe/hindi_bpe.py:100 | every token of the flattened list comes from some word's symbols |
| Words.FlattenAppend | bpe/hindi_bpe.py:100 | flattening two word lists gives the tokens of the first, then those of the second |
| PairStats.GetStats | bpe/hindi_bpe.py:18-24 | the stats hold exactly the pairs that occur adjacently inside some word, each with its number of such occurrences, without repeated keys and in order of first occurrence |
| PairStats.PairWitness | bpe/hindi_bpe.py:21-23 | a pair with a positive count occurs at two adjacent positions of one word |
| PairStats.AllPairsAppend | bpe/hindi_bpe.py:21-23 | pairs never span two words: the pairs of two word lists are the pairs of each, one after the other |
| PairStats.PairCountAppend | bpe/hindi_bpe.py:21-23 | pair counts over two word lists add up |
| PairStats.ShortWordAddsNothing | bpe/hindi_bpe.py:22 | a word of at most one symbol changes nothing in the stats |
| PairStats.GetStatsExample | bpe/hindi_bpe.py:18-24 | for the word न म स् ते, each of its three adjacent pairs is counted once, in order |
| PairStats.ExamplePairs | bpe/hindi_bpe.py:21-22 | worked example: the adjacent pairs of न म स् ते are (न, म), (म, स्), (स्, ते), in that order |
| PairStats.ExampleTally | bpe/hindi_bpe.py:20-23 | a `Counter` over the example's three distinct pairs counts each once, in order |
| Merging.ReplacePairs | bpe/hindi_bpe.py:30-34 | the left-to-right replacement never lengthens a word, keeps a non-empty word non-empty, and yields only the new token or symbols of the word |
| Merging.MergeWord | bpe/hindi_bpe.py:33-35 | the join/substitute/split round on one word yields symbols |
| Merging.MergeWordIsReplace | bpe/hindi_bpe.py:29-35 | for a symbol as new token, the regex round on a word equals the left-to-right non-overlapping pair replacement |
| Merging.MergeVocab | bpe/hindi_bpe.py:26-37 | `merge_vocab` keeps the number of words and leaves only symbols |
| Merging.ReplacePairsAbsent | bpe/hindi_bpe.py:30-34 | a word without the pair is unchanged |
| Merging.ReplacePairsLength | bpe/hindi_bpe.py:30-34 | a word loses at most one symbol per occurrence of the pair, and at least one symbol if the pair occurs |
| Merging.ReplacePairsSpelling | bpe/hindi_bpe.py:61-65 | merging a pair into its concatenation leaves the spelled text unchanged |
| Merging.ReplacePairsHead | bpe/hindi_bpe.py:30-34 | corollary of `ReplacePairs`: a word starting with the pair starts with the new token afterwards; otherwise its first symbol is unchanged |
| Merging.ReplacePairsExhaustive | bpe/hindi_bpe.py:30-34 | when the new token differs from both halves, no occurrence of the pair survives |
| Merging.MergeVocabEffect | bpe/hindi_bpe.py:61-68 | merging the most common pair keeps the words well formed, their spelling and their backslash-freedom, and keeps them inside a vocabulary that contains the new token; the token count drops by at least 1 and at most the pair count when the pair occurs |
| Merging.MergeVocabExample | bpe/hindi_bpe.py:26-37 | merging (न, म) in न म स् ते gives नम स् ते |
| Merging.NonOverlappingExample | bpe/hindi_bpe.py:30-34 | merging (x, x) in x x x gives xx x: matches do not overlap |
| Metrics.NewLogger | bpe/metrics.py:17-19 | a fresh logger has two empty logs |
| Metrics.CompressionRatio | bpe/hindi_bpe.py:74 | the ratio times the current token count is the original count; it is never negative, zero only for zero original tokens, and at least 1 exactly when the count has not grown |
| Metrics.LogIteration | bpe/metrics.py:21-34 | each log gains exactly one entry and keeps its earlier entries. The token entry copies iteration, vocab size, tokens, new token and frequency. The compression entry copies iteration and ratio. The two logs stay parallel |
| Metrics.LogAllEntries | bpe/metrics.py:21-34 | after a run of log calls, entry i of each log holds the fields of the i-th metrics record |
| Metrics.RatioIncreases | bpe/hindi_bpe.py:75 | with fewer current tokens the compression ratio is strictly larger |
| Metrics.ProgressCadence | bpe/metrics.py:36-38 | worked reading of `ShouldPrint`: progress is reported at every multiple of 500 and at no iteration in between, and always when forced |
| Tokenizers.NewTokenizer | bpe/tokenizer.py:7-11 | construction fails with invalid input exactly when the size is not positive; otherwise it stores the size and an empty vocabulary |
| Tokenizers.Tokenize | bpe/tokenizer.py:13-24 | the base class refuses; the character tokenizer yields one single-character token per character, in order |
| Tokenizers.Detokenize | bpe/tokenizer.py:17-27 | the base class refuses; the character tokenizer succeeds |
| Tokenizers.DetokenizeJoins | bpe/tokenizer.py:26-27 | the character tokenizer's `detokenize` is `''.join` on any token list: empty gives "", one token gives itself, and it distributes over list concatenation |
| Tokenizers.DetokenizeTokenize | bpe/tokenizer.py:23-27 | `detokenize(tokenize(t)) == t` |
| Tokenizers.TokenizeDetokenize | bpe/tokenizer.py:23-27 | `tokenize(detokenize(ts)) == ts` for single-character tokens |
| Training.NewBpe | bpe/hindi_bpe.py:12-15 | `HindiBPE(n)` fails exactly when n is not positive; otherwise it starts with an empty table, an empty vocabulary and empty logs |
| Training.TableStep | bpe/hindi_bpe.py:61-63 | recording `merges[pair] = a+b` and adding `a+b` to the vocabulary keeps every entry a concatenation whose token is in the vocabulary, and adds at most one entry |
| Training.LogStep | bpe/hindi_bpe.py:69-79 | logging one accepted merge keeps the logs numbered 0, 1, 2, … and parallel. Token counts keep strictly decreasing, each drop is at most the merged pair's frequency, and each ratio is original over current tokens |
| Training.RatiosFromTokens | bpe/hindi_bpe.py:68-75 | strictly decreasing token counts make the logged compression ratios strictly increase |
| Training.InitialState | bpe/hindi_bpe.py:44-50 | before the loop, the words of a non-blank text with its characters as vocabulary, an empty table and empty logs satisfy the loop invariant, and the vocabulary is not empty |
| Training.Step | bpe/hindi_bpe.py:52-82 | one accepted iteration keeps the loop invariant. It merges the pair into the words with `merge_vocab`, puts `a+b` in the table and the vocabulary, and appends the log entry (iteration, new vocabulary size, new token count, `a+b`, count). The token count drops by between 1 and the pair's count |
| Training.ExitFacts | bpe/hindi_bpe.py:51-82 | after at least one accepted merge the loop invariant yields every promise of a successful `fit`, listed after this table, and a first merge was accepted |
| Training.RoundOf | bpe/hindi_bpe.py:56-72 | merging the most common pair, when its count reaches `min_freq`, and logging its token, its count and the merged words' token count is one round of the greedy run |
| Training.IntroducedStep | bpe/hindi_bpe.py:63-78 | one more log entry leaves the tokens of the earlier entries alone and adds its own token |
| Training.RoundsStep | bpe/hindi_bpe.py:51-78 | a round appended to the trace and a matching entry appended to the log keep every iteration a round |
| Training.SizesStep | bpe/hindi_bpe.py:51-70 | an iteration that starts below the target size and logs the vocabulary size after it keeps the per-entry size record |
| Training.TableHistoryStep | bpe/hindi_bpe.py:60-63 | recording the round's pair adds its concatenation to the table's values, and the table stays the rounds' assignments in order |
| Training.HistoryStep | bpe/hindi_bpe.py:51-82 | an accepted iteration extends the run's history by one round: the trace gains the merged words, the log, vocabulary and table the round's token |
| Training.HistoryStarts | bpe/hindi_bpe.py:45-50 | before the loop the history is the starting words alone, with the characters as vocabulary and an empty table |
| Training.HistoryEnds | bpe/hindi_bpe.py:51-58 | a history that stops because the vocabulary reached the target, or no pair is left, or the best count is below `min_freq` is a greedy run |
| Training.Iterate | bpe/hindi_bpe.py:52-82 | one loop iteration on the accepted pair keeps the loop invariant and the history and lowers the token count |
| Training.Fit | bpe/hindi_bpe.py:39-93 | see the list after this table |
| Codec.ApplyMerges | bpe/hindi_bpe.py:98-99 | replaying the table keeps the number of words and leaves only symbols |
| Codec.Encode | bpe/hindi_bpe.py:95-100 | every output token is a non-empty, whitespace-free symbol |
| Codec.ApplyMergesSpelling | bpe/hindi_bpe.py:98-99 | replaying a concatenating table keeps the words well formed and their spelling unchanged |
| Codec.ApplyMergesInVocab | bpe/hindi_bpe.py:98-99 | replaying a table whose values are vocabulary symbols never leaves the vocabulary |
| Codec.EncodeSpelling | bpe/hindi_bpe.py:95-100 | if every value is the concatenation of its pair, the output tokens concatenate to the input without its whitespace |
| Codec.EncodeInVocab | bpe/hindi_bpe.py:95-100 | every output token is in the vocabulary when every input character and every table value is |
| Codec.TrainedTableEncodes | bpe/hindi_bpe.py:61-63 | a table and vocabulary as `fit` leaves them encode any text over the trained characters into vocabulary tokens that spell it |
| Codec.ApplyMergesSnoc | bpe/hindi_bpe.py:97-98 | replaying a table with one more entry at the end is replaying the table, then merging that entry's pair with `merge_vocab` |
| Codec.PicksSnoc | bpe/hindi_bpe.py:62 | the assignments of the first k iterations are those of the first k−1, then iteration k−1's assignment |
| Codec.ReplayTrace | bpe/hindi_bpe.py:62-98 | after k rounds of `fit`, replaying those rounds' assignments in order over the starting words gives exactly the words of round k |
| Codec.FitEncodesTrainingText | bpe/hindi_bpe.py:45-99 | when no pair was merged twice, `encode` of the training text with the table `fit` built returns exactly the tokens of the words `fit` stopped on |
| Codec.EncodeEmptyTable | bpe/hindi_bpe.py:95-100 | with an empty table, encode returns the non-whitespace characters one by one |
| Codec.Decode | bpe/hindi_bpe.py:102-104 | decode places the characters of the joined tokens at even positions with one space between each two. Its length is 2n−1 for n>0 characters, and it is empty for none |
| Codec.SpacedChars | bpe/hindi_bpe.py:104 | `' '.join(list(s))` interleaves the characters of s with single spaces and keeps its non-whitespace content |
| Codec.DecodeKeepsCharacters | bpe/hindi_bpe.py:102-104 | decode keeps every non-whitespace character of the tokens, in order |
| Codec.RoundTrip | bpe/hindi_bpe.py:95-104 | `decode(encode(text))` without its whitespace is the text without its whitespace, and is the text itself for a whitespace-free text |
| Persistence.DecodeKey | bpe/hindi_bpe.py:123 | `tuple(k.split())` when that is a pair: the key is decoded exactly when it splits into two parts, and then both parts are symbols. Other arities are rejected (see Left out) |
| Persistence.KeyRoundTrip | bpe/hindi_bpe.py:109-123 | a pair of symbols, joined with a space and split again, comes back unchanged |
| Persistence.KeyInjective | bpe/hindi_bpe.py:109 | distinct pairs of symbols are saved under distinct keys |
| Persistence.DecodeEntries | bpe/hindi_bpe.py:123 | the merges object decodes entry by entry, and fails exactly when some key is not a pair |
| Persistence.EncodeEntries | bpe/hindi_bpe.py:109 | each table entry becomes one document entry with a space-joined key and the same value, in order |
| Persistence.Save | bpe/hindi_bpe.py:106-117 | the model document holds the encoded table and `list(self.vocab)` in its given order, which lists every vocabulary symbol once. The metrics document, written only when a stats path is given, holds both logs |
| Persistence.Load | bpe/hindi_bpe.py:119-131 | a missing model file fails with not-found; a missing field or a key that is not a pair fails as malformed. Otherwise the vocabulary is the set of the listed symbols. The table has distinct keys; every key of the document is loaded as a pair; every loaded pair comes from the last document entry with one spelling of it, with that entry's value. The metrics are replaced only when a stats document is given |
| Persistence.SaveLoad | bpe/hindi_bpe.py:106-131 | saving and loading gives back the same table in the same order, the same vocabulary set, and the metrics when they were saved |
| Persistence.LoadLastValue | bpe/hindi_bpe.py:121-123 | when each pair has one spelling in the document, a loaded pair holds the value of the document's last entry for it |
| Persistence.LoadSpellings | bpe/hindi_bpe.py:121-123 | with the keys `a b`, `a  b`, `a b` holding 1, 2, 3, the loaded table is `(a, b) → 2`: the later spelling wins, not the last entry |
| Persistence.SpellingsParsed | bpe/hindi_bpe.py:122 | the JSON object keeps each repeated key at its first position with its last value |
| Persistence.SpellingsSplit | bpe/hindi_bpe.py:123 | `a b` and `a  b` split into the same pair |
| Persistence.DecodeEncoded | bpe/hindi_bpe.py:109-123 | the saved keys of a table of symbol pairs decode to that table |
| Persistence.EncodedKeysDistinct | bpe/hindi_bpe.py:109 | a table with distinct symbol-pair keys is saved with distinct keys |
| Persistence.LoadMissingModel | bpe/hindi_bpe.py:121 | worked example: loading without a model file fails with not-found |
| Persistence.LoadBadKey | bpe/hindi_bpe.py:123 | worked example: a one-part key is rejected as malformed, where the source would load a 1-tuple (see Left out) |
| Persistence.DistinctCardinality | bpe/hindi_bpe.py:110 | `list(self.vocab)` has exactly as many elements as the vocabulary set |
| Prepare.FirstClose | data/hindi/prepare.py:12 | finds the first `>`: no `>` comes before it, and it is a `>` unless it is the end |
| Prepare.TagLength | data/hindi/prepare.py:12 | `<[^>]+>` matches at a position when `<` is followed by at least one non-`>` character and then a `>`; the match ends at the first `>`. It fails when there is no `<`, when `>` follows the `<` at once, or when no `>` follows |
| Prepare.StripTags | data/hindi/prepare.py:12 | removing tags never lengthens the text and leaves only spaces and characters of the input |
| Prepare.StripTagsLeavesNoTags | data/hindi/prepare.py:12 | after the tag pass no position starts a tag |
| Prepare.StripTagsNoOpen | data/hindi/prepare.py:12 | a text without `<` passes the tag pass unchanged |
| Prepare.StripTagsExamples | data/hindi/prepare.py:12 | worked example: `a<b>c` becomes `a c`; `<>` is not a tag |
| Prepare.FilterChars | data/hindi/prepare.py:14 | each character outside U+0900–U+097F, whitespace and `. , ? !` becomes a space, and every other character stays |
| Prepare.KeptIsNotSpace | data/hindi/prepare.py:14 | fact about the kept-character set: no Devanagari or punctuation character that is kept counts as whitespace |
| Prepare.CollapseShape | data/hindi/prepare.py:16 | after collapsing, the filtered text holds kept characters and single spaces, never two whitespace characters together, and starts with whitespace exactly when its input does |
| Prepare.CleanText | data/hindi/prepare.py:9-17 | the output holds only U+0900–U+097F, `. , ? !` and single spaces. No two whitespace characters are adjacent, and none is at either end |
| Prepare.StripShape | data/hindi/prepare.py:17 | stripping a single-spaced text of kept characters and spaces makes it clean |
| Prepare.FilterKeeps | data/hindi/prepare.py:14 | after filtering, the non-whitespace content is exactly the kept characters, in order |
| Prepare.CollapseKeeps | data/hindi/prepare.py:16 | collapsing whitespace runs keeps the non-whitespace content |
| Prepare.StripKeeps | data/hindi/prepare.py:17 | stripping keeps the non-whitespace content |
| Prepare.TrimLeftKeeps | data/hindi/prepare.py:17 | dropping leading whitespace keeps the non-whitespace content |
| Prepare.TrimRightKeeps | data/hindi/prepare.py:17 | dropping trailing whitespace keeps the non-whitespace content |
| Prepare.CleanTextKeeps | data/hindi/prepare.py:12-17 | the non-whitespace content of the output is exactly the kept characters outside tags, in their original order |
| Prepare.CleanFixed | data/hindi/prepare.py:9-17 | a clean text is its own cleaning |
| Prepare.CleanIdempotent | data/hindi/prepare.py:9-17 | `clean_text(clean_text(t)) == clean_text(t)` |

`Training.Fit` states the following, for a fresh instance:

- Errors:
  - it fails exactly when the text is blank or no first merge is accepted;
  - a blank text gives `InvalidInput`;
  - zero accepted merges give `UnboundLocal`. The final summary reads variables that only the loop binds.
- Vocabulary: a successful fit keeps the target size. It ends with
  1 ≤ |vocab| ≤ target, and the vocabulary contains every character of the
  text.
- Merge table:
  - it is non-empty and has no more entries than the log;
  - its keys are distinct;
  - every entry is a pair of symbols mapped to their concatenation, which is
    in the vocabulary.
- Log:
  - the log is numbered 0, 1, 2, …;
  - token counts strictly decrease, and each drop is at most the merged
    pair's frequency;
  - each ratio is `original_tokens / tokens`, and `original_tokens` is the
    number of non-whitespace characters;
  - ratios strictly increase;
  - the last entry's `vocab_size` is |vocab|.
- Greedy run, through a ghost trace of the words before each iteration
  (`GreedyRun`):
  - the trace starts with the text's words and has one more element than
    the log;
  - iteration i merged the first most common pair of trace[i] into
    trace[i+1] with `merge_vocab`, and that pair's count reached `min_freq`;
    log entry i records the pair's concatenation and count and the token
    count of trace[i+1], so its compression ratio is `original_tokens`
    divided by that count;
  - each iteration began below the target size, and log entry i records
    the size of the characters plus the first i+1 new tokens;
  - the vocabulary is the text's characters plus the table's values, which
    are the logged new tokens;
  - the table is the iterations' assignments `merges[pair] = a+b`, in
    order;
  - the loop stopped because the vocabulary reached the target size, or
    the final words have no pair, or their most common pair is below
    `min_freq`.

## Left out

- File and JSON I/O in `save`, `load` and `MetricsLogger.save`.
  - Documents are values. A missing file is `None`.
  - The order in which `list(self.vocab)` enumerates the set is a parameter of `Save`.
- Console output of `print_progress` and `fit`. Only the firing rule (`ShouldPrint`) is modelled.
- Floating point. `compression_ratio` is the exact rational `original / current`, so float rounding is not modelled.
- The `re` engine's replacement-string escapes.
  - `Merging.MergeWord` and `Codec.Replayable` require that the new token contains no backslash. `re.sub` would interpret one.
  - `Training.Fit`: requires a training text without backslashes, for the same reason.
- `Training.Fit`: models a fresh instance only (empty table and empty logs). A second `fit` on one instance keeps the old table and logs, restarts the iteration numbers and resets the vocabulary. That case is not modelled.
- `Training.Fit`: on failure the model returns only the error. The instance's vocabulary, already reset to the text's characters when `UnboundLocalError` is raised, is not modelled.
- `Training.Fit`: does not state that no pair is merged twice. The table uses dict-assignment semantics either way.
- `Codec.FitEncodesTrainingText`: requires that no pair was merged twice. If one was, the second `merges[pair] = new_token` leaves the table unchanged. The table is then shorter than the log, and `encode` replays that pair once where `fit` merged it twice, so its output can differ from `fit`'s final words. That equality is not claimed.
- `Persistence.DecodeKey` and `Persistence.LoadBadKey`: a key that does not split into exactly two parts is rejected, and `Persistence.Load` reports it as `MalformedModel`. The source performs no such check. It stores a tuple of another arity, and `encode` passes every stored key to `merge_vocab`. A 1-tuple such as `('abc',)` then renames every whole symbol `abc` to its value, and a 3-tuple rewrites three adjacent symbols. The table here holds pairs only, so such keys are not modelled.
- `Persistence.Load`: a missing document field is reported as `MalformedModel`; the source raises `KeyError`. The source has already replaced `merges` (or the token log) when it raises for a later field; the model returns only the error.
- The unused `min_freq_threshold` attribute.
- `visualization.py`, `app.py`, `train_hindi_bpe.py`, `download_hindi_text` and `bpe/__init__.py`: they are consumers, network code and re-exports outside the core.
- The tokenizer `tokenize`/`detokenize` methods on `HindiBPE` itself. They are inherited from the base class, which `Tokenizers.Tokenize` models.
