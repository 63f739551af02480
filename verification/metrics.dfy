/** TrainingMetrics and MetricsLogger: two parallel, append-only logs of
    per-iteration training facts, and the cadence of progress reports. */
module Metrics {

  /** One accepted merge. compressionRatio is original / current tokens. */
  datatype TrainingMetrics = TrainingMetrics(
    iteration: int,
    vocabSize: int,
    tokens: int,
    newToken: string,
    frequency: int,
    compressionRatio: real)

  /** A token_logs entry: the structural facts of one iteration. */
  datatype TokenEntry = TokenEntry(
    iteration: int,
    vocabSize: int,
    tokens: int,
    newToken: string,
    frequency: int)

  /** A compression_logs entry: the ratio of one iteration. */
  datatype CompressionEntry = CompressionEntry(iteration: int, compressionRatio: real)

  datatype Logger = Logger(tokenLogs: seq<TokenEntry>, compressionLogs: seq<CompressionEntry>)

  /** Progress is printed every this many iterations. */
  const ProgressEvery: int := 500

  /** original_tokens / current_tokens, as an exact quotient. */
  function CompressionRatio(original: nat, current: nat): (r: real)
    requires current > 0
    ensures r * (current as real) == original as real
    ensures r >= 0.0 && (r == 0.0 <==> original == 0)
    ensures r >= 1.0 <==> original >= current
  {
    (original as real) / (current as real)
  }

  /** A product with a positive factor is positive only if the other factor is. */
  lemma PositiveFactor(a: real, x: real)
    requires x > 0.0
    ensures a * x > 0.0 <==> a > 0.0
  {
    if a <= 0.0 {
      assert a * x == -((-a) * x);
    } else {
      assert a * x > 0.0;
    }
  }

  /** Fewer current tokens means a strictly higher ratio. */
  lemma RatioIncreases(original: nat, c1: nat, c2: nat)
    requires original > 0 && 0 < c2 < c1
    ensures CompressionRatio(original, c1) < CompressionRatio(original, c2)
  {
    var x, y := c1 as real, c2 as real;
    var r1, r2 := CompressionRatio(original, c1), CompressionRatio(original, c2);
    assert r1 * x == original as real == r2 * y;
    var d := r2 - r1;
    assert d * x == r2 * (x - y);
    PositiveFactor(x - y, r2);
    PositiveFactor(d, x);
  }

  /** The two logs have equal length and agree on each entry's iteration. */
  predicate Parallel(l: Logger) {
    && |l.tokenLogs| == |l.compressionLogs|
    && forall i :: 0 <= i < |l.tokenLogs| ==> l.tokenLogs[i].iteration == l.compressionLogs[i].iteration
  }

  /** MetricsLogger() */
  function NewLogger(): (l: Logger)
    ensures Parallel(l) && |l.tokenLogs| == 0 && |l.compressionLogs| == 0
  {
    Logger([], [])
  }

  /** log_iteration(metrics): one entry appended to each log. */
  function LogIteration(l: Logger, m: TrainingMetrics): (r: Logger)
    ensures |r.tokenLogs| == |l.tokenLogs| + 1 && r.tokenLogs[..|l.tokenLogs|] == l.tokenLogs
    ensures |r.compressionLogs| == |l.compressionLogs| + 1
    ensures r.compressionLogs[..|l.compressionLogs|] == l.compressionLogs
    ensures var e := r.tokenLogs[|l.tokenLogs|];
      && e.iteration == m.iteration && e.vocabSize == m.vocabSize && e.tokens == m.tokens
      && e.newToken == m.newToken && e.frequency == m.frequency
    ensures var e := r.compressionLogs[|l.compressionLogs|];
      e.iteration == m.iteration && e.compressionRatio == m.compressionRatio
    ensures Parallel(l) ==> Parallel(r)
  {
    Logger(
      l.tokenLogs + [TokenEntry(m.iteration, m.vocabSize, m.tokens, m.newToken, m.frequency)],
      l.compressionLogs + [CompressionEntry(m.iteration, m.compressionRatio)])
  }

  /** A sequence of log_iteration calls. */
  function LogAll(l: Logger, ms: seq<TrainingMetrics>): Logger
    decreases |ms|
  {
    if |ms| == 0 then l else LogAll(LogIteration(l, ms[0]), ms[1..])
  }

  /** A fresh logger fed metrics m0, m1, ... holds, at position i of each
      log, exactly the fields of mi that the log keeps. */
  lemma {:induction false} LogAllEntries(l: Logger, ms: seq<TrainingMetrics>)
    requires Parallel(l)
    ensures var r := LogAll(l, ms);
      && Parallel(r)
      && |r.tokenLogs| == |l.tokenLogs| + |ms|
      && r.tokenLogs[..|l.tokenLogs|] == l.tokenLogs
      && r.compressionLogs[..|l.compressionLogs|] == l.compressionLogs
      && (forall i :: 0 <= i < |ms| ==>
            r.tokenLogs[|l.tokenLogs| + i] ==
              TokenEntry(ms[i].iteration, ms[i].vocabSize, ms[i].tokens, ms[i].newToken, ms[i].frequency))
      && (forall i :: 0 <= i < |ms| ==>
            r.compressionLogs[|l.compressionLogs| + i] == CompressionEntry(ms[i].iteration, ms[i].compressionRatio))
    decreases |ms|
  {
    if |ms| > 0 {
      var l1 := LogIteration(l, ms[0]);
      LogAllEntries(l1, ms[1..]);
      var r := LogAll(l1, ms[1..]);
      assert r.tokenLogs[..|l.tokenLogs|] == r.tokenLogs[..|l1.tokenLogs|][..|l.tokenLogs|];
      assert r.compressionLogs[..|l.compressionLogs|] == r.compressionLogs[..|l1.compressionLogs|][..|l.compressionLogs|];
      assert r.tokenLogs[|l.tokenLogs|] == r.tokenLogs[..|l1.tokenLogs|][|l.tokenLogs|];
      assert r.compressionLogs[|l.compressionLogs|] == r.compressionLogs[..|l1.compressionLogs|][|l.compressionLogs|];
      forall i | 1 <= i < |ms|
        ensures r.tokenLogs[|l.tokenLogs| + i] ==
          TokenEntry(ms[i].iteration, ms[i].vocabSize, ms[i].tokens, ms[i].newToken, ms[i].frequency)
        ensures r.compressionLogs[|l.compressionLogs| + i] == CompressionEntry(ms[i].iteration, ms[i].compressionRatio)
      {
        assert ms[1..][i - 1] == ms[i];
      }
    }
  }

  /** print_progress(metrics, force) prints iff this holds. The iteration is
      a Python int, whose % by a positive number agrees with Dafny's. */
  predicate ShouldPrint(m: TrainingMetrics, force: bool) {
    force || m.iteration % ProgressEvery == 0
  }

  /** Reports fire at every multiple of 500 and nowhere in between, unless
      forced. */
  lemma ProgressCadence(m: TrainingMetrics, k: int, rest: int)
    requires 0 < rest < ProgressEvery
    ensures ShouldPrint(m.(iteration := ProgressEvery * k), false)
    ensures !ShouldPrint(m.(iteration := ProgressEvery * k + rest), false)
    ensures ShouldPrint(m, true)
  {
  }

  /** Entries are numbered 0, 1, 2, ... */
  predicate NumberedFromZero(l: Logger) {
    forall i :: 0 <= i < |l.tokenLogs| ==> l.tokenLogs[i].iteration == i
  }

  /** The logged token counts strictly decrease. */
  predicate TokensDecreasing(l: Logger) {
    forall i, j :: 0 <= i < j < |l.tokenLogs| ==> l.tokenLogs[j].tokens < l.tokenLogs[i].tokens
  }

  /** The logged compression ratios strictly increase. */
  predicate RatiosIncreasing(l: Logger) {
    forall i, j :: 0 <= i < j < |l.compressionLogs| ==>
      l.compressionLogs[i].compressionRatio < l.compressionLogs[j].compressionRatio
  }
}
