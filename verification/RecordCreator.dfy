/** The record creator, and what the publisher makes of its records. */
module RecordCreator {
  import opened Options
  import opened Records
  import Decimal
  import Median
  import Publisher

  /** The contract parameters the record depends on, and the digest of their file. */
  datatype Parameters = Parameters(
    samples: int,
    minimumRatio: real,
    schemaVersion: int,
    benchmarkId: string,
    digest: string)

  datatype Arguments = Arguments(
    runId: int,
    runAttempt: int,
    candidateSha: string,
    baselineSha: string,
    recordedAt: string,
    other: Bytes)

  /** `read_rates`, behind the conversion of its lines; `None` stands for the ValueError. */
  function ReadRates(rates: seq<real>, expected: int): Option<seq<real>> {
    if |rates| != expected || exists i :: 0 <= i < |rates| && rates[i] <= 0.0 then None else Some(rates)
  }

  /** `f"{run_id}-{run_attempt}-{candidate_sha[:12]}"` */
  function RecordId(runId: int, runAttempt: int, sha: string): string {
    IdText(Decimal.Text(runId), Decimal.Text(runAttempt), Take(sha, 12))
  }

  function Create(p: Parameters, a: Arguments, candidate: seq<real>, baseline: seq<real>): Option<Record> {
    if p.samples <= 0 || p.samples % 2 == 0 then None
    else if ReadRates(candidate, p.samples).None? || ReadRates(baseline, p.samples).None? then None
    else if !(0.0 < p.minimumRatio <= 1.0) then None
    else
      var c, b := Median.MedianOf(candidate), Median.MedianOf(baseline);
      PositiveMedian(baseline);
      Some(Record(
        Some(RecordId(a.runId, a.runAttempt, a.candidateSha)),
        Some(a.recordedAt),
        Some(p.schemaVersion),
        Some(p.benchmarkId),
        Some(p.digest),
        Some(Results(a.candidateSha, a.baselineSha, c, b, c / b, Median.Passes(candidate, baseline, p.minimumRatio))),
        a.other))
  }

  /** The ratio of the record is well defined. */
  lemma PositiveMedian(rates: seq<real>)
    requires rates != [] && forall i :: 0 <= i < |rates| ==> rates[i] > 0.0
    ensures Median.MedianOf(rates) > 0.0
  {
    Median.SortKeepsPositive(rates);
  }

  /** A record says "passed" exactly when most candidate samples reach the threshold. */
  lemma PassedIsMajority(p: Parameters, a: Arguments, candidate: seq<real>, baseline: seq<real>)
    requires Create(p, a, candidate, baseline).Some?
    ensures baseline != [] &&
      (Create(p, a, candidate, baseline).value.results.value.passed <==>
         Median.CountAtLeast(candidate, Median.MedianOf(baseline) * p.minimumRatio) >= (|candidate| + 1) / 2)
  {
    Median.GateIsMajority(candidate, baseline, p.minimumRatio);
  }

  /** The gate, told by the ratio of the medians. */
  lemma GateIsRatio(candidate: seq<real>, baseline: seq<real>, minimumRatio: real)
    requires candidate != [] && baseline != [] && Median.MedianOf(baseline) > 0.0
    ensures Median.Passes(candidate, baseline, minimumRatio)
       <==> Median.MedianOf(candidate) / Median.MedianOf(baseline) >= minimumRatio
  {
    var c, b := Median.MedianOf(candidate), Median.MedianOf(baseline);
    RatioMeets(c / b, c, b, minimumRatio);
  }

  /** A record is created exactly for an odd number of positive samples on both sides and a ratio in (0, 1]. */
  lemma CreatesExactly(p: Parameters, a: Arguments, candidate: seq<real>, baseline: seq<real>)
    ensures Create(p, a, candidate, baseline).Some?
       <==> p.samples > 0 && p.samples % 2 == 1 && |candidate| == |baseline| == p.samples
            && (forall i :: 0 <= i < |candidate| ==> candidate[i] > 0.0)
            && (forall i :: 0 <= i < |baseline| ==> baseline[i] > 0.0)
            && 0.0 < p.minimumRatio <= 1.0
  {
  }

  /** What a created record holds as its results. */
  lemma CreatedResults(p: Parameters, a: Arguments, candidate: seq<real>, baseline: seq<real>, results: Results)
    requires Create(p, a, candidate, baseline).Some?
    requires results == Create(p, a, candidate, baseline).value.results.value
    ensures candidate != [] && baseline != [] && Median.MedianOf(baseline) > 0.0
    ensures results == Results(a.candidateSha, a.baselineSha, Median.MedianOf(candidate), Median.MedianOf(baseline),
      Median.MedianOf(candidate) / Median.MedianOf(baseline), Median.Passes(candidate, baseline, p.minimumRatio))
  {
    PositiveMedian(baseline);
  }

  /** The recorded ratio is that of the recorded medians, and it reaches the minimum exactly when the gate passes. */
  lemma PassedIsRatio(p: Parameters, a: Arguments, candidate: seq<real>, baseline: seq<real>, results: Results)
    requires Create(p, a, candidate, baseline).Some?
    requires results == Create(p, a, candidate, baseline).value.results.value
    ensures results.baselineMedian > 0.0 && results.ratio == results.candidateMedian / results.baselineMedian
    ensures results.passed <==> results.ratio >= p.minimumRatio
  {
    CreatedResults(p, a, candidate, baseline, results);
    GateIsRatio(candidate, baseline, p.minimumRatio);
  }

  lemma RatioMeets(q: real, c: real, b: real, m: real)
    requires b > 0.0 && q == c / b
    ensures q * b == c
    ensures q >= m <==> c >= b * m
  {
    assert (q - m) * b == c - b * m;
    if q >= m { assert (q - m) * b >= 0.0; } else { assert (m - q) * b > 0.0; }
  }

  lemma TextDigits(n: int)
    ensures n >= 0 ==> Decimal.AllDigits(Decimal.Text(n)) && '-' !in Decimal.Text(n)
    ensures n < 0 ==> Decimal.Text(n)[0] == '-'
    ensures Decimal.Text(n) != []
  {
    if n >= 0 {
      var s := Decimal.Text(n);
      assert forall i :: 0 <= i < |s| ==> Decimal.IsDigit(s[i]);
    }
  }

  function IdText(a: string, b: string, c: string): string { a + "-" + b + "-" + c }

  /** A printed number, or something that starts with a minus sign instead. */
  predicate IsPrinted(a: string, nonnegative: bool) {
    a != [] && if nonnegative then Decimal.AllDigits(a) else a[0] == '-'
  }

  lemma NotAnId(s: string)
    requires s != [] && s[0] == '-'
    ensures DigitRun(s) == 0 && !IsRecordId(s)
  {
  }

  /** The attempt and the SHA, behind the first dash. */
  lemma SecondPart(b: string, c: string, nonnegative: bool)
    requires IsPrinted(b, nonnegative)
    ensures IsAttemptAndSha(b + ("-" + c)) <==> nonnegative && |c| == 12 && IsHex(c)
  {
    var t := b + ("-" + c);
    if nonnegative {
      RunOfDigits(b, "-" + c);
      assert t[|b| + 1..] == c && t[|b|] == '-';
    } else {
      NotAnId(t);
    }
  }

  lemma FirstPart(a: string, t: string)
    requires a != [] && Decimal.AllDigits(a)
    ensures IsRecordId(a + ("-" + t)) <==> IsAttemptAndSha(t)
  {
    RunOfDigits(a, "-" + t);
    var id := a + ("-" + t);
    assert id[|a| + 1..] == t && id[|a|] == '-';
  }

  lemma IdTextMatches(a: string, b: string, c: string, first: bool, second: bool)
    requires IsPrinted(a, first) && IsPrinted(b, second)
    ensures IsRecordId(IdText(a, b, c)) <==> first && second && |c| == 12 && IsHex(c)
  {
    var id := IdText(a, b, c);
    var t := b + ("-" + c);
    assert id == a + ("-" + t);
    SecondPart(b, c, second);
    if first {
      FirstPart(a, t);
    } else {
      NotAnId(id);
    }
  }

  /** The identifier matches the publisher's pattern exactly for nonnegative numbers and a hex SHA. */
  lemma RecordIdMatches(runId: int, runAttempt: int, sha: string)
    ensures IsRecordId(RecordId(runId, runAttempt, sha))
       <==> runId >= 0 && runAttempt >= 0 && |sha| >= 12 && IsHex(sha[..12])
  {
    TextDigits(runId);
    TextDigits(runAttempt);
    IdTextMatches(Decimal.Text(runId), Decimal.Text(runAttempt), Take(sha, 12), runId >= 0, runAttempt >= 0);
  }

  lemma IdTextInjective(a: string, b: string, c: string, a': string, b': string, c': string)
    requires '-' !in a && '-' !in b && '-' !in a' && '-' !in b' && IdText(a, b, c) == IdText(a', b', c')
    ensures a == a' && b == b' && c == c'
  {
    var x, x' := b + ['-'] + c, b' + ['-'] + c';
    assert IdText(a, b, c) == a + ['-'] + x && IdText(a', b', c') == a' + ['-'] + x';
    Decimal.FirstCutIsUnique(a, a', x, x', '-');
    Decimal.FirstCutIsUnique(b, b', c, c', '-');
  }

  /** The parts of an identifier are the run number, the attempt and the front of the SHA, in this order. */
  lemma RecordIdParts(runId: nat, runAttempt: nat, sha: string) returns (run: string, attempt: string)
    requires |sha| >= 12
    ensures RecordId(runId, runAttempt, sha) == run + "-" + attempt + "-" + sha[..12]
    ensures Decimal.AllDigits(run) && Decimal.Value(run) == runId
    ensures Decimal.AllDigits(attempt) && Decimal.Value(attempt) == runAttempt
  {
    run, attempt := Decimal.Digits(runId), Decimal.Digits(runAttempt);
    Decimal.ValueOfDigits(runId);
    Decimal.ValueOfDigits(runAttempt);
  }

  /** Distinct runs never share an identifier. */
  lemma RecordIdInjective(r: nat, a: nat, sha: string, r': nat, a': nat, sha': string)
    requires RecordId(r, a, sha) == RecordId(r', a', sha')
    ensures r == r' && a == a' && Take(sha, 12) == Take(sha', 12)
  {
    TextDigits(r);
    TextDigits(r');
    TextDigits(a);
    TextDigits(a');
    IdTextInjective(Decimal.Text(r), Decimal.Text(a), Take(sha, 12),
                    Decimal.Text(r'), Decimal.Text(a'), Take(sha', 12));
    Decimal.TextInjective(r, r');
    Decimal.TextInjective(a, a');
  }

  /**
   The publisher's checks accept a created record exactly when the contract is the v1 contract the
   publisher holds and the run's arguments have the shape of the identifier and the timestamp.
   */
  lemma CreatedIsValid(hash: Publisher.Hash, p: Parameters, a: Arguments, candidate: seq<real>, baseline: seq<real>,
                       job: Publisher.Inputs)
    requires Create(p, a, candidate, baseline) == Some(job.record)
    ensures Publisher.Validate(hash, job).None?
       <==> p.schemaVersion == 1 && p.benchmarkId == "http-throughput-v1" && p.digest == hash(job.parameters.bytes)
            && job.schema.version == Some(1)
            && a.runId >= 0 && a.runAttempt >= 0 && |a.candidateSha| >= 12 && IsHex(a.candidateSha[..12])
            && |a.recordedAt| >= 4 && Decimal.AllDigits(a.recordedAt[..4])
  {
    RecordIdMatches(a.runId, a.runAttempt, a.candidateSha);
    ValidMeans(hash, job);
  }

  lemma ValidMeans(hash: Publisher.Hash, job: Publisher.Inputs)
    ensures var r := job.record;
      Publisher.Validate(hash, job).None?
      <==> r.schemaVersion == Some(1) && r.benchmarkId == Some(BENCHMARK_ID)
           && r.contractSha == Some(hash(job.parameters.bytes)) && job.schema.version == Some(1)
           && r.recordId.Some? && IsRecordId(r.recordId.value)
           && r.recordedAt.Some? && IsYear(Take(r.recordedAt.value, 4))
  {
  }
}
