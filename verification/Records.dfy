/** Benchmark records, their index entries, and the checks on their identifiers. */
module Records {
  import opened Bits
  import opened Options
  import Decimal

  type Bytes = seq<byte>

  /** The files a benchmark run leaves behind, in the order the publisher stores them. */
  datatype RawFile =
    | Candidate1 // candidate-1.txt
    | Candidate2 // candidate-2.txt
    | Candidate3 // candidate-3.txt
    | CandidateRates // candidate-rates.txt
    | CandidateServerLog // candidate-server.log
    | Baseline1 // baseline-1.txt
    | Baseline2 // baseline-2.txt
    | Baseline3 // baseline-3.txt
    | BaselineRates // baseline-rates.txt
    | BaselineServerLog // baseline-server.log

  const RAW_FILES: seq<RawFile> := [
    Candidate1, Candidate2, Candidate3, CandidateRates, CandidateServerLog,
    Baseline1, Baseline2, Baseline3, BaselineRates, BaselineServerLog]

  /** A plain name in the history directory itself, as far as the publisher tells names apart. */
  datatype RootName =
    | IndexName // index.json
    | LatestName // latest.json
    | ReadmeName // README.md
    | NoJekyllName // .nojekyll
    | ContractName // CONTRACT.md
    | DirectoryName(name: string) // records, raw and schema
    | OtherName(name: string)

  /** A path below the history directory. */
  datatype Path =
    | RecordAt(year: string, id: string) // records/<year>/<id>.json
    | RawAt(year: string, id: string, raw: RawFile) // raw/<year>/<id>/<file>
    | SchemaAt(schema: string) // schema/<name>
    | Root(file: RootName)

  function RootNamed(text: string): RootName {
    if text == "index.json" then IndexName
    else if text == "latest.json" then LatestName
    else if text == "README.md" then ReadmeName
    else if text == ".nojekyll" then NoJekyllName
    else if text == "CONTRACT.md" then ContractName
    else if text == "records" || text == "raw" || text == "schema" then DirectoryName(text)
    else OtherName(text)
  }

  datatype Results = Results(
    candidateSha: string,
    baselineSha: string,
    candidateMedian: real,
    baselineMedian: real,
    ratio: real,
    passed: bool)

  /** `None` marks a key the JSON text lacks (or holds with another type); `other` is all the rest. */
  datatype Record = Record(
    recordId: Option<string>,
    recordedAt: Option<string>,
    schemaVersion: Option<int>,
    benchmarkId: Option<string>,
    contractSha: Option<string>,
    results: Option<Results>,
    other: Bytes)

  /** One entry of `index.json`. */
  datatype Entry = Entry(recordId: string, recordedAt: string, results: Results, recordPath: Path)

  const BENCHMARK_ID := "http-throughput-v1"

  function OrEmpty(s: Option<string>): string { if s.Some? then s.value else "" }

  function Take(s: string, n: nat): string { if |s| < n then s else s[..n] }

  function IdOf(r: Record): string { OrEmpty(r.recordId) }

  function YearOf(r: Record): string { Take(OrEmpty(r.recordedAt), 4) }

  function RecordPath(r: Record): Path { RecordAt(YearOf(r), IdOf(r)) }

  function RawPath(r: Record, raw: RawFile): Path { RawAt(YearOf(r), IdOf(r), raw) }

  function EntryOf(r: Record): Option<Entry> {
    if r.results.None? then None
    else Some(Entry(IdOf(r), OrEmpty(r.recordedAt), r.results.value, RecordPath(r)))
  }

  /** The record carries this identifier and this time. */
  predicate IsNamed(r: Record, id: string, at: string) {
    r.recordId == Some(id) && r.recordedAt == Some(at) && |at| >= 4
  }

  /** Where a record goes and what the index says of it, by its identifier and the year of its time. */
  lemma NamedPaths(r: Record, id: string, at: string)
    requires IsNamed(r, id, at)
    ensures RecordPath(r) == RecordAt(at[..4], id)
    ensures forall raw :: RawPath(r, raw) == RawAt(at[..4], id, raw)
    ensures r.results.Some? ==> EntryOf(r) == Some(Entry(id, at, r.results.value, RecordAt(at[..4], id)))
  {
  }

  /** Records of different identifiers never share a file. */
  lemma PathsApart(r: Record, s: Record)
    requires r.recordId.Some? && s.recordId.Some? && r.recordId != s.recordId
    ensures RecordPath(r) != RecordPath(s)
    ensures forall raw, raw' :: RawPath(r, raw) != RawPath(s, raw')
  {
  }

  // ----- Identifier checks -----

  /** `[0-9]{4}` */
  predicate IsYear(s: string) { |s| == 4 && Decimal.AllDigits(s) }

  predicate IsHex(s: string) {
    forall i :: 0 <= i < |s| ==> Decimal.IsDigit(s[i]) || 'a' <= s[i] <= 'f'
  }

  /** Length of the digits at the front. */
  function DigitRun(s: string): (n: nat)
    ensures n <= |s| && Decimal.AllDigits(s[..n]) && (n < |s| ==> !Decimal.IsDigit(s[n]))
  {
    if s == [] || !Decimal.IsDigit(s[0]) then 0
    else
      var n := DigitRun(s[1..]);
      assert s[..1 + n] == [s[0]] + s[1..][..n];
      1 + n
  }

  /** `[0-9]+-[0-9a-f]{12}` */
  predicate IsAttemptAndSha(t: string) {
    var j := DigitRun(t);
    0 < j < |t| && t[j] == '-' && |t[j + 1..]| == 12 && IsHex(t[j + 1..])
  }

  /** `[0-9]+-[0-9]+-[0-9a-f]{12}`; no digit is a dash, so the greedy split is the only one. */
  predicate IsRecordId(s: string) {
    var i := DigitRun(s);
    0 < i < |s| && s[i] == '-' && IsAttemptAndSha(s[i + 1..])
  }

  /** The three parts the pattern describes. */
  ghost predicate HasIdParts(s: string, a: string, b: string, c: string) {
    && s == a + "-" + b + "-" + c
    && a != "" && (forall i :: 0 <= i < |a| ==> '0' <= a[i] <= '9')
    && b != "" && (forall i :: 0 <= i < |b| ==> '0' <= b[i] <= '9')
    && |c| == 12 && (forall i :: 0 <= i < |c| ==> '0' <= c[i] <= '9' || 'a' <= c[i] <= 'f')
  }

  lemma RunOfDigits(a: string, rest: string)
    requires Decimal.AllDigits(a) && (rest == [] || !Decimal.IsDigit(rest[0]))
    ensures DigitRun(a + rest) == |a|
  {
    var s := a + rest;
    var n := DigitRun(s);
    assert forall i :: 0 <= i < n ==> s[i] == s[..n][i];
    assert forall i :: 0 <= i < |a| ==> s[i] == a[i];
    if rest != [] { assert s[|a|] == rest[0]; }
  }

  /** The checker accepts exactly the strings of the pattern. */
  lemma RecordIdPattern(s: string)
    ensures IsRecordId(s) <==> exists a, b, c :: HasIdParts(s, a, b, c)
  {
    if IsRecordId(s) { PartsOfId(s); }
    if a, b, c :| HasIdParts(s, a, b, c) { IdOfParts(s, a, b, c); }
  }

  lemma PartsOfId(s: string)
    requires IsRecordId(s)
    ensures exists a, b, c :: HasIdParts(s, a, b, c)
  {
    var i := DigitRun(s);
    var t := s[i + 1..];
    var j := DigitRun(t);
    assert s == s[..i] + "-" + t;
    assert t == t[..j] + "-" + t[j + 1..];
    assert s == s[..i] + "-" + t[..j] + "-" + t[j + 1..];
    assert HasIdParts(s, s[..i], t[..j], t[j + 1..]);
  }

  lemma IdOfParts(s: string, a: string, b: string, c: string)
    requires HasIdParts(s, a, b, c)
    ensures IsRecordId(s)
  {
    var t := b + ("-" + c);
    RunOfDigits(a, "-" + t);
    assert s == a + ("-" + t);
    RunOfDigits(b, "-" + c);
    assert s[|a| + 1..] == t && t[|b| + 1..] == c;
  }
}
