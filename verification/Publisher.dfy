/**
 The publisher of benchmark history on values: a file store, one run as a series of stages that ends
 at the first error, and what a run that does not stop leaves behind.
 */
module Publisher {
  import opened Options
  import opened Records
  import opened IndexOrder

  // ----- Store and inputs -----

  datatype Row = Row(recordedAt: string, candidate: string, candidateMedian: real, baselineMedian: real,
                     ratio: real, passed: bool, recordPath: Path)

  datatype Content =
    | RecordJson(record: Record)
    | IndexJson(entries: seq<Entry>)
    | Raw(bytes: Bytes)
    | Readme(rows: seq<Row>)

  type Files = map<Path, Content>

  datatype Schema = Schema(name: string, bytes: Bytes, version: Option<int>)

  datatype Parameters = Parameters(name: string, bytes: Bytes)

  /** The arguments of a run; `schema.version` is the constant the schema document declares. */
  datatype Inputs = Inputs(
    record: Record,
    results: map<RawFile, Bytes>,
    schema: Schema,
    contract: Bytes,
    parameters: Parameters)

  /** `hashlib.sha256(...).hexdigest()` */
  type Hash = Bytes -> string

  datatype Stop =
    | IncompleteRecord
    | UnsupportedRecord
    | ContractMismatch
    | UnsupportedSchema
    | InvalidRecordId
    | InvalidTimestamp
    | RecordIsImmutable
    | MissingRaw(raw: RawFile)
    | RawIsImmutable(raw: RawFile)
    | UnreadableIndex
    | ContractIsImmutable(path: Path)
    | NotAFile(path: Path)

  datatype Step = Step(files: Files, stop: Option<Stop>)

  const Index: Path := Root(IndexName)
  const Latest: Path := Root(LatestName)
  const ReadmeFile: Path := Root(ReadmeName)
  const NoJekyll: Path := Root(NoJekyllName)
  const Contract: Path := Root(ContractName)

  function SchemaPath(job: Inputs): Path { SchemaAt(job.schema.name) }
  function ParametersName(job: Inputs): RootName { RootNamed(job.parameters.name) }
  function ParametersPath(job: Inputs): Path { Root(ParametersName(job)) }

  // ----- Steps -----

  function Validate(hash: Hash, job: Inputs): Option<Stop> {
    var r := job.record;
    if r.recordId.None? then Some(IncompleteRecord)
    else if r.schemaVersion != Some(1) || r.benchmarkId != Some(BENCHMARK_ID) then Some(UnsupportedRecord)
    else if r.contractSha != Some(hash(job.parameters.bytes)) then Some(ContractMismatch)
    else if job.schema.version != Some(1) then Some(UnsupportedSchema)
    else if !IsRecordId(r.recordId.value) then Some(InvalidRecordId)
    else if r.recordedAt.None? then Some(IncompleteRecord)
    else if !IsYear(Take(r.recordedAt.value, 4)) then Some(InvalidTimestamp)
    else None
  }

  function StoreRecord(files: Files, r: Record): Step {
    var p := RecordPath(r);
    if p in files then Step(files, if files[p] != RecordJson(r) then Some(RecordIsImmutable) else None)
    else Step(files[p := RecordJson(r)], None)
  }

  function StoreRaw(files: Files, job: Inputs, names: seq<RawFile>): Step
    decreases |names|, job
  {
    if names == [] then Step(files, None)
    else
      var name := names[0];
      var p := RawPath(job.record, name);
      if name !in job.results then Step(files, Some(MissingRaw(name)))
      else if p in files && files[p] != Raw(job.results[name]) then Step(files, Some(RawIsImmutable(name)))
      else StoreRaw(files[p := Raw(job.results[name])], job, names[1..])
  }

  function StoreRecordAndRaw(files: Files, job: Inputs, names: seq<RawFile>): Step {
    var a := StoreRecord(files, job.record);
    if a.stop.Some? then a else StoreRaw(a.files, job, names)
  }

  /** The record, then the ten raw files in their order. */
  function StoreEvidence(files: Files, job: Inputs): Step { StoreRecordAndRaw(files, job, RAW_FILES) }

  /** The entries already published; `index.json` may be absent. */
  function EntriesOf(files: Files): seq<Entry> {
    if Index in files && files[Index].IndexJson? then files[Index].entries else []
  }

  function NewEntries(files: Files, r: Record): seq<Entry> {
    if EntryOf(r).None? then EntriesOf(files) else Merge(EntriesOf(files), EntryOf(r).value)
  }

  function StoreEntries(files: Files, r: Record, entries: seq<Entry>): Files {
    files[Index := IndexJson(entries)][Latest := RecordJson(r)]
  }

  function StoreIndex(files: Files, r: Record): Step {
    if Index in files && !files[Index].IndexJson? then Step(files, Some(UnreadableIndex))
    else if EntryOf(r).None? then Step(files, Some(IncompleteRecord))
    else Step(StoreEntries(files, r, NewEntries(files, r)), None)
  }

  /** The directories a run has already made when it copies the contract files. */
  predicate IsDirectory(p: Path) { p.Root? && p.file.DirectoryName? }

  function CopyImmutable(files: Files, p: Path, bytes: Bytes): Step {
    if IsDirectory(p) then Step(files, Some(NotAFile(p)))
    else if p in files then Step(files, if files[p] != Raw(bytes) then Some(ContractIsImmutable(p)) else None)
    else Step(files[p := Raw(bytes)], None)
  }

  function CopyContracts(files: Files, job: Inputs): Step {
    var a := CopyImmutable(files, SchemaPath(job), job.schema.bytes);
    if a.stop.Some? then a
    else
      var b := CopyImmutable(a.files, Contract, job.contract);
      if b.stop.Some? then b
      else CopyImmutable(b.files, ParametersPath(job), job.parameters.bytes)
  }

  /** `touch` leaves an existing file alone. */
  function Touch(files: Files, p: Path): Files { if p in files then files else files[p := Raw([])] }

  function RowOf(e: Entry): Row {
    Row(e.recordedAt, Take(e.results.candidateSha, 12), e.results.candidateMedian, e.results.baselineMedian,
        e.results.ratio, e.results.passed, e.recordPath)
  }

  function Rows(entries: seq<Entry>): (rows: seq<Row>)
    ensures |rows| == if |entries| < 100 then |entries| else 100
    ensures forall i :: 0 <= i < |rows| ==> rows[i] == RowOf(entries[i])
  {
    seq(if |entries| < 100 then |entries| else 100, i requires 0 <= i < |entries| => RowOf(entries[i]))
  }

  /** The rows come from the index the run has just written. */
  function StoreReadme(files: Files): Files {
    Touch(files, NoJekyll)[ReadmeFile := Readme(Rows(EntriesOf(files)))]
  }

  datatype Stage = EvidenceStage | IndexStage | ContractStage | ReadmeStage

  const STAGES: seq<Stage> := [EvidenceStage, IndexStage, ContractStage, ReadmeStage]

  function RunStage(files: Files, job: Inputs, stage: Stage): Step {
    match stage
    case EvidenceStage => StoreEvidence(files, job)
    case IndexStage => StoreIndex(files, job.record)
    case ContractStage => CopyContracts(files, job)
    case ReadmeStage => Step(StoreReadme(files), None)
  }

  /** Stage after stage, until one stops. */
  function RunStages(s: Step, job: Inputs, stages: seq<Stage>): Step
    decreases |stages|, job
  {
    if s.stop.Some? || stages == [] then s
    else RunStages(RunStage(s.files, job, stages[0]), job, stages[1..])
  }

  /** One run of the publisher: where it stops, if it does, and the store it leaves. */
  function Publish(hash: Hash, files: Files, job: Inputs): Step {
    if Validate(hash, job).Some? then Step(files, Validate(hash, job))
    else RunStages(Step(files, None), job, STAGES)
  }

  // ----- What a run writes -----

  function Lookup(files: Files, p: Path): Option<Content> { if p in files then Some(files[p]) else None }

  /** `index.json`, `latest.json` and `README.md` are rewritten; everything else is kept. */
  predicate IsMutable(p: Path) { p == Index || p == Latest || p == ReadmeFile }

  predicate IsRawPath(job: Inputs, p: Path) {
    p.RawAt? && p.year == YearOf(job.record) && p.id == IdOf(job.record)
  }

  /** The lasting files a run is responsible for, and their content. */
  function Lasting(job: Inputs, p: Path): Option<Content> {
    if p == RecordPath(job.record) then Some(RecordJson(job.record))
    else if IsRawPath(job, p) then (if p.raw in job.results then Some(Raw(job.results[p.raw])) else None)
    else if p == SchemaPath(job) then Some(Raw(job.schema.bytes))
    else if p == Contract then Some(Raw(job.contract))
    else if p == ParametersPath(job) then Some(Raw(job.parameters.bytes))
    else None
  }

  /** Path by path, the store a run that does not stop leaves, with `entries` in its index. */
  function After(entries: seq<Entry>, files: Files, job: Inputs, p: Path): Option<Content> {
    if p == ReadmeFile then Some(Readme(Rows(entries)))
    else if p == Latest then Some(RecordJson(job.record))
    else if p == Index then Some(IndexJson(entries))
    else if Lasting(job, p).Some? then Lasting(job, p)
    else if p in files then Some(files[p])
    else if p == NoJekyll then Some(Raw([]))
    else None
  }

  /** A file that is there already agrees with what the run would write. */
  predicate Agrees(files: Files, job: Inputs, p: Path) {
    p in files && Lasting(job, p).Some? ==> files[p] == Lasting(job, p).value
  }

  /** Neither a directory of the store nor a file every run rewrites before it copies the contract. */
  predicate IsFileName(name: RootName) { !name.IndexName? && !name.LatestName? && !name.DirectoryName? }

  /** The checks that look at the inputs alone. */
  predicate Checked(hash: Hash, job: Inputs) {
    && Validate(hash, job).None?
    && job.record.results.Some?
    && (forall raw: RawFile :: raw in job.results)
    && IsFileName(ParametersName(job))
    && (ParametersPath(job) == Contract ==> job.parameters.bytes == job.contract)
  }

  /** The checks that look at the store. */
  predicate Fits(files: Files, job: Inputs) {
    (Index in files ==> files[Index].IndexJson?) && forall p :: p in files ==> Agrees(files, job, p)
  }

  /** What a caller can check before a run, in one condition on the store and the inputs. */
  predicate Acceptable(hash: Hash, files: Files, job: Inputs) { Checked(hash, job) && Fits(files, job) }
}
