/** A run of the publisher as the list of its file writes, in their order. */
module PublisherWrites {
  import opened Options
  import opened Records
  import opened Publisher

  datatype FileWrite = FileWrite(path: Path, content: Content)

  function Apply(files: Files, writes: seq<FileWrite>): Files
    decreases |writes|
  {
    if writes == [] then files else Apply(files[writes[0].path := writes[0].content], writes[1..])
  }

  function RecordWrites(files: Files, r: Record): seq<FileWrite> {
    if RecordPath(r) in files then [] else [FileWrite(RecordPath(r), RecordJson(r))]
  }

  /** A raw file that is there already is written once more. */
  function RawWrites(files: Files, job: Inputs, names: seq<RawFile>): seq<FileWrite>
    decreases |names|, job
  {
    if names == [] || names[0] !in job.results then []
    else
      var p, content := RawPath(job.record, names[0]), Raw(job.results[names[0]]);
      if p in files && files[p] != content then []
      else [FileWrite(p, content)] + RawWrites(files[p := content], job, names[1..])
  }

  function EvidenceWrites(files: Files, job: Inputs, names: seq<RawFile>): seq<FileWrite> {
    var a := StoreRecord(files, job.record);
    RecordWrites(files, job.record) + if a.stop.Some? then [] else RawWrites(a.files, job, names)
  }

  function IndexWrites(files: Files, r: Record): seq<FileWrite> {
    if StoreIndex(files, r).stop.Some? then []
    else [FileWrite(Index, IndexJson(NewEntries(files, r))), FileWrite(Latest, RecordJson(r))]
  }

  function CopyWrites(files: Files, p: Path, bytes: Bytes): seq<FileWrite> {
    if IsDirectory(p) || p in files then [] else [FileWrite(p, Raw(bytes))]
  }

  function LastCopyWrites(files: Files, job: Inputs): seq<FileWrite> {
    var b := CopyImmutable(files, Contract, job.contract);
    CopyWrites(files, Contract, job.contract)
    + if b.stop.Some? then [] else CopyWrites(b.files, ParametersPath(job), job.parameters.bytes)
  }

  function ContractWrites(files: Files, job: Inputs): seq<FileWrite> {
    var a := CopyImmutable(files, SchemaPath(job), job.schema.bytes);
    CopyWrites(files, SchemaPath(job), job.schema.bytes)
    + if a.stop.Some? then [] else LastCopyWrites(a.files, job)
  }

  function ReadmeWrites(files: Files): seq<FileWrite> {
    (if NoJekyll in files then [] else [FileWrite(NoJekyll, Raw([]))])
    + [FileWrite(ReadmeFile, Readme(Rows(EntriesOf(files))))]
  }

  function StageWrites(files: Files, job: Inputs, stage: Stage): seq<FileWrite> {
    match stage
    case EvidenceStage => EvidenceWrites(files, job, RAW_FILES)
    case IndexStage => IndexWrites(files, job.record)
    case ContractStage => ContractWrites(files, job)
    case ReadmeStage => ReadmeWrites(files)
  }

  function StagesWrites(s: Step, job: Inputs, stages: seq<Stage>): seq<FileWrite>
    decreases |stages|, job
  {
    if s.stop.Some? || stages == [] then []
    else StageWrites(s.files, job, stages[0]) + StagesWrites(RunStage(s.files, job, stages[0]), job, stages[1..])
  }

  function PublishWrites(hash: Hash, files: Files, job: Inputs): seq<FileWrite> {
    if Validate(hash, job).Some? then [] else StagesWrites(Step(files, None), job, STAGES)
  }

  // ----- The writes make the run -----

  lemma {:induction false} ApplyAppend(files: Files, a: seq<FileWrite>, b: seq<FileWrite>)
    ensures Apply(files, a + b) == Apply(Apply(files, a), b)
    decreases |a|
  {
    if a == [] {
      assert a + b == b;
    } else {
      assert (a + b)[1..] == a[1..] + b;
      ApplyAppend(files[a[0].path := a[0].content], a[1..], b);
    }
  }

  lemma ApplyOne(files: Files, w: FileWrite)
    ensures Apply(files, [w]) == files[w.path := w.content]
  {
    assert Apply(files, [w]) == Apply(files[w.path := w.content], []);
  }

  lemma {:induction false} RawWritesApply(files: Files, job: Inputs, names: seq<RawFile>)
    ensures Apply(files, RawWrites(files, job, names)) == StoreRaw(files, job, names).files
    decreases |names|
  {
    var writes := RawWrites(files, job, names);
    if writes != [] {
      var next := files[writes[0].path := writes[0].content];
      assert writes[1..] == RawWrites(next, job, names[1..]);
      RawWritesApply(next, job, names[1..]);
    }
  }

  lemma RecordWritesApply(files: Files, r: Record)
    ensures Apply(files, RecordWrites(files, r)) == StoreRecord(files, r).files
  {
    ApplyOne(files, FileWrite(RecordPath(r), RecordJson(r)));
  }

  lemma EvidenceWritesApply(files: Files, job: Inputs, names: seq<RawFile>)
    ensures Apply(files, EvidenceWrites(files, job, names)) == StoreRecordAndRaw(files, job, names).files
  {
    var a := StoreRecord(files, job.record);
    RecordWritesApply(files, job.record);
    RawWritesApply(a.files, job, names);
    ApplyAppend(files, RecordWrites(files, job.record), if a.stop.Some? then [] else RawWrites(a.files, job, names));
  }

  lemma IndexWritesApply(files: Files, r: Record)
    ensures Apply(files, IndexWrites(files, r)) == StoreIndex(files, r).files
  {
    if StoreIndex(files, r).stop.None? {
      var i, l := FileWrite(Index, IndexJson(NewEntries(files, r))), FileWrite(Latest, RecordJson(r));
      assert IndexWrites(files, r) == [i] + [l];
      ApplyAppend(files, [i], [l]);
      ApplyOne(files, i);
      ApplyOne(files[Index := i.content], l);
    }
  }

  lemma CopyWritesApply(files: Files, p: Path, bytes: Bytes)
    ensures Apply(files, CopyWrites(files, p, bytes)) == CopyImmutable(files, p, bytes).files
  {
    ApplyOne(files, FileWrite(p, Raw(bytes)));
  }

  lemma ContractWritesApply(files: Files, job: Inputs)
    ensures Apply(files, ContractWrites(files, job)) == CopyContracts(files, job).files
  {
    var a := CopyImmutable(files, SchemaPath(job), job.schema.bytes);
    var b := CopyImmutable(a.files, Contract, job.contract);
    var last := if b.stop.Some? then [] else CopyWrites(b.files, ParametersPath(job), job.parameters.bytes);
    var second := CopyWrites(a.files, Contract, job.contract);
    CopyWritesApply(files, SchemaPath(job), job.schema.bytes);
    CopyWritesApply(a.files, Contract, job.contract);
    CopyWritesApply(b.files, ParametersPath(job), job.parameters.bytes);
    ApplyAppend(a.files, second, last);
    ApplyAppend(files, CopyWrites(files, SchemaPath(job), job.schema.bytes),
                if a.stop.Some? then [] else second + last);
  }

  lemma ReadmeWritesApply(files: Files)
    ensures Apply(files, ReadmeWrites(files)) == StoreReadme(files)
  {
    var touch := if NoJekyll in files then [] else [FileWrite(NoJekyll, Raw([]))];
    var table := FileWrite(ReadmeFile, Readme(Rows(EntriesOf(files))));
    ApplyAppend(files, touch, [table]);
    ApplyOne(files, FileWrite(NoJekyll, Raw([])));
    ApplyOne(Touch(files, NoJekyll), table);
  }

  lemma StageWritesApply(files: Files, job: Inputs, stage: Stage)
    ensures Apply(files, StageWrites(files, job, stage)) == RunStage(files, job, stage).files
  {
    match stage
    case EvidenceStage => EvidenceWritesApply(files, job, RAW_FILES);
    case IndexStage => IndexWritesApply(files, job.record);
    case ContractStage => ContractWritesApply(files, job);
    case ReadmeStage => ReadmeWritesApply(files);
  }

  lemma {:induction false} StagesWritesApply(s: Step, job: Inputs, stages: seq<Stage>)
    ensures Apply(s.files, StagesWrites(s, job, stages)) == RunStages(s, job, stages).files
    decreases |stages|
  {
    if s.stop.None? && stages != [] {
      var next := RunStage(s.files, job, stages[0]);
      StageWritesApply(s.files, job, stages[0]);
      StagesWritesApply(next, job, stages[1..]);
      ApplyAppend(s.files, StageWrites(s.files, job, stages[0]), StagesWrites(next, job, stages[1..]));
    }
  }

  /** All writes of a run, one after the other, leave exactly the store of the run. */
  lemma PublishWritesApply(hash: Hash, files: Files, job: Inputs)
    ensures Apply(files, PublishWrites(hash, files, job)) == Publish(hash, files, job).files
  {
    StagesWritesApply(Step(files, None), job, STAGES);
  }

  lemma NextStageWrites(files: Files, job: Inputs, stage: Stage, rest: seq<Stage>)
    ensures StagesWrites(Step(files, None), job, [stage] + rest)
         == StageWrites(files, job, stage) + StagesWrites(RunStage(files, job, stage), job, rest)
    ensures StagesWrites(Step(files, None), job, []) == []
  {
    assert ([stage] + rest)[1..] == rest;
  }
}
