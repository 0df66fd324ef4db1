/** A run of the publisher stage by stage, up to its two summaries: when it stops, and what it leaves. */
module PublisherStages {
  import opened Options
  import opened Records
  import opened Publisher

  lemma AllRawFiles(raw: RawFile)
    ensures raw in RAW_FILES
  {
    assert RAW_FILES[0] == Candidate1 && RAW_FILES[1] == Candidate2 && RAW_FILES[2] == Candidate3;
    assert RAW_FILES[3] == CandidateRates && RAW_FILES[4] == CandidateServerLog;
    assert RAW_FILES[5] == Baseline1 && RAW_FILES[6] == Baseline2 && RAW_FILES[7] == Baseline3;
    assert RAW_FILES[8] == BaselineRates && RAW_FILES[9] == BaselineServerLog;
  }

  // ----- Raw files -----

  /** What the raw-file stage leaves on one path, when it does not stop. */
  function AfterRaw(files: Files, job: Inputs, names: seq<RawFile>, p: Path): Option<Content> {
    if IsRawPath(job, p) && p.raw in names then Lasting(job, p) else Lookup(files, p)
  }

  lemma {:induction false} StoreRawFiles(files: Files, job: Inputs, names: seq<RawFile>)
    ensures var s := StoreRaw(files, job, names);
      (s.stop.None? <==>
         forall raw :: raw in names ==> raw in job.results && Agrees(files, job, RawPath(job.record, raw)))
      && (s.stop.None? ==> forall p :: Lookup(s.files, p) == AfterRaw(files, job, names, p))
      && (forall p :: Lookup(s.files, p) == Lookup(files, p)
                      || (p !in files && Lookup(s.files, p) == AfterRaw(files, job, names, p)))
    decreases |names|
  {
    if names != [] {
      var raw := names[0];
      var p := RawPath(job.record, raw);
      assert forall r :: r in names <==> r == raw || r in names[1..];
      if raw in job.results && Agrees(files, job, p) {
        var files' := files[p := Raw(job.results[raw])];
        StoreRawFiles(files', job, names[1..]);
        OneRawFile(files, files', job, raw);
        assert StoreRaw(files, job, names) == StoreRaw(files', job, names[1..]);
      }
    }
  }

  lemma OneRawFile(files: Files, files': Files, job: Inputs, raw: RawFile)
    requires raw in job.results && Agrees(files, job, RawPath(job.record, raw))
    requires files' == files[RawPath(job.record, raw) := Raw(job.results[raw])]
    ensures var p := RawPath(job.record, raw);
      IsRawPath(job, p) && Lasting(job, p) == Some(Raw(job.results[raw])) && Lookup(files', p) == Lasting(job, p)
      && (p in files ==> files' == files) && forall q :: q != p ==> Lookup(files', q) == Lookup(files, q)
    ensures forall r :: Agrees(files', job, RawPath(job.record, r)) <==> Agrees(files, job, RawPath(job.record, r))
  {
  }

  // ----- Record and raw files -----

  function AfterEvidence(files: Files, job: Inputs, p: Path): Option<Content> {
    if p == RecordPath(job.record) || IsRawPath(job, p) then Lasting(job, p) else Lookup(files, p)
  }

  ghost predicate EvidenceAgrees(files: Files, job: Inputs) {
    && Agrees(files, job, RecordPath(job.record))
    && forall raw :: raw in job.results && Agrees(files, job, RawPath(job.record, raw))
  }

  lemma StoreRecordAndRawFiles(files: Files, job: Inputs, names: seq<RawFile>)
    requires forall raw: RawFile :: raw in names
    ensures var s := StoreRecordAndRaw(files, job, names);
      (s.stop.None? <==> EvidenceAgrees(files, job))
      && (s.stop.None? ==> forall p :: Lookup(s.files, p) == AfterEvidence(files, job, p))
      && (forall p :: Lookup(s.files, p) == Lookup(files, p)
                      || (p !in files && Lookup(s.files, p) == AfterEvidence(files, job, p)))
  {
    var a := StoreRecord(files, job.record);
    StoreRawFiles(a.files, job, names);
  }

  lemma StoreEvidenceFiles(files: Files, job: Inputs)
    ensures var s := StoreEvidence(files, job);
      (s.stop.None? <==> EvidenceAgrees(files, job))
      && (s.stop.None? ==> forall p :: Lookup(s.files, p) == AfterEvidence(files, job, p))
      && (forall p :: Lookup(s.files, p) == Lookup(files, p)
                      || (p !in files && Lookup(s.files, p) == AfterEvidence(files, job, p)))
  {
    forall raw: RawFile ensures raw in RAW_FILES { AllRawFiles(raw); }
    StoreRecordAndRawFiles(files, job, RAW_FILES);
  }

  // ----- Index and latest -----

  function AfterIndex(entries: seq<Entry>, files: Files, job: Inputs, p: Path): Option<Content> {
    if p == Latest then Some(RecordJson(job.record))
    else if p == Index then Some(IndexJson(entries))
    else AfterEvidence(files, job, p)
  }

  lemma StoreEntriesFiles(entries: seq<Entry>, files: Files, b: Files, job: Inputs)
    requires forall p :: Lookup(b, p) == AfterEvidence(files, job, p)
    ensures forall p :: Lookup(StoreEntries(b, job.record, entries), p) == AfterIndex(entries, files, job, p)
  {
    forall p ensures Lookup(StoreEntries(b, job.record, entries), p) == AfterIndex(entries, files, job, p) {
      assert Lookup(b, p) == AfterEvidence(files, job, p);
    }
  }

  lemma SameEntries(files: Files, b: Files, r: Record)
    requires Lookup(b, Index) == Lookup(files, Index)
    ensures NewEntries(b, r) == NewEntries(files, r)
    ensures Index in b && !b[Index].IndexJson? <==> Index in files && !files[Index].IndexJson?
  {
    assert EntriesOf(b) == EntriesOf(files);
  }

  predicate IndexReady(files: Files, job: Inputs) {
    job.record.results.Some? && (Index in files ==> files[Index].IndexJson?)
  }

  lemma IndexStep(entries: seq<Entry>, files: Files, a: Files, job: Inputs)
    requires forall p :: Lookup(a, p) == AfterEvidence(files, job, p)
    requires entries == NewEntries(files, job.record)
    ensures var b := StoreIndex(a, job.record);
      (b.stop.None? <==> IndexReady(files, job))
      && b.files == if b.stop.Some? then a else StoreEntries(a, job.record, entries)
  {
    assert Lookup(a, Index) == AfterEvidence(files, job, Index) == Lookup(files, Index);
    SameEntries(files, a, job.record);
    StoreIndexIs(a, job.record, entries);
  }

  lemma StoreIndexIs(a: Files, r: Record, entries: seq<Entry>)
    requires entries == NewEntries(a, r)
    ensures var b := StoreIndex(a, r);
      (b.stop.None? <==> r.results.Some? && (Index in a ==> a[Index].IndexJson?))
      && b.files == if b.stop.Some? then a else StoreEntries(a, r, entries)
  {
  }

  // ----- Contract files -----

  ghost predicate ContractsAgree(files: Files, job: Inputs) {
    && Agrees(files, job, SchemaPath(job)) && Agrees(files, job, Contract)
    && !IsDirectory(ParametersPath(job))
    && (ParametersPath(job) == Contract ==> job.parameters.bytes == job.contract)
    && Agrees(files, job, ParametersPath(job))
  }

  predicate IsContractPath(job: Inputs, p: Path) {
    p == SchemaPath(job) || p == Contract || p == ParametersPath(job)
  }

  function AfterContracts(files: Files, job: Inputs, p: Path): Option<Content> {
    if IsContractPath(job, p) then Lasting(job, p) else Lookup(files, p)
  }

  lemma CopyContractsFiles(files: Files, job: Inputs)
    ensures var s := CopyContracts(files, job);
      (s.stop.None? <==> ContractsAgree(files, job))
      && (s.stop.None? ==> forall p :: Lookup(s.files, p) == AfterContracts(files, job, p))
      && (forall p :: Lookup(s.files, p) == Lookup(files, p)
                      || (p !in files && Lookup(s.files, p) == AfterContracts(files, job, p)))
      && (s.stop.Some? && Agrees(files, job, SchemaPath(job)) ==> SchemaPath(job) in s.files)
      && (s.stop.Some? && ParametersPath(job) != Contract ==>
            Lookup(s.files, ParametersPath(job)) == Lookup(files, ParametersPath(job)))
  {
    var a := CopyImmutable(files, SchemaPath(job), job.schema.bytes);
    CopyOne(files, SchemaPath(job), job.schema.bytes);
    if a.stop.None? {
      var b := CopyImmutable(a.files, Contract, job.contract);
      CopyOne(a.files, Contract, job.contract);
      if b.stop.None? {
        CopyOne(b.files, ParametersPath(job), job.parameters.bytes);
        assert CopyContracts(files, job) == CopyImmutable(b.files, ParametersPath(job), job.parameters.bytes);
      }
    }
  }

  /** One immutable copy, path by path. */
  lemma CopyOne(files: Files, q: Path, bytes: Bytes)
    ensures var s := CopyImmutable(files, q, bytes);
      (s.stop.None? <==> !IsDirectory(q) && (q in files ==> files[q] == Raw(bytes)))
      && (s.stop.Some? ==> s.files == files)
      && (forall p :: p != q ==> Lookup(s.files, p) == Lookup(files, p))
      && (s.stop.None? ==> Lookup(s.files, q) == Some(Raw(bytes)))
  {
  }

  // ----- The run -----

  lemma AgreementByStage(files: Files, job: Inputs)
    ensures (forall raw: RawFile :: raw in job.results) && (forall p :: p in files ==> Agrees(files, job, p))
            && IsFileName(ParametersName(job))
            && (ParametersPath(job) == Contract ==> job.parameters.bytes == job.contract)
       <==> EvidenceAgrees(files, job) && ContractsAgree(files, job)
            && ParametersPath(job) != Index && ParametersPath(job) != Latest
  {
    if EvidenceAgrees(files, job) && ContractsAgree(files, job) {
      forall p | p in files ensures Agrees(files, job, p) {
        if IsRawPath(job, p) { assert p == RawPath(job.record, p.raw); }
      }
    }
  }

  /** The contract stage meets the store as the index stage left it. */
  lemma ContractsAfterIndex(entries: seq<Entry>, files: Files, b: Files, job: Inputs)
    requires forall p :: Lookup(b, p) == AfterIndex(entries, files, job, p)
    ensures ContractsAgree(b, job)
       <==> ContractsAgree(files, job) && ParametersPath(job) != Index && ParametersPath(job) != Latest
  {
    var schema := SchemaPath(job);
    assert Lookup(b, schema) == AfterIndex(entries, files, job, schema) == Lookup(files, schema);
    assert Lookup(b, Contract) == AfterIndex(entries, files, job, Contract) == Lookup(files, Contract);
    var p := ParametersPath(job);
    assert Lookup(b, p) == AfterIndex(entries, files, job, p);
  }

  lemma LastSteps(entries: seq<Entry>, files: Files, b: Files, c: Files, job: Inputs, p: Path)
    requires Lookup(b, p) == AfterIndex(entries, files, job, p)
    requires Lookup(c, p) == AfterContracts(b, job, p) && EvidenceAgrees(files, job)
    requires ParametersPath(job) != Index && ParametersPath(job) != Latest
    requires EntriesOf(c) == entries
    ensures Lookup(StoreReadme(c), p) == After(entries, files, job, p)
  {
  }

  /** The paths a run that stops can have created. */
  predicate CreatedEarly(job: Inputs, p: Path) {
    p == RecordPath(job.record) || IsRawPath(job, p) || p == Index || p == Latest
    || p == SchemaPath(job) || p == Contract
  }

  /** A run that stops leaves each path as it was, or as the complete run would leave it. */
  ghost predicate Partly(entries: seq<Entry>, files: Files, after: Files, job: Inputs) {
    && (forall p :: Lookup(after, p) == Lookup(files, p) || Lookup(after, p) == After(entries, files, job, p))
    && (forall p :: p in files && !IsMutable(p) ==> Lookup(after, p) == Lookup(files, p))
    && (forall p :: p in files ==> p in after)
    && (forall p :: p in after && p !in files ==> CreatedEarly(job, p))
    && Lookup(after, ReadmeFile) == Lookup(files, ReadmeFile)
    && Lookup(after, NoJekyll) == Lookup(files, NoJekyll)
    && (Lookup(after, Index) == Lookup(files, Index) || (EvidenceStored(after, job) && IndexReady(files, job)))
  }

  /** The record and its ten raw files are there. */
  ghost predicate EvidenceStored(files: Files, job: Inputs) {
    && Lookup(files, RecordPath(job.record)) == Some(RecordJson(job.record))
    && forall raw :: raw in job.results && Lookup(files, RawPath(job.record, raw)) == Some(Raw(job.results[raw]))
  }

  lemma PartlyPoint(entries: seq<Entry>, files: Files, b: Files, after: Files, job: Inputs, p: Path)
    requires Lookup(b, p) == AfterIndex(entries, files, job, p)
    requires EvidenceAgrees(files, job)
    requires Lookup(after, p) == Lookup(b, p) || (p !in b && Lookup(after, p) == AfterContracts(b, job, p))
    requires p == ParametersPath(job) && p != Contract ==> Lookup(after, p) == Lookup(b, p)
    ensures Lookup(after, p) == Lookup(files, p) || Lookup(after, p) == After(entries, files, job, p)
    ensures p in files && !IsMutable(p) ==> Lookup(after, p) == Lookup(files, p)
    ensures p in files ==> p in after
    ensures p in after && p !in files ==> CreatedEarly(job, p)
    ensures p == RecordPath(job.record) || IsRawPath(job, p) ==> Lookup(after, p) == Lasting(job, p)
    ensures p == ReadmeFile || p == NoJekyll ==> Lookup(after, p) == Lookup(files, p)
  {
    if IsRawPath(job, p) { assert p == RawPath(job.record, p.raw); }
  }

  lemma EvidencePoint(entries: seq<Entry>, files: Files, a: Files, job: Inputs, p: Path)
    requires Lookup(a, p) == Lookup(files, p) || (p !in files && Lookup(a, p) == AfterEvidence(files, job, p))
    ensures Lookup(a, p) == Lookup(files, p) || Lookup(a, p) == After(entries, files, job, p)
    ensures p in files ==> Lookup(a, p) == Lookup(files, p)
    ensures p in a && p !in files ==> CreatedEarly(job, p)
    ensures p == ReadmeFile || p == NoJekyll ==> Lookup(a, p) == Lookup(files, p)
  {
  }

  lemma StoppedAtContracts(entries: seq<Entry>, files: Files, b: Files, d: Files, job: Inputs)
    requires EvidenceAgrees(files, job) && IndexReady(files, job)
    requires forall p :: Lookup(b, p) == AfterIndex(entries, files, job, p)
    requires forall p :: Lookup(d, p) == Lookup(b, p) || (p !in b && Lookup(d, p) == AfterContracts(b, job, p))
    requires ParametersPath(job) != Contract ==> Lookup(d, ParametersPath(job)) == Lookup(b, ParametersPath(job))
    ensures Partly(entries, files, d, job)
  {
    forall p
      ensures Lookup(d, p) == Lookup(files, p) || Lookup(d, p) == After(entries, files, job, p)
      ensures p in files && !IsMutable(p) ==> Lookup(d, p) == Lookup(files, p)
      ensures p in files ==> p in d
      ensures p in d && p !in files ==> CreatedEarly(job, p)
      ensures p == RecordPath(job.record) || IsRawPath(job, p) ==> Lookup(d, p) == Lasting(job, p)
      ensures p == ReadmeFile || p == NoJekyll ==> Lookup(d, p) == Lookup(files, p)
    {
      PartlyPoint(entries, files, b, d, job, p);
    }
    forall raw ensures Lookup(d, RawPath(job.record, raw)) == Lasting(job, RawPath(job.record, raw)) {
      assert IsRawPath(job, RawPath(job.record, raw));
    }
  }

  lemma DoneWithContracts(entries: seq<Entry>, files: Files, b: Files, c: Files, job: Inputs)
    requires EvidenceAgrees(files, job) && ParametersPath(job) != Index && ParametersPath(job) != Latest
    requires forall p :: Lookup(b, p) == AfterIndex(entries, files, job, p)
    requires forall p :: Lookup(c, p) == AfterContracts(b, job, p)
    ensures forall p :: Lookup(StoreReadme(c), p) == After(entries, files, job, p)
  {
    assert Lookup(c, Index) == AfterContracts(b, job, Index) == Lookup(b, Index);
    assert Lookup(b, Index) == AfterIndex(entries, files, job, Index);
    assert EntriesOf(c) == entries;
    forall p ensures Lookup(StoreReadme(c), p) == After(entries, files, job, p) {
      LastSteps(entries, files, b, c, job, p);
    }
  }

  lemma NextStage(files: Files, job: Inputs, stage: Stage, rest: seq<Stage>)
    ensures RunStages(Step(files, None), job, [stage] + rest) == RunStages(RunStage(files, job, stage), job, rest)
    ensures RunStages(Step(files, None), job, []) == Step(files, None)
  {
    assert ([stage] + rest)[1..] == rest;
  }

  lemma DoneFromIndex(entries: seq<Entry>, files: Files, b: Files, c: Files, job: Inputs)
    requires CopyContracts(b, job) == Step(c, None)
    requires EvidenceAgrees(files, job) && ParametersPath(job) != Index && ParametersPath(job) != Latest
    requires forall p :: Lookup(b, p) == AfterIndex(entries, files, job, p)
    ensures var d := RunStages(Step(b, None), job, [ContractStage, ReadmeStage]);
      d.stop.None? && (forall p :: Lookup(d.files, p) == After(entries, files, job, p))
      && Lookup(d.files, Index) == Some(IndexJson(entries)) && SchemaPath(job) in d.files
  {
    CopyContractsFiles(b, job);
    NextStage(b, job, ContractStage, [ReadmeStage]);
    NextStage(c, job, ReadmeStage, []);
    DoneWithContracts(entries, files, b, c, job);
    assert Lookup(StoreReadme(c), SchemaPath(job)) == After(entries, files, job, SchemaPath(job));
    assert Lookup(StoreReadme(c), Index) == After(entries, files, job, Index);
  }

  lemma StoppedFromIndex(entries: seq<Entry>, files: Files, b: Files, c: Step, job: Inputs)
    requires CopyContracts(b, job) == c && c.stop.Some?
    requires EvidenceAgrees(files, job) && IndexReady(files, job)
    requires forall p :: Lookup(b, p) == AfterIndex(entries, files, job, p)
    ensures RunStages(Step(b, None), job, [ContractStage, ReadmeStage]) == c
    ensures Partly(entries, files, c.files, job)
    ensures Lookup(c.files, Index) == Some(IndexJson(entries)) && SchemaPath(job) in c.files
  {
    CopyContractsFiles(b, job);
    NextStage(b, job, ContractStage, [ReadmeStage]);
    StoppedAtContracts(entries, files, b, c.files, job);
    assert Lookup(b, Index) == AfterIndex(entries, files, job, Index);
    assert Lookup(b, SchemaPath(job)) == AfterIndex(entries, files, job, SchemaPath(job));
    assert Lookup(c.files, Index) == Lookup(b, Index);
  }

  /** From the index stage on, with `entries` in the index. */
  lemma FromIndex(entries: seq<Entry>, files: Files, b: Files, job: Inputs)
    requires EvidenceAgrees(files, job) && IndexReady(files, job)
    requires forall p :: Lookup(b, p) == AfterIndex(entries, files, job, p)
    ensures var d := RunStages(Step(b, None), job, [ContractStage, ReadmeStage]);
      (d.stop.None? <==> ContractsAgree(files, job) && ParametersPath(job) != Index && ParametersPath(job) != Latest)
      && (d.stop.None? ==> forall p :: Lookup(d.files, p) == After(entries, files, job, p))
      && (d.stop.Some? ==> Partly(entries, files, d.files, job))
      && Lookup(d.files, Index) == Some(IndexJson(entries)) && SchemaPath(job) in d.files
  {
    ContractsAfterIndex(entries, files, b, job);
    CopyContractsFiles(b, job);
    var c := CopyContracts(b, job);
    if c.stop.None? {
      DoneFromIndex(entries, files, b, c.files, job);
    } else {
      StoppedFromIndex(entries, files, b, c, job);
    }
  }

  ghost predicate StagesAgree(files: Files, job: Inputs) {
    && EvidenceAgrees(files, job) && IndexReady(files, job) && ContractsAgree(files, job)
    && ParametersPath(job) != Index && ParametersPath(job) != Latest
  }

  /** What it takes for a run whose arguments pass to get to writing the index. */
  ghost predicate ReachesIndex(files: Files, job: Inputs) { EvidenceAgrees(files, job) && IndexReady(files, job) }

  /** What a run leaves; the index is new, and the schema file there, exactly if the index stage was reached. */
  ghost predicate Summary(entries: seq<Entry>, files: Files, d: Step, job: Inputs) {
    && (d.stop.None? ==> forall p :: Lookup(d.files, p) == After(entries, files, job, p))
    && (d.stop.Some? ==> Partly(entries, files, d.files, job))
    && Lookup(d.files, Index)
       == (if ReachesIndex(files, job) then Some(IndexJson(entries)) else Lookup(files, Index))
    && (SchemaPath(job) in d.files <==> SchemaPath(job) in files || ReachesIndex(files, job))
  }

  lemma FromStoreIndex(entries: seq<Entry>, files: Files, a: Files, b: Step, job: Inputs)
    requires EvidenceAgrees(files, job) && Partly(entries, files, a, job)
    requires forall p :: Lookup(a, p) == AfterEvidence(files, job, p)
    requires b.stop.None? <==> IndexReady(files, job)
    requires b.files == if b.stop.Some? then a else StoreEntries(a, job.record, entries)
    ensures var d := RunStages(b, job, [ContractStage, ReadmeStage]);
      (d.stop.None? <==> StagesAgree(files, job)) && Summary(entries, files, d, job)
  {
    if b.stop.None? {
      StoreEntriesFiles(entries, files, a, job);
      FromIndex(entries, files, b.files, job);
      assert b == Step(b.files, None);
    } else {
      assert AfterEvidence(files, job, Index) == Lookup(files, Index);
      assert AfterEvidence(files, job, SchemaPath(job)) == Lookup(files, SchemaPath(job));
    }
  }

  lemma StoppedAtEvidence(entries: seq<Entry>, files: Files, a: Step, job: Inputs)
    requires a.stop.Some? && !EvidenceAgrees(files, job) && Partly(entries, files, a.files, job)
    requires forall p :: Lookup(a.files, p) == Lookup(files, p)
                         || (p !in files && Lookup(a.files, p) == AfterEvidence(files, job, p))
    ensures RunStages(a, job, [IndexStage, ContractStage, ReadmeStage]) == a
    ensures Summary(entries, files, a, job)
  {
    assert AfterEvidence(files, job, Index) == Lookup(files, Index);
    assert AfterEvidence(files, job, SchemaPath(job)) == Lookup(files, SchemaPath(job));
  }

  lemma FromEvidence(entries: seq<Entry>, files: Files, a: Step, job: Inputs)
    requires a == StoreEvidence(files, job) && entries == NewEntries(files, job.record)
    ensures var d := RunStages(a, job, [IndexStage, ContractStage, ReadmeStage]);
      (d.stop.None? <==> StagesAgree(files, job)) && Summary(entries, files, d, job)
  {
    StoreEvidenceFiles(files, job);
    EvidencePart(entries, files, a.files, job);
    if a.stop.None? {
      IndexStep(entries, files, a.files, job);
      FromEvidenceDone(entries, files, a, StoreIndex(a.files, job.record), job);
    } else {
      StoppedAtEvidence(entries, files, a, job);
    }
  }

  lemma FromEvidenceDone(entries: seq<Entry>, files: Files, a: Step, b: Step, job: Inputs)
    requires a.stop.None? && EvidenceAgrees(files, job) && Partly(entries, files, a.files, job)
    requires forall p :: Lookup(a.files, p) == AfterEvidence(files, job, p)
    requires b == RunStage(a.files, job, IndexStage) && (b.stop.None? <==> IndexReady(files, job))
    requires b.files == if b.stop.Some? then a.files else StoreEntries(a.files, job.record, entries)
    ensures var d := RunStages(a, job, [IndexStage, ContractStage, ReadmeStage]);
      (d.stop.None? <==> StagesAgree(files, job)) && Summary(entries, files, d, job)
  {
    FromStoreIndex(entries, files, a.files, b, job);
    assert a == Step(a.files, None);
    NextStage(a.files, job, IndexStage, [ContractStage, ReadmeStage]);
  }

  /** Everything behind the checks of the arguments. */
  lemma AllStages(entries: seq<Entry>, files: Files, job: Inputs)
    requires entries == NewEntries(files, job.record)
    ensures var d := RunStages(Step(files, None), job, STAGES);
      (d.stop.None? <==> StagesAgree(files, job)) && Summary(entries, files, d, job)
  {
    NextStage(files, job, EvidenceStage, [IndexStage, ContractStage, ReadmeStage]);
    FromEvidence(entries, files, StoreEvidence(files, job), job);
  }

  lemma EvidencePart(entries: seq<Entry>, files: Files, a: Files, job: Inputs)
    requires forall p :: Lookup(a, p) == Lookup(files, p)
                         || (p !in files && Lookup(a, p) == AfterEvidence(files, job, p))
    ensures Partly(entries, files, a, job)
  {
    forall p
      ensures Lookup(a, p) == Lookup(files, p) || Lookup(a, p) == After(entries, files, job, p)
      ensures p in files ==> Lookup(a, p) == Lookup(files, p)
      ensures p in a && p !in files ==> CreatedEarly(job, p)
      ensures p == ReadmeFile || p == NoJekyll ==> Lookup(a, p) == Lookup(files, p)
    {
      EvidencePoint(entries, files, a, job, p);
    }
  }

  // ----- The two summaries -----

  /** What a parameters file can be called, as text. */
  lemma NamesExactly(job: Inputs)
    ensures var name := job.parameters.name;
      (IsFileName(ParametersName(job)) <==>
         name != "index.json" && name != "latest.json" && name != "records" && name != "raw" && name != "schema")
      && (ParametersPath(job) == Contract <==> name == "CONTRACT.md")
      && (ParametersPath(job) == ReadmeFile <==> name == "README.md")
      && (ParametersPath(job) == NoJekyll <==> name == ".nojekyll")
  {
  }

  lemma AcceptableByStage(hash: Hash, files: Files, job: Inputs)
    requires Validate(hash, job).None?
    ensures Acceptable(hash, files, job) <==> StagesAgree(files, job)
  {
    AgreementByStage(files, job);
  }

  /** A run publishes exactly when its inputs pass every check and agree with every file already there. */
  lemma WhenPublished(hash: Hash, files: Files, job: Inputs)
    ensures Publish(hash, files, job).stop.None? <==> Acceptable(hash, files, job)
  {
    if Validate(hash, job).None? {
      AllStages(NewEntries(files, job.record), files, job);
      AcceptableByStage(hash, files, job);
    }
  }

  /** The store after a run: complete, or partly so when the run stopped. */
  lemma WhatIsLeft(hash: Hash, files: Files, job: Inputs)
    requires Validate(hash, job).None?
    ensures Summary(NewEntries(files, job.record), files, Publish(hash, files, job), job)
  {
    AllStages(NewEntries(files, job.record), files, job);
  }
}
