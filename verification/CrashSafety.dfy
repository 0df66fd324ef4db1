/**
 A run of the publisher that breaks off between any two of its file writes: the history is still
 one, and a completed rerun repairs the store.
 */
module CrashSafety {
  import opened Options
  import opened Records
  import opened Publisher
  import opened PublisherStages
  import opened PublisherWrites
  import opened HistoryTheorems
  import opened Recovery

  // ----- What a run may have written -----

  /** README.md can for a moment be a parameters file of that name; everything else is written once and for good. */
  predicate GoodContent(entries: seq<Entry>, files: Files, job: Inputs, p: Path, c: Content) {
    if p == ReadmeFile then
      || c == Readme(Rows(entries))
      || (ParametersPath(job) == ReadmeFile && c == Raw(job.parameters.bytes) && (p in files ==> files[p] == c))
    else Some(c) == After(entries, files, job, p) && (p in files && !IsMutable(p) ==> files[p] == c)
  }

  predicate GoodWrites(entries: seq<Entry>, files: Files, job: Inputs, writes: seq<FileWrite>) {
    forall i :: 0 <= i < |writes| ==> GoodContent(entries, files, job, writes[i].path, writes[i].content)
  }

  /** A store between `files` and what the run leaves. */
  ghost predicate Between(entries: seq<Entry>, files: Files, g: Files, job: Inputs) {
    && (forall p :: p in files ==> p in g)
    && forall p :: p in g ==> Lookup(g, p) == Lookup(files, p) || GoodContent(entries, files, job, p, g[p])
  }

  lemma {:induction false} BetweenWrites(entries: seq<Entry>, files: Files, g: Files, job: Inputs,
                                         writes: seq<FileWrite>)
    requires Between(entries, files, g, job) && GoodWrites(entries, files, job, writes)
    ensures Between(entries, files, Apply(g, writes), job)
    decreases |writes|
  {
    if writes != [] {
      var next := g[writes[0].path := writes[0].content];
      assert GoodContent(entries, files, job, writes[0].path, writes[0].content);
      BetweenWrites(entries, files, next, job, writes[1..]);
    }
  }

  // ----- Every write of a run is good -----

  lemma GoodAppend(entries: seq<Entry>, files: Files, job: Inputs, a: seq<FileWrite>, b: seq<FileWrite>)
    requires GoodWrites(entries, files, job, a) && GoodWrites(entries, files, job, b)
    ensures GoodWrites(entries, files, job, a + b)
  {
  }

  lemma GoodEvidence(entries: seq<Entry>, files: Files, job: Inputs, p: Path, c: Content)
    requires p == RecordPath(job.record) || IsRawPath(job, p)
    requires Lasting(job, p) == Some(c) && (p in files ==> files[p] == c)
    ensures GoodContent(entries, files, job, p, c)
  {
  }

  lemma {:induction false} GoodRawWrites(entries: seq<Entry>, files: Files, g: Files, job: Inputs, names: seq<RawFile>)
    requires Between(entries, files, g, job)
    ensures GoodWrites(entries, files, job, RawWrites(g, job, names))
    decreases |names|
  {
    var writes := RawWrites(g, job, names);
    if writes != [] {
      var w := writes[0];
      var next := g[w.path := w.content];
      assert writes == [w] + RawWrites(next, job, names[1..]);
      assert w.path in files ==> files[w.path] == w.content by {
        if w.path in files { assert w.path in g && Lookup(g, w.path) == Some(w.content); }
      }
      GoodEvidence(entries, files, job, w.path, w.content);
      BetweenWrites(entries, files, g, job, [w]);
      ApplyOne(g, w);
      GoodRawWrites(entries, files, next, job, names[1..]);
    }
  }

  lemma GoodRecordWrites(entries: seq<Entry>, files: Files, job: Inputs)
    ensures GoodWrites(entries, files, job, RecordWrites(files, job.record))
  {
    if RecordPath(job.record) !in files {
      GoodEvidence(entries, files, job, RecordPath(job.record), RecordJson(job.record));
    }
  }

  lemma GoodEvidenceWrites(entries: seq<Entry>, files: Files, job: Inputs, names: seq<RawFile>)
    ensures GoodWrites(entries, files, job, EvidenceWrites(files, job, names))
  {
    var a := StoreRecord(files, job.record);
    GoodRecordWrites(entries, files, job);
    BetweenWrites(entries, files, files, job, RecordWrites(files, job.record));
    RecordWritesApply(files, job.record);
    GoodRawWrites(entries, files, a.files, job, names);
    GoodAppend(entries, files, job, RecordWrites(files, job.record),
               if a.stop.Some? then [] else RawWrites(a.files, job, names));
  }

  lemma GoodIndexWrites(entries: seq<Entry>, files: Files, a: Files, job: Inputs)
    requires entries == NewEntries(a, job.record)
    ensures GoodWrites(entries, files, job, IndexWrites(a, job.record))
  {
    if StoreIndex(a, job.record).stop.None? {
      assert IndexWrites(a, job.record)
          == [FileWrite(Index, IndexJson(entries))] + [FileWrite(Latest, RecordJson(job.record))];
      GoodIndexContents(entries, files, job);
    }
  }

  lemma GoodIndexContents(entries: seq<Entry>, files: Files, job: Inputs)
    ensures GoodContent(entries, files, job, Index, IndexJson(entries))
    ensures GoodContent(entries, files, job, Latest, RecordJson(job.record))
  {
  }

  lemma GoodCopyWrites(entries: seq<Entry>, files: Files, g: Files, job: Inputs, p: Path, bytes: Bytes)
    requires Between(entries, files, g, job)
    requires p !in g ==> Lasting(job, p) == Some(Raw(bytes)) && p != Index && p != Latest
    requires p == ReadmeFile ==> ParametersPath(job) == p && bytes == job.parameters.bytes
    ensures GoodWrites(entries, files, job, CopyWrites(g, p, bytes))
    ensures Between(entries, files, CopyImmutable(g, p, bytes).files, job)
  {
    BetweenWrites(entries, files, g, job, CopyWrites(g, p, bytes));
    CopyWritesApply(g, p, bytes);
  }

  lemma GoodLastCopies(entries: seq<Entry>, files: Files, g: Files, job: Inputs)
    requires Between(entries, files, g, job) && Index in g && Latest in g
    ensures GoodWrites(entries, files, job, LastCopyWrites(g, job))
  {
    var b := CopyImmutable(g, Contract, job.contract);
    GoodCopyWrites(entries, files, g, job, Contract, job.contract);
    if b.stop.None? {
      GoodCopyWrites(entries, files, b.files, job, ParametersPath(job), job.parameters.bytes);
      GoodAppend(entries, files, job, CopyWrites(g, Contract, job.contract),
                 CopyWrites(b.files, ParametersPath(job), job.parameters.bytes));
    }
  }

  lemma GoodContractWrites(entries: seq<Entry>, files: Files, g: Files, job: Inputs)
    requires Between(entries, files, g, job) && Index in g && Latest in g
    ensures GoodWrites(entries, files, job, ContractWrites(g, job))
    ensures Between(entries, files, CopyContracts(g, job).files, job)
  {
    var a := CopyImmutable(g, SchemaPath(job), job.schema.bytes);
    GoodCopyWrites(entries, files, g, job, SchemaPath(job), job.schema.bytes);
    if a.stop.None? { GoodLastCopies(entries, files, a.files, job); }
    GoodAppend(entries, files, job, CopyWrites(g, SchemaPath(job), job.schema.bytes),
               if a.stop.Some? then [] else LastCopyWrites(a.files, job));
    BetweenWrites(entries, files, g, job, ContractWrites(g, job));
    ContractWritesApply(g, job);
  }

  lemma GoodReadmeWrites(entries: seq<Entry>, files: Files, g: Files, job: Inputs)
    requires Between(entries, files, g, job) && EntriesOf(g) == entries && ParametersPath(job) in g
    ensures GoodWrites(entries, files, job, ReadmeWrites(g))
  {
    if NoJekyll !in g { assert Lasting(job, NoJekyll).None?; }
  }

  // ----- From stage to stage -----

  lemma AfterContractStage(entries: seq<Entry>, b: Files, c: Files, job: Inputs)
    requires CopyContracts(b, job) == Step(c, None) && Lookup(b, Index) == Some(IndexJson(entries))
    ensures EntriesOf(c) == entries && ParametersPath(job) in c
  {
    CopyContractsFiles(b, job);
    assert Lookup(c, Index) == AfterContracts(b, job, Index) == Lookup(b, Index);
    assert Lookup(c, ParametersPath(job)) == AfterContracts(b, job, ParametersPath(job));
  }

  lemma GoodLastStage(entries: seq<Entry>, files: Files, c: Step, job: Inputs)
    requires c.stop.None? ==>
      Between(entries, files, c.files, job) && EntriesOf(c.files) == entries && ParametersPath(job) in c.files
    ensures GoodWrites(entries, files, job, StagesWrites(c, job, [ReadmeStage]))
  {
    if c.stop.None? {
      NextStageWrites(c.files, job, ReadmeStage, []);
      GoodReadmeWrites(entries, files, c.files, job);
      assert c == Step(c.files, None);
    }
  }

  lemma GoodFromContracts(entries: seq<Entry>, files: Files, b: Step, job: Inputs)
    requires b.stop.None? ==>
      Between(entries, files, b.files, job) && Latest in b.files && Lookup(b.files, Index) == Some(IndexJson(entries))
    ensures GoodWrites(entries, files, job, StagesWrites(b, job, [ContractStage, ReadmeStage]))
  {
    if b.stop.None? {
      var c := CopyContracts(b.files, job);
      NextStageWrites(b.files, job, ContractStage, [ReadmeStage]);
      GoodContractWrites(entries, files, b.files, job);
      if c.stop.None? { AfterContractStage(entries, b.files, c.files, job); }
      GoodLastStage(entries, files, c, job);
      assert b == Step(b.files, None);
      GoodAppend(entries, files, job, ContractWrites(b.files, job), StagesWrites(c, job, [ReadmeStage]));
    }
  }

  lemma GoodIndexStage(entries: seq<Entry>, files: Files, a: Files, b: Step, job: Inputs)
    requires Between(entries, files, a, job) && entries == NewEntries(a, job.record) && b == StoreIndex(a, job.record)
    ensures GoodWrites(entries, files, job, IndexWrites(a, job.record))
    ensures b.stop.None? ==>
      Between(entries, files, b.files, job) && Latest in b.files && Lookup(b.files, Index) == Some(IndexJson(entries))
  {
    GoodIndexWrites(entries, files, a, job);
    BetweenWrites(entries, files, a, job, IndexWrites(a, job.record));
    IndexWritesApply(a, job.record);
    StoreIndexIs(a, job.record, entries);
  }

  lemma GoodFromIndex(entries: seq<Entry>, files: Files, a: Files, job: Inputs)
    requires Between(entries, files, a, job) && entries == NewEntries(a, job.record)
    ensures GoodWrites(entries, files, job, StagesWrites(Step(a, None), job, [IndexStage, ContractStage, ReadmeStage]))
  {
    var b := StoreIndex(a, job.record);
    NextStageWrites(a, job, IndexStage, [ContractStage, ReadmeStage]);
    GoodIndexStage(entries, files, a, b, job);
    GoodFromContracts(entries, files, b, job);
    GoodAppend(entries, files, job, IndexWrites(a, job.record), StagesWrites(b, job, [ContractStage, ReadmeStage]));
  }

  /** The writes behind the evidence stage. */
  function LaterWrites(files: Files, job: Inputs): seq<FileWrite> {
    StagesWrites(StoreEvidence(files, job), job, [IndexStage, ContractStage, ReadmeStage])
  }

  lemma WritesInTwoParts(hash: Hash, files: Files, job: Inputs)
    requires Validate(hash, job).None?
    ensures PublishWrites(hash, files, job) == EvidenceWrites(files, job, RAW_FILES) + LaterWrites(files, job)
    ensures Apply(files, EvidenceWrites(files, job, RAW_FILES)) == StoreEvidence(files, job).files
  {
    NextStageWrites(files, job, EvidenceStage, [IndexStage, ContractStage, ReadmeStage]);
    EvidenceWritesApply(files, job, RAW_FILES);
  }

  lemma LaterWritesAreGood(entries: seq<Entry>, files: Files, job: Inputs)
    requires entries == NewEntries(files, job.record)
    ensures GoodWrites(entries, files, job, LaterWrites(files, job))
  {
    var a := StoreEvidence(files, job);
    GoodEvidenceWrites(entries, files, job, RAW_FILES);
    BetweenWrites(entries, files, files, job, EvidenceWrites(files, job, RAW_FILES));
    EvidenceWritesApply(files, job, RAW_FILES);
    EvidenceLeavesIndex(files, job);
    SameEntries(files, a.files, job.record);
    if a.stop.None? {
      GoodFromIndex(entries, files, a.files, job);
      assert a == Step(a.files, None);
    }
  }

  lemma EvidenceLeavesIndex(files: Files, job: Inputs)
    ensures Lookup(StoreEvidence(files, job).files, Index) == Lookup(files, Index)
  {
    StoreEvidenceFiles(files, job);
    assert AfterEvidence(files, job, Index) == Lookup(files, Index);
  }

  /** There are later writes only if the evidence agrees and the index can be made; the evidence is stored first. */
  lemma LaterMeansStored(files: Files, job: Inputs)
    requires LaterWrites(files, job) != []
    ensures ReachesIndex(files, job) && EvidenceStored(StoreEvidence(files, job).files, job)
  {
    var a := StoreEvidence(files, job);
    StoreEvidenceFiles(files, job);
    NextStageWrites(a.files, job, IndexStage, [ContractStage, ReadmeStage]);
    assert a == Step(a.files, None);
    assert Lookup(a.files, Index) == AfterEvidence(files, job, Index) == Lookup(files, Index);
    StoreIndexIs(a.files, job.record, NewEntries(a.files, job.record));
    assert Lookup(a.files, RecordPath(job.record)) == AfterEvidence(files, job, RecordPath(job.record));
    forall raw ensures raw in job.results && Lookup(a.files, RawPath(job.record, raw)) == Some(Raw(job.results[raw])) {
      assert Lookup(a.files, RawPath(job.record, raw)) == AfterEvidence(files, job, RawPath(job.record, raw));
    }
  }

  // ----- Every prefix -----

  /** The store when a run breaks off behind its first `n` writes. */
  function Crash(hash: Hash, files: Files, job: Inputs, n: nat): Files
    requires n <= |PublishWrites(hash, files, job)|
  {
    Apply(files, PublishWrites(hash, files, job)[..n])
  }

  lemma {:induction false} EvidenceStays(entries: seq<Entry>, files: Files, g: Files, job: Inputs,
                                         writes: seq<FileWrite>)
    requires EvidenceStored(g, job) && GoodWrites(entries, files, job, writes)
    ensures EvidenceStored(Apply(g, writes), job)
    decreases |writes|
  {
    if writes != [] {
      var w := writes[0];
      assert GoodContent(entries, files, job, w.path, w.content);
      EvidenceStays(entries, files, g[w.path := w.content], job, writes[1..]);
    }
  }

  lemma {:induction false} IndexStays(g: Files, writes: seq<FileWrite>)
    requires SparesIndex(writes)
    ensures Lookup(Apply(g, writes), Index) == Lookup(g, Index)
    decreases |writes|
  {
    if writes != [] { IndexStays(g[writes[0].path := writes[0].content], writes[1..]); }
  }

  predicate SparesIndex(writes: seq<FileWrite>) { forall i :: 0 <= i < |writes| ==> writes[i].path != Index }

  lemma SpareAppend(a: seq<FileWrite>, b: seq<FileWrite>)
    requires SparesIndex(a) && SparesIndex(b)
    ensures SparesIndex(a + b)
  {
  }

  lemma {:induction false} RawSparesIndex(files: Files, job: Inputs, names: seq<RawFile>)
    ensures SparesIndex(RawWrites(files, job, names))
    decreases |names|
  {
    var writes := RawWrites(files, job, names);
    if writes != [] {
      var next := files[writes[0].path := writes[0].content];
      assert writes == [writes[0]] + RawWrites(next, job, names[1..]);
      RawSparesIndex(next, job, names[1..]);
    }
  }

  lemma EvidenceSparesIndex(files: Files, job: Inputs, names: seq<RawFile>)
    ensures SparesIndex(EvidenceWrites(files, job, names))
  {
    var a := StoreRecord(files, job.record);
    RawSparesIndex(a.files, job, names);
    SpareAppend(RecordWrites(files, job.record), if a.stop.Some? then [] else RawWrites(a.files, job, names));
  }

  ghost predicate Crashed(entries: seq<Entry>, files: Files, g: Files, job: Inputs) {
    && Between(entries, files, g, job)
    && (Lookup(g, Index) == Lookup(files, Index) || (EvidenceStored(g, job) && ReachesIndex(files, job)))
  }

  lemma CrashInEvidence(entries: seq<Entry>, files: Files, job: Inputs, n: nat)
    requires n <= |EvidenceWrites(files, job, RAW_FILES)|
    ensures Crashed(entries, files, Apply(files, EvidenceWrites(files, job, RAW_FILES)[..n]), job)
  {
    var writes := EvidenceWrites(files, job, RAW_FILES);
    GoodEvidenceWrites(entries, files, job, RAW_FILES);
    BetweenWrites(entries, files, files, job, writes[..n]);
    EvidenceSparesIndex(files, job, RAW_FILES);
    IndexStays(files, writes[..n]);
  }

  lemma CrashLater(entries: seq<Entry>, files: Files, job: Inputs, n: nat)
    requires entries == NewEntries(files, job.record) && n <= |LaterWrites(files, job)|
    ensures Crashed(entries, files, Apply(StoreEvidence(files, job).files, LaterWrites(files, job)[..n]), job)
  {
    var a, writes := StoreEvidence(files, job).files, LaterWrites(files, job);
    LaterWritesAreGood(entries, files, job);
    GoodEvidenceWrites(entries, files, job, RAW_FILES);
    BetweenWrites(entries, files, files, job, EvidenceWrites(files, job, RAW_FILES));
    EvidenceWritesApply(files, job, RAW_FILES);
    BetweenWrites(entries, files, a, job, writes[..n]);
    if n == 0 {
      EvidenceLeavesIndex(files, job);
      assert writes[..0] == [];
    } else {
      LaterMeansStored(files, job);
      EvidenceStays(entries, files, a, job, writes[..n]);
    }
  }

  lemma CrashAnywhere(hash: Hash, files: Files, job: Inputs, n: nat)
    requires n <= |PublishWrites(hash, files, job)|
    ensures Crashed(NewEntries(files, job.record), files, Crash(hash, files, job, n), job)
  {
    var entries := NewEntries(files, job.record);
    var writes := PublishWrites(hash, files, job);
    if Validate(hash, job).None? {
      var early, later := EvidenceWrites(files, job, RAW_FILES), LaterWrites(files, job);
      WritesInTwoParts(hash, files, job);
      if n <= |early| {
        assert writes[..n] == early[..n];
        CrashInEvidence(entries, files, job, n);
      } else {
        assert writes[..n] == early + later[..n - |early|];
        ApplyAppend(files, early, later[..n - |early|]);
        CrashLater(entries, files, job, n - |early|);
      }
    } else {
      assert writes[..n] == [];
    }
  }

  lemma CrashedIndex(entries: seq<Entry>, files: Files, g: Files, job: Inputs)
    requires Crashed(entries, files, g, job)
    ensures Keeps(files, g)
    ensures Lookup(g, Index) == Lookup(files, Index)
         || (Lookup(g, Index) == Some(IndexJson(entries)) && EvidenceStored(g, job) && IndexReady(files, job))
  {
    forall p | p in files && !IsMutable(p) ensures Lookup(g, p) == Lookup(files, p) {
      assert p in g;
    }
    if Index in g && Lookup(g, Index) != Lookup(files, Index) {
      assert GoodContent(entries, files, job, Index, g[Index]);
    }
  }

  /**
   A run may break off between any two file writes: the store it leaves still has an ordered index
   with evidence behind every entry, and nothing lasting is lost or changed.
   */
  lemma CrashKeepsHistory(hash: Hash, files: Files, job: Inputs, n: nat)
    requires History(files) && n <= |PublishWrites(hash, files, job)|
    ensures History(Crash(hash, files, job, n)) && Keeps(files, Crash(hash, files, job, n))
  {
    var entries := NewEntries(files, job.record);
    var g := Crash(hash, files, job, n);
    CrashAnywhere(hash, files, job, n);
    CrashedIndex(entries, files, g, job);
    if Lookup(g, Index) == Lookup(files, Index) {
      assert EntriesOf(g) == EntriesOf(files);
      forall e | e in EntriesOf(files) ensures Backed(g, e) { BackedStays(files, g, e); }
    } else {
      HistoryWith(hash, entries, files, g, job, EntryOf(job.record).value);
    }
  }

  // ----- Repair -----

  lemma AcceptableBeforeCrash(hash: Hash, entries: seq<Entry>, files: Files, g: Files, first: Inputs, rerun: Inputs)
    requires Crashed(entries, files, g, first) && Acceptable(hash, g, rerun)
    ensures Acceptable(hash, files, rerun)
  {
    CrashedIndex(entries, files, g, first);
    assert Index in files ==> Index in g;
    forall p | p in files ensures Agrees(files, rerun, p) { AgreedBeforeCrash(entries, files, g, first, rerun, p); }
  }

  lemma AgreedBeforeCrash(entries: seq<Entry>, files: Files, g: Files, first: Inputs, rerun: Inputs, p: Path)
    requires Between(entries, files, g, first) && Keeps(files, g) && p in files
    requires Agrees(g, rerun, p) && IsFileName(ParametersName(rerun))
    ensures Agrees(files, rerun, p)
  {
    assert p in g;
    if p == ReadmeFile { assert Lookup(g, p) == Lookup(files, p) || GoodContent(entries, files, first, p, g[p]); }
  }

  /** A write that the rerun makes up for, or whose file was there before. */
  predicate Covered(files: Files, rerun: Inputs, w: FileWrite) {
    w.path in files || Writes(rerun, w.path) || w == FileWrite(NoJekyll, Raw([]))
  }

  lemma {:induction false} AppliedAt(g: Files, writes: seq<FileWrite>, p: Path)
    ensures var out := Apply(g, writes);
      (Lookup(out, p) == Lookup(g, p) && (forall i :: 0 <= i < |writes| ==> writes[i].path != p))
      || exists i :: 0 <= i < |writes| && writes[i].path == p && Lookup(out, p) == Some(writes[i].content)
    decreases |writes|
  {
    if writes != [] {
      var w := writes[0];
      AppliedAt(g[w.path := w.content], writes[1..], p);
      assert writes == [w] + writes[1..];
    }
  }

  lemma SamePoint(entries: seq<Entry>, files: Files, writes: seq<FileWrite>, rerun: Inputs, p: Path)
    requires forall i :: 0 <= i < |writes| ==> Covered(files, rerun, writes[i])
    requires p in files && !IsMutable(p) ==> Lookup(Apply(files, writes), p) == Lookup(files, p)
    ensures After(entries, files, rerun, p) == After(entries, Apply(files, writes), rerun, p)
  {
    AppliedAt(files, writes, p);
  }

  lemma StrayPoint(entries: seq<Entry>, files: Files, writes: seq<FileWrite>, first: Inputs, rerun: Inputs, i: int)
    requires GoodWrites(entries, files, first, writes)
    requires 0 <= i < |writes| && !Covered(files, rerun, writes[i])
    ensures var p := writes[i].path; After(entries, files, rerun, p) != After(entries, Apply(files, writes), rerun, p)
  {
    var p := writes[i].path;
    AppliedAt(files, writes, p);
    assert GoodContent(entries, files, first, p, writes[i].content);
    var j :| 0 <= j < |writes| && writes[j].path == p && Lookup(Apply(files, writes), p) == Some(writes[j].content);
    assert GoodContent(entries, files, first, p, writes[j].content);
  }

  lemma CompareAfterCrash(entries: seq<Entry>, files: Files, writes: seq<FileWrite>, first: Inputs, rerun: Inputs,
                          direct: Files, repaired: Files)
    requires GoodWrites(entries, files, first, writes) && Keeps(files, Apply(files, writes))
    requires forall p :: Lookup(direct, p) == After(entries, files, rerun, p)
    requires forall p :: Lookup(repaired, p) == After(entries, Apply(files, writes), rerun, p)
    ensures direct == repaired <==> forall i :: 0 <= i < |writes| ==> Covered(files, rerun, writes[i])
  {
    if forall i :: 0 <= i < |writes| ==> Covered(files, rerun, writes[i]) {
      forall p ensures Lookup(direct, p) == Lookup(repaired, p) { SamePoint(entries, files, writes, rerun, p); }
      SameFiles(direct, repaired);
    } else {
      var i :| 0 <= i < |writes| && !Covered(files, rerun, writes[i]);
      StrayPoint(entries, files, writes, first, rerun, i);
      assert Lookup(direct, writes[i].path) != Lookup(repaired, writes[i].path);
    }
  }

  lemma PrefixIsGood(hash: Hash, files: Files, job: Inputs, n: nat)
    requires n <= |PublishWrites(hash, files, job)|
    ensures GoodWrites(NewEntries(files, job.record), files, job, PublishWrites(hash, files, job)[..n])
  {
    var entries := NewEntries(files, job.record);
    if Validate(hash, job).None? {
      WritesInTwoParts(hash, files, job);
      GoodEvidenceWrites(entries, files, job, RAW_FILES);
      LaterWritesAreGood(entries, files, job);
      GoodAppend(entries, files, job, EvidenceWrites(files, job, RAW_FILES), LaterWrites(files, job));
    }
  }

  lemma CrashedEntries(entries: seq<Entry>, files: Files, g: Files, first: Inputs, rerun: Inputs)
    requires Crashed(entries, files, g, first) && entries == NewEntries(files, first.record)
    requires first.record == rerun.record && rerun.record.results.Some?
    ensures NewEntries(g, rerun.record) == entries
  {
    CrashedIndex(entries, files, g, first);
    AgainEntries(files, g, rerun.record, entries);
  }

  /**
   A run broke off behind any of its writes and was rerun, with the same record, to completion. Then
   an uninterrupted run would have completed too, and it leaves the same store if and only if every
   write the broken run got to went to a file that was there, or that the rerun writes as well.
   */
  lemma CrashRecovery(hash: Hash, files: Files, first: Inputs, n: nat, rerun: Inputs)
    requires first.record == rerun.record && n <= |PublishWrites(hash, files, first)|
    requires Publish(hash, Crash(hash, files, first, n), rerun).stop.None?
    ensures var writes := PublishWrites(hash, files, first);
      Publish(hash, files, rerun).stop.None?
      && (Publish(hash, files, rerun).files == Publish(hash, Crash(hash, files, first, n), rerun).files
          <==> forall i :: 0 <= i < n ==> Covered(files, rerun, writes[i]))
  {
    var entries := NewEntries(files, first.record);
    var g := Crash(hash, files, first, n);
    CrashAnywhere(hash, files, first, n);
    CrashedIndex(entries, files, g, first);
    PrefixIsGood(hash, files, first, n);
    WhenPublished(hash, g, rerun);
    AcceptableBeforeCrash(hash, entries, files, g, first, rerun);
    CrashedEntries(entries, files, g, first, rerun);
    OneRun(hash, g, rerun, entries, Publish(hash, g, rerun));
    OneRun(hash, files, rerun, entries, Publish(hash, files, rerun));
    CompareAfterCrash(entries, files, PublishWrites(hash, files, first)[..n], first, rerun,
                      Publish(hash, files, rerun).files, Publish(hash, g, rerun).files);
    PrefixCovered(files, rerun, PublishWrites(hash, files, first), n);
  }

  lemma PrefixCovered(files: Files, rerun: Inputs, writes: seq<FileWrite>, n: nat)
    requires n <= |writes|
    ensures (forall i :: 0 <= i < |writes[..n]| ==> Covered(files, rerun, writes[..n][i]))
       <==> (forall i :: 0 <= i < n ==> Covered(files, rerun, writes[i]))
  {
    assert forall i :: 0 <= i < n ==> writes[..n][i] == writes[i];
  }

  lemma SameNamesCover(entries: seq<Entry>, files: Files, first: Inputs, rerun: Inputs, w: FileWrite)
    requires GoodContent(entries, files, first, w.path, w.content) && first.record == rerun.record
    requires SchemaPath(first) == SchemaPath(rerun) && ParametersPath(first) == ParametersPath(rerun)
    requires forall raw: RawFile :: raw in rerun.results
    ensures Covered(files, rerun, w)
  {
  }

  /** Under unchanged contract file names a completed rerun repairs the store wherever the run broke off. */
  lemma CrashRecoveryUnderSameNames(hash: Hash, files: Files, first: Inputs, n: nat, rerun: Inputs)
    requires first.record == rerun.record && n <= |PublishWrites(hash, files, first)|
    requires first.schema.name == rerun.schema.name && first.parameters.name == rerun.parameters.name
    requires Publish(hash, Crash(hash, files, first, n), rerun).stop.None?
    ensures Publish(hash, files, rerun) == Publish(hash, Crash(hash, files, first, n), rerun)
  {
    var writes := PublishWrites(hash, files, first);
    CrashRecovery(hash, files, first, n, rerun);
    PrefixIsGood(hash, files, first, n);
    WhenPublished(hash, Crash(hash, files, first, n), rerun);
    forall i | 0 <= i < n ensures Covered(files, rerun, writes[i]) {
      assert writes[..n][i] == writes[i];
      SameNamesCover(NewEntries(files, first.record), files, first, rerun, writes[i]);
    }
  }
}
