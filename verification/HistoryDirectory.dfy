/**
 The history directory, updated in place as `main` does it: a record file, ten raw files in a loop,
 index, latest, three contract files and the README. Each early return leaves the store as it is at
 that point; the ghost field `log` lists the writes, and a run may break off behind any of them.
 */
module HistoryDirectory {
  import opened Sequences
  import opened Options
  import opened Records
  import opened IndexOrder
  import opened Publisher
  import opened PublisherStages
  import opened PublisherWrites

  class HistoryDirectory {
    var files: Files
    ghost var log: seq<FileWrite>

    constructor ()
      ensures files == map[] && log == []
    {
      files := map[];
      log := [];
    }

    /** A temporary file is written and then put in place: one step. */
    method Write(p: Path, content: Content)
      modifies this
      ensures files == old(files)[p := content] && log == old(log) + [FileWrite(p, content)]
    {
      files := files[p := content];
      log := log + [FileWrite(p, content)];
    }

    method CopyImmutableFile(p: Path, bytes: Bytes) returns (stop: Option<Stop>)
      modifies this
      ensures Step(files, stop) == CopyImmutable(old(files), p, bytes)
      ensures log == old(log) + CopyWrites(old(files), p, bytes)
    {
      if IsDirectory(p) {
        return Some(NotAFile(p));
      }
      if p in files {
        if files[p] != Raw(bytes) {
          return Some(ContractIsImmutable(p));
        }
        return None;
      }
      Write(p, Raw(bytes));
      stop := None;
    }

    method StoreRecordFile(r: Record) returns (stop: Option<Stop>)
      modifies this
      ensures Step(files, stop) == StoreRecord(old(files), r)
      ensures log == old(log) + RecordWrites(old(files), r)
    {
      var p := RecordPath(r);
      if p in files {
        if files[p] != RecordJson(r) {
          return Some(RecordIsImmutable);
        }
      } else {
        Write(p, RecordJson(r));
      }
      stop := None;
    }

    method StoreRawFiles(job: Inputs) returns (stop: Option<Stop>)
      modifies this
      ensures Step(files, stop) == StoreRaw(old(files), job, RAW_FILES)
      ensures log == old(log) + RawWrites(old(files), job, RAW_FILES)
    {
      var names := RAW_FILES;
      var i := 0;
      assert names[0..] == names;
      while i < |names|
        invariant 0 <= i <= |names|
        invariant StoreRaw(files, job, names[i..]) == StoreRaw(old(files), job, names)
        invariant log + RawWrites(files, job, names[i..]) == old(log) + RawWrites(old(files), job, names)
      {
        var raw := names[i];
        var p := RawPath(job.record, raw);
        assert names[i..][0] == raw && names[i..][1..] == names[i + 1..];
        if raw !in job.results {
          return Some(MissingRaw(raw));
        }
        if p in files && files[p] != Raw(job.results[raw]) {
          return Some(RawIsImmutable(raw));
        }
        ghost var before := log;
        Write(p, Raw(job.results[raw]));
        Reassociate(before, [FileWrite(p, Raw(job.results[raw]))], RawWrites(files, job, names[i + 1..]));
        i := i + 1;
      }
      assert names[i..] == [];
      stop := None;
    }

    /** The record, and then the raw files. */
    method StoreEvidenceFilesOf(job: Inputs) returns (stop: Option<Stop>)
      modifies this
      ensures Step(files, stop) == StoreEvidence(old(files), job)
      ensures log == old(log) + EvidenceWrites(old(files), job, RAW_FILES)
    {
      stop := StoreRecordFile(job.record);
      if stop.Some? { return; }
      ghost var early := RecordWrites(old(files), job.record);
      ghost var later := RawWrites(files, job, RAW_FILES);
      Reassociate(old(log), early, later);
      stop := StoreRawFiles(job);
    }

    method StoreIndexFiles(r: Record) returns (stop: Option<Stop>)
      modifies this
      ensures Step(files, stop) == StoreIndex(old(files), r)
      ensures log == old(log) + IndexWrites(old(files), r)
    {
      var entries := [];
      if Index in files {
        if !files[Index].IndexJson? {
          return Some(UnreadableIndex);
        }
        entries := files[Index].entries;
      }
      if EntryOf(r).None? {
        return Some(IncompleteRecord);
      }
      entries := Merge(entries, EntryOf(r).value);
      Write(Index, IndexJson(entries));
      Write(Latest, RecordJson(r));
      stop := None;
    }

    method CopyContractFiles(job: Inputs) returns (stop: Option<Stop>)
      modifies this
      ensures Step(files, stop) == CopyContracts(old(files), job)
      ensures log == old(log) + ContractWrites(old(files), job)
    {
      stop := CopyImmutableFile(SchemaPath(job), job.schema.bytes);
      if stop.Some? { return; }
      ghost var early := CopyWrites(old(files), SchemaPath(job), job.schema.bytes);
      ghost var a, middle := files, CopyWrites(files, Contract, job.contract);
      Reassociate(old(log), early, LastCopyWrites(files, job));
      stop := CopyImmutableFile(Contract, job.contract);
      if stop.Some? { return; }
      Reassociate(old(log) + early, middle, CopyWrites(files, ParametersPath(job), job.parameters.bytes));
      stop := CopyImmutableFile(ParametersPath(job), job.parameters.bytes);
    }

    method WriteReadme()
      modifies this
      ensures files == StoreReadme(old(files))
      ensures log == old(log) + ReadmeWrites(old(files))
    {
      var rows := Rows(EntriesOf(files));
      if NoJekyll !in files {
        Write(NoJekyll, Raw([]));
      }
      Write(ReadmeFile, Readme(rows));
    }

    /** `main`; `stop` is the raised error, if any. */
    method PublishRecord(hash: Hash, job: Inputs) returns (stop: Option<Stop>)
      modifies this
      ensures Step(files, stop) == Publish(hash, old(files), job)
      ensures log == old(log) + PublishWrites(hash, old(files), job)
    {
      stop := Validate(hash, job);
      if stop.Some? { return; }
      stop := StoreAll(job);
    }

    method StoreAll(job: Inputs) returns (stop: Option<Stop>)
      modifies this
      ensures Step(files, stop) == RunStages(Step(old(files), None), job, STAGES)
      ensures log == old(log) + StagesWrites(Step(old(files), None), job, STAGES)
    {
      Unfolds(log, files, job, EvidenceStage, [IndexStage, ContractStage, ReadmeStage]);
      stop := StoreEvidenceFilesOf(job);
      if stop.Some? { return; }
      stop := StoreFromIndex(job);
    }

    method StoreFromIndex(job: Inputs) returns (stop: Option<Stop>)
      modifies this
      ensures Step(files, stop) == RunStages(Step(old(files), None), job, [IndexStage, ContractStage, ReadmeStage])
      ensures log == old(log) + StagesWrites(Step(old(files), None), job, [IndexStage, ContractStage, ReadmeStage])
    {
      Unfolds(log, files, job, IndexStage, [ContractStage, ReadmeStage]);
      stop := StoreIndexFiles(job.record);
      if stop.Some? { return; }
      stop := StoreFromContracts(job);
    }

    method StoreFromContracts(job: Inputs) returns (stop: Option<Stop>)
      modifies this
      ensures Step(files, stop) == RunStages(Step(old(files), None), job, [ContractStage, ReadmeStage])
      ensures log == old(log) + StagesWrites(Step(old(files), None), job, [ContractStage, ReadmeStage])
    {
      Unfolds(log, files, job, ContractStage, [ReadmeStage]);
      stop := CopyContractFiles(job);
      if stop.Some? { return; }
      Unfolds(log, files, job, ReadmeStage, []);
      WriteReadme();
      NextStage(files, job, ReadmeStage, []);
      NextStageWrites(files, job, ReadmeStage, []);
    }
  }

  /** The next stage of a run, and its writes behind those before it. */
  lemma Unfolds(log: seq<FileWrite>, files: Files, job: Inputs, stage: Stage, rest: seq<Stage>)
    ensures RunStages(Step(files, None), job, [stage] + rest) == RunStages(RunStage(files, job, stage), job, rest)
    ensures log + StagesWrites(Step(files, None), job, [stage] + rest)
         == log + StageWrites(files, job, stage) + StagesWrites(RunStage(files, job, stage), job, rest)
  {
    NextStage(files, job, stage, rest);
    NextStageWrites(files, job, stage, rest);
    Reassociate(log, StageWrites(files, job, stage), StagesWrites(RunStage(files, job, stage), job, rest));
  }
}
