/** A run that stopped, and the rerun that repairs the store: exactly when it does. */
module Recovery {
  import opened Options
  import opened Records
  import opened Publisher
  import opened PublisherStages
  import opened HistoryTheorems

  /** A path that a complete run with these inputs writes. */
  predicate Writes(job: Inputs, p: Path) { IsMutable(p) || Lasting(job, p).Some? }

  lemma AcceptableBefore(hash: Hash, files: Files, mid: Files, first: Inputs, rerun: Inputs, entries: seq<Entry>)
    requires Partly(entries, files, mid, first) && Acceptable(hash, mid, rerun)
    ensures Acceptable(hash, files, rerun)
  {
    assert Index in files ==> Index in mid;
    forall p | p in files ensures Agrees(files, rerun, p) {
      assert p in mid;
      assert Agrees(mid, rerun, p);
      assert !IsMutable(p) ==> Lookup(mid, p) == Lookup(files, p);
    }
  }

  /**
   A run stopped anywhere and was rerun, with the same record, to completion. Then an uninterrupted
   run of the rerun's inputs would have completed too. It leaves the same store if and only if the
   schema names are equal, or the stopped run did not create a schema file: because one was there,
   or because it stopped before its index stage.
   */
  lemma Recovery(hash: Hash, files: Files, first: Inputs, rerun: Inputs)
    requires first.record == rerun.record
    requires Publish(hash, files, first).stop.Some?
    requires Publish(hash, Publish(hash, files, first).files, rerun).stop.None?
    ensures var direct := Publish(hash, files, rerun);
      direct.stop.None? &&
      (direct.files == Publish(hash, Publish(hash, files, first).files, rerun).files
       <==> first.schema.name == rerun.schema.name || SchemaPath(first) in files
            || Validate(hash, first).Some? || !ReachesIndex(files, first))
  {
    var entries := NewEntries(files, first.record);
    var mid := Publish(hash, files, first).files;
    OneRun(hash, files, first, entries, Publish(hash, files, first));
    WhenPublished(hash, mid, rerun);
    AcceptableBefore(hash, files, mid, first, rerun, entries);
    RerunEntries(entries, files, mid, first, rerun);
    OneRun(hash, mid, rerun, entries, Publish(hash, mid, rerun));
    OneRun(hash, files, rerun, entries, Publish(hash, files, rerun));
    CompareStores(entries, files, mid, first, rerun,
                  Publish(hash, files, rerun).files, Publish(hash, mid, rerun).files);
    if Validate(hash, first).None? { WhatIsLeft(hash, files, first); }
    AllCovered(entries, files, mid, first, rerun);
  }

  /** Of the files a stopped run creates, only its schema file may be none that the rerun writes. */
  lemma AllCovered(entries: seq<Entry>, files: Files, mid: Files, first: Inputs, rerun: Inputs)
    requires Partly(entries, files, mid, first) && first.record == rerun.record
    requires forall raw: RawFile :: raw in rerun.results
    ensures (forall p :: p in mid && p !in files ==> Writes(rerun, p))
       <==> first.schema.name == rerun.schema.name || SchemaPath(first) in files || SchemaPath(first) !in mid
  {
    forall p | p in mid && p !in files ensures Writes(rerun, p) || p == SchemaPath(first) {
      assert CreatedEarly(first, p);
    }
    assert Writes(rerun, SchemaPath(first)) <==> first.schema.name == rerun.schema.name;
  }

  lemma RerunEntries(entries: seq<Entry>, files: Files, mid: Files, first: Inputs, rerun: Inputs)
    requires Partly(entries, files, mid, first) && entries == NewEntries(files, first.record)
    requires first.record == rerun.record && rerun.record.results.Some?
    ensures NewEntries(mid, rerun.record) == entries
  {
    assert Lookup(mid, Index) == Lookup(files, Index) || Lookup(mid, Index) == After(entries, files, first, Index);
    AgainEntries(files, mid, rerun.record, entries);
  }

  lemma CompareStores(entries: seq<Entry>, files: Files, mid: Files, first: Inputs, rerun: Inputs,
                      direct: Files, repaired: Files)
    requires Partly(entries, files, mid, first)
    requires forall p :: Lookup(direct, p) == After(entries, files, rerun, p)
    requires forall p :: Lookup(repaired, p) == After(entries, mid, rerun, p)
    ensures direct == repaired <==> forall p :: p in mid && p !in files ==> Writes(rerun, p)
  {
    if forall p :: p in mid && p !in files ==> Writes(rerun, p) {
      forall p ensures Lookup(direct, p) == Lookup(repaired, p) {
        assert Lookup(direct, p) == After(entries, files, rerun, p);
        assert Lookup(repaired, p) == After(entries, mid, rerun, p);
        assert p in files && !IsMutable(p) ==> Lookup(mid, p) == Lookup(files, p);
      }
      SameFiles(direct, repaired);
    }
    if p :| p in mid && p !in files && !Writes(rerun, p) {
      assert Lookup(direct, p) == After(entries, files, rerun, p);
      assert Lookup(repaired, p) == After(entries, mid, rerun, p);
      assert p != NoJekyll;
    }
  }

  /** In particular a rerun under the same schema file name always repairs the store. */
  lemma RecoveryUnderSameSchemaName(hash: Hash, files: Files, first: Inputs, rerun: Inputs)
    requires first.record == rerun.record && first.schema.name == rerun.schema.name
    requires Publish(hash, files, first).stop.Some?
    requires Publish(hash, Publish(hash, files, first).files, rerun).stop.None?
    ensures Publish(hash, files, rerun) == Publish(hash, Publish(hash, files, first).files, rerun)
  {
    Recovery(hash, files, first, rerun);
  }

  /** A copy of the inputs under another schema name and with another contract text. */
  function Misnamed(job: Inputs, name: string, contract: Bytes): Inputs {
    job.(schema := job.schema.(name := name), contract := contract)
  }

  /** A store whose contract disagrees stops the misnamed run, after it has copied its schema file. */
  lemma MisnamedStops(hash: Hash, job: Inputs, name: string, contract: Bytes, files: Files, first: Inputs)
    requires Acceptable(hash, map[], job) && contract != job.contract
    requires files == map[Contract := Raw(job.contract)] && first == Misnamed(job, name, contract)
    ensures Publish(hash, files, first).stop.Some? && Validate(hash, first).None? && ReachesIndex(files, first)
  {
    assert !Agrees(files, first, Contract) && Agrees(files, first, SchemaPath(first));
    assert EvidenceAgrees(files, first) && IndexReady(files, first);
    assert Validate(hash, first) == Validate(hash, job);
    WhenPublished(hash, files, first);
  }

  lemma RerunAccepted(hash: Hash, job: Inputs, name: string, contract: Bytes, files: Files, first: Inputs, mid: Files,
                      entries: seq<Entry>)
    requires Checked(hash, job) && name != job.schema.name
    requires files == map[Contract := Raw(job.contract)] && first == Misnamed(job, name, contract)
    requires Partly(entries, files, mid, first)
    ensures Acceptable(hash, mid, job)
  {
    forall p | p in mid ensures Agrees(mid, job, p) {
      MisnamedAgrees(entries, job, name, contract, files, first, mid, p);
    }
    IndexIsReadable(entries, files, first, mid);
  }

  lemma IndexIsReadable(entries: seq<Entry>, files: Files, first: Inputs, mid: Files)
    requires Index !in files && Partly(entries, files, mid, first)
    ensures Index in mid ==> mid[Index].IndexJson?
  {
    assert Lookup(mid, Index) == Lookup(files, Index) || Lookup(mid, Index) == After(entries, files, first, Index);
  }

  lemma MisnamedAgrees(entries: seq<Entry>, job: Inputs, name: string, contract: Bytes, files: Files, first: Inputs,
                       mid: Files, p: Path)
    requires name != job.schema.name && IsFileName(ParametersName(job))
    requires ParametersPath(job) == Contract ==> job.parameters.bytes == job.contract
    requires files == map[Contract := Raw(job.contract)] && first == Misnamed(job, name, contract)
    requires Partly(entries, files, mid, first)
    ensures Agrees(mid, job, p)
  {
    assert Lookup(mid, Contract) == Lookup(files, Contract);
    assert Lookup(mid, p) == Lookup(files, p) || Lookup(mid, p) == After(entries, files, first, p);
    assert Lookup(mid, ReadmeFile) == None && Lookup(mid, NoJekyll) == None;
  }

  lemma MisnamedThenRerun(hash: Hash, job: Inputs, name: string, contract: Bytes, files: Files, first: Inputs)
    requires Acceptable(hash, map[], job) && name != job.schema.name && contract != job.contract
    requires files == map[Contract := Raw(job.contract)] && first == Misnamed(job, name, contract)
    ensures Publish(hash, files, first).stop.Some?
    ensures Validate(hash, first).None? && ReachesIndex(files, first)
    ensures Publish(hash, Publish(hash, files, first).files, job).stop.None?
  {
    var mid := Publish(hash, files, first);
    MisnamedStops(hash, job, name, contract, files, first);
    OneRun(hash, files, first, NewEntries(files, first.record), mid);
    RerunAccepted(hash, job, name, contract, files, first, mid.files, NewEntries(files, first.record));
    WhenPublished(hash, mid.files, job);
  }

  /**
   Contract file names do matter: for any acceptable inputs there is a store and a misnamed first
   run after which the rerun completes but leaves a schema file the direct run does not have.
   */
  lemma StrayFile(hash: Hash, job: Inputs, name: string, contract: Bytes)
    requires Acceptable(hash, map[], job) && name != job.schema.name && contract != job.contract
    ensures var files: Files := map[Contract := Raw(job.contract)];
      var mid := Publish(hash, files, Misnamed(job, name, contract));
      mid.stop.Some? && Publish(hash, mid.files, job).stop.None?
      && Publish(hash, files, job).files != Publish(hash, mid.files, job).files
  {
    var files: Files := map[Contract := Raw(job.contract)];
    var first := Misnamed(job, name, contract);
    MisnamedThenRerun(hash, job, name, contract, files, first);
    Recovery(hash, files, first, job);
  }
}
