/**
 What the published history promises: no lasting file changes, the index is ordered and backed by
 evidence after every run, exactly which entries stay in it, and publication is idempotent.
 */
module HistoryTheorems {
  import opened Options
  import opened Records
  import opened IndexOrder
  import opened Publisher
  import opened PublisherStages

  lemma SameFiles(a: Files, b: Files)
    requires forall p :: Lookup(a, p) == Lookup(b, p)
    ensures a == b
  {
    forall p ensures p in a <==> p in b { assert Lookup(a, p) == Lookup(b, p); }
    forall p | p in a ensures a[p] == b[p] { assert Lookup(a, p) == Lookup(b, p); }
  }

  /** One run, whatever becomes of it; `entries` is what it makes of the index. */
  lemma OneRun(hash: Hash, files: Files, job: Inputs, entries: seq<Entry>, s: Step)
    requires entries == NewEntries(files, job.record) && s == Publish(hash, files, job)
    ensures s.stop.None? <==> Acceptable(hash, files, job)
    ensures s.stop.None? ==> forall p :: Lookup(s.files, p) == After(entries, files, job, p)
    ensures s.stop.Some? ==> Partly(entries, files, s.files, job)
  {
    WhenPublished(hash, files, job);
    if Validate(hash, job).None? { WhatIsLeft(hash, files, job); }
  }

  // ----- Every run keeps the history -----

  /** Nothing lasting is lost or changed. */
  ghost predicate Keeps(before: Files, after: Files) {
    forall p :: p in before && !IsMutable(p) ==> Lookup(after, p) == Lookup(before, p)
  }

  /**
   The record file is where the entry's identifier and year say and the entry points to, it holds
   what the entry says, and its ten raw files are there.
   */
  ghost predicate Backed(files: Files, e: Entry) {
    && |e.recordedAt| >= 4
    && e.recordPath == RecordAt(e.recordedAt[..4], e.recordId)
    && e.recordPath in files
    && files[e.recordPath].RecordJson?
    && var r := files[e.recordPath].record;
       IsNamed(r, e.recordId, e.recordedAt) && r.results == Some(e.results)
       && forall raw :: var p := RawAt(e.recordedAt[..4], e.recordId, raw); p in files && files[p].Raw?
  }

  ghost predicate History(files: Files) {
    && (Index in files ==> files[Index].IndexJson?)
    && StrictlyDescending(EntriesOf(files))
    && UniqueIds(EntriesOf(files))
    && forall e :: e in EntriesOf(files) ==> Backed(files, e)
  }

  lemma BackedStays(before: Files, after: Files, e: Entry)
    requires Keeps(before, after) && Backed(before, e)
    ensures Backed(after, e)
  {
    assert Lookup(after, e.recordPath) == Lookup(before, e.recordPath);
    forall raw ensures var p := RawAt(e.recordedAt[..4], e.recordId, raw); p in after && after[p].Raw? {
      var p := RawAt(e.recordedAt[..4], e.recordId, raw);
      assert p in before && Lookup(after, p) == Lookup(before, p);
    }
  }

  lemma ValidIsNamed(hash: Hash, job: Inputs)
    requires Validate(hash, job).None?
    ensures job.record.recordId.Some? && job.record.recordedAt.Some?
    ensures IsNamed(job.record, job.record.recordId.value, job.record.recordedAt.value)
  {
  }

  lemma NewEntryIsBacked(hash: Hash, files: Files, job: Inputs, e: Entry)
    requires EvidenceStored(files, job) && EntryOf(job.record) == Some(e) && Validate(hash, job).None?
    ensures Backed(files, e)
  {
    ValidIsNamed(hash, job);
    NamedPaths(job.record, job.record.recordId.value, job.record.recordedAt.value);
    forall raw ensures var p := RawAt(e.recordedAt[..4], e.recordId, raw); p in files && files[p].Raw? {
      assert Lookup(files, RawPath(job.record, raw)) == Some(Raw(job.results[raw]));
    }
  }

  lemma CompleteRunStoresEvidence(hash: Hash, files: Files, job: Inputs, entries: seq<Entry>, after: Files)
    requires Acceptable(hash, files, job)
    requires forall p :: Lookup(after, p) == After(entries, files, job, p)
    ensures EvidenceStored(after, job) && Keeps(files, after)
  {
    assert Lookup(after, RecordPath(job.record)) == After(entries, files, job, RecordPath(job.record));
    forall raw ensures Lookup(after, RawPath(job.record, raw)) == Some(Raw(job.results[raw])) {
      var p := RawPath(job.record, raw);
      assert IsRawPath(job, p);
      assert Lookup(after, p) == After(entries, files, job, p);
    }
    forall p | p in files && !IsMutable(p) ensures Lookup(after, p) == Lookup(files, p) {
      assert Agrees(files, job, p);
    }
  }

  lemma IndexAfterRun(hash: Hash, files: Files, job: Inputs, entries: seq<Entry>, s: Step)
    requires entries == NewEntries(files, job.record) && s == Publish(hash, files, job)
    ensures Keeps(files, s.files)
    ensures Lookup(s.files, Index) == Lookup(files, Index)
         || (Lookup(s.files, Index) == Some(IndexJson(entries)) && EvidenceStored(s.files, job)
             && IndexReady(files, job))
  {
    OneRun(hash, files, job, entries, s);
    if s.stop.None? {
      CompleteRunStoresEvidence(hash, files, job, entries, s.files);
      assert Lookup(s.files, Index) == After(entries, files, job, Index);
    } else {
      PartlyIndex(entries, files, s.files, job);
    }
  }

  lemma PartlyIndex(entries: seq<Entry>, files: Files, after: Files, job: Inputs)
    requires Partly(entries, files, after, job)
    ensures Keeps(files, after)
    ensures Lookup(after, Index) == Lookup(files, Index)
         || (Lookup(after, Index) == Some(IndexJson(entries)) && EvidenceStored(after, job) && IndexReady(files, job))
  {
    assert Lookup(after, Index) == Lookup(files, Index) || Lookup(after, Index) == After(entries, files, job, Index);
  }

  lemma HistoryWith(hash: Hash, entries: seq<Entry>, files: Files, after: Files, job: Inputs, e: Entry)
    requires History(files) && Keeps(files, after) && EvidenceStored(after, job) && Validate(hash, job).None?
    requires EntryOf(job.record) == Some(e) && entries == Merge(EntriesOf(files), e)
    requires Lookup(after, Index) == Some(IndexJson(entries))
    ensures History(after)
  {
    MergeIsOrdered(EntriesOf(files), e);
    assert EntriesOf(after) == entries;
    forall x | x in entries ensures Backed(after, x) {
      if x == e { NewEntryIsBacked(hash, after, job, e); } else { BackedStays(files, after, x); }
    }
  }

  /** One run, published or stopped anywhere, keeps the history invariant and everything lasting. */
  lemma RunKeepsHistory(hash: Hash, files: Files, job: Inputs)
    requires History(files)
    ensures var s := Publish(hash, files, job); History(s.files) && Keeps(files, s.files)
  {
    var s := Publish(hash, files, job);
    var entries := NewEntries(files, job.record);
    IndexAfterRun(hash, files, job, entries, s);
    if Lookup(s.files, Index) == Lookup(files, Index) {
      assert EntriesOf(s.files) == EntriesOf(files);
      forall x | x in EntriesOf(files) ensures Backed(s.files, x) { BackedStays(files, s.files, x); }
    } else {
      HistoryWith(hash, entries, files, s.files, job, EntryOf(job.record).value);
    }
  }

  /** A series of runs; a run that stops leaves its partial store to the next. */
  function RunAll(hash: Hash, files: Files, jobs: seq<Inputs>): Files
    decreases |jobs|
  {
    if jobs == [] then files else RunAll(hash, Publish(hash, files, jobs[0]).files, jobs[1..])
  }

  lemma {:induction false} RunsKeepHistory(hash: Hash, files: Files, jobs: seq<Inputs>)
    requires History(files)
    ensures History(RunAll(hash, files, jobs)) && Keeps(files, RunAll(hash, files, jobs))
    decreases |jobs|
  {
    if jobs != [] {
      var next := Publish(hash, files, jobs[0]).files;
      RunKeepsHistory(hash, files, jobs[0]);
      RunsKeepHistory(hash, next, jobs[1..]);
      var last := RunAll(hash, next, jobs[1..]);
      forall p | p in files && !IsMutable(p) ensures Lookup(last, p) == Lookup(files, p) {
        assert Lookup(next, p) == Lookup(files, p);
      }
    }
  }

  lemma {:induction false} RunAllAppend(hash: Hash, files: Files, a: seq<Inputs>, b: seq<Inputs>)
    ensures RunAll(hash, files, a + b) == RunAll(hash, RunAll(hash, files, a), b)
    decreases |a|
  {
    if a == [] {
      assert a + b == b;
    } else {
      assert (a + b)[1..] == a[1..] + b;
      RunAllAppend(hash, Publish(hash, files, a[0]).files, a[1..], b);
    }
  }

  /**
   Over every series of runs from an empty store, stopped ones included: the invariant holds, and
   what any earlier store held besides index, latest and README is still there unchanged.
   */
  lemma HistoryOverAllRuns(hash: Hash, earlier: seq<Inputs>, later: seq<Inputs>)
    ensures History(RunAll(hash, map[], earlier + later))
    ensures Keeps(RunAll(hash, map[], earlier), RunAll(hash, map[], earlier + later))
  {
    RunsKeepHistory(hash, map[], earlier);
    RunsKeepHistory(hash, RunAll(hash, map[], earlier), later);
    RunAllAppend(hash, map[], earlier, later);
  }

  // ----- The README table -----

  lemma EntriesAfterOne(hash: Hash, files: Files, job: Inputs, mid: Files)
    requires Publish(hash, files, job) == Step(mid, None)
    ensures EntryOf(job.record).Some? && EntriesOf(mid) == Merge(EntriesOf(files), EntryOf(job.record).value)
    ensures Lookup(mid, Index) == Some(IndexJson(EntriesOf(mid)))
    ensures Lookup(mid, ReadmeFile) == Some(Readme(Rows(EntriesOf(mid))))
  {
    var entries := NewEntries(files, job.record);
    OneRun(hash, files, job, entries, Step(mid, None));
    assert Lookup(mid, Index) == After(entries, files, job, Index);
    assert Lookup(mid, ReadmeFile) == After(entries, files, job, ReadmeFile);
  }

  function ShortSha(sha: string): string { if |sha| < 12 then sha else sha[..12] }

  /** A row of the table, the index entry it comes from and the record file agree, field by field. */
  ghost predicate Shows(files: Files, row: Row, e: Entry) {
    && row.recordPath == e.recordPath && e.recordPath in files && files[e.recordPath].RecordJson?
    && var r := files[e.recordPath].record;
       r.recordId == Some(e.recordId) && r.recordedAt == Some(e.recordedAt) && row.recordedAt == e.recordedAt
       && r.results == Some(e.results) && row.candidate == ShortSha(e.results.candidateSha)
       && row.candidateMedian == e.results.candidateMedian && row.baselineMedian == e.results.baselineMedian
       && row.ratio == e.results.ratio && row.passed == e.results.passed
  }

  /**
   After a publication the table shows the newest hundred entries of the index, newest first, each
   with the figures of the record file it links to; the published record is in the index.
   */
  lemma ReadmeShowsRecords(hash: Hash, files: Files, job: Inputs)
    requires History(files) && Publish(hash, files, job).stop.None?
    ensures var out := Publish(hash, files, job).files; var entries := EntriesOf(out);
      EntryOf(job.record).Some? && EntryOf(job.record).value in entries && NewestFirst(entries)
      && Root(ReadmeName) in out && out[Root(ReadmeName)].Readme?
      && var rows := out[Root(ReadmeName)].rows;
         |rows| == (if |entries| < 100 then |entries| else 100)
         && forall i :: 0 <= i < |rows| ==> Shows(out, rows[i], entries[i])
  {
    var out := Publish(hash, files, job).files;
    EntriesAfterOne(hash, files, job, out);
    MergeIsOrdered(EntriesOf(files), EntryOf(job.record).value);
    RunKeepsHistory(hash, files, job);
    RowsShow(out, EntriesOf(out));
  }

  lemma RowsShow(files: Files, entries: seq<Entry>)
    requires forall e :: e in entries ==> Backed(files, e)
    ensures forall i :: 0 <= i < |Rows(entries)| ==> Shows(files, Rows(entries)[i], entries[i])
  {
    forall i | 0 <= i < |Rows(entries)| ensures Shows(files, Rows(entries)[i], entries[i]) {
      assert entries[i] in entries;
    }
  }

  // ----- What is published where -----

  /** The record in its file, its ten raw files, its index entry and latest.json, by identifier and time. */
  ghost predicate IsPublished(files: Files, job: Inputs, id: string, at: string)
    requires |at| >= 4
  {
    && Lookup(files, RecordAt(at[..4], id)) == Some(RecordJson(job.record))
    && (forall raw :: raw in job.results && Lookup(files, RawAt(at[..4], id, raw)) == Some(Raw(job.results[raw])))
    && Lookup(files, Root(LatestName)) == Some(RecordJson(job.record))
    && job.record.results.Some? && Root(IndexName) in files && files[Root(IndexName)].IndexJson?
    && var entries := files[Root(IndexName)].entries;
       Entry(id, at, job.record.results.value, RecordAt(at[..4], id)) in entries
       && forall e :: e in entries && e.recordId == id ==> e.recordedAt == at
  }

  /** A completed run publishes its record under the record's own identifier and the year of its time. */
  lemma PublishedUnderItsName(hash: Hash, files: Files, job: Inputs)
    requires History(files) && Publish(hash, files, job).stop.None?
    ensures job.record.recordId.Some? && job.record.recordedAt.Some? && |job.record.recordedAt.value| >= 4
      && IsPublished(Publish(hash, files, job).files, job, job.record.recordId.value, job.record.recordedAt.value)
  {
    var out := Publish(hash, files, job).files;
    var entries := NewEntries(files, job.record);
    OneRun(hash, files, job, entries, Publish(hash, files, job));
    CompleteRunStoresEvidence(hash, files, job, entries, out);
    EntriesAfterOne(hash, files, job, out);
    MergeIsOrdered(EntriesOf(files), EntryOf(job.record).value);
    assert Lookup(out, Latest) == After(entries, files, job, Latest);
    ValidIsNamed(hash, job);
    NamedIsPublished(out, job, job.record.recordId.value, job.record.recordedAt.value);
  }

  lemma NamedIsPublished(files: Files, job: Inputs, id: string, at: string)
    requires IsNamed(job.record, id, at) && EvidenceStored(files, job) && EntryOf(job.record).Some?
    requires Lookup(files, Index) == Some(IndexJson(EntriesOf(files)))
    requires EntryOf(job.record).value in EntriesOf(files) && UniqueIds(EntriesOf(files))
    requires Lookup(files, Latest) == Some(RecordJson(job.record))
    ensures IsPublished(files, job, id, at)
  {
    NamedPaths(job.record, id, at);
    forall raw ensures raw in job.results && Lookup(files, RawAt(at[..4], id, raw)) == Some(Raw(job.results[raw])) {
      assert Lookup(files, RawPath(job.record, raw)) == Some(Raw(job.results[raw]));
    }
    var entries := EntriesOf(files);
    forall e | e in entries && e.recordId == id ensures e.recordedAt == at {
      SameId(entries, e, EntryOf(job.record).value);
    }
  }

  /** The contract of a completed run is there too: but a parameters file named README.md is overwritten. */
  lemma ContractIsPublished(hash: Hash, files: Files, job: Inputs)
    requires Publish(hash, files, job).stop.None?
    ensures var out := Publish(hash, files, job).files;
      Lookup(out, SchemaAt(job.schema.name)) == Some(Raw(job.schema.bytes))
      && Lookup(out, Root(ContractName)) == Some(Raw(job.contract))
      && (job.parameters.name != "README.md" ==>
            Lookup(out, Root(RootNamed(job.parameters.name))) == Some(Raw(job.parameters.bytes)))
      && Root(NoJekyllName) in out
  {
    var entries := NewEntries(files, job.record);
    OneRun(hash, files, job, entries, Publish(hash, files, job));
    ContractAfter(entries, files, Publish(hash, files, job).files, job);
  }

  lemma ContractAfter(entries: seq<Entry>, files: Files, out: Files, job: Inputs)
    requires IsFileName(ParametersName(job))
    requires ParametersPath(job) == Contract ==> job.parameters.bytes == job.contract
    requires forall p :: Lookup(out, p) == After(entries, files, job, p)
    ensures Lookup(out, SchemaPath(job)) == Some(Raw(job.schema.bytes))
    ensures Lookup(out, Contract) == Some(Raw(job.contract))
    ensures job.parameters.name != "README.md" ==> Lookup(out, ParametersPath(job)) == Some(Raw(job.parameters.bytes))
    ensures NoJekyll in out
  {
    NamesExactly(job);
    assert Lookup(out, SchemaPath(job)) == After(entries, files, job, SchemaPath(job));
    assert Lookup(out, Contract) == After(entries, files, job, Contract);
    assert Lookup(out, ParametersPath(job)) == After(entries, files, job, ParametersPath(job));
    assert Lookup(out, NoJekyll) == After(entries, files, job, NoJekyll);
  }

  lemma SameId(entries: seq<Entry>, a: Entry, b: Entry)
    requires UniqueIds(entries) && a in entries && b in entries && a.recordId == b.recordId
    ensures a == b
  {
    var i :| 0 <= i < |entries| && entries[i] == a;
    var j :| 0 <= j < |entries| && entries[j] == b;
  }

  // ----- Which entries stay -----

  predicate SameYear(s: string, t: string) { |s| >= 4 && |t| >= 4 && s[..4] == t[..4] }

  /** Dated in the year of that entry. */
  predicate IsDatedLike(r: Record, e: Entry) { r.recordedAt.Some? && SameYear(r.recordedAt.value, e.recordedAt) }

  /**
   Over any run, completed or stopped: a published entry stays in the index unless a run of its
   identifier gets to the index with a record dated in another year. Only then does it vanish.
   */
  lemma EntryStaysExactly(hash: Hash, files: Files, job: Inputs, e: Entry)
    requires History(files) && e in EntriesOf(files)
    ensures e in EntriesOf(Publish(hash, files, job).files)
       <==> (Validate(hash, job).None? && ReachesIndex(files, job) && job.record.recordId == Some(e.recordId)
             ==> IsDatedLike(job.record, e))
  {
    var entries := NewEntries(files, job.record);
    var out := Publish(hash, files, job).files;
    if Validate(hash, job).None? {
      WhatIsLeft(hash, files, job);
      if ReachesIndex(files, job) {
        assert EntriesOf(out) == entries;
        MergedEntry(hash, files, job, e);
      } else {
        assert EntriesOf(out) == EntriesOf(files);
      }
    }
  }

  lemma MergedEntry(hash: Hash, files: Files, job: Inputs, e: Entry)
    requires History(files) && e in EntriesOf(files) && ReachesIndex(files, job) && Validate(hash, job).None?
    ensures e in NewEntries(files, job.record)
       <==> (job.record.recordId == Some(e.recordId) ==> IsDatedLike(job.record, e))
  {
    var mine := EntryOf(job.record).value;
    ValidIsNamed(hash, job);
    NamedPaths(job.record, job.record.recordId.value, job.record.recordedAt.value);
    MergeIsOrdered(EntriesOf(files), mine);
    assert Backed(files, e);
    assert e == mine ==> IsDatedLike(job.record, e);
    if job.record.recordId == Some(e.recordId) && IsDatedLike(job.record, e) {
      assert e.recordPath == RecordPath(job.record);
      assert Agrees(files, job, RecordPath(job.record));
    }
  }

  /**
   A run under a published identifier that completes carries the published record exactly if it is
   dated in the same year: with other content it fails in that year, and only there.
   */
  lemma PublishedIdExactly(hash: Hash, files: Files, job: Inputs, e: Entry)
    requires History(files) && e in EntriesOf(files) && job.record.recordId == Some(e.recordId)
    requires Publish(hash, files, job).stop.None?
    ensures e.recordPath in files
      && (files[e.recordPath] == RecordJson(job.record) <==> IsDatedLike(job.record, e))
  {
    WhenPublished(hash, files, job);
    assert Backed(files, e);
    if IsDatedLike(job.record, e) {
      NamedPaths(job.record, e.recordId, job.record.recordedAt.value);
      assert Agrees(files, job, RecordPath(job.record));
    }
  }

  /** The same identifier, dated otherwise. */
  function Redated(job: Inputs, recordedAt: string): Inputs {
    job.(record := job.record.(recordedAt := Some(recordedAt)))
  }

  /** For any acceptable inputs: published again with a date in another year, they push the first entry out. */
  lemma OtherYear(hash: Hash, job: Inputs, recordedAt: string)
    requires Acceptable(hash, map[], job) && job.parameters.name != "README.md"
    requires IsYear(Take(recordedAt, 4)) && job.record.recordedAt.Some?
    requires !SameYear(recordedAt, job.record.recordedAt.value)
    ensures var first := Publish(hash, map[], job); var second := Publish(hash, first.files, Redated(job, recordedAt));
      first.stop.None? && second.stop.None? && EntryOf(job.record).Some?
      && EntryOf(job.record).value in EntriesOf(first.files) && EntryOf(job.record).value !in EntriesOf(second.files)
  {
    var first := Publish(hash, map[], job);
    WhenPublished(hash, map[], job);
    OneRun(hash, map[], job, NewEntries(map[], job.record), first);
    RedatedFits(NewEntries(map[], job.record), first.files, job, recordedAt);
    RedatedIsChecked(hash, job, recordedAt);
    WhenPublished(hash, first.files, Redated(job, recordedAt));
    EntryIsIn(hash, map[], job);
    RunKeepsHistory(hash, map[], job);
    EntryIsPushedOut(hash, first.files, Redated(job, recordedAt), EntryOf(job.record).value);
  }

  lemma RedatedIsChecked(hash: Hash, job: Inputs, recordedAt: string)
    requires Checked(hash, job) && IsYear(Take(recordedAt, 4))
    ensures Checked(hash, Redated(job, recordedAt))
  {
  }

  lemma EntryIsIn(hash: Hash, files: Files, job: Inputs)
    requires History(files) && Publish(hash, files, job).stop.None?
    ensures EntryOf(job.record).Some? && EntryOf(job.record).value in EntriesOf(Publish(hash, files, job).files)
  {
    EntriesAfterOne(hash, files, job, Publish(hash, files, job).files);
    MergeIsOrdered(EntriesOf(files), EntryOf(job.record).value);
  }

  lemma EntryIsPushedOut(hash: Hash, files: Files, job: Inputs, e: Entry)
    requires History(files) && Publish(hash, files, job).stop.None? && e in EntriesOf(files)
    requires job.record.recordId == Some(e.recordId) && !IsDatedLike(job.record, e)
    ensures e !in EntriesOf(Publish(hash, files, job).files)
  {
    WhenPublished(hash, files, job);
    AcceptableByStage(hash, files, job);
    EntryStaysExactly(hash, files, job, e);
  }

  lemma RedatedFits(entries: seq<Entry>, files: Files, job: Inputs, recordedAt: string)
    requires IsFileName(ParametersName(job)) && job.parameters.name != "README.md"
    requires ParametersPath(job) == Contract ==> job.parameters.bytes == job.contract
    requires Take(recordedAt, 4) != YearOf(job.record)
    requires forall p :: Lookup(files, p) == After(entries, map[], job, p)
    ensures Fits(files, Redated(job, recordedAt))
  {
    var again := Redated(job, recordedAt);
    assert Lookup(files, Index) == After(entries, map[], job, Index);
    forall p | p in files ensures Agrees(files, again, p) {
      assert Lookup(files, p) == After(entries, map[], job, p);
    }
  }

  lemma NextRun(hash: Hash, files: Files, jobs: seq<Inputs>, n: nat)
    requires n < |jobs|
    ensures RunAll(hash, files, jobs[..n + 1]) == Publish(hash, RunAll(hash, files, jobs[..n]), jobs[n]).files
  {
    assert jobs[..n + 1] == jobs[..n] + [jobs[n]];
    RunAllAppend(hash, files, jobs[..n], [jobs[n]]);
    var before := RunAll(hash, files, jobs[..n]);
    assert RunAll(hash, before, [jobs[n]]) == RunAll(hash, Publish(hash, before, jobs[n]).files, []);
  }

  /** Run `n` gets to the index with this identifier, dated in another year. */
  ghost predicate PushesOut(hash: Hash, files: Files, jobs: seq<Inputs>, n: nat, e: Entry)
    requires n < |jobs|
  {
    var before := RunAll(hash, files, jobs[..n]);
    Validate(hash, jobs[n]).None? && ReachesIndex(before, jobs[n])
    && jobs[n].record.recordId == Some(e.recordId) && !IsDatedLike(jobs[n].record, e)
  }

  ghost predicate InIndexAfter(hash: Hash, files: Files, jobs: seq<Inputs>, n: nat, e: Entry)
    requires n <= |jobs|
  {
    e in EntriesOf(RunAll(hash, files, jobs[..n]))
  }

  lemma StaysNext(hash: Hash, files: Files, jobs: seq<Inputs>, n: nat, e: Entry)
    requires n < |jobs| && History(files) && InIndexAfter(hash, files, jobs, n, e)
    ensures InIndexAfter(hash, files, jobs, n + 1, e) <==> !PushesOut(hash, files, jobs, n, e)
  {
    RunsKeepHistory(hash, files, jobs[..n]);
    NextRun(hash, files, jobs, n);
    EntryStaysExactly(hash, RunAll(hash, files, jobs[..n]), jobs[n], e);
  }

  lemma {:induction false} StaysUnlessPushedOut(hash: Hash, files: Files, jobs: seq<Inputs>, n: nat, e: Entry)
    requires n <= |jobs| && History(files) && e in EntriesOf(files)
    requires forall k: nat :: k < n ==> !PushesOut(hash, files, jobs, k, e)
    ensures InIndexAfter(hash, files, jobs, n, e)
    decreases n
  {
    if n == 0 {
      assert jobs[..0] == [];
    } else {
      StaysUnlessPushedOut(hash, files, jobs, n - 1, e);
      StaysNext(hash, files, jobs, n - 1, e);
    }
  }

  /** Over every series of runs: an entry is in the index throughout if and only if no run pushes it out. */
  lemma EntryStaysOverRuns(hash: Hash, files: Files, jobs: seq<Inputs>, e: Entry)
    requires History(files) && e in EntriesOf(files)
    ensures (forall n: nat :: n <= |jobs| ==> InIndexAfter(hash, files, jobs, n, e))
       <==> (forall n: nat :: n < |jobs| ==> !PushesOut(hash, files, jobs, n, e))
  {
    if forall n: nat :: n < |jobs| ==> !PushesOut(hash, files, jobs, n, e) {
      forall n: nat | n <= |jobs| ensures InIndexAfter(hash, files, jobs, n, e) {
        StaysUnlessPushedOut(hash, files, jobs, n, e);
      }
    }
    if forall n: nat :: n <= |jobs| ==> InIndexAfter(hash, files, jobs, n, e) {
      forall n: nat | n < |jobs| ensures !PushesOut(hash, files, jobs, n, e) {
        StaysNext(hash, files, jobs, n, e);
      }
    }
  }

  // ----- Publishing again -----

  lemma AgainEntries(files: Files, mid: Files, r: Record, entries: seq<Entry>)
    requires EntryOf(r).Some? && entries == NewEntries(files, r)
    requires Lookup(mid, Index) == Lookup(files, Index) || Lookup(mid, Index) == Some(IndexJson(entries))
    ensures NewEntries(mid, r) == entries
  {
    if Lookup(mid, Index) == Lookup(files, Index) {
      assert EntriesOf(mid) == EntriesOf(files);
    } else {
      assert EntriesOf(mid) == entries;
      MergeTwice(EntriesOf(files), EntryOf(r).value);
    }
  }

  lemma FitsAgain(files: Files, mid: Files, job: Inputs, entries: seq<Entry>)
    requires IsFileName(ParametersName(job))
    requires forall p :: Lookup(mid, p) == After(entries, files, job, p)
    ensures Fits(mid, job) <==> ParametersPath(job) != ReadmeFile
  {
    assert Lookup(mid, Index) == After(entries, files, job, Index);
    assert Lookup(mid, ReadmeFile) == After(entries, files, job, ReadmeFile);
    if ParametersPath(job) != ReadmeFile {
      forall p | p in mid ensures Agrees(mid, job, p) {
        assert Lookup(mid, p) == After(entries, files, job, p);
      }
    } else {
      assert !Agrees(mid, job, ReadmeFile);
    }
  }

  /**
   Publishing the same inputs again leaves the store as it is. The second run also reports success,
   unless the contract parameters are named README.md: then it meets the table it generated itself.
   */
  lemma Idempotent(hash: Hash, files: Files, job: Inputs)
    requires Publish(hash, files, job).stop.None?
    ensures var mid := Publish(hash, files, job).files; var again := Publish(hash, mid, job);
      again.files == mid && (again.stop.None? <==> job.parameters.name != "README.md")
  {
    var first := Publish(hash, files, job);
    PublishedTwice(hash, files, job, NewEntries(files, job.record), first, Publish(hash, first.files, job));
  }

  lemma PublishedTwice(hash: Hash, files: Files, job: Inputs, entries: seq<Entry>, first: Step, again: Step)
    requires entries == NewEntries(files, job.record) && first == Publish(hash, files, job) && first.stop.None?
    requires again == Publish(hash, first.files, job)
    ensures again.files == first.files && (again.stop.None? <==> ParametersName(job) != ReadmeName)
  {
    OneRun(hash, files, job, entries, first);
    EntriesStay(files, first.files, job, entries);
    AgainOnComplete(hash, files, first.files, job, entries, again);
  }

  lemma EntriesStay(files: Files, mid: Files, job: Inputs, entries: seq<Entry>)
    requires entries == NewEntries(files, job.record) && job.record.results.Some?
    requires forall p :: Lookup(mid, p) == After(entries, files, job, p)
    ensures NewEntries(mid, job.record) == entries
  {
    assert Lookup(mid, Index) == After(entries, files, job, Index);
    AgainEntries(files, mid, job.record, entries);
  }

  lemma AgainOnComplete(hash: Hash, files: Files, mid: Files, job: Inputs, entries: seq<Entry>, again: Step)
    requires again == Publish(hash, mid, job) && entries == NewEntries(mid, job.record) && Checked(hash, job)
    requires forall p :: Lookup(mid, p) == After(entries, files, job, p)
    ensures again.files == mid && (again.stop.None? <==> ParametersName(job) != ReadmeName)
  {
    OneRun(hash, mid, job, entries, again);
    FitsAgain(files, mid, job, entries);
    RewritesItself(entries, files, mid, again, job);
  }

  /** Writing the same once more, completely or partly, changes nothing. */
  lemma RewritesItself(entries: seq<Entry>, files: Files, mid: Files, again: Step, job: Inputs)
    requires forall p :: Lookup(mid, p) == After(entries, files, job, p)
    requires again.stop.None? ==> forall p :: Lookup(again.files, p) == After(entries, mid, job, p)
    requires again.stop.Some? ==> Partly(entries, mid, again.files, job)
    ensures again.files == mid
  {
    forall p ensures Lookup(again.files, p) == Lookup(mid, p) {
      assert Lookup(mid, p) == After(entries, files, job, p);
      if again.stop.None? { assert Lookup(again.files, p) == After(entries, mid, job, p); }
    }
    SameFiles(again.files, mid);
  }
}
