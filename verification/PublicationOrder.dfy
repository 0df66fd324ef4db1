/** Many publications in different orders: the same store, and exactly when every order completes. */
module PublicationOrder {
  import opened Options
  import opened Records
  import opened IndexOrder
  import opened Publisher
  import opened PublisherStages
  import opened HistoryTheorems

  predicate AllPublished(hash: Hash, files: Files, jobs: seq<Inputs>)
    decreases |jobs|
  {
    jobs == [] ||
    (Publish(hash, files, jobs[0]).stop.None? && AllPublished(hash, Publish(hash, files, jobs[0]).files, jobs[1..]))
  }

  ghost predicate DistinctIds(jobs: seq<Inputs>) {
    forall x, y :: x in jobs && y in jobs && x.record.recordId == y.record.recordId ==> x == y
  }

  /** Path by path, except for index, latest and README: what a series of publications leaves. */
  ghost predicate LastingFiles(files: Files, jobs: seq<Inputs>, out: Files) {
    && (forall x, p :: x in jobs && !IsMutable(p) && Lasting(x, p).Some? ==> Lookup(out, p) == Lasting(x, p))
    && Keeps(files, out)
    && (forall p :: !IsMutable(p) && p !in files && (forall x :: x in jobs ==> Lasting(x, p).None?) ==>
          Lookup(out, p) == if p == NoJekyll && jobs != [] then Some(Raw([])) else None)
  }

  lemma {:induction false} LastingAfterAll(hash: Hash, files: Files, jobs: seq<Inputs>)
    requires AllPublished(hash, files, jobs)
    ensures LastingFiles(files, jobs, RunAll(hash, files, jobs))
    decreases |jobs|
  {
    if jobs != [] {
      var job := jobs[0];
      var entries := NewEntries(files, job.record);
      var s := Publish(hash, files, job);
      OneRun(hash, files, job, entries, s);
      CompleteRunStoresEvidence(hash, files, job, entries, s.files);
      LastingAfterAll(hash, s.files, jobs[1..]);
      LastingStep(entries, files, job, s.files, jobs, RunAll(hash, s.files, jobs[1..]));
    }
  }

  lemma LastingStep(entries: seq<Entry>, files: Files, job: Inputs, mid: Files, jobs: seq<Inputs>, out: Files)
    requires jobs != [] && job == jobs[0]
    requires forall p :: Lookup(mid, p) == After(entries, files, job, p)
    requires Keeps(files, mid) && LastingFiles(mid, jobs[1..], out)
    ensures LastingFiles(files, jobs, out)
  {
    assert forall x :: x in jobs <==> x == job || x in jobs[1..];
    forall x, p | x in jobs && !IsMutable(p) && Lasting(x, p).Some? ensures Lookup(out, p) == Lasting(x, p) {
      if x !in jobs[1..] {
        assert Lookup(mid, p) == After(entries, files, job, p);
        assert p in mid;
      }
    }
    forall p | p in files && !IsMutable(p) ensures Lookup(out, p) == Lookup(files, p) {
      assert Lookup(mid, p) == Lookup(files, p);
    }
    forall p | !IsMutable(p) && p !in files && (forall x :: x in jobs ==> Lasting(x, p).None?)
      ensures Lookup(out, p) == if p == NoJekyll && jobs != [] then Some(Raw([])) else None
    {
      assert Lookup(mid, p) == After(entries, files, job, p);
      assert job in jobs;
    }
  }

  /** The entries a series of publications leaves: old ones not replaced, and one for every record. */
  ghost predicate EntriesAre(before: seq<Entry>, jobs: seq<Inputs>, after: seq<Entry>) {
    && StrictlyDescending(after) && UniqueIds(after)
    && forall e :: e in after <==>
         (e in before && (forall x :: x in jobs ==> x.record.recordId != Some(e.recordId)))
         || (exists x :: x in jobs && EntryOf(x.record) == Some(e))
  }

  lemma {:induction false} EntriesAfterAll(hash: Hash, files: Files, jobs: seq<Inputs>)
    requires AllPublished(hash, files, jobs) && DistinctIds(jobs)
    requires StrictlyDescending(EntriesOf(files)) && UniqueIds(EntriesOf(files))
    ensures var out := RunAll(hash, files, jobs);
      EntriesAre(EntriesOf(files), jobs, EntriesOf(out))
      && (jobs != [] ==> Lookup(out, Index) == Some(IndexJson(EntriesOf(out)))
                         && Lookup(out, ReadmeFile) == Some(Readme(Rows(EntriesOf(out)))))
    decreases |jobs|
  {
    if jobs != [] {
      var job := jobs[0];
      var mid := Publish(hash, files, job).files;
      EntriesAfterOne(hash, files, job, mid);
      var e := EntryOf(job.record).value;
      WhenPublished(hash, files, job);
      ValidIsNamed(hash, job);
      MergeIsOrdered(EntriesOf(files), e);
      EntriesAfterAll(hash, mid, jobs[1..]);
      EntriesStep(EntriesOf(files), EntriesOf(mid), job, e, jobs, EntriesOf(RunAll(hash, mid, jobs[1..])));
    }
  }

  lemma EntriesStep(before: seq<Entry>, entries: seq<Entry>, job: Inputs, e: Entry, jobs: seq<Inputs>,
                    after: seq<Entry>)
    requires jobs != [] && job == jobs[0] && DistinctIds(jobs)
    requires EntryOf(job.record) == Some(e) && job.record.recordId == Some(e.recordId)
    requires forall x :: x in entries <==> x == e || (x in before && x.recordId != e.recordId)
    requires EntriesAre(entries, jobs[1..], after)
    ensures EntriesAre(before, jobs, after)
  {
    assert forall x :: x in jobs <==> x == job || x in jobs[1..];
    forall y
      ensures y in after <==>
        (y in before && (forall x :: x in jobs ==> x.record.recordId != Some(y.recordId)))
        || (exists x :: x in jobs && EntryOf(x.record) == Some(y))
    {
      assert forall x :: x in jobs[1..] && x.record.recordId == Some(e.recordId) ==> x == job;
    }
  }

  /**
   Any two orders, and any repetition, of the same publications end with equal records, raw files,
   contract files, index and README; only latest.json may differ.
   */
  lemma OrderIndependent(hash: Hash, files: Files, a: seq<Inputs>, b: seq<Inputs>)
    requires StrictlyDescending(EntriesOf(files)) && UniqueIds(EntriesOf(files))
    requires AllPublished(hash, files, a) && AllPublished(hash, files, b)
    requires DistinctIds(a) && forall x :: x in a <==> x in b
    ensures forall p :: p != Latest ==> Lookup(RunAll(hash, files, a), p) == Lookup(RunAll(hash, files, b), p)
  {
    var m, n := RunAll(hash, files, a), RunAll(hash, files, b);
    LastingAfterAll(hash, files, a);
    LastingAfterAll(hash, files, b);
    EntriesAfterAll(hash, files, a);
    EntriesAfterAll(hash, files, b);
    assert a == [] <==> b == [] by {
      assert a != [] ==> a[0] in b;
      assert b != [] ==> b[0] in a;
    }
    assert forall e :: e in EntriesOf(m) <==> e in EntriesOf(n);
    DeterminedBySet(EntriesOf(m), EntriesOf(n));
    forall p | p != Latest ensures Lookup(m, p) == Lookup(n, p) {
      if !IsMutable(p) { SameLasting(files, a, b, m, n, p); }
    }
  }

  lemma SameLasting(files: Files, a: seq<Inputs>, b: seq<Inputs>, m: Files, n: Files, p: Path)
    requires LastingFiles(files, a, m) && LastingFiles(files, b, n) && !IsMutable(p)
    requires (forall x :: x in a <==> x in b) && (a == [] <==> b == [])
    ensures Lookup(m, p) == Lookup(n, p)
  {
    if x :| x in a && Lasting(x, p).Some? {
      assert x in b;
    } else if p in files {
      assert Lookup(m, p) == Lookup(files, p) == Lookup(n, p);
    }
  }

  // ----- Success does not depend on the order either -----

  lemma {:induction false} AllChecked(hash: Hash, files: Files, jobs: seq<Inputs>, x: Inputs)
    requires AllPublished(hash, files, jobs) && x in jobs
    ensures Checked(hash, x)
    decreases |jobs|
  {
    WhenPublished(hash, files, jobs[0]);
    if x != jobs[0] { AllChecked(hash, Publish(hash, files, jobs[0]).files, jobs[1..], x); }
  }

  /** Everything lasting in `g` is also in `final`. */
  ghost predicate Within(g: Files, final: Files) {
    && (Index in g ==> g[Index].IndexJson?)
    && forall p :: p in g && !IsMutable(p) ==> Lookup(final, p) == Lookup(g, p)
  }

  ghost predicate Holds(final: Files, job: Inputs) {
    forall p :: !IsMutable(p) && Lasting(job, p).Some? ==> Lookup(final, p) == Lasting(job, p)
  }

  /** Touching `.nojekyll` in this run does not make a file that differs from the one in `final`. */
  predicate TouchFits(g: Files, final: Files, job: Inputs) {
    NoJekyll in g || Lasting(job, NoJekyll).Some? || Lookup(final, NoJekyll) == Some(Raw([]))
  }

  lemma WithinAgrees(g: Files, final: Files, job: Inputs)
    requires Within(g, final) && Holds(final, job) && IsFileName(ParametersName(job))
    requires ParametersPath(job) != ReadmeFile
    ensures forall p :: p in g ==> Agrees(g, job, p)
  {
    forall p | p in g ensures Agrees(g, job, p) {
      assert !IsMutable(p) ==> Lookup(final, p) == Lookup(g, p);
    }
  }

  lemma WithinStep(entries: seq<Entry>, g: Files, after: Files, final: Files, job: Inputs)
    requires Within(g, final) && Holds(final, job) && TouchFits(g, final, job)
    requires forall p :: Lookup(after, p) == After(entries, g, job, p)
    ensures Within(after, final)
    ensures NoJekyll in after
  {
    assert Lookup(after, Index) == After(entries, g, job, Index);
    assert Lookup(after, NoJekyll) == After(entries, g, job, NoJekyll);
    forall p | p in after && !IsMutable(p) ensures Lookup(final, p) == Lookup(after, p) {
      assert Lookup(after, p) == After(entries, g, job, p);
    }
  }

  lemma {:induction false} PublishesWithin(hash: Hash, g: Files, final: Files, jobs: seq<Inputs>)
    requires Within(g, final)
    requires forall x :: x in jobs ==> Checked(hash, x) && ParametersPath(x) != ReadmeFile && TouchFits(g, final, x)
    requires forall x :: x in jobs ==> Holds(final, x)
    ensures AllPublished(hash, g, jobs)
    decreases |jobs|
  {
    if jobs != [] {
      var job := jobs[0];
      var entries := NewEntries(g, job.record);
      var s := Publish(hash, g, job);
      WithinAgrees(g, final, job);
      OneRun(hash, g, job, entries, s);
      WithinStep(entries, g, s.files, final, job);
      PublishesWithin(hash, s.files, final, jobs[1..]);
    }
  }

  /** A parameters file of this run does not get in the way of the empty `.nojekyll` that others touch. */
  predicate JekyllFits(files: Files, jobs: seq<Inputs>, x: Inputs) {
    ParametersPath(x) == NoJekyll ==>
      x.parameters.bytes == [] || NoJekyll in files || forall y :: y in jobs ==> ParametersPath(y) == NoJekyll
  }

  /** What the parameters files of a set of publications must be called. */
  predicate WellNamed(files: Files, jobs: seq<Inputs>) {
    forall x :: x in jobs ==> ParametersPath(x) != ReadmeFile && JekyllFits(files, jobs, x)
  }

  ghost predicate EveryOrderPublishes(hash: Hash, files: Files, jobs: seq<Inputs>) {
    forall b: seq<Inputs> :: (forall x :: x in b ==> x in jobs) ==> AllPublished(hash, files, b)
  }

  lemma TouchesFit(files: Files, jobs: seq<Inputs>, final: Files, x: Inputs)
    requires LastingFiles(files, jobs, final) && WellNamed(files, jobs) && x in jobs
    ensures TouchFits(files, final, x)
  {
    if NoJekyll !in files && Lasting(x, NoJekyll).None? {
      if y :| y in jobs && Lasting(y, NoJekyll).Some? {
        assert Lookup(final, NoJekyll) == Lasting(y, NoJekyll);
        assert JekyllFits(files, jobs, y);
      }
    }
  }

  lemma WellNamedPublishes(hash: Hash, files: Files, a: seq<Inputs>, b: seq<Inputs>)
    requires a != [] && AllPublished(hash, files, a) && WellNamed(files, a) && forall x :: x in b ==> x in a
    ensures AllPublished(hash, files, b)
  {
    var final := RunAll(hash, files, a);
    LastingAfterAll(hash, files, a);
    WhenPublished(hash, files, a[0]);
    forall x | x in b
      ensures Checked(hash, x) && ParametersPath(x) != ReadmeFile && TouchFits(files, final, x) && Holds(final, x)
    {
      AllChecked(hash, files, a, x);
      TouchesFit(files, a, final, x);
    }
    PublishesWithin(hash, files, final, b);
  }

  lemma ReadmeInTheWay(entries: seq<Entry>, files: Files, mid: Files, y: Inputs, x: Inputs)
    requires ParametersPath(x) == ReadmeFile && Lookup(mid, ReadmeFile) == After(entries, files, y, ReadmeFile)
    ensures !Fits(mid, x)
  {
    assert !Agrees(mid, x, ReadmeFile);
  }

  /** After any completed run, a run whose parameters file is named README.md stops. */
  lemma ReadmeNameStops(hash: Hash, files: Files, y: Inputs, x: Inputs, mid: Step)
    requires mid == Publish(hash, files, y) && mid.stop.None? && ParametersPath(x) == ReadmeFile
    ensures Publish(hash, mid.files, x).stop.Some?
  {
    var entries := NewEntries(files, y.record);
    OneRun(hash, files, y, entries, mid);
    ReadmeInTheWay(entries, files, mid.files, y, x);
    WhenPublished(hash, mid.files, x);
  }

  lemma JekyllInTheWay(entries: seq<Entry>, files: Files, mid: Files, y: Inputs, x: Inputs)
    requires ParametersPath(x) == NoJekyll && x.parameters.bytes != []
    requires NoJekyll !in files && ParametersPath(y) != NoJekyll
    requires Lookup(mid, NoJekyll) == After(entries, files, y, NoJekyll)
    ensures !Fits(mid, x)
  {
    assert !Agrees(mid, x, NoJekyll);
  }

  /** After a run has touched `.nojekyll`, a run stops that would copy a file with content there. */
  lemma JekyllNameStops(hash: Hash, files: Files, y: Inputs, x: Inputs, mid: Step)
    requires mid == Publish(hash, files, y) && mid.stop.None?
    requires ParametersPath(x) == NoJekyll && x.parameters.bytes != []
    requires NoJekyll !in files && ParametersPath(y) != NoJekyll
    ensures Publish(hash, mid.files, x).stop.Some?
  {
    var entries := NewEntries(files, y.record);
    OneRun(hash, files, y, entries, mid);
    JekyllInTheWay(entries, files, mid.files, y, x);
    WhenPublished(hash, mid.files, x);
  }

  lemma TwoRuns(hash: Hash, files: Files, y: Inputs, x: Inputs)
    ensures AllPublished(hash, files, [y, x])
       <==> Publish(hash, files, y).stop.None? && Publish(hash, Publish(hash, files, y).files, x).stop.None?
  {
    assert [y, x][1..] == [x];
    var mid := Publish(hash, files, y).files;
    assert AllPublished(hash, Publish(hash, mid, x).files, []);
    assert AllPublished(hash, mid, [x]) <==> Publish(hash, mid, x).stop.None?;
  }

  /** A badly named parameters file makes some order of two publications stop. */
  lemma BadOrder(hash: Hash, files: Files, jobs: seq<Inputs>)
    requires !WellNamed(files, jobs)
    ensures exists y, x :: y in jobs && x in jobs && !AllPublished(hash, files, [y, x])
  {
    var x :| x in jobs && !(ParametersPath(x) != ReadmeFile && JekyllFits(files, jobs, x));
    var y := x;
    if ParametersPath(x) == ReadmeFile {
      if Publish(hash, files, y).stop.None? { ReadmeNameStops(hash, files, y, x, Publish(hash, files, y)); }
    } else {
      y :| y in jobs && ParametersPath(y) != NoJekyll;
      if Publish(hash, files, y).stop.None? { JekyllNameStops(hash, files, y, x, Publish(hash, files, y)); }
    }
    TwoRuns(hash, files, y, x);
  }

  /**
   When one order of publications completes, every other order and repetition completes if and only
   if no contract parameters file is named README.md, and every one named .nojekyll is empty, or
   meets a .nojekyll already in the store, or has that name in common with all the others.
   */
  lemma EveryOrderExactly(hash: Hash, files: Files, jobs: seq<Inputs>)
    requires jobs != [] && AllPublished(hash, files, jobs)
    ensures EveryOrderPublishes(hash, files, jobs) <==> WellNamed(files, jobs)
  {
    if WellNamed(files, jobs) {
      forall b: seq<Inputs> | forall x :: x in b ==> x in jobs ensures AllPublished(hash, files, b) {
        WellNamedPublishes(hash, files, jobs, b);
      }
    } else {
      BadOrder(hash, files, jobs);
      var y, x :| y in jobs && x in jobs && !AllPublished(hash, files, [y, x]);
      var b := [y, x];
      assert forall z :: z in b ==> z in jobs;
    }
  }
}
