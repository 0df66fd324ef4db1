/** The batch runner: server processes, containers and the merge, with every way a call can throw. */
module SuiteRunner {
  import opened Sequences
  import opened Options
  import opened Json
  import opened SuiteActions

  /** One entry of `case_batches`; `prepared` is whether writing its files worked, `report` what was read. */
  datatype Batch = Batch(prepared: bool, script: nat -> Attempt, report: Option<Value>)

  datatype SuiteRan = SuiteRan(actions: seq<Action>, next: ProcessId, report: Option<map<string, Value>>)

  function EntriesOf(b: Batch): Option<map<string, Value>> {
    if b.report.None? then None else AgentEntries(b.report.value)
  }

  /** Batch after batch, until one throws. */
  function RunSuite(id: ProcessId, batches: seq<Batch>, combined: map<string, Value>): SuiteRan
    decreases |batches|
  {
    if batches == [] then SuiteRan([], id, Some(combined))
    else if !batches[0].prepared then SuiteRan([], id, None)
    else
      var ran := RunAttempts(id, batches[0].script, 1);
      if ran.verdict != Done || EntriesOf(batches[0]).None? then SuiteRan(ran.actions, ran.next, None)
      else
        var merged := MergeReport(combined, EntriesOf(batches[0]).value, PROTO);
        if merged.None? then SuiteRan(ran.actions, ran.next, None)
        else
          var more := RunSuite(ran.next, batches[1..], merged.value);
          SuiteRan(ran.actions + more.actions, more.next, more.report)
  }

  /** Over all batches and every success, failure and exception: never two servers, none left at the end. */
  lemma {:induction false} SuiteIsSafe(id: ProcessId, batches: seq<Batch>, combined: map<string, Value>)
    ensures var t := RunSuite(id, batches, combined).actions; Safe(t) && Live(t) == {}
    decreases |batches|
  {
    NothingRuns();
    if batches != [] && batches[0].prepared {
      var ran := RunAttempts(id, batches[0].script, 1);
      AttemptsAreSafe(id, batches[0].script, 1);
      var entries := EntriesOf(batches[0]);
      if entries.Some? && ran.verdict == Done && MergeReport(combined, entries.value, PROTO).Some? {
        var merged := MergeReport(combined, entries.value, PROTO).value;
        SuiteIsSafe(ran.next, batches[1..], merged);
        SafeAppend(ran.actions, RunSuite(ran.next, batches[1..], merged).actions);
      }
    }
  }

  lemma {:induction false} VerdictIgnoresIds(id: ProcessId, other: ProcessId, script: nat -> Attempt, attempt: nat)
    requires 1 <= attempt <= MAXIMUM_ATTEMPTS
    ensures RunAttempts(id, script, attempt).verdict == RunAttempts(other, script, attempt).verdict
    decreases MAXIMUM_ATTEMPTS - attempt
  {
    var a := script(attempt);
    if AttemptVerdict(a, attempt) == Retry {
      VerdictIgnoresIds(if Starts(a, attempt) then id + 1 else id,
                        if Starts(a, attempt) then other + 1 else other, script, attempt + 1);
    }
  }

  /** Everything but the merge went well in this batch. */
  predicate BatchDone(b: Batch) {
    b.prepared && RunAttempts(0, b.script, 1).verdict == Done && EntriesOf(b).Some?
  }

  function EntriesOrNone(b: Batch): map<string, Value> { if EntriesOf(b).Some? then EntriesOf(b).value else map[] }

  function AllEntries(batches: seq<Batch>): seq<map<string, Value>> {
    if batches == [] then [] else [EntriesOrNone(batches[0])] + AllEntries(batches[1..])
  }

  predicate AllDone(batches: seq<Batch>) { batches == [] || (BatchDone(batches[0]) && AllDone(batches[1..])) }

  /** The suite returns exactly when every batch is done and their reports merge; it returns the merge. */
  lemma {:induction false} SuiteReturnsMerge(id: ProcessId, batches: seq<Batch>, combined: map<string, Value>)
    ensures RunSuite(id, batches, combined).report
         == if AllDone(batches) then MergeAll(combined, AllEntries(batches), PROTO) else None
    decreases |batches|
  {
    if batches != [] {
      var b := batches[0];
      VerdictIgnoresIds(id, 0, b.script, 1);
      if BatchDone(b) {
        var merged := MergeReport(combined, EntriesOf(b).value, PROTO);
        var next := RunAttempts(id, b.script, 1).next;
        assert AllEntries(batches)[0] == EntriesOf(b).value && AllEntries(batches)[1..] == AllEntries(batches[1..]);
        if merged.Some? { SuiteReturnsMerge(next, batches[1..], merged.value); }
      }
    }
  }

  /** A returned report is the disjoint union of the batch reports, apart from a key `__proto__`. */
  lemma ReportIsDisjointUnion(id: ProcessId, batches: seq<Batch>, proto: string)
    requires RunSuite(id, batches, map[]).report.Some? && proto == "__proto__"
    ensures AllDone(batches) && PairwiseApart(AllEntries(batches), proto)
      && IsUnion(RunSuite(id, batches, map[]).report.value, map[], AllEntries(batches), proto)
  {
    SuiteReturnsMerge(id, batches, map[]);
    MergeIsDisjointUnion(map[], AllEntries(batches), PROTO);
  }

  // ----- The runner itself -----

  lemma AttemptsStep(before: seq<Action>, after: seq<Action>, id: ProcessId, next: ProcessId,
                     script: nat -> Attempt, attempt: nat)
    requires 1 <= attempt < MAXIMUM_ATTEMPTS && AttemptVerdict(script(attempt), attempt) == Retry
    requires after == before + AttemptActions(id, script(attempt), attempt)
    requires next == if Starts(script(attempt), attempt) then id + 1 else id
    ensures var ran, more := RunAttempts(id, script, attempt), RunAttempts(next, script, attempt + 1);
      before + ran.actions == after + more.actions && ran.next == more.next && ran.verdict == more.verdict
  {
    var more := RunAttempts(next, script, attempt + 1);
    Reassociate(before, AttemptActions(id, script(attempt), attempt), more.actions);
  }

  lemma ActionsInOrder(start: seq<Action>, before: seq<Action>, id: ProcessId, a: Attempt, attempt: nat)
    requires Starts(a, attempt)
    requires before == start + [Started(id)] + (if a.exits.BeforeContainer? then [Exited(id)] else [])
                       + (if a.ready && a.container then [ContainerRun(id)] else [])
    ensures before + (if a.exits.AfterContainer? then [Exited(id)]
                      else if a.exits.WhenStopped? then StopActions(id, a.stopping) else [])
         == start + AttemptActions(id, a, attempt)
  {
  }

  lemma AttemptsEnd(id: ProcessId, script: nat -> Attempt, attempt: nat)
    requires 1 <= attempt <= MAXIMUM_ATTEMPTS && AttemptVerdict(script(attempt), attempt) != Retry
    ensures RunAttempts(id, script, attempt)
         == Ran(AttemptActions(id, script(attempt), attempt),
                if Starts(script(attempt), attempt) then id + 1 else id, AttemptVerdict(script(attempt), attempt))
  {
  }

  lemma SuiteStep(before: seq<Action>, id: ProcessId, batches: seq<Batch>, combined: map<string, Value>,
                  merged: map<string, Value>)
    requires batches != [] && batches[0].prepared && EntriesOf(batches[0]).Some?
    requires RunAttempts(id, batches[0].script, 1).verdict == Done
    requires MergeReport(combined, EntriesOf(batches[0]).value, PROTO) == Some(merged)
    ensures var suite := RunSuite(id, batches, combined);
      var ran := RunAttempts(id, batches[0].script, 1);
      var more := RunSuite(ran.next, batches[1..], merged);
      before + suite.actions == before + ran.actions + more.actions
      && suite.next == more.next && suite.report == more.report
  {
  }

  class Server {
    const id: ProcessId
    var exited: bool

    constructor (id: ProcessId)
      ensures this.id == id && !exited
    {
      this.id := id;
      exited := false;
    }
  }

  class Runner {
    var trace: seq<Action>
    var next: ProcessId

    method StartServer() returns (server: Server)
      modifies this
      ensures fresh(server) && !server.exited && server.id == old(next)
      ensures trace == old(trace) + [Started(old(next))] && next == old(next) + 1
    {
      server := new Server(next);
      trace := trace + [Started(next)];
      next := next + 1;
    }

    /** The process has exited, and its status has reached the runner. */
    method NoticeExit(server: Server)
      requires !server.exited
      modifies this`trace, server
      ensures server.exited && trace == old(trace) + [Exited(server.id)]
    {
      server.exited := true;
      trace := trace + [Exited(server.id)];
    }

    /** Returns when the server has exited: SIGTERM first, SIGKILL when five seconds did not do. */
    method StopServer(server: Server, how: Stopping)
      modifies this`trace, server
      ensures server.exited
      ensures trace == old(trace) + if old(server.exited) then [] else StopActions(server.id, how)
    {
      if server.exited {
        return;
      }
      if how.terminates {
        trace := trace + [Terminate(server.id)];
      }
      if !how.inTime {
        if how.kills {
          trace := trace + [Kill(server.id)];
        }
      }
      NoticeExit(server);
    }

    method RunAttempt(a: Attempt, attempt: nat) returns (verdict: Verdict)
      modifies this
      ensures trace == old(trace) + AttemptActions(old(next), a, attempt)
      ensures verdict == AttemptVerdict(a, attempt)
      ensures next == if Starts(a, attempt) then old(next) + 1 else old(next)
    {
      if attempt > 1 && !a.resets {
        return Failed;
      }
      if !a.spawns {
        return Failed;
      }
      var server := StartServer();
      if a.exits.BeforeContainer? {
        NoticeExit(server);
      }
      if a.ready && a.container {
        trace := trace + [ContainerRun(server.id)];
      }
      ghost var before := trace;
      if a.exits.AfterContainer? {
        NoticeExit(server);
      }
      StopServer(server, a.stopping);
      ActionsInOrder(old(trace), before, server.id, a, attempt);
      if !a.ready || !a.container {
        return Failed;
      }
      if a.success {
        return Done;
      }
      if a.code != KILLED || attempt == MAXIMUM_ATTEMPTS {
        return Failed;
      }
      verdict := Retry;
    }

    method RunBatch(script: nat -> Attempt) returns (returned: bool)
      modifies this
      ensures var ran := RunAttempts(old(next), script, 1);
        trace == old(trace) + ran.actions && next == ran.next && (returned <==> ran.verdict == Done)
    {
      var attempt := 1;
      ghost var whole := RunAttempts(next, script, 1);
      ghost var rest := whole;
      while attempt <= MAXIMUM_ATTEMPTS
        invariant 1 <= attempt <= MAXIMUM_ATTEMPTS
        invariant rest == RunAttempts(next, script, attempt)
        invariant old(trace) + whole.actions == trace + rest.actions
        invariant whole.next == rest.next && whole.verdict == rest.verdict
        decreases MAXIMUM_ATTEMPTS - attempt
      {
        ghost var before, id := trace, next;
        var verdict := RunAttempt(script(attempt), attempt);
        if verdict != Retry {
          assert trace == before + rest.actions && next == rest.next && verdict == rest.verdict by {
            AttemptsEnd(id, script, attempt);
          }
          return verdict == Done;
        }
        ghost var more := RunAttempts(next, script, attempt + 1);
        AttemptsStep(before, trace, id, next, script, attempt);
        rest := more;
        attempt := attempt + 1;
      }
      returned := false;
    }

    /** The entries of one report, in any order; `None` when a case repeats. */
    static method AddEntries(combined: map<string, Value>, entries: map<string, Value>)
      returns (r: Option<map<string, Value>>)
      ensures r == MergeReport(combined, entries, PROTO)
    {
      var result := combined;
      var left := entries.Keys;
      while left != {}
        invariant left <= entries.Keys
        invariant forall id :: id in entries && id !in left ==> id !in combined
        invariant result == combined + (map id | id in entries && id !in left && id != PROTO :: entries[id])
        decreases left
      {
        var id :| id in left;
        if id in result {
          assert id in combined;
          return None;
        }
        result := Assigned(result, id, entries[id], PROTO);
        left := left - {id};
      }
      assert (map id | id in entries && id !in left && id != PROTO :: entries[id]) == entries - {PROTO};
      r := Some(result);
    }

    method RunTestsuite(batches: seq<Batch>, written: bool) returns (r: Option<map<string, Value>>)
      modifies this
      ensures var ran := RunSuite(old(next), batches, map[]);
        trace == old(trace) + ran.actions && next == ran.next && r == if written then ran.report else None
      ensures Safe(old(trace)) && Live(old(trace)) == {} ==> Safe(trace) && Live(trace) == {}
    {
      ghost var suite := RunSuite(next, batches, map[]);
      assert Safe(trace) && Live(trace) == {} ==> Safe(trace + suite.actions) && Live(trace + suite.actions) == {} by {
        SuiteIsSafe(next, batches, map[]);
        if Safe(trace) && Live(trace) == {} { SafeAppend(trace, suite.actions); }
      }
      r := RunBatches(batches);
      if !written {
        r := None;
      }
    }

    method RunBatches(batches: seq<Batch>) returns (r: Option<map<string, Value>>)
      modifies this
      ensures var ran := RunSuite(old(next), batches, map[]);
        trace == old(trace) + ran.actions && next == ran.next && r == ran.report
    {
      ghost var suite := RunSuite(next, batches, map[]);
      var combined: map<string, Value> := map[];
      assert batches[0..] == batches;
      for i := 0 to |batches|
        invariant old(trace) + suite.actions == trace + RunSuite(next, batches[i..], combined).actions
        invariant suite.next == RunSuite(next, batches[i..], combined).next
        invariant suite.report == RunSuite(next, batches[i..], combined).report
      {
        var b := batches[i];
        ghost var before, id := trace, next;
        assert batches[i..][0] == b && batches[i..][1..] == batches[i + 1..];
        if !b.prepared {
          return None;
        }
        var returned := RunBatch(b.script);
        if !returned || EntriesOf(b).None? {
          return None;
        }
        var merged := AddEntries(combined, EntriesOf(b).value);
        if merged.None? {
          return None;
        }
        SuiteStep(before, id, batches[i..], combined, merged.value);
        combined := merged.value;
      }
      r := Some(combined);
    }
  }
}
