/**
 What a run of the Autobahn suite does to processes, as a list of actions, for every way the
 environment can answer; and the merge of the batch reports.
 */
module SuiteActions {
  import opened Options
  import opened Json
  import Decimal

  type ProcessId = nat

  datatype Action =
    | Started(id: ProcessId)
    | Terminate(id: ProcessId) // SIGTERM
    | Kill(id: ProcessId) // SIGKILL
    | Exited(id: ProcessId)
    | ContainerRun(id: ProcessId)

  /** When a server process exits: on its own, or not before it is being stopped. */
  datatype Moment = BeforeContainer | AfterContainer | WhenStopped

  /**
   How stopping goes, once the test of the status found none: whether each signal gets delivered
   (its call throws if the process is gone by then, or for any other reason), and whether the
   process exits, by the signal or on its own, within five seconds.
   */
  datatype Stopping = Stopping(terminates: bool, inTime: bool, kills: bool)

  /** How the environment answers one attempt; a `false` in the first four makes a call throw. */
  datatype Attempt = Attempt(
    resets: bool, // reset_directory before a retry
    spawns: bool, // the server process
    ready: bool, // wait_for_server
    container: bool, // spawning docker and awaiting its status
    exits: Moment, // as the runner notices it
    stopping: Stopping,
    success: bool, // docker's status
    code: int)

  datatype Verdict = Done | Retry | Failed

  const MAXIMUM_ATTEMPTS: nat := 2
  const KILLED: int := 137

  predicate Starts(a: Attempt, attempt: nat) { (attempt > 1 ==> a.resets) && a.spawns }

  function StopActions(id: ProcessId, how: Stopping): seq<Action> {
    (if how.terminates then [Terminate(id)] else [])
    + (if !how.inTime && how.kills then [Kill(id)] else []) + [Exited(id)]
  }

  function AttemptActions(id: ProcessId, a: Attempt, attempt: nat): seq<Action> {
    if !Starts(a, attempt) then []
    else
      [Started(id)] + (if a.exits.BeforeContainer? then [Exited(id)] else [])
      + (if a.ready && a.container then [ContainerRun(id)] else [])
      + (if a.exits.AfterContainer? then [Exited(id)]
         else if a.exits.WhenStopped? then StopActions(id, a.stopping) else [])
  }

  function AttemptVerdict(a: Attempt, attempt: nat): Verdict {
    if !Starts(a, attempt) || !a.ready || !a.container then Failed
    else if a.success then Done
    else if a.code != KILLED || attempt == MAXIMUM_ATTEMPTS then Failed
    else Retry
  }

  /** `script(n)` answers attempt `n`. */
  datatype Ran = Ran(actions: seq<Action>, next: ProcessId, verdict: Verdict)

  function RunAttempts(id: ProcessId, script: nat -> Attempt, attempt: nat): Ran
    requires 1 <= attempt <= MAXIMUM_ATTEMPTS
    decreases MAXIMUM_ATTEMPTS - attempt, id
  {
    var a := script(attempt);
    var actions := AttemptActions(id, a, attempt);
    var next := if Starts(a, attempt) then id + 1 else id;
    if AttemptVerdict(a, attempt) != Retry then Ran(actions, next, AttemptVerdict(a, attempt))
    else
      var more := RunAttempts(next, script, attempt + 1);
      Ran(actions + more.actions, more.next, more.verdict)
  }

  // ----- Safety -----

  /** The server processes alive after these actions. */
  function Live(trace: seq<Action>): set<ProcessId> {
    if trace == [] then {} else Next(Live(trace[..|trace| - 1]), trace[|trace| - 1])
  }

  function Next(alive: set<ProcessId>, x: Action): set<ProcessId> {
    if x.Started? then alive + {x.id} else if x.Exited? then alive - {x.id} else alive
  }

  /** At no moment is more than one server alive. */
  ghost predicate Safe(trace: seq<Action>) { forall n :: 0 <= n <= |trace| ==> |Live(trace[..n])| <= 1 }

  lemma {:induction false} LiveAppend(a: seq<Action>, b: seq<Action>)
    requires Live(a) == {}
    ensures Live(a + b) == Live(b)
    decreases |b|
  {
    if b == [] {
      assert a + b == a;
    } else {
      LiveAppend(a, b[..|b| - 1]);
      assert (a + b)[..|a + b| - 1] == a + b[..|b| - 1];
    }
  }

  /** Safe parts that leave nothing alive make a safe whole that leaves nothing alive. */
  lemma SafeAppend(a: seq<Action>, b: seq<Action>)
    requires Safe(a) && Safe(b) && Live(a) == {} && Live(b) == {}
    ensures Safe(a + b) && Live(a + b) == {}
  {
    forall n | 0 <= n <= |a + b| ensures |Live((a + b)[..n])| <= 1 {
      if n <= |a| {
        assert (a + b)[..n] == a[..n];
      } else {
        assert (a + b)[..n] == a + b[..n - |a|];
        LiveAppend(a, b[..n - |a|]);
      }
    }
    LiveAppend(a, b);
  }

  lemma LiveStep(trace: seq<Action>, x: Action)
    ensures Live(trace + [x]) == Next(Live(trace), x)
  {
    assert (trace + [x])[..|trace|] == trace;
  }

  lemma SafeStep(trace: seq<Action>, x: Action)
    requires Safe(trace) && |Live(trace + [x])| <= 1
    ensures Safe(trace + [x])
  {
    forall n | 0 <= n <= |trace + [x]| ensures |Live((trace + [x])[..n])| <= 1 {
      if n <= |trace| {
        assert (trace + [x])[..n] == trace[..n];
      } else {
        assert (trace + [x])[..n] == trace + [x];
      }
    }
  }

  /** Appending an action about process `id` to a trace in which at most that process is alive. */
  lemma OneProcess(trace: seq<Action>, id: ProcessId, x: Action)
    requires Safe(trace) && Live(trace) <= {id} && x.id == id
    ensures Safe(trace + [x]) && Live(trace + [x]) <= {id}
    ensures x.Exited? ==> Live(trace + [x]) == {}
    ensures x.Kill? || x.Terminate? || x.ContainerRun? ==> Live(trace + [x]) == Live(trace)
  {
    LiveStep(trace, x);
    assert {id} - {id} == {};
    AtMostOne(Live(trace + [x]), id);
    SafeStep(trace, x);
  }

  lemma AtMostOne(s: set<ProcessId>, id: ProcessId)
    requires s <= {id}
    ensures |s| <= 1
  {
    if id in s { assert s == {id}; } else { assert s == {}; }
  }

  lemma NothingRuns()
    ensures Live([]) == {} && Safe([])
  {
    forall n | 0 <= n <= 0 ensures |Live([][..n])| <= 1 {
    }
  }

  lemma LastApart(trace: seq<Action>, tail: seq<Action>)
    requires tail != []
    ensures trace + tail == trace + tail[..|tail| - 1] + [tail[|tail| - 1]]
  {
  }

  /** Appending `tail`, all about process `id`, of which the last one says that it exited. */
  lemma {:induction false} TailIsSafe(trace: seq<Action>, id: ProcessId, tail: seq<Action>)
    requires Safe(trace) && Live(trace) <= {id} && forall i :: 0 <= i < |tail| ==> tail[i].id == id
    ensures Safe(trace + tail) && Live(trace + tail) <= {id}
    ensures tail != [] && tail[|tail| - 1].Exited? ==> Live(trace + tail) == {}
    ensures Live(trace) == {} && (forall i :: 0 <= i < |tail| ==> !tail[i].Started?) ==> Live(trace + tail) == {}
    decreases |tail|
  {
    if tail == [] {
      assert trace + tail == trace;
    } else {
      var front := tail[..|tail| - 1];
      TailIsSafe(trace, id, front);
      OneProcess(trace + front, id, tail[|tail| - 1]);
      LastApart(trace, tail);
    }
  }

  lemma LaterIsSafe(id: ProcessId, ran: seq<Action>, stop: seq<Action>)
    requires (forall i :: 0 <= i < |ran| ==> ran[i].id == id) && (forall i :: 0 <= i < |stop| ==> stop[i].id == id)
    requires stop != [] && stop[|stop| - 1].Exited?
    ensures var t := [Started(id)] + [] + ran + stop; Safe(t) && Live(t) == {}
  {
    var t := [Started(id)] + [] + ran + stop;
    NothingRuns();
    TailIsSafe([], id, t);
    assert [] + t == t;
  }

  lemma ExitedIsSafe(id: ProcessId, ran: seq<Action>)
    requires ran == [] || ran == [ContainerRun(id)]
    ensures var t := [Started(id)] + [Exited(id)] + ran + []; Safe(t) && Live(t) == {}
  {
    var head := [Started(id)] + [Exited(id)];
    NothingRuns();
    TailIsSafe([], id, head);
    assert [] + head == head;
    TailIsSafe(head, id, ran);
    assert head + ran + [] == head + ran;
  }

  /** One attempt, whatever throws: never two servers, and none left. */
  lemma AttemptIsSafe(id: ProcessId, a: Attempt, attempt: nat)
    ensures var t := AttemptActions(id, a, attempt); Safe(t) && Live(t) == {}
  {
    NothingRuns();
    if Starts(a, attempt) {
      var ran := if a.ready && a.container then [ContainerRun(id)] else [];
      match a.exits
      case BeforeContainer => ExitedIsSafe(id, ran);
      case AfterContainer => LaterIsSafe(id, ran, [Exited(id)]);
      case WhenStopped => LaterIsSafe(id, ran, StopActions(id, a.stopping));
    }
  }

  /** One batch: safe, nothing left alive. */
  lemma {:induction false} AttemptsAreSafe(id: ProcessId, script: nat -> Attempt, attempt: nat)
    requires 1 <= attempt <= MAXIMUM_ATTEMPTS
    ensures var t := RunAttempts(id, script, attempt).actions; Safe(t) && Live(t) == {}
    decreases MAXIMUM_ATTEMPTS - attempt
  {
    var a := script(attempt);
    AttemptIsSafe(id, a, attempt);
    if AttemptVerdict(a, attempt) == Retry {
      var next := if Starts(a, attempt) then id + 1 else id;
      AttemptsAreSafe(next, script, attempt + 1);
      SafeAppend(AttemptActions(id, a, attempt), RunAttempts(next, script, attempt + 1).actions);
    }
  }

  // ----- How a server is stopped -----

  /** Which signals a server gets that has not exited, and in which order. */
  ghost predicate IsStopping(t: seq<Action>, id: ProcessId, how: Stopping) {
    && t != [] && t[|t| - 1] == Exited(id)
    && (Terminate(id) in t <==> how.terminates)
    && (Kill(id) in t <==> how.kills && !how.inTime)
    && (forall i, j :: 0 <= i < j < |t| ==> t[i] != Exited(id) && (t[i] != Kill(id) || t[j] != Terminate(id)))
    && (forall x :: x in t ==> x in {Terminate(id), Kill(id), Exited(id)})
  }

  /** SIGTERM first, SIGKILL only when five seconds did not do, and nothing behind the exit. */
  lemma StoppedGently(id: ProcessId, how: Stopping)
    ensures IsStopping(StopActions(id, how), id, how)
  {
    var t := StopActions(id, how);
    if how.terminates {
      if !how.inTime && how.kills {
        assert t == [Terminate(id), Kill(id), Exited(id)];
      } else {
        assert t == [Terminate(id), Exited(id)];
      }
    } else if !how.inTime && how.kills {
      assert t == [Kill(id), Exited(id)];
    } else {
      assert t == [Exited(id)];
    }
  }

  /** An attempt starts its server first, runs the container exactly when it is ready, and stops it last. */
  lemma AttemptInOrder(id: ProcessId, a: Attempt, attempt: nat)
    requires a.spawns && (attempt > 1 ==> a.resets)
    ensures var t := AttemptActions(id, a, attempt);
      t != [] && t[0] == Started(id) && (ContainerRun(id) in t <==> a.ready && a.container)
      && (a.exits.WhenStopped? ==>
            exists ran :: t == [Started(id)] + ran + StopActions(id, a.stopping)
              && ran == if a.ready && a.container then [ContainerRun(id)] else [])
  {
    var t := AttemptActions(id, a, attempt);
    var ran := if a.ready && a.container then [ContainerRun(id)] else [];
    if a.exits.WhenStopped? { assert t == [Started(id)] + ran + StopActions(id, a.stopping); }
  }

  function StartsIn(trace: seq<Action>): nat {
    if trace == [] then 0 else (if trace[0].Started? then 1 else 0) + StartsIn(trace[1..])
  }

  lemma {:induction false} StartsInAppend(a: seq<Action>, b: seq<Action>)
    ensures StartsIn(a + b) == StartsIn(a) + StartsIn(b)
    decreases |a|
  {
    if a == [] {
      assert a + b == b;
    } else {
      assert (a + b)[1..] == a[1..] + b;
      StartsInAppend(a[1..], b);
    }
  }

  lemma {:induction false} NoStarts(t: seq<Action>)
    requires forall i :: 0 <= i < |t| ==> !t[i].Started?
    ensures StartsIn(t) == 0
    decreases |t|
  {
    if t != [] { NoStarts(t[1..]); }
  }

  lemma StartsOfAttempt(id: ProcessId, a: Attempt, attempt: nat)
    ensures StartsIn(AttemptActions(id, a, attempt)) == if Starts(a, attempt) then 1 else 0
  {
    if Starts(a, attempt) {
      var t := AttemptActions(id, a, attempt);
      NoStarts(t[1..]);
    }
  }

  /**
   A batch starts at most two servers, and a second one only after the container of the first ran
   and was killed with exit code 137.
   */
  lemma RetryOnlyAfterKill(id: ProcessId, script: nat -> Attempt)
    ensures var n := StartsIn(RunAttempts(id, script, 1).actions);
      n <= 2 &&
      (n == 2 <==> script(1).spawns && WasKilled(script(1)) && script(2).resets && script(2).spawns)
  {
    var a := script(1);
    StartsOfAttempt(id, a, 1);
    if AttemptVerdict(a, 1) == Retry {
      var more := RunAttempts(id + 1, script, 2);
      StartsOfAttempt(id + 1, script(2), 2);
      StartsInAppend(AttemptActions(id, a, 1), more.actions);
      assert more.actions == AttemptActions(id + 1, script(2), 2);
    }
  }

  /** Docker ran in this attempt and was killed. */
  predicate WasKilled(a: Attempt) { a.ready && a.container && !a.success && a.code == 137 }

  predicate Succeeds(a: Attempt) { a.ready && a.container && a.success }

  /**
   A batch is done exactly when its first attempt succeeds, or is killed and the second one succeeds;
   a batch that is not done has failed, so no third attempt is ever due.
   */
  lemma BatchIsDoneExactly(id: ProcessId, script: nat -> Attempt)
    ensures var verdict := RunAttempts(id, script, 1).verdict;
      (verdict == Done <==>
         script(1).spawns
         && (Succeeds(script(1))
             || (WasKilled(script(1)) && script(2).resets && script(2).spawns && Succeeds(script(2)))))
      && (verdict == Done || verdict == Failed)
  {
    if AttemptVerdict(script(1), 1) == Retry {
      assert RunAttempts(id, script, 1).verdict == RunAttempts(id + 1, script, 2).verdict;
      assert AttemptVerdict(script(2), 2) != Retry;
    }
  }

  // ----- Merging the reports -----

  const AGENT := "uWebZockets"
  const PROTO := "__proto__"

  function IndexEntries(items: seq<Value>, n: nat): map<string, Value>
    requires n <= |items|
  {
    if n == 0 then map[] else IndexEntries(items, n - 1)[Decimal.Digits(n - 1) := items[n - 1]]
  }

  /** `Object.entries` of the agent's report; `None` when that is no object. */
  function AgentEntries(report: Value): Option<map<string, Value>> {
    match Property(report, AGENT)
    case Record(fields) => Some(fields)
    case List(items) => Some(IndexEntries(items, |items|))
    case _ => None
  }

  /** The entries of an array: its items under their printed positions. */
  ghost predicate AreItems(entries: map<string, Value>, items: seq<Value>, n: nat)
    requires n <= |items|
  {
    && (forall k: nat :: k < n ==> HasItem(entries, k, items[k]))
    && forall id :: id in entries ==> exists k: nat :: k < n && Decimal.Digits(k) == id
  }

  predicate HasItem(entries: map<string, Value>, k: nat, v: Value) {
    Decimal.Digits(k) in entries && entries[Decimal.Digits(k)] == v
  }

  lemma {:induction false} IndexEntriesAre(items: seq<Value>, n: nat)
    requires n <= |items|
    ensures AreItems(IndexEntries(items, n), items, n)
    decreases n
  {
    if n > 0 {
      IndexEntriesAre(items, n - 1);
      AddItem(IndexEntries(items, n - 1), items, n - 1);
    }
  }

  lemma AddItem(entries: map<string, Value>, items: seq<Value>, n: nat)
    requires n < |items| && AreItems(entries, items, n)
    ensures AreItems(entries[Decimal.Digits(n) := items[n]], items, n + 1)
  {
    var more := entries[Decimal.Digits(n) := items[n]];
    forall k: nat | k < n + 1 ensures HasItem(more, k, items[k]) {
      if k < n {
        assert HasItem(entries, k, items[k]);
        Decimal.ValueOfDigits(k);
        Decimal.ValueOfDigits(n);
      }
    }
    forall id | id in more ensures exists k: nat :: k < n + 1 && Decimal.Digits(k) == id {
      if id in entries {
        var k: nat :| k < n && Decimal.Digits(k) == id;
      }
    }
  }

  /** What the report says under "uWebZockets": the properties of an object, or the items of an array. */
  lemma AgentEntriesExactly(report: Value, name: string)
    requires name == "uWebZockets"
    ensures var v := if report.Record? && name in report.fields then report.fields[name] else Undefined;
      match v
      case Record(fields) => AgentEntries(report) == Some(fields)
      case List(items) => AgentEntries(report).Some? && AreItems(AgentEntries(report).value, items, |items|)
      case _ => AgentEntries(report).None?
  {
    var v := Property(report, AGENT);
    if v.List? { IndexEntriesAre(v.items, |v.items|); }
  }

  /** Assigning to `proto`, which is `__proto__`, sets a prototype: it adds no property. */
  function Assigned(combined: map<string, Value>, id: string, v: Value, proto: string): map<string, Value> {
    if id == proto then combined else combined[id := v]
  }

  /** `None` stands for the Error of a repeated case. */
  function MergeReport(combined: map<string, Value>, entries: map<string, Value>, proto: string)
    : Option<map<string, Value>>
  {
    if exists id :: id in entries && id in combined then None else Some(combined + (entries - {proto}))
  }

  function MergeAll(combined: map<string, Value>, reports: seq<map<string, Value>>, proto: string)
    : Option<map<string, Value>>
    decreases |reports|
  {
    if reports == [] then Some(combined)
    else
      var r := MergeReport(combined, reports[0], proto);
      if r.None? then None else MergeAll(r.value, reports[1..], proto)
  }

  ghost predicate Apart(a: map<string, Value>, b: map<string, Value>, proto: string) {
    forall id :: id in a && id in b ==> id == proto
  }

  ghost predicate PairwiseApart(reports: seq<map<string, Value>>, proto: string) {
    forall i, j :: 0 <= i < j < |reports| ==> Apart(reports[i], reports[j], proto)
  }

  /** `whole` holds exactly the entries of the parts, except for `__proto__`. */
  ghost predicate IsUnion(whole: map<string, Value>, start: map<string, Value>, parts: seq<map<string, Value>>,
                          proto: string)
  {
    && (forall id :: id in start ==> id in whole && whole[id] == start[id])
    && (forall i, id :: 0 <= i < |parts| && id in parts[i] && id != proto ==> id in whole && whole[id] == parts[i][id])
    && (forall id :: id in whole ==> id in start || exists i :: 0 <= i < |parts| && id in parts[i] && id != proto)
  }

  ghost predicate AllApart(start: map<string, Value>, reports: seq<map<string, Value>>, proto: string) {
    PairwiseApart(reports, proto) && forall i :: 0 <= i < |reports| ==> Apart(start, reports[i], proto)
  }

  lemma ApartStep(start: map<string, Value>, reports: seq<map<string, Value>>, merged: map<string, Value>,
                  proto: string)
    requires reports != [] && proto !in start && MergeReport(start, reports[0], proto) == Some(merged)
    ensures AllApart(start, reports, proto) <==> AllApart(merged, reports[1..], proto)
    ensures proto !in merged
  {
    var rest := reports[1..];
    if AllApart(merged, rest, proto) {
      forall i, j | 0 <= i < j < |reports| ensures Apart(reports[i], reports[j], proto) {
        assert reports[j] == rest[j - 1];
        if i > 0 { assert reports[i] == rest[i - 1]; } else { assert Apart(merged, rest[j - 1], proto); }
      }
      forall i | 0 <= i < |reports| ensures Apart(start, reports[i], proto) {
        if i > 0 { assert Apart(merged, rest[i - 1], proto); }
      }
    }
    if AllApart(start, reports, proto) {
      forall i | 0 <= i < |rest| ensures Apart(merged, rest[i], proto) {
        assert rest[i] == reports[i + 1];
        assert Apart(start, reports[i + 1], proto) && Apart(reports[0], reports[i + 1], proto);
      }
      forall i, j | 0 <= i < j < |rest| ensures Apart(rest[i], rest[j], proto) {
        assert Apart(reports[i + 1], reports[j + 1], proto);
      }
    }
  }

  /**
   The merge succeeds exactly when no two reports share a case (other than `__proto__`), and then it
   is their union without `__proto__`.
   */
  lemma {:induction false} MergeIsDisjointUnion(start: map<string, Value>, reports: seq<map<string, Value>>,
                                                proto: string)
    requires proto !in start
    ensures var r := MergeAll(start, reports, proto);
      (r.Some? <==> AllApart(start, reports, proto))
      && (r.Some? ==> IsUnion(r.value, start, reports, proto) && proto !in r.value)
    decreases |reports|
  {
    if reports != [] {
      var merged := MergeReport(start, reports[0], proto);
      if merged.None? {
        assert !Apart(start, reports[0], proto);
      } else {
        ApartStep(start, reports, merged.value, proto);
        MergeIsDisjointUnion(merged.value, reports[1..], proto);
        var r := MergeAll(start, reports, proto);
        if r.Some? { UnionStep(r.value, start, reports, merged.value, proto); }
      }
    }
  }

  lemma UnionStep(whole: map<string, Value>, start: map<string, Value>, reports: seq<map<string, Value>>,
                  merged: map<string, Value>, proto: string)
    requires reports != [] && MergeReport(start, reports[0], proto) == Some(merged)
    requires IsUnion(whole, merged, reports[1..], proto)
    ensures IsUnion(whole, start, reports, proto)
  {
    var rest := reports[1..];
    forall i, id | 0 <= i < |reports| && id in reports[i] && id != proto
      ensures id in whole && whole[id] == reports[i][id]
    {
      if i > 0 { assert rest[i - 1] == reports[i]; } else { assert id in merged && merged[id] == reports[0][id]; }
    }
    forall id | id in whole
      ensures id in start || exists i :: 0 <= i < |reports| && id in reports[i] && id != proto
    {
      if id in merged {
        assert id in start || id in reports[0];
      } else {
        var i :| 0 <= i < |rest| && id in rest[i] && id != proto;
        assert id in reports[i + 1];
      }
    }
  }

  /** Nothing a batch reported is missing from the merge exactly when no report holds `__proto__`. */
  lemma NothingLostExactly(reports: seq<map<string, Value>>, whole: map<string, Value>, proto: string)
    requires MergeAll(map[], reports, proto) == Some(whole)
    ensures (forall i, id :: 0 <= i < |reports| && id in reports[i] ==> id in whole)
       <==> forall i :: 0 <= i < |reports| ==> proto !in reports[i]
  {
    MergedIsUnion(reports, whole, proto);
    forall i, id | 0 <= i < |reports| && id in reports[i] && id != proto ensures id in whole {
      assert whole[id] == reports[i][id];
    }
    NothingLostFrom(whole, reports, proto);
  }

  lemma MergedIsUnion(reports: seq<map<string, Value>>, whole: map<string, Value>, proto: string)
    requires MergeAll(map[], reports, proto) == Some(whole)
    ensures IsUnion(whole, map[], reports, proto) && proto !in whole
  {
    MergeIsDisjointUnion(map[], reports, proto);
  }

  lemma NothingLostFrom(whole: map<string, Value>, reports: seq<map<string, Value>>, proto: string)
    requires proto !in whole
    requires forall i, id :: 0 <= i < |reports| && id in reports[i] && id != proto ==> id in whole
    ensures (forall i, id :: 0 <= i < |reports| && id in reports[i] ==> id in whole)
       <==> forall i :: 0 <= i < |reports| ==> proto !in reports[i]
  {
  }
}
