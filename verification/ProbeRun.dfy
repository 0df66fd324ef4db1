/**
 The acceptance logic of the probe's `run`, and the shell gate that reads its report afterwards.
 Replies come from the environment; what a waiter can be delivered is `Multiplex.Delivery`.
 */
module ProbeRun {
  import opened Bits
  import opened Options
  import opened Multiplex
  import opened RequestHeaders

  datatype Kind = IsResponse | IsHttpError | IsReset | IsTerminated | IsTimeout

  /** `result["outcome"]` */
  function KindOf(d: Delivery): Kind {
    if d.TimedOut? then IsTimeout
    else
      match d.outcome
      case StreamReset(_) => IsReset
      case ConnectionTerminated(_, _) => IsTerminated
      case Response(_, _) => IsResponse
      case HttpError(_, _) => IsHttpError
  }

  /** `result.get("error_code")` */
  function ErrorCodeOf(d: Delivery): Option<int> {
    if d.Answer? && d.outcome.StreamReset? then Some(d.outcome.errorCode)
    else if d.Answer? && d.outcome.ConnectionTerminated? then Some(d.outcome.code)
    else None
  }

  datatype Expectations = Expectations(
    accepted: set<Kind>,
    streamError: int,
    status: int,
    body: seq<byte>,
    digest: string,
    cases: seq<string>,
    hasOversized: bool,
    soak: int)

  datatype Replies = Replies(
    positive: Delivery,
    trailers: Delivery,
    malformed: nat -> Delivery,
    siblings: nat -> Delivery,
    oversized: Delivery,
    oversizedSibling: Delivery,
    soak: nat -> Delivery,
    health: Delivery,
    freshHealth: Delivery)

  datatype Report = Report(
    trailers: Delivery,
    malformed: map<string, Delivery>,
    siblings: map<string, Delivery>,
    oversized: Option<Delivery>,
    oversizedSibling: Option<Delivery>,
    soakRequests: int,
    soakRejected: int,
    health: Delivery,
    freshHealth: Delivery)

  /** `assert_response` returns. */
  predicate IsExpected(d: Delivery, e: Expectations) { d == Answer(Response(e.status, e.body)) }

  predicate IsRejected(d: Delivery, e: Expectations) {
    KindOf(d) in e.accepted && ErrorCodeOf(d) == Some(e.streamError)
  }

  predicate IsResetWith(d: Delivery, code: int) { KindOf(d) == IsReset && ErrorCodeOf(d) == Some(code) }

  /** What `assert_response` insists on: a response of exactly this status and body. */
  lemma ExpectedReply(d: Delivery, e: Expectations)
    ensures IsExpected(d, e)
       <==> d.Answer? && d.outcome.Response? && d.outcome.status == e.status && d.outcome.body == e.body
  {
  }

  /** A termination of the connection with that code. */
  predicate IsTerminationWith(d: Delivery, code: int) {
    d.Answer? && d.outcome.ConnectionTerminated? && d.outcome.code == code
  }

  /**
   Whatever the list of accepted outcomes holds, only a reset or a termination with exactly the
   expected code counts as a rejection: never a timeout, a response or an HTTP error.
   */
  lemma RejectionIsAttributable(d: Delivery, e: Expectations)
    ensures IsRejected(d, e)
       <==> (IsReset in e.accepted && e.streamError >= 0 && d == Answer(StreamReset(e.streamError)))
            || (IsTerminated in e.accepted && IsTerminationWith(d, e.streamError))
    ensures IsResetWith(d, e.streamError) <==> e.streamError >= 0 && d == Answer(StreamReset(e.streamError))
  {
  }

  predicate CaseAsExpected(e: Expectations, r: Replies, i: nat)
    requires i < |e.cases|
  {
    !CaseNamed(e.cases[i]).UnknownCase? && IsRejected(r.malformed(i), e) && IsExpected(r.siblings(i), e)
  }

  /** Every reply is the one `run` insists on. */
  ghost predicate AllAsExpected(e: Expectations, r: Replies, hash: seq<byte> -> string) {
    && IsExpected(r.positive, e) && hash(e.body) == e.digest
    && IsExpected(r.trailers, e)
    && (forall i: nat :: i < |e.cases| ==> CaseAsExpected(e, r, i))
    && (e.hasOversized ==> IsResetWith(r.oversized, e.streamError) && IsExpected(r.oversizedSibling, e))
    && (forall i: nat :: i < e.soak ==> IsRejected(r.soak(i), e))
    && IsExpected(r.health, e) && IsExpected(r.freshHealth, e)
  }

  /** A dictionary filled case by case: the last reply for a case stays. */
  function Filled(cases: seq<string>, n: nat, reply: nat -> Delivery): map<string, Delivery>
    requires n <= |cases|
  {
    if n == 0 then map[] else Filled(cases, n - 1, reply)[cases[n - 1] := reply(n - 1)]
  }

  lemma {:induction false} FilledKeys(cases: seq<string>, n: nat, reply: nat -> Delivery)
    requires n <= |cases|
    ensures forall c :: c in Filled(cases, n, reply) <==> c in cases[..n]
    decreases n
  {
    if n > 0 {
      FilledKeys(cases, n - 1, reply);
      assert cases[..n] == cases[..n - 1] + [cases[n - 1]];
    }
  }

  /** Every entry is the reply to some occurrence of its case. */
  lemma {:induction false} FilledFrom(cases: seq<string>, n: nat, reply: nat -> Delivery, c: string) returns (i: nat)
    requires n <= |cases| && c in Filled(cases, n, reply)
    ensures i < n && cases[i] == c && Filled(cases, n, reply)[c] == reply(i)
    decreases n
  {
    if cases[n - 1] == c {
      i := n - 1;
    } else {
      i := FilledFrom(cases, n - 1, reply, c);
    }
  }

  /** A case listed more than once keeps its last reply. */
  lemma {:induction false} FilledLast(cases: seq<string>, n: nat, reply: nat -> Delivery, i: nat)
    requires i < n <= |cases| && forall j :: i < j < n ==> cases[j] != cases[i]
    ensures cases[i] in Filled(cases, n, reply) && Filled(cases, n, reply)[cases[i]] == reply(i)
    decreases n
  {
    if i < n - 1 { FilledLast(cases, n - 1, reply, i); }
  }

  /** `run`; `None` stands for any exception it raises. */
  method Run(e: Expectations, r: Replies, hash: seq<byte> -> string) returns (report: Option<Report>)
    ensures report.Some? <==> AllAsExpected(e, r, hash)
    ensures report.Some? ==>
      report.value.malformed == Filled(e.cases, |e.cases|, r.malformed)
      && report.value.siblings == Filled(e.cases, |e.cases|, r.siblings)
    ensures report.Some? ==> var v := report.value;
      v.trailers == r.trailers && v.health == r.health && v.freshHealth == r.freshHealth
      && v.oversized == (if e.hasOversized then Some(r.oversized) else None)
      && v.oversizedSibling == (if e.hasOversized then Some(r.oversizedSibling) else None)
      && v.soakRequests == e.soak && v.soakRejected == if e.soak < 0 then 0 else e.soak
  {
    if !IsExpected(r.positive, e) || hash(r.positive.outcome.body) != e.digest || !IsExpected(r.trailers, e) {
      return None;
    }
    var malformed, siblings, asExpected := RunCases(e, r);
    if !asExpected {
      return None;
    }
    if e.hasOversized && (!IsResetWith(r.oversized, e.streamError) || !IsExpected(r.oversizedSibling, e)) {
      return None;
    }
    var rejected, allRejected := RunSoak(e, r);
    if !allRejected || !IsExpected(r.health, e) || !IsExpected(r.freshHealth, e) {
      return None;
    }
    report := Some(Report(r.trailers, malformed, siblings,
      if e.hasOversized then Some(r.oversized) else None,
      if e.hasOversized then Some(r.oversizedSibling) else None, e.soak, rejected, r.health, r.freshHealth));
  }

  method RunCases(e: Expectations, r: Replies)
    returns (malformed: map<string, Delivery>, siblings: map<string, Delivery>, asExpected: bool)
    ensures asExpected <==> forall i: nat :: i < |e.cases| ==> CaseAsExpected(e, r, i)
    ensures asExpected ==> malformed == Filled(e.cases, |e.cases|, r.malformed)
    ensures asExpected ==> siblings == Filled(e.cases, |e.cases|, r.siblings)
  {
    malformed, siblings := map[], map[];
    for i := 0 to |e.cases|
      invariant malformed == Filled(e.cases, i, r.malformed) && siblings == Filled(e.cases, i, r.siblings)
      invariant forall k: nat :: k < i ==> CaseAsExpected(e, r, k)
    {
      malformed := malformed[e.cases[i] := r.malformed(i)];
      siblings := siblings[e.cases[i] := r.siblings(i)];
      if !CaseAsExpected(e, r, i) {
        return malformed, siblings, false;
      }
    }
    asExpected := true;
  }

  method RunSoak(e: Expectations, r: Replies) returns (rejected: nat, allRejected: bool)
    ensures allRejected <==> forall i: nat :: i < e.soak ==> IsRejected(r.soak(i), e)
    ensures allRejected ==> rejected == if e.soak < 0 then 0 else e.soak
  {
    rejected := 0;
    while rejected < e.soak
      invariant rejected <= e.soak || rejected == 0
      invariant forall k: nat :: k < rejected ==> IsRejected(r.soak(k), e)
    {
      if !IsRejected(r.soak(rejected), e) {
        return rejected, false;
      }
      rejected := rejected + 1;
    }
    allRejected := true;
  }

  // ----- The shell gate -----

  predicate IsOk(d: Delivery) { d.Answer? && d.outcome.Response? && d.outcome.status == 200 }

  /** The two jq filters `run.sh` applies to the report; `count` is the number of malformed cases. */
  predicate ShellGate(v: Report, count: nat, streamError: int) {
    && IsOk(v.trailers)
    && |v.malformed| == count && |v.siblings| == count
    && (forall c :: c in v.siblings ==> IsOk(v.siblings[c]))
    && v.oversized.Some? && IsResetWith(v.oversized.value, streamError)
    && v.oversizedSibling.Some? && IsOk(v.oversizedSibling.value)
    && IsOk(v.health)
    && v.soakRequests > 0 && v.soakRejected == v.soakRequests
    && IsOk(v.freshHealth)
  }

  ghost predicate Distinct(s: seq<string>) { forall i, j :: 0 <= i < j < |s| ==> s[i] != s[j] }

  lemma {:induction false} SizeOfSet(s: seq<string>)
    ensures |set c | c in s| <= |s| && (|set c | c in s| == |s| <==> Distinct(s))
    decreases |s|
  {
    if s == [] {
      assert (set c | c in s) == {};
    } else {
      var front, last := s[..|s| - 1], s[|s| - 1];
      SizeOfSet(front);
      assert s == front + [last];
      assert (set c | c in s) == (set c | c in front) + {last};
      if last in front {
        assert (set c | c in s) == (set c | c in front);
        var i :| 0 <= i < |front| && front[i] == last;
        assert s[i] == s[|s| - 1];
      } else {
        assert forall i :: 0 <= i < |front| ==> front[i] == s[i] && front[i] in front;
      }
    }
  }

  lemma FilledSize(cases: seq<string>, reply: nat -> Delivery)
    ensures |Filled(cases, |cases|, reply)| == |cases| <==> Distinct(cases)
  {
    var m := Filled(cases, |cases|, reply);
    FilledKeys(cases, |cases|, reply);
    assert cases[..|cases|] == cases;
    assert m.Keys == set c | c in cases;
    assert |m| == |m.Keys|;
    SizeOfSet(cases);
  }

  /**
   The shell gate adds nothing to a report that `run` returned, exactly when the expectations ask
   for status 200, list no case twice, have an oversized block and a soak.
   */
  lemma ShellGateExactly(e: Expectations, r: Replies, hash: seq<byte> -> string, v: Report)
    requires AllAsExpected(e, r, hash)
    requires v.malformed == Filled(e.cases, |e.cases|, r.malformed)
    requires v.siblings == Filled(e.cases, |e.cases|, r.siblings)
    requires v.trailers == r.trailers && v.health == r.health && v.freshHealth == r.freshHealth
    requires v.oversized == (if e.hasOversized then Some(r.oversized) else None)
    requires v.oversizedSibling == (if e.hasOversized then Some(r.oversizedSibling) else None)
    requires v.soakRequests == e.soak && v.soakRejected == if e.soak < 0 then 0 else e.soak
    ensures ShellGate(v, |e.cases|, e.streamError)
       <==> e.status == 200 && Distinct(e.cases) && e.hasOversized && e.soak > 0
  {
    FilledSize(e.cases, r.malformed);
    FilledSize(e.cases, r.siblings);
    forall c | c in v.siblings ensures IsExpected(v.siblings[c], e) {
      var i := FilledFrom(e.cases, |e.cases|, r.siblings, c);
      assert CaseAsExpected(e, r, i);
    }
  }
}
