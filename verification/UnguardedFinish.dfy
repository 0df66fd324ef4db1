/** The response machine with a `_finish` that does not test `future.done()`: it makes no difference. */
module UnguardedFinish {
  import opened Options
  import opened Multiplex

  function FinishUnguarded(m: Machine, s: StreamId, o: Outcome): Machine {
    if s !in m.open then m else m.(open := m.open - {s}, futures := m.futures[s := Some(o)])
  }

  function FinishAllUnguarded(m: Machine, o: Outcome): Machine {
    m.(open := map[],
       futures := map s | s in m.futures.Keys + m.open.Keys :: if s in m.open then Some(o) else m.futures[s])
  }

  function OnQuicUnguarded(m: Machine, q: QuicEvent): Machine {
    match q
    case Reset(s, code) => FinishUnguarded(m, s, StreamReset(code))
    case Terminated(code, reason) => FinishAllUnguarded(m, ConnectionTerminated(code, reason))
    case OtherQuic => m
  }

  function OnHttpUnguarded(m: Machine, e: HttpEvent): (Machine, bool) {
    var s := e.streamId;
    if s !in m.open then (m, false)
    else
      var b := Extended(m.open[s], e);
      var m' := m.(open := m.open[s := b]);
      if !e.ended then (m', false)
      else if StatusOf(b.headers).None? then (m', true)
      else (FinishUnguarded(m', s, ResultOf(StatusOf(b.headers).value, b.body)), false)
  }

  function OnBatchUnguarded(m: Machine, es: seq<HttpEvent>): Machine
    decreases |es|
  {
    if es == [] then m
    else
      var (m', raised) := OnHttpUnguarded(m, es[0]);
      if raised then m' else OnBatchUnguarded(m', es[1..])
  }

  function StepUnguarded(m: Machine, e: Event): Machine {
    if e.Receive? then OnBatchUnguarded(OnQuicUnguarded(m, e.quic), e.http) else Step(m, e)
  }

  function RunUnguarded(m: Machine, trace: seq<Event>): Machine
    decreases |trace|
  {
    if trace == [] then m else RunUnguarded(StepUnguarded(m, trace[0]), trace[1..])
  }

  lemma SameOnQuic(m: Machine, q: QuicEvent)
    requires Consistent(m)
    ensures OnQuicUnguarded(m, q) == OnQuic(m, q)
  {
    if q.Terminated? {
      var a, b := OnQuicUnguarded(m, q), OnQuic(m, q);
      assert a.futures == b.futures;
    }
  }

  lemma SameOnHttp(m: Machine, e: HttpEvent)
    requires Consistent(m)
    ensures OnHttpUnguarded(m, e) == OnHttp(m, e)
  {
  }

  lemma {:induction false} SameOnBatch(m: Machine, es: seq<HttpEvent>)
    requires Consistent(m)
    ensures OnBatchUnguarded(m, es) == OnBatch(m, es).machine
    decreases |es|
  {
    if es != [] {
      SameOnHttp(m, es[0]);
      HttpKeepsConsistent(m, es[0]);
      var (m', raised) := OnHttp(m, es[0]);
      if !raised { SameOnBatch(m', es[1..]); }
    }
  }

  /** At no call of `_finish`, inside any step of any run, is the test of `future.done()` the deciding one. */
  lemma {:induction false} GuardNeverDecides(m: Machine, trace: seq<Event>)
    requires Consistent(m) && Fresh(m, trace)
    ensures RunUnguarded(m, trace) == Run(m, trace)
    decreases |trace|
  {
    if trace != [] {
      var e := trace[0];
      if e.Receive? {
        SameOnQuic(m, e.quic);
        StepKeepsConsistent(m, Receive(e.quic, []));
        SameOnBatch(OnQuic(m, e.quic), e.http);
      }
      StepKeepsConsistent(m, e);
      GuardNeverDecides(Step(m, e), trace[1..]);
    }
  }
}
