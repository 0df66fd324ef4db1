/**
 The response machine of the probe on values: many streams share one dictionary of open
 responses. Beside it, the machine of a single stream, and the theorems that relate the two.
 */
module Multiplex {
  import opened Bits
  import opened Options
  import opened Qpack
  import StatusText

  type StreamId = nat

  // ----- Events and results -----

  datatype Outcome =
    | StreamReset(errorCode: nat)
    | ConnectionTerminated(code: nat, reason: string)
    | Response(status: int, body: seq<byte>)
    | HttpError(status: int, body: seq<byte>)

  /** What the coroutine that sent a request returns. */
  datatype Delivery = Answer(outcome: Outcome) | TimedOut(streamId: StreamId)

  datatype QuicEvent =
    | Reset(streamId: StreamId, errorCode: nat)
    | Terminated(code: nat, reason: string)
    | OtherQuic

  datatype HttpEvent =
    | HeadersReceived(streamId: StreamId, headers: seq<Field>, ended: bool)
    | DataReceived(streamId: StreamId, data: seq<byte>, ended: bool)
    | OtherHttp(streamId: StreamId, ended: bool)

  datatype Event =
    | Register(streamId: StreamId)
    | Expire(streamId: StreamId)
    | Resume(streamId: StreamId)
    | Receive(quic: QuicEvent, http: seq<HttpEvent>)

  // ----- The shared machine -----

  datatype Buffers = Buffers(headers: seq<Field>, body: seq<byte>)

  datatype Machine = Machine(
    open: map<StreamId, Buffers>,
    futures: map<StreamId, Option<Outcome>>,
    delivered: map<StreamId, Delivery>)

  const EMPTY := Machine(map[], map[], map[])

  const STATUS := Ascii(":status")

  /** The first `:status` field as an integer, 0 without one; `None` when `int` raises. */
  function StatusOf(headers: seq<Field>): Option<int> {
    if headers == [] then Some(0)
    else if headers[0].name == STATUS then StatusText.ParseInt(headers[0].value)
    else StatusOf(headers[1..])
  }

  function ResultOf(status: int, body: seq<byte>): Outcome {
    if status < 400 then Response(status, body) else HttpError(status, body)
  }

  function Extended(b: Buffers, e: HttpEvent): Buffers {
    match e
    case HeadersReceived(_, headers, _) => b.(headers := b.headers + headers)
    case DataReceived(_, data, _) => b.(body := b.body + data)
    case OtherHttp(_, _) => b
  }

  /** `_finish`, with its test of `future.done()`. */
  function Finish(m: Machine, s: StreamId, o: Outcome): Machine {
    if s !in m.open then m
    else if s in m.futures && m.futures[s].None? then
      m.(open := m.open - {s}, futures := m.futures[s := Some(o)])
    else m.(open := m.open - {s})
  }

  function FinishAll(m: Machine, o: Outcome): Machine {
    m.(open := map[],
       futures := map s | s in m.futures :: if s in m.open && m.futures[s].None? then Some(o) else m.futures[s])
  }

  function OnQuic(m: Machine, q: QuicEvent): Machine {
    match q
    case Reset(s, code) => Finish(m, s, StreamReset(code))
    case Terminated(code, reason) => FinishAll(m, ConnectionTerminated(code, reason))
    case OtherQuic => m
  }

  datatype Handled = Handled(machine: Machine, count: nat, raised: bool)

  /** One HTTP event; `raised` when `int` raises on the status of an ending stream. */
  function OnHttp(m: Machine, e: HttpEvent): (Machine, bool) {
    var s := e.streamId;
    if s !in m.open then (m, false)
    else
      var b := Extended(m.open[s], e);
      var m' := m.(open := m.open[s := b]);
      if !e.ended then (m', false)
      else if StatusOf(b.headers).None? then (m', true)
      else (Finish(m', s, ResultOf(StatusOf(b.headers).value, b.body)), false)
  }

  /** A batch of HTTP events; an exception abandons the events behind the one that raised. */
  function OnBatch(m: Machine, es: seq<HttpEvent>): (r: Handled)
    ensures r.count <= |es| && (!r.raised ==> r.count == |es|)
    decreases |es|
  {
    if es == [] then Handled(m, 0, false)
    else
      var (m', raised) := OnHttp(m, es[0]);
      if raised then Handled(m', 1, true)
      else
        var r := OnBatch(m', es[1..]);
        Handled(r.machine, r.count + 1, r.raised)
  }

  function OnReceive(m: Machine, q: QuicEvent, es: seq<HttpEvent>): Handled { OnBatch(OnQuic(m, q), es) }

  function OnRegister(m: Machine, s: StreamId): Machine {
    m.(open := m.open[s := Buffers([], [])], futures := m.futures[s := None])
  }

  /** The timeout of a coroutine that is still waiting. */
  function OnExpire(m: Machine, s: StreamId): Machine {
    if s !in m.futures || s in m.delivered then m
    else m.(open := m.open - {s}, delivered := m.delivered[s := TimedOut(s)])
  }

  /** A waiting coroutine wakes up with its future's result. */
  function OnResume(m: Machine, s: StreamId): Machine {
    if s !in m.futures || s in m.delivered || m.futures[s].None? then m
    else m.(delivered := m.delivered[s := Answer(m.futures[s].value)])
  }

  function Step(m: Machine, e: Event): Machine {
    match e
    case Register(s) => OnRegister(m, s)
    case Expire(s) => OnExpire(m, s)
    case Resume(s) => OnResume(m, s)
    case Receive(q, es) => OnReceive(m, q, es).machine
  }

  function Run(m: Machine, trace: seq<Event>): Machine
    decreases |trace|
  {
    if trace == [] then m else Run(Step(m, trace[0]), trace[1..])
  }

  /** The QUIC stack hands out a stream ID that was never used on the connection. */
  predicate Fresh(m: Machine, trace: seq<Event>)
    decreases |trace|
  {
    trace == [] ||
    ((trace[0].Register? ==> trace[0].streamId !in m.futures) && Fresh(Step(m, trace[0]), trace[1..]))
  }

  // ----- What every step keeps -----

  /** Every future reachable through the dictionary is pending and its waiter still waits. */
  ghost predicate Consistent(m: Machine) {
    && (forall s :: s in m.open ==> s in m.futures && m.futures[s].None? && s !in m.delivered)
    && (forall s :: s in m.delivered ==> s in m.futures)
    && (forall s :: s in m.delivered && m.delivered[s].Answer? ==> m.futures[s] == Some(m.delivered[s].outcome))
    && (forall s :: s in m.delivered && m.delivered[s].TimedOut? ==> m.delivered[s].streamId == s)
    && (forall s :: s in m.futures && m.futures[s].None? && s !in m.open ==> s in m.delivered)
  }

  lemma HttpKeepsConsistent(m: Machine, e: HttpEvent)
    requires Consistent(m)
    ensures Consistent(OnHttp(m, e).0)
  {
  }

  lemma {:induction false} BatchKeepsConsistent(m: Machine, es: seq<HttpEvent>)
    requires Consistent(m)
    ensures Consistent(OnBatch(m, es).machine)
    decreases |es|
  {
    if es != [] {
      HttpKeepsConsistent(m, es[0]);
      var (m', raised) := OnHttp(m, es[0]);
      if !raised { BatchKeepsConsistent(m', es[1..]); }
    }
  }

  lemma StepKeepsConsistent(m: Machine, e: Event)
    requires Consistent(m) && (e.Register? ==> e.streamId !in m.futures)
    ensures Consistent(Step(m, e))
  {
    if e.Receive? {
      assert Consistent(OnQuic(m, e.quic));
      BatchKeepsConsistent(OnQuic(m, e.quic), e.http);
    }
  }

  /** Over every run: an open stream has a pending future and an undelivered waiter. */
  lemma {:induction false} RunKeepsConsistent(m: Machine, trace: seq<Event>)
    requires Consistent(m) && Fresh(m, trace)
    ensures Consistent(Run(m, trace))
    decreases |trace|
  {
    if trace != [] {
      StepKeepsConsistent(m, trace[0]);
      RunKeepsConsistent(Step(m, trace[0]), trace[1..]);
    }
  }

  // ----- The machine of one stream -----

  datatype View =
    | Unregistered
    | View(buffer: Option<Buffers>, future: Option<Outcome>, delivery: Option<Delivery>)

  datatype Input = Begin | Timeout | Wake | Close(outcome: Outcome) | Chunk(event: HttpEvent)

  function LocalStep(s: StreamId, v: View, i: Input): View {
    match i
    case Begin => View(Some(Buffers([], [])), None, None)
    case Timeout =>
      if v.Unregistered? || v.delivery.Some? then v
      else View(None, v.future, Some(TimedOut(s)))
    case Wake =>
      if v.Unregistered? || v.delivery.Some? || v.future.None? then v
      else v.(delivery := Some(Answer(v.future.value)))
    case Close(o) =>
      if v.Unregistered? || v.buffer.None? then v
      else v.(buffer := None, future := Some(o))
    case Chunk(e) =>
      if v.Unregistered? || v.buffer.None? then v
      else
        var b := Extended(v.buffer.value, e);
        if !e.ended || StatusOf(b.headers).None? then v.(buffer := Some(b))
        else v.(buffer := None, future := Some(ResultOf(StatusOf(b.headers).value, b.body)))
  }

  function LocalRun(s: StreamId, v: View, inputs: seq<Input>): View
    decreases |inputs|
  {
    if inputs == [] then v else LocalRun(s, LocalStep(s, v, inputs[0]), inputs[1..])
  }

  function ViewOf(m: Machine, s: StreamId): View {
    if s !in m.futures then Unregistered
    else View(if s in m.open then Some(m.open[s]) else None, m.futures[s],
              if s in m.delivered then Some(m.delivered[s]) else None)
  }

  function Chunks(s: StreamId, es: seq<HttpEvent>): seq<Input>
    decreases |es|
  {
    if es == [] then []
    else (if es[0].streamId == s then [Chunk(es[0])] else []) + Chunks(s, es[1..])
  }

  /** The part of an event that concerns one stream: its own events, and connection terminations. */
  function Closings(s: StreamId, q: QuicEvent): seq<Input> {
    match q
    case Reset(t, code) => if t == s then [Close(StreamReset(code))] else []
    case Terminated(code, reason) => [Close(ConnectionTerminated(code, reason))]
    case OtherQuic => []
  }

  function Own(s: StreamId, e: Event): seq<Input> {
    match e
    case Register(t) => if t == s then [Begin] else []
    case Expire(t) => if t == s then [Timeout] else []
    case Resume(t) => if t == s then [Wake] else []
    case Receive(q, es) => Closings(s, q) + Chunks(s, es)
  }

  function OwnTrace(s: StreamId, trace: seq<Event>): seq<Input>
    decreases |trace|
  {
    if trace == [] then [] else Own(s, trace[0]) + OwnTrace(s, trace[1..])
  }

  // ----- Multiplexing refines independent streams -----

  lemma {:induction false} LocalRunAppend(s: StreamId, v: View, a: seq<Input>, b: seq<Input>)
    ensures LocalRun(s, v, a + b) == LocalRun(s, LocalRun(s, v, a), b)
    decreases |a|
  {
    if a == [] {
      assert a + b == b;
    } else {
      assert (a + b)[1..] == a[1..] + b;
      LocalRunAppend(s, LocalStep(s, v, a[0]), a[1..], b);
    }
  }

  lemma QuicIsLocal(m: Machine, q: QuicEvent, s: StreamId)
    requires Consistent(m)
    ensures ViewOf(OnQuic(m, q), s) == LocalRun(s, ViewOf(m, s), Closings(s, q))
  {
    var c := Closings(s, q);
    if c != [] { assert LocalRun(s, ViewOf(m, s), c) == LocalStep(s, ViewOf(m, s), c[0]); }
  }

  lemma HttpIsLocal(m: Machine, e: HttpEvent, s: StreamId)
    requires Consistent(m)
    ensures ViewOf(OnHttp(m, e).0, s)
         == if e.streamId == s then LocalStep(s, ViewOf(m, s), Chunk(e)) else ViewOf(m, s)
  {
  }

  lemma {:induction false} BatchIsLocal(m: Machine, es: seq<HttpEvent>, s: StreamId)
    requires Consistent(m)
    ensures ViewOf(OnBatch(m, es).machine, s) == LocalRun(s, ViewOf(m, s), Chunks(s, es[..OnBatch(m, es).count]))
    decreases |es|
  {
    var r := OnBatch(m, es);
    if es == [] {
      assert es[..0] == [];
    } else {
      var (m', raised) := OnHttp(m, es[0]);
      HttpIsLocal(m, es[0], s);
      HttpKeepsConsistent(m, es[0]);
      var head := if es[0].streamId == s then [Chunk(es[0])] else [];
      var rest := es[1..][..r.count - 1];
      assert es[..r.count][1..] == rest && es[..r.count][0] == es[0];
      assert Chunks(s, es[..r.count]) == head + Chunks(s, rest);
      LocalRunAppend(s, ViewOf(m, s), head, Chunks(s, rest));
      assert ViewOf(m', s) == LocalRun(s, ViewOf(m, s), head);
      if raised {
        assert rest == [];
      } else {
        BatchIsLocal(m', es[1..], s);
      }
    }
  }

  /** The events a step really handles: a batch is cut behind an event that raised. */
  function Cut(m: Machine, e: Event): Event {
    match e
    case Receive(q, es) => Receive(q, es[..OnReceive(m, q, es).count])
    case _ => e
  }

  function CutTrace(m: Machine, trace: seq<Event>): seq<Event>
    decreases |trace|
  {
    if trace == [] then [] else [Cut(m, trace[0])] + CutTrace(Step(m, trace[0]), trace[1..])
  }

  lemma StepIsLocal(m: Machine, e: Event, s: StreamId)
    requires Consistent(m) && (e.Register? ==> e.streamId !in m.futures)
    ensures ViewOf(Step(m, e), s) == LocalRun(s, ViewOf(m, s), Own(s, Cut(m, e)))
  {
    match e
    case Receive(q, es) =>
      var m' := OnQuic(m, q);
      QuicIsLocal(m, q, s);
      StepKeepsConsistent(m, Receive(q, []));
      BatchIsLocal(m', es, s);
      LocalRunAppend(s, ViewOf(m, s), Closings(s, q), Chunks(s, es[..OnBatch(m', es).count]));
    case _ =>
      var own := Own(s, e);
      if own != [] {
        assert LocalRun(s, ViewOf(m, s), own) == LocalStep(s, ViewOf(m, s), own[0]);
      }
  }

  /**
   For every interleaving, what a stream's waiter sees is the fold of the events of that stream
   alone (and of connection terminations) over the single-stream machine. Batches count up to an
   event that raised.
   */
  lemma {:induction false} RefinesIndependentStreams(m: Machine, trace: seq<Event>, s: StreamId)
    requires Consistent(m) && Fresh(m, trace)
    ensures ViewOf(Run(m, trace), s) == LocalRun(s, ViewOf(m, s), OwnTrace(s, CutTrace(m, trace)))
    decreases |trace|
  {
    if trace != [] {
      var m' := Step(m, trace[0]);
      StepIsLocal(m, trace[0], s);
      StepKeepsConsistent(m, trace[0]);
      RefinesIndependentStreams(m', trace[1..], s);
      var cut := CutTrace(m, trace);
      assert cut[0] == Cut(m, trace[0]) && cut[1..] == CutTrace(m', trace[1..]);
      LocalRunAppend(s, ViewOf(m, s), Own(s, cut[0]), OwnTrace(s, cut[1..]));
    }
  }

  // ----- Completion happens once -----

  /** Once a stream has left the dictionary its future is final, and so is what was delivered. */
  lemma {:induction false} ClosedIsFinal(s: StreamId, v: View, inputs: seq<Input>)
    requires v.View? && v.buffer.None? && Begin !in inputs
    ensures var w := LocalRun(s, v, inputs);
      w.View? && w.buffer.None? && w.future == v.future && (v.delivery.Some? ==> w == v)
    decreases |inputs|
  {
    if inputs != [] {
      assert inputs[0] in inputs;
      ClosedIsFinal(s, LocalStep(s, v, inputs[0]), inputs[1..]);
    }
  }

  lemma {:induction false} NoSecondBegin(m: Machine, trace: seq<Event>, s: StreamId)
    requires Fresh(m, trace) && s in m.futures
    ensures Begin !in OwnTrace(s, CutTrace(m, trace))
    ensures s in Run(m, trace).futures
    decreases |trace|
  {
    if trace != [] {
      var m' := Step(m, trace[0]);
      FuturesStay(m, trace[0], s);
      NoSecondBegin(m', trace[1..], s);
      var cut := CutTrace(m, trace);
      assert cut[0] == Cut(m, trace[0]) && cut[1..] == CutTrace(m', trace[1..]);
      if trace[0].Receive? { NoBeginInChunks(s, cut[0].http); }
    }
  }

  lemma {:induction false} NoBeginInChunks(s: StreamId, es: seq<HttpEvent>)
    ensures Begin !in Chunks(s, es)
    decreases |es|
  {
    if es != [] { NoBeginInChunks(s, es[1..]); }
  }

  lemma {:induction false} BatchKeepsFutures(m: Machine, es: seq<HttpEvent>)
    ensures OnBatch(m, es).machine.futures.Keys == m.futures.Keys
    decreases |es|
  {
    if es != [] {
      var (m', raised) := OnHttp(m, es[0]);
      assert m'.futures.Keys == m.futures.Keys;
      if !raised { BatchKeepsFutures(m', es[1..]); }
    }
  }

  lemma FuturesStay(m: Machine, e: Event, s: StreamId)
    requires s in m.futures
    ensures s in Step(m, e).futures
  {
    if e.Receive? { BatchKeepsFutures(OnQuic(m, e.quic), e.http); }
  }

  /**
   A stream is removed once: after it left the dictionary, by whichever of reset, termination,
   stream end or timeout came first, nothing that follows changes its future, and a delivered
   result is never replaced.
   */
  lemma CompletesOnce(m: Machine, trace: seq<Event>, s: StreamId)
    requires Consistent(m) && Fresh(m, trace) && s in m.futures && s !in m.open
    ensures var m' := Run(m, trace);
      s in m'.futures && s !in m'.open && m'.futures[s] == m.futures[s]
      && (s in m.delivered ==> s in m'.delivered && m'.delivered[s] == m.delivered[s])
  {
    RefinesIndependentStreams(m, trace, s);
    NoSecondBegin(m, trace, s);
    ClosedIsFinal(s, ViewOf(m, s), OwnTrace(s, CutTrace(m, trace)));
  }

  lemma {:induction false} NothingOpensInBatch(m: Machine, es: seq<HttpEvent>)
    requires m.open == map[]
    ensures OnBatch(m, es) == Handled(m, |es|, false)
    decreases |es|
  {
    if es != [] { NothingOpensInBatch(m, es[1..]); }
  }

  /** A reset gives an open stream's waiter exactly its code, and nothing to the others. */
  lemma ResetClosesOne(m: Machine, s: StreamId, code: nat)
    requires Consistent(m)
    ensures var m' := Step(m, Receive(Reset(s, code), []));
      m'.open == m.open - {s} && m'.delivered == m.delivered
      && m'.futures == if s in m.open then m.futures[s := Some(StreamReset(code))] else m.futures
  {
    assert OnBatch(OnQuic(m, Reset(s, code)), []).machine == OnQuic(m, Reset(s, code));
    if s !in m.open { assert m.open - {s} == m.open; }
  }

  /** A termination empties the dictionary and gives every open waiter that result. */
  lemma TerminationClosesAll(m: Machine, code: nat, reason: string, es: seq<HttpEvent>)
    requires Consistent(m)
    ensures var m' := Step(m, Receive(Terminated(code, reason), es));
      m'.open == map[] && m'.futures.Keys == m.futures.Keys && m'.delivered == m.delivered
      && (forall s :: s in m.open ==> m'.futures[s] == Some(ConnectionTerminated(code, reason)))
      && (forall s :: s in m.futures && s !in m.open ==> m'.futures[s] == m.futures[s])
  {
    NothingOpensInBatch(OnQuic(m, Terminated(code, reason)), es);
  }
}
