/**
 The probe's protocol object: futures, response states and the dictionary are updated in place.
 The ghost field `model` is its state as a value, and every method takes it one step of `Multiplex`.
 */
module ProbeProtocol {
  import opened Options
  import opened Multiplex

  class Future {
    var result: Option<Outcome>

    constructor ()
      ensures result == None
    {
      result := None;
    }

    /** asyncio raises InvalidStateError for a future that is already done. */
    method SetResult(outcome: Outcome)
      requires result.None?
      modifies this
      ensures result == Some(outcome)
    {
      result := Some(outcome);
    }
  }

  class ResponseState {
    const future: Future
    var buffers: Buffers

    constructor (future: Future)
      ensures this.future == future && buffers == Buffers([], [])
    {
      this.future := future;
      buffers := Buffers([], []);
    }
  }

  class ProbeProtocol {
    var responses: map<StreamId, ResponseState>
    /** The future each `request` or `raw_headers` coroutine holds on to. */
    var issued: map<StreamId, Future>
    /** What each of these coroutines returned. */
    var delivered: map<StreamId, Delivery>

    /** Started empty and taken one `Step` at a time, so the theorems of `Multiplex` hold of it. */
    ghost var model: Machine

    ghost predicate Valid()
      reads this, responses.Values, issued.Values
    {
      && responses.Keys == model.open.Keys && issued.Keys == model.futures.Keys && delivered == model.delivered
      && (forall s :: s in responses ==> responses[s].buffers == model.open[s])
      && (forall s :: s in issued ==> issued[s].result == model.futures[s])
      && (forall s :: s in responses ==> s in issued && responses[s].future == issued[s])
      && (forall s, t :: s in issued && t in issued && s != t ==> issued[s] != issued[t])
    }

    constructor ()
      ensures Valid() && model == EMPTY
    {
      responses, issued, delivered := map[], map[], map[];
      model := EMPTY;
    }

    /** The first half of `request` and `raw_headers`, up to sending; the stream ID is fresh. */
    method Start(s: StreamId)
      requires Valid() && s !in issued
      modifies this
      ensures Valid() && model == Step(old(model), Register(s))
      ensures fresh(responses.Values - old(responses.Values)) && fresh(issued.Values - old(issued.Values))
    {
      var future := new Future();
      var state := new ResponseState(future);
      Attach(s, state);
    }

    method Attach(s: StreamId, state: ResponseState)
      requires Valid() && s !in issued && state.future !in issued.Values
      requires state.buffers == Buffers([], []) && state.future.result == None
      modifies this
      ensures Valid() && model == OnRegister(old(model), s)
      ensures responses == old(responses)[s := state] && issued == old(issued)[s := state.future]
    {
      responses := responses[s := state];
      issued := issued[s := state.future];
      model := OnRegister(model, s);
    }

    /** The TimeoutError branch of a coroutine that still waits. */
    method Expire(s: StreamId)
      requires Valid() && s in issued && s !in delivered
      modifies this
      ensures Valid() && model == Step(old(model), Event.Expire(s))
      ensures issued == old(issued) && responses == old(responses) - {s}
    {
      responses := responses - {s};
      delivered := delivered[s := TimedOut(s)];
      model := OnExpire(model, s);
    }

    /** A coroutine that still waits returns the result of its future. */
    method Resume(s: StreamId)
      requires Valid() && s in issued && s !in delivered && issued[s].result.Some?
      modifies this`delivered, this`model
      ensures Valid() && model == Step(old(model), Event.Resume(s))
    {
      delivered := delivered[s := Answer(issued[s].result.value)];
      model := OnResume(model, s);
    }

    /** `_finish` */
    method Finish(s: StreamId, outcome: Outcome)
      requires Valid()
      modifies this`responses, this`model, issued.Values
      ensures Valid() && model == Multiplex.Finish(old(model), s, outcome)
      ensures responses == old(responses) - {s}
    {
      if s in responses {
        var state := responses[s];
        responses := responses - {s};
        assert state.future == issued[s] && issued[s] in issued.Values;
        if state.future.result.None? {
          state.future.SetResult(outcome);
        }
      }
      model := Multiplex.Finish(model, s, outcome);
    }

    method FinishEach(outcome: Outcome)
      requires Valid()
      modifies this`responses, this`model, issued.Values
      ensures Valid() && model == FinishAll(old(model), outcome)
      ensures responses == map[]
    {
      var left := responses.Keys;
      while left != {}
        invariant Valid() && left == responses.Keys && responses.Values <= old(responses.Values)
        invariant FinishAll(model, outcome) == FinishAll(old(model), outcome)
        decreases left
      {
        var s :| s in left;
        FinishThenAll(model, s, outcome);
        Finish(s, outcome);
        left := left - {s};
      }
      NothingToFinish(model, outcome);
    }

    /** One turn of the loop over HTTP events. */
    method HttpEventReceived(e: HttpEvent) returns (raised: bool)
      requires Valid()
      modifies this`responses, this`model, issued.Values, responses.Values
      ensures Valid() && (model, raised) == OnHttp(old(model), e)
      ensures responses.Values <= old(responses.Values)
    {
      var s := e.streamId;
      if s !in responses {
        return false;
      }
      var state := responses[s];
      state.buffers := Extended(state.buffers, e);
      model := model.(open := model.open[s := state.buffers]);
      assert Valid();
      if e.ended {
        var status := StatusOf(state.buffers.headers);
        if status.None? {
          return true;
        }
        Finish(s, ResultOf(status.value, state.buffers.body));
      }
      raised := false;
    }

    /** `quic_event_received`; `raised` when `int` raised on a status. */
    method QuicEventReceived(event: QuicEvent, httpEvents: seq<HttpEvent>) returns (raised: bool)
      requires Valid()
      modifies this`responses, this`model, issued.Values, responses.Values
      ensures Valid() && model == Step(old(model), Receive(event, httpEvents))
      ensures raised == OnReceive(old(model), event, httpEvents).raised
      ensures responses.Values <= old(responses.Values)
    {
      ghost var whole := OnReceive(model, event, httpEvents);
      match event {
        case Reset(s, code) => Finish(s, StreamReset(code));
        case Terminated(code, reason) => FinishEach(ConnectionTerminated(code, reason));
        case OtherQuic =>
      }
      raised := HandleEach(httpEvents);
      assert whole == OnBatch(OnQuic(old(model), event), httpEvents);
    }

    method HandleEach(httpEvents: seq<HttpEvent>) returns (raised: bool)
      requires Valid()
      modifies this`responses, this`model, issued.Values, responses.Values
      ensures Valid() && model == OnBatch(old(model), httpEvents).machine
      ensures raised == OnBatch(old(model), httpEvents).raised
      ensures responses.Values <= old(responses.Values)
    {
      ghost var whole := OnBatch(model, httpEvents);
      assert httpEvents[0..] == httpEvents;
      for i := 0 to |httpEvents|
        invariant Valid() && responses.Values <= old(responses.Values)
        invariant OnBatch(model, httpEvents[i..]).machine == whole.machine
        invariant OnBatch(model, httpEvents[i..]).raised == whole.raised
      {
        BatchHead(model, httpEvents, i);
        raised := HttpEventReceived(httpEvents[i]);
        if raised { return; }
      }
      raised := false;
    }
  }

  lemma BatchHead(m: Machine, es: seq<HttpEvent>, i: nat)
    requires i < |es|
    ensures var (m', raised) := OnHttp(m, es[i]); var rest := OnBatch(m, es[i..]);
      rest.machine == (if raised then m' else OnBatch(m', es[i + 1..]).machine)
      && rest.raised == (raised || OnBatch(m', es[i + 1..]).raised)
  {
    assert es[i..][0] == es[i] && es[i..][1..] == es[i + 1..];
  }

  lemma FinishThenAll(m: Machine, s: StreamId, outcome: Outcome)
    requires s in m.open && s in m.futures
    ensures FinishAll(Multiplex.Finish(m, s, outcome), outcome) == FinishAll(m, outcome)
  {
    var a, b := FinishAll(Multiplex.Finish(m, s, outcome), outcome), FinishAll(m, outcome);
    assert a.futures == b.futures;
  }

  lemma NothingToFinish(m: Machine, outcome: Outcome)
    requires m.open.Keys == {}
    ensures FinishAll(m, outcome) == m
  {
    assert m.open == map[];
    assert FinishAll(m, outcome).futures == m.futures;
  }
}
