/**
 When streams are isolated from each other: the exact condition, on the events alone, under which a
 batch or a run is handled as if every stream had a machine of its own.
 */
module Isolation {
  import opened Options
  import opened Qpack
  import opened Multiplex
  import StatusText
  import Decimal

  // ----- One batch -----

  function OwnOf(s: StreamId, es: seq<HttpEvent>): seq<HttpEvent>
    decreases |es|
  {
    if es == [] then [] else (if es[0].streamId == s then [es[0]] else []) + OwnOf(s, es[1..])
  }

  /** With `b` received so far, the first event that ends the stream finds a status `int` refuses. */
  predicate Refused(b: Buffers, own: seq<HttpEvent>)
    decreases |own|
  {
    own != [] &&
    if own[0].ended then StatusOf(Extended(b, own[0]).headers).None? else Refused(Extended(b, own[0]), own[1..])
  }

  ghost predicate SomeRefused(m: Machine, es: seq<HttpEvent>) {
    exists s :: s in m.open && Refused(m.open[s], OwnOf(s, es))
  }

  /** A batch raises exactly when one open stream's own events end with a status `int` refuses. */
  lemma {:induction false} RaisesExactly(m: Machine, es: seq<HttpEvent>)
    ensures OnBatch(m, es).raised <==> SomeRefused(m, es)
    decreases |es|
  {
    if es != [] {
      var (m', raised) := OnHttp(m, es[0]);
      var t := es[0].streamId;
      FirstOwn(es);
      if raised {
        assert Refused(m.open[t], OwnOf(t, es));
      } else {
        RaisesExactly(m', es[1..]);
        forall s
          ensures s in m.open && Refused(m.open[s], OwnOf(s, es))
             <==> s in m'.open && Refused(m'.open[s], OwnOf(s, es[1..]))
        {
          RefusedLater(m, es, s);
        }
      }
    }
  }

  lemma RefusedLater(m: Machine, es: seq<HttpEvent>, s: StreamId)
    requires es != [] && !OnHttp(m, es[0]).1
    ensures var m' := OnHttp(m, es[0]).0;
      s in m.open && Refused(m.open[s], OwnOf(s, es)) <==> s in m'.open && Refused(m'.open[s], OwnOf(s, es[1..]))
  {
    FirstOwn(es);
    if s == es[0].streamId && s in m.open { assert OwnOf(s, es)[0] == es[0]; }
  }

  lemma FirstOwn(es: seq<HttpEvent>)
    requires es != []
    ensures var t := es[0].streamId;
      OwnOf(t, es) == [es[0]] + OwnOf(t, es[1..]) && OwnOf(t, es)[1..] == OwnOf(t, es[1..])
    ensures forall s :: s != es[0].streamId ==> OwnOf(s, es) == OwnOf(s, es[1..])
    ensures forall s :: s != es[0].streamId ==> Chunks(s, es) == Chunks(s, es[1..])
  {
  }

  lemma {:induction false} PrefixRaises(m: Machine, es: seq<HttpEvent>, n: nat)
    requires n <= |es|
    ensures OnBatch(m, es[..n]).raised <==> OnBatch(m, es).raised && OnBatch(m, es).count <= n
    decreases |es|
  {
    if n > 0 {
      var (m', raised) := OnHttp(m, es[0]);
      assert es[..n][0] == es[0] && es[..n][1..] == es[1..][..n - 1];
      if !raised { PrefixRaises(m', es[1..], n - 1); }
    }
  }

  /** Where a batch is cut: behind its shortest prefix in which some stream is refused. */
  lemma CutExactly(m: Machine, es: seq<HttpEvent>, n: nat)
    requires n <= |es|
    ensures SomeRefused(m, es[..n]) <==> OnBatch(m, es).raised && OnBatch(m, es).count <= n
    ensures !OnBatch(m, es).raised ==> OnBatch(m, es).count == |es|
  {
    PrefixRaises(m, es, n);
    RaisesExactly(m, es[..n]);
  }

  lemma {:induction false} BatchAppend(m: Machine, es: seq<HttpEvent>, e: HttpEvent)
    ensures var r := OnBatch(m, es);
      OnBatch(m, es + [e]).machine == if r.raised then r.machine else OnHttp(r.machine, e).0
    decreases |es|
  {
    if es == [] {
      assert ([] + [e])[1..] == [];
      var (m', raised) := OnHttp(m, e);
      assert OnBatch(m', []).machine == m';
    } else {
      var (m', raised) := OnHttp(m, es[0]);
      assert (es + [e])[1..] == es[1..] + [e];
      if !raised { BatchAppend(m', es[1..], e); }
    }
  }

  lemma {:induction false} ChunksAppend(s: StreamId, es: seq<HttpEvent>, e: HttpEvent)
    requires e.streamId == s
    ensures Chunks(s, es + [e]) == Chunks(s, es) + [Chunk(e)]
    decreases |es|
  {
    if es == [] {
      assert es + [e] == [e] && Chunks(s, []) == [];
    } else {
      ChunksAppend(s, es[1..], e);
      var head := if es[0].streamId == s then [Chunk(es[0])] else [];
      assert (es + [e])[0] == es[0] && (es + [e])[1..] == es[1..] + [e];
      assert Chunks(s, es + [e]) == head + Chunks(s, es[1..] + [e]);
      assert head + (Chunks(s, es[1..]) + [Chunk(e)]) == Chunks(s, es) + [Chunk(e)];
    }
  }

  /** One more event of a stream, on the machine of that stream. */
  lemma LocalOneMore(s: StreamId, v: View, es: seq<HttpEvent>, e: HttpEvent)
    requires e.streamId == s
    ensures LocalRun(s, v, Chunks(s, es + [e])) == LocalStep(s, LocalRun(s, v, Chunks(s, es)), Chunk(e))
  {
    var w := LocalRun(s, v, Chunks(s, es));
    ChunksAppend(s, es, e);
    LocalRunAppend(s, v, Chunks(s, es), [Chunk(e)]);
    assert LocalRun(s, w, [Chunk(e)]) == LocalStep(s, w, Chunk(e));
  }

  /** The batch, and one more event `e` of stream `s`, act on that stream as on a machine of its own. */
  ghost predicate Reaches(m: Machine, es: seq<HttpEvent>, s: StreamId, e: HttpEvent) {
    ViewOf(OnBatch(m, es + [e]).machine, s) == LocalRun(s, ViewOf(m, s), Chunks(s, es + [e]))
  }

  lemma UnraisedReaches(m: Machine, es: seq<HttpEvent>, s: StreamId, e: HttpEvent)
    requires Consistent(m) && !OnBatch(m, es).raised && e.streamId == s
    ensures Reaches(m, es, s, e)
  {
    var r := OnBatch(m, es);
    assert es[..|es|] == es;
    BatchIsLocal(m, es, s);
    BatchKeepsConsistent(m, es);
    BatchAppend(m, es, e);
    HttpIsLocal(r.machine, e, s);
    LocalOneMore(s, ViewOf(m, s), es, e);
  }

  ghost predicate Waits(v: View) { v.View? && v.buffer.Some? }

  lemma TwoEffects(s: StreamId, v: View)
    requires Waits(v)
    ensures LocalStep(s, v, Chunk(OtherHttp(s, false))) != LocalStep(s, v, Chunk(DataReceived(s, [0], false)))
  {
    var b := v.buffer.value;
    assert |b.body + [0]| == |b.body| + 1;
  }

  /** Of two events of different effect, a batch that has raised can match only one. */
  lemma RaisedMisses(m: Machine, es: seq<HttpEvent>, s: StreamId)
    requires OnBatch(m, es).raised && Waits(LocalRun(s, ViewOf(m, s), Chunks(s, es)))
    ensures exists e: HttpEvent :: e.streamId == s && !Reaches(m, es, s, e)
  {
    var nothing, more := OtherHttp(s, false), DataReceived(s, [0], false);
    TwoEffects(s, LocalRun(s, ViewOf(m, s), Chunks(s, es)));
    RaisedReaches(m, es, s, nothing);
    RaisedReaches(m, es, s, more);
    assert nothing.streamId == s && more.streamId == s;
  }

  lemma RaisedReaches(m: Machine, es: seq<HttpEvent>, s: StreamId, e: HttpEvent)
    requires OnBatch(m, es).raised && e.streamId == s
    ensures Reaches(m, es, s, e)
       <==> ViewOf(OnBatch(m, es).machine, s) == LocalStep(s, LocalRun(s, ViewOf(m, s), Chunks(s, es)), Chunk(e))
  {
    BatchAppend(m, es, e);
    LocalOneMore(s, ViewOf(m, s), es, e);
  }

  /**
   Isolation inside one batch holds exactly as long as no stream was refused: a stream that its own
   events leave waiting gets the next event for it if and only if no open stream's events before
   that one end with a status `int` refuses.
   */
  lemma IsolationExactly(m: Machine, es: seq<HttpEvent>, s: StreamId)
    requires Consistent(m) && Waits(LocalRun(s, ViewOf(m, s), Chunks(s, es)))
    ensures (forall e: HttpEvent :: e.streamId == s ==> Reaches(m, es, s, e)) <==> !SomeRefused(m, es)
  {
    RaisesExactly(m, es);
    if SomeRefused(m, es) {
      RaisedMisses(m, es, s);
    } else {
      forall e: HttpEvent | e.streamId == s ensures Reaches(m, es, s, e) { UnraisedReaches(m, es, s, e); }
    }
  }

  lemma {:induction false} StaysUnreadable(headers: seq<Field>, more: seq<Field>)
    requires StatusOf(headers).None?
    ensures StatusOf(headers + more).None?
    decreases |headers|
  {
    assert (headers + more)[1..] == headers[1..] + more;
    if headers[0].name != STATUS { StaysUnreadable(headers[1..], more); }
  }

  lemma ExtensionStaysUnreadable(b: Buffers, e: HttpEvent)
    requires StatusOf(b.headers).None?
    ensures StatusOf(Extended(b, e).headers).None?
  {
    if e.HeadersReceived? { StaysUnreadable(b.headers, e.headers); }
  }

  lemma {:induction false} UnreadableWaits(s: StreamId, v: View, es: seq<HttpEvent>)
    requires Waits(v) && StatusOf(v.buffer.value.headers).None?
    ensures Waits(LocalRun(s, v, Chunks(s, es)))
    decreases |es|
  {
    if es != [] {
      FirstOwn(es);
      if es[0].streamId == s {
        ExtensionStaysUnreadable(v.buffer.value, es[0]);
        FirstChunkRuns(s, v, es);
        UnreadableWaits(s, LocalStep(s, v, Chunk(es[0])), es[1..]);
      } else {
        UnreadableWaits(s, v, es[1..]);
      }
    }
  }

  lemma FirstChunkRuns(s: StreamId, v: View, es: seq<HttpEvent>)
    requires es != [] && es[0].streamId == s
    ensures LocalRun(s, v, Chunks(s, es)) == LocalRun(s, LocalStep(s, v, Chunk(es[0])), Chunks(s, es[1..]))
  {
    assert ([Chunk(es[0])] + Chunks(s, es[1..]))[1..] == Chunks(s, es[1..]);
  }

  /** A refused stream is itself one that still waits. */
  lemma {:induction false} RefusedWaits(s: StreamId, v: View, es: seq<HttpEvent>)
    requires Waits(v) && Refused(v.buffer.value, OwnOf(s, es))
    ensures Waits(LocalRun(s, v, Chunks(s, es)))
    decreases |es|
  {
    FirstOwn(es);
    if es[0].streamId == s {
      FirstChunkRuns(s, v, es);
      var w := LocalStep(s, v, Chunk(es[0]));
      if es[0].ended { UnreadableWaits(s, w, es[1..]); } else { RefusedWaits(s, w, es[1..]); }
    } else {
      RefusedWaits(s, v, es[1..]);
    }
  }

  /** Every stream would get its next event. */
  ghost predicate BatchIsolated(m: Machine, es: seq<HttpEvent>) {
    forall s: StreamId, e: HttpEvent :: e.streamId == s ==> Reaches(m, es, s, e)
  }

  /** All streams are isolated in a batch if and only if none of them is refused. */
  lemma BatchIsolationExactly(m: Machine, es: seq<HttpEvent>)
    requires Consistent(m)
    ensures BatchIsolated(m, es) <==> !SomeRefused(m, es)
  {
    if s :| s in m.open && Refused(m.open[s], OwnOf(s, es)) {
      RefusedWaits(s, ViewOf(m, s), es);
      IsolationExactly(m, es, s);
    } else {
      RaisesExactly(m, es);
      forall s: StreamId, e: HttpEvent | e.streamId == s ensures Reaches(m, es, s, e) { UnraisedReaches(m, es, s, e); }
    }
  }

  // ----- Whole runs -----

  /** The machine of one stream meets, while it waits, an ending event with a status `int` refuses. */
  predicate Refuses(s: StreamId, v: View, inputs: seq<Input>)
    decreases |inputs|
  {
    inputs != [] && (RefusesOne(v, inputs[0]) || Refuses(s, LocalStep(s, v, inputs[0]), inputs[1..]))
  }

  predicate RefusesOne(v: View, i: Input) {
    i.Chunk? && v.View? && v.buffer.Some? && i.event.ended
    && StatusOf(Extended(v.buffer.value, i.event).headers).None?
  }

  /** No stream of the run, looked at on its own, is refused. */
  ghost predicate Quiet(m: Machine, trace: seq<Event>) {
    forall s :: !Refuses(s, ViewOf(m, s), OwnTrace(s, trace))
  }

  lemma {:induction false} RefusesAppend(s: StreamId, v: View, a: seq<Input>, b: seq<Input>)
    ensures Refuses(s, v, a + b) <==> Refuses(s, v, a) || Refuses(s, LocalRun(s, v, a), b)
    decreases |a|
  {
    if a == [] {
      assert a + b == b;
    } else {
      assert (a + b)[1..] == a[1..] + b;
      RefusesAppend(s, LocalStep(s, v, a[0]), a[1..], b);
    }
  }

  lemma {:induction false} RefusesChunks(s: StreamId, v: View, es: seq<HttpEvent>)
    ensures Refuses(s, v, Chunks(s, es)) <==> Waits(v) && Refused(v.buffer.value, OwnOf(s, es))
    decreases |es|
  {
    if es != [] {
      FirstOwn(es);
      if es[0].streamId == s {
        var rest := Chunks(s, es[1..]);
        assert Chunks(s, es) == [Chunk(es[0])] + rest && ([Chunk(es[0])] + rest)[1..] == rest;
        RefusesChunks(s, LocalStep(s, v, Chunk(es[0])), es[1..]);
      } else {
        RefusesChunks(s, v, es[1..]);
      }
    }
  }

  lemma ReceiveRefuses(m: Machine, q: QuicEvent, es: seq<HttpEvent>, s: StreamId)
    requires Consistent(m)
    ensures var m' := OnQuic(m, q);
      Refuses(s, ViewOf(m, s), Own(s, Receive(q, es))) <==> s in m'.open && Refused(m'.open[s], OwnOf(s, es))
  {
    var m' := OnQuic(m, q);
    var c := Closings(s, q);
    RefusesAppend(s, ViewOf(m, s), c, Chunks(s, es));
    if c != [] { assert c[1..] == [] && !Refuses(s, LocalStep(s, ViewOf(m, s), c[0]), []); }
    QuicIsLocal(m, q, s);
    RefusesChunks(s, ViewOf(m', s), es);
    StepKeepsConsistent(m, Receive(q, []));
  }

  /** One step raises exactly when some stream's own part of it is refused. */
  lemma StepRaisesExactly(m: Machine, e: Event)
    requires Consistent(m)
    ensures (exists s :: Refuses(s, ViewOf(m, s), Own(s, e))) <==> e.Receive? && OnReceive(m, e.quic, e.http).raised
  {
    if e.Receive? {
      RaisesExactly(OnQuic(m, e.quic), e.http);
      forall s ensures Refuses(s, ViewOf(m, s), Own(s, e))
        <==> s in OnQuic(m, e.quic).open && Refused(OnQuic(m, e.quic).open[s], OwnOf(s, e.http))
      {
        ReceiveRefuses(m, e.quic, e.http, s);
      }
    } else {
      forall s ensures !Refuses(s, ViewOf(m, s), Own(s, e)) {
        if Own(s, e) != [] { assert !Refuses(s, LocalStep(s, ViewOf(m, s), Own(s, e)[0]), []); }
      }
    }
  }

  /** The first step of a run, and the rest. */
  lemma QuietStep(m: Machine, trace: seq<Event>)
    requires Consistent(m) && Fresh(m, trace) && trace != []
    ensures Quiet(m, trace)
       <==> !(trace[0].Receive? && OnReceive(m, trace[0].quic, trace[0].http).raised)
            && Quiet(Step(m, trace[0]), trace[1..])
  {
    var e, rest := trace[0], trace[1..];
    StepRaisesExactly(m, e);
    forall s
      ensures OwnTrace(s, trace) == Own(s, e) + OwnTrace(s, rest)
      ensures Refuses(s, ViewOf(m, s), OwnTrace(s, trace))
         <==> Refuses(s, ViewOf(m, s), Own(s, e)) || Refuses(s, LocalRun(s, ViewOf(m, s), Own(s, e)), OwnTrace(s, rest))
    {
      RefusesAppend(s, ViewOf(m, s), Own(s, e), OwnTrace(s, rest));
    }
    if !(e.Receive? && OnReceive(m, e.quic, e.http).raised) {
      forall s ensures ViewOf(Step(m, e), s) == LocalRun(s, ViewOf(m, s), Own(s, e)) {
        if e.Receive? { assert e.http[..|e.http|] == e.http; }
        StepIsLocal(m, e, s);
      }
    }
  }

  /** No exception leaves the event loop at any step of the run. */
  predicate NeverRaises(m: Machine, trace: seq<Event>)
    decreases |trace|
  {
    trace == []
    || (!(trace[0].Receive? && OnReceive(m, trace[0].quic, trace[0].http).raised)
        && NeverRaises(Step(m, trace[0]), trace[1..]))
  }

  /** A run raises nowhere if and only if no stream's own events are refused on its own machine. */
  lemma {:induction false} QuietExactly(m: Machine, trace: seq<Event>)
    requires Consistent(m) && Fresh(m, trace)
    ensures Quiet(m, trace) <==> NeverRaises(m, trace)
    decreases |trace|
  {
    if trace != [] {
      QuietStep(m, trace);
      StepKeepsConsistent(m, trace[0]);
      QuietExactly(Step(m, trace[0]), trace[1..]);
    }
  }

  /** In every batch of the run every stream would get its next event. */
  ghost predicate Isolated(m: Machine, trace: seq<Event>)
    decreases |trace|
  {
    trace == []
    || ((trace[0].Receive? ==> BatchIsolated(OnQuic(m, trace[0].quic), trace[0].http))
        && Isolated(Step(m, trace[0]), trace[1..]))
  }

  /** Over whole runs: streams are isolated throughout if and only if none, on its own, is refused. */
  lemma {:induction false} RunIsolationExactly(m: Machine, trace: seq<Event>)
    requires Consistent(m) && Fresh(m, trace)
    ensures Isolated(m, trace) <==> Quiet(m, trace)
    decreases |trace|
  {
    if trace != [] {
      QuietStep(m, trace);
      StepKeepsConsistent(m, trace[0]);
      RunIsolationExactly(Step(m, trace[0]), trace[1..]);
      if trace[0].Receive? {
        StepKeepsConsistent(m, Receive(trace[0].quic, []));
        BatchIsolationExactly(OnQuic(m, trace[0].quic), trace[0].http);
        RaisesExactly(OnQuic(m, trace[0].quic), trace[0].http);
      }
    }
  }

  lemma {:induction false} UnraisedIsUncut(m: Machine, trace: seq<Event>)
    requires NeverRaises(m, trace)
    ensures CutTrace(m, trace) == trace
    decreases |trace|
  {
    if trace != [] {
      UnraisedIsUncut(Step(m, trace[0]), trace[1..]);
      if trace[0].Receive? {
        assert trace[0].http[..|trace[0].http|] == trace[0].http;
      }
      assert trace == [trace[0]] + trace[1..];
    }
  }

  /** A quiet run is, stream by stream, the fold of that stream's own events. */
  lemma QuietRunIsLocal(trace: seq<Event>, s: StreamId)
    requires Fresh(EMPTY, trace) && Quiet(EMPTY, trace)
    ensures ViewOf(Run(EMPTY, trace), s) == LocalRun(s, Unregistered, OwnTrace(s, trace))
  {
    RefinesIndependentStreams(EMPTY, trace, s);
    QuietExactly(EMPTY, trace);
    UnraisedIsUncut(EMPTY, trace);
  }

  /** Sibling streams never change each other: equal own events, equal headers, body and outcome. */
  lemma SiblingsDoNotInterfere(a: seq<Event>, b: seq<Event>, s: StreamId)
    requires Fresh(EMPTY, a) && Fresh(EMPTY, b) && Quiet(EMPTY, a) && Quiet(EMPTY, b)
    requires OwnTrace(s, a) == OwnTrace(s, b)
    ensures ViewOf(Run(EMPTY, a), s) == ViewOf(Run(EMPTY, b), s)
  {
    QuietRunIsLocal(a, s);
    QuietRunIsLocal(b, s);
  }

  /** A sibling's bad status really costs another stream its complete response. */
  lemma SiblingLosesResponse()
    ensures var m := Run(EMPTY, [Register(0), Register(4)]);
      var bad := HeadersReceived(0, [Field(Ascii(":status"), Ascii("abc"))], true);
      var good := HeadersReceived(4, [Field(Ascii(":status"), Ascii("200"))], true);
      ViewOf(Step(m, Receive(OtherQuic, [good])), 4) == View(None, Some(Response(200, [])), None)
      && ViewOf(Step(m, Receive(OtherQuic, [bad, good])), 4) == View(Some(Buffers([], [])), None, None)
  {
    var m0 := Step(EMPTY, Register(0));
    var m := Step(m0, Register(4));
    assert [Register(0), Register(4)][1..] == [Register(4)];
    assert Run(m0, [Register(4)]) == Run(m, []);
    assert Run(EMPTY, [Register(0), Register(4)]) == m;
    var bad := HeadersReceived(0, [Field(Ascii(":status"), Ascii("abc"))], true);
    var good := HeadersReceived(4, [Field(Ascii(":status"), Ascii("200"))], true);
    RefusedText();
    assert OnHttp(m, bad).1;
    assert [bad, good][0] == bad;
    StatusText.ParsePrinted(200);
    PrintedTwoHundred();
    assert OnHttp(m, good).0.futures[4] == Some(Response(200, []));
    assert OnBatch(OnHttp(m, good).0, []).machine == OnHttp(m, good).0;
    assert [good][1..] == [];
  }

  lemma RefusedText()
    ensures StatusText.ParseInt(Ascii("abc")) == None
  {
    var t := Ascii("abc");
    assert t[0] == 97 && t[2] == 99;
    assert StatusText.DropLeading(t) == t && StatusText.DropTrailing(t) == t;
  }

  lemma PrintedTwoHundred()
    ensures Decimal.Text(200) == "200"
  {
    assert Decimal.Digits(2) == "2";
    assert Decimal.Digits(20) == "20";
  }
}
