/** What a stream's waiter is handed: the response put together from all its events, in their order. */
module StreamResponse {
  import opened Bits
  import opened Sequences
  import opened Options
  import opened Qpack
  import opened Multiplex
  import opened Isolation
  import StatusText
  import Decimal

  function HeadersOf(e: HttpEvent): seq<Field> { if e.HeadersReceived? then e.headers else [] }

  function DataOf(e: HttpEvent): seq<byte> { if e.DataReceived? then e.data else [] }

  function AllHeaders(es: seq<HttpEvent>): seq<Field> {
    if es == [] then [] else HeadersOf(es[0]) + AllHeaders(es[1..])
  }

  function AllData(es: seq<HttpEvent>): seq<byte> {
    if es == [] then [] else DataOf(es[0]) + AllData(es[1..])
  }

  /** Events of one stream, of which only the last one ends it. */
  ghost predicate OneResponse(s: StreamId, es: seq<HttpEvent>) {
    && es != []
    && (forall i :: 0 <= i < |es| ==> es[i].streamId == s)
    && (forall i :: 0 <= i < |es| ==> (es[i].ended <==> i == |es| - 1))
  }

  /** The first field named `:status` is the `i`-th, and its value reads as this number. */
  ghost predicate FirstStatusAt(headers: seq<Field>, i: int, status: int) {
    && 0 <= i < |headers| && headers[i].name == Ascii(":status")
    && (forall j :: 0 <= j < i ==> headers[j].name != Ascii(":status"))
    && StatusText.ParseInt(headers[i].value) == Some(status)
  }

  /** The status of a header list: of its first field named `:status`, and 0 without one. */
  ghost predicate HasStatus(headers: seq<Field>, status: int) {
    || (exists i :: FirstStatusAt(headers, i, status))
    || (status == 0 && forall j :: 0 <= j < |headers| ==> headers[j].name != Ascii(":status"))
  }

  lemma {:induction false} FirstStatusCounts(headers: seq<Field>, i: nat)
    requires i < |headers| && headers[i].name == Ascii(":status")
    requires forall j :: 0 <= j < i ==> headers[j].name != Ascii(":status")
    ensures StatusOf(headers) == StatusText.ParseInt(headers[i].value)
    decreases i
  {
    if i > 0 { FirstStatusCounts(headers[1..], i - 1); }
  }

  lemma {:induction false} NoStatusIsZero(headers: seq<Field>)
    requires forall j :: 0 <= j < |headers| ==> headers[j].name != Ascii(":status")
    ensures StatusOf(headers) == Some(0)
    decreases |headers|
  {
    if headers != [] { NoStatusIsZero(headers[1..]); }
  }

  lemma {:induction false} FirstNamed(headers: seq<Field>) returns (i: nat)
    ensures i <= |headers| && forall j :: 0 <= j < i ==> headers[j].name != Ascii(":status")
    ensures i < |headers| ==> headers[i].name == Ascii(":status")
    decreases |headers|
  {
    if headers == [] || headers[0].name == Ascii(":status") {
      i := 0;
    } else {
      i := FirstNamed(headers[1..]);
      i := i + 1;
    }
  }

  /** The first `:status` field decides, in whatever spelling and whatever surrounds it. */
  lemma StatusExactly(headers: seq<Field>, status: int)
    ensures StatusOf(headers) == Some(status) <==> HasStatus(headers, status)
  {
    var i := FirstNamed(headers);
    if i < |headers| {
      FirstStatusCounts(headers, i);
      assert StatusOf(headers) == Some(status) ==> FirstStatusAt(headers, i, status);
    } else {
      NoStatusIsZero(headers);
    }
  }

  ghost predicate PrintedStatusAt(headers: seq<Field>, i: nat, n: nat) {
    && i < |headers| && headers[i] == Field(Ascii(":status"), Ascii(Decimal.Digits(n)))
    && forall j :: 0 <= j < i ==> headers[j].name != Ascii(":status")
  }

  /** A printed number in the first `:status` field is the status. */
  lemma PrintedStatus(headers: seq<Field>, i: nat, n: nat)
    requires PrintedStatusAt(headers, i, n)
    ensures HasStatus(headers, n)
  {
    StatusText.ParsePrinted(n);
    assert FirstStatusAt(headers, i, n);
  }

  /** What the waiter's future gets. */
  function Complete(status: int, body: seq<byte>): View {
    View(None, Some(if status >= 400 then HttpError(status, body) else Response(status, body)), None)
  }

  function Waiting(b: Buffers): View { View(Some(b), None, None) }

  lemma OneChunk(s: StreamId, b: Buffers, e: HttpEvent, rest: seq<Input>)
    ensures LocalRun(s, Waiting(b), [Chunk(e)] + rest) == LocalRun(s, LocalStep(s, Waiting(b), Chunk(e)), rest)
    ensures !e.ended ==> LocalStep(s, Waiting(b), Chunk(e)) == Waiting(Extended(b, e))
    ensures e.ended && StatusOf(Extended(b, e).headers).Some? ==>
      LocalStep(s, Waiting(b), Chunk(e)) == Complete(StatusOf(Extended(b, e).headers).value, Extended(b, e).body)
  {
    assert ([Chunk(e)] + rest)[1..] == rest;
  }

  lemma ExtendedBy(b: Buffers, es: seq<HttpEvent>)
    requires es != []
    ensures Extended(b, es[0]).headers + AllHeaders(es[1..]) == b.headers + AllHeaders(es)
    ensures Extended(b, es[0]).body + AllData(es[1..]) == b.body + AllData(es)
  {
    ExtendedIs(b, es[0]);
    Reassociate(b.headers, HeadersOf(es[0]), AllHeaders(es[1..]));
    Reassociate(b.body, DataOf(es[0]), AllData(es[1..]));
  }

  lemma ExtendedIs(b: Buffers, e: HttpEvent)
    ensures Extended(b, e) == Buffers(b.headers + HeadersOf(e), b.body + DataOf(e))
  {
    assert b.headers + [] == b.headers && b.body + [] == b.body;
  }

  lemma FirstChunk(s: StreamId, es: seq<HttpEvent>)
    requires OneResponse(s, es)
    ensures Chunks(s, es) == [Chunk(es[0])] + Chunks(s, es[1..])
    ensures es[0].ended <==> es[1..] == []
    ensures es[1..] != [] ==> OneResponse(s, es[1..])
  {
    assert es[0].streamId == s;
    assert forall i :: 0 <= i < |es[1..]| ==> es[1..][i] == es[i + 1];
  }

  /** From any buffers on, an ending response closes the stream with everything that was received. */
  lemma {:induction false} FoldsToResponse(s: StreamId, b: Buffers, es: seq<HttpEvent>, status: int)
    requires OneResponse(s, es) && StatusOf(b.headers + AllHeaders(es)) == Some(status)
    ensures LocalRun(s, Waiting(b), Chunks(s, es)) == Complete(status, b.body + AllData(es))
    decreases |es|
  {
    FirstChunk(s, es);
    ExtendedBy(b, es);
    OneChunk(s, b, es[0], Chunks(s, es[1..]));
    if es[1..] != [] {
      FoldsToResponse(s, Extended(b, es[0]), es[1..], status);
    } else {
      Ends(Extended(b, es[0]), es[1..]);
      assert LocalRun(s, Complete(status, b.body + AllData(es)), []) == Complete(status, b.body + AllData(es));
    }
  }

  lemma Ends(b: Buffers, es: seq<HttpEvent>)
    requires es == []
    ensures b.headers + AllHeaders(es) == b.headers && b.body + AllData(es) == b.body
  {
  }

  /**
   End to end, through any interleaving with other streams in which no stream is refused: the
   waiter's future holds the status and the whole body, as a response below 400 and as an error from
   400 on.
   */
  lemma ResponseIsComplete(trace: seq<Event>, s: StreamId, es: seq<HttpEvent>, status: int)
    requires Fresh(EMPTY, trace) && Quiet(EMPTY, trace)
    requires OneResponse(s, es) && OwnTrace(s, trace) == [Begin] + Chunks(s, es)
    requires HasStatus(AllHeaders(es), status)
    ensures ViewOf(Run(EMPTY, trace), s) == Complete(status, AllData(es))
  {
    StatusExactly(AllHeaders(es), status);
    assert [] + AllHeaders(es) == AllHeaders(es);
    FoldsToResponse(s, Buffers([], []), es, status);
    assert [] + AllData(es) == AllData(es);
    QuietRunIsLocal(trace, s);
    Begun(s, Chunks(s, es));
  }

  /** In particular for a status printed in decimal. */
  lemma PrintedResponse(trace: seq<Event>, s: StreamId, es: seq<HttpEvent>, i: nat, n: nat)
    requires Fresh(EMPTY, trace) && Quiet(EMPTY, trace)
    requires OneResponse(s, es) && OwnTrace(s, trace) == [Begin] + Chunks(s, es)
    requires PrintedStatusAt(AllHeaders(es), i, n)
    ensures ViewOf(Run(EMPTY, trace), s)
         == View(None, Some(if n < 400 then Response(n, AllData(es)) else HttpError(n, AllData(es))), None)
  {
    PrintedStatus(AllHeaders(es), i, n);
    ResponseIsComplete(trace, s, es, n);
  }

  lemma Begun(s: StreamId, inputs: seq<Input>)
    ensures LocalRun(s, Unregistered, [Begin] + inputs) == LocalRun(s, Waiting(Buffers([], [])), inputs)
  {
    assert ([Begin] + inputs)[1..] == inputs;
  }
}
