/**
  The asyncio connection (`AsyncConnection` in pyglet/net/__init__.py): the
  same framing over an asyncio stream reader and writer, a `_closed` flag, a
  receive task that schedules on_receive with call_soon, and send, which
  submits one write coroutine per message.

  The event loop is modelled by letting the caller run its steps: the receive
  task (`ReceiveTask`, up to the point where it ends or would wait), one
  submitted write coroutine (`RunSend`), and one callback queued with
  call_soon (`RunCallback`). The reader and the transport are values the
  connection owns; they follow the documented behaviour of asyncio's
  StreamReader.readexactly and of a transport's close.
*/
module Cooperative {
  import opened Base
  import opened Framing
  import opened Sockets
  import Receiver

  /** The writer's transport: none at all, open, or closing once close() was called on it. */
  datatype Transport = Absent | Open | Closing

  /** How the reader's input stands beyond its buffer: more may come, the peer sent EOF, or the connection failed. */
  datatype Ending = Waiting | AtEof | Failed(error: Error)

  datatype Reader = Reader(buffered: seq<byte>, ending: Ending)

  /** The outcome of readexactly(n). */
  datatype Readout =
    | Got(bytes: seq<byte>, reader: Reader)
    | Incomplete(reader: Reader)
    | Raised(error: Error)
    | Blocked

  /**
    readexactly(n): a failure already recorded is raised first; otherwise n
    buffered bytes are returned; at EOF with fewer, IncompleteReadError is
    raised and the buffer emptied; else the task waits for more data.
  */
  function ReadExactly(r: Reader, n: nat): (o: Readout)
    ensures o.Got? ==> |o.bytes| == n && o.bytes + o.reader.buffered == r.buffered && o.reader.ending == r.ending
    ensures o.Got? <==> !r.ending.Failed? && n <= |r.buffered|
    ensures o.Incomplete? <==> r.ending == AtEof && |r.buffered| < n
  {
    if r.ending.Failed? then Raised(r.ending.error)
    else if n <= |r.buffered| then
      assert r.buffered[..n] + r.buffered[n..] == r.buffered;
      Got(r.buffered[..n], r.(buffered := r.buffered[n..]))
    else if r.ending == AtEof then Incomplete(r.(buffered := []))
    else Blocked
  }

  /** Why a pass of the receive task stopped: an incomplete read, another exception, or waiting for data. */
  datatype Stop = AtIncomplete | Died(error: Error) | Suspended

  /**
    The messages a pass read, why it stopped, the reader after it, and the
    payload size it is still waiting for when it stopped between a header and
    its payload.
  */
  datatype Pass = Pass(messages: seq<seq<byte>>, stop: Stop, reader: Reader, pending: Option<nat>)

  /**
    The frames the receive task reads, one header and one payload at a time,
    until it stops. `pending` is where the task resumes: None before a
    header, the payload size after one.
  */
  function ReceivePass(r: Reader, pending: Option<nat>): Pass
    decreases 2 * |r.buffered| + (if pending.Some? then 1 else 0)
  {
    match pending
    case None =>
      (match ReadExactly(r, HeaderSize)
       case Raised(e) => Pass([], Died(e), r, None)
       case Blocked => Pass([], Suspended, r, None)
       case Incomplete(after) => Pass([], AtIncomplete, after, None)
       case Got(header, r1) => ReceivePass(r1, Some(UnpackLength(header))))
    case Some(size) =>
      match ReadExactly(r, size)
      case Raised(e) => Pass([], Died(e), r, pending)
      case Blocked => Pass([], Suspended, r, pending)
      case Incomplete(after) => Pass([], AtIncomplete, after, None)
      case Got(message, r2) =>
        var rest := ReceivePass(r2, None);
        Pass([message] + rest.messages, rest.stop, rest.reader, rest.pending)
  }

  /**
    A pass started before a header hands on exactly the messages the
    reference decoder finds in the buffered stream, in order. At EOF it ends
    with an incomplete read and an empty buffer. Otherwise it waits: before
    a header when less than one is buffered, else after the header, keeping
    the payload size. A failure recorded on the reader ends it before any
    message.
  */
  lemma {:induction false} ReceivePassDecodesStream(r: Reader)
    ensures var p := ReceivePass(r, None);
      var stream := DecodeAll(r.buffered);
      (r.ending.Failed? ==> p == Pass([], Died(r.ending.error), r, None))
      && (!r.ending.Failed? ==> p.messages == stream.messages && p.reader.ending == r.ending)
      && (r.ending == AtEof ==> p.stop == AtIncomplete && p.reader.buffered == [] && p.pending == None)
      && (r.ending == Waiting ==>
            p.stop == Suspended
            && if |stream.leftover| < HeaderSize then p.reader.buffered == stream.leftover && p.pending == None
               else p.reader.buffered == stream.leftover[HeaderSize..]
                    && p.pending == Some(UnpackLength(stream.leftover[..HeaderSize])))
    decreases |r.buffered|
  {
    if !r.ending.Failed? {
      var s := r.buffered;
      match DecodeFrame(s)
      case None =>
        assert DecodeAll(s) == Stream([], s);
        if HeaderSize <= |s| {
          var r1 := r.(buffered := s[HeaderSize..]);
          assert ReadExactly(r, HeaderSize) == Got(s[..HeaderSize], r1);
          assert |r1.buffered| < UnpackLength(s[..HeaderSize]);
        }
      case Some(d) =>
        var m := d.payload;
        var f := Frame(m);
        assert s == f + d.rest;
        assert s[..HeaderSize] == f[..HeaderSize];
        var r1 := r.(buffered := s[HeaderSize..]);
        assert ReadExactly(r, HeaderSize) == Got(s[..HeaderSize], r1);
        assert UnpackLength(s[..HeaderSize]) == |m|;
        assert r1.buffered == m + d.rest;
        var r2 := r.(buffered := d.rest);
        assert ReadExactly(r1, |m|) == Got(m, r2) by {
          assert r1.buffered[..|m|] == m && r1.buffered[|m|..] == d.rest;
        }
        ReceivePassDecodesStream(r2);
        assert ReceivePass(r, None).messages == [m] + ReceivePass(r2, None).messages;
    }
  }

  /**
    Resuming after a header reads on exactly as a pass would that found the
    header still in front of the buffer.
  */
  lemma ResumeAsFromHeader(r: Reader, size: nat)
    requires !r.ending.Failed? && size < LengthLimit
    ensures ReceivePass(r, Some(size)) == ReceivePass(r.(buffered := PackLength(size) + r.buffered), None)
  {
    var r' := r.(buffered := PackLength(size) + r.buffered);
    assert r'.buffered[..HeaderSize] == PackLength(size) && r'.buffered[HeaderSize..] == r.buffered;
    assert ReadExactly(r', HeaderSize) == Got(PackLength(size), r);
  }

  /**
    A task that stopped to wait and is resumed once more bytes (and perhaps
    EOF) have arrived hands on, over both passes, exactly the messages of
    the whole stream, in order; with EOF the second pass ends the task.
  */
  lemma ResumedPassDecodesRest(r: Reader, more: seq<byte>, ending: Ending)
    requires r.ending == Waiting && !ending.Failed?
    ensures var p1 := ReceivePass(r, None);
      var p2 := ReceivePass(Reader(p1.reader.buffered + more, ending), p1.pending);
      p1.stop == Suspended
      && p1.messages + p2.messages == DecodeAll(r.buffered + more).messages
      && (ending == AtEof ==> p2.stop == AtIncomplete)
  {
    ReceivePassDecodesStream(r);
    var leftover := DecodeAll(r.buffered).leftover;
    ResumeRereadsLeftover(r, more, ending);
    ReceivePassDecodesStream(Reader(leftover + more, ending));
    DecodeAllExtend(r.buffered, more);
  }

  /** The resumed pass reads as a fresh pass over what the first one left undecoded, followed by the new bytes. */
  lemma ResumeRereadsLeftover(r: Reader, more: seq<byte>, ending: Ending)
    requires r.ending == Waiting && !ending.Failed?
    ensures var p1 := ReceivePass(r, None);
      ReceivePass(Reader(p1.reader.buffered + more, ending), p1.pending)
      == ReceivePass(Reader(DecodeAll(r.buffered).leftover + more, ending), None)
  {
    ReceivePassDecodesStream(r);
    var leftover := DecodeAll(r.buffered).leftover;
    if |leftover| >= HeaderSize {
      var size := UnpackLength(leftover[..HeaderSize]);
      ResumeAsFromHeader(Reader(leftover[HeaderSize..] + more, ending), size);
      PackUnpack(leftover[..HeaderSize]);
      assert PackLength(size) + (leftover[HeaderSize..] + more) == leftover + more by {
        assert leftover == leftover[..HeaderSize] + leftover[HeaderSize..];
      }
    }
  }

  /**
    On the same bytes, the receive task yields the same messages as the
    blocking receiving thread does when every recv delivers.
  */
  lemma SameMessagesAsBlocking(r: Reader, s: Sock)
    requires !r.ending.Failed? && s.inbound == r.buffered
    requires s.open && AllDeliver(s.recvs) && |s.recvs| >= 2 * |s.inbound| + 1
    ensures ReceivePass(r, None).messages == Receiver.ReceiveFrames(s).messages
  {
    ReceivePassDecodesStream(r);
    Receiver.ReceiveFramesDeliversStream(s);
  }

  /** What the connection dispatches. */
  datatype Dispatch = Delivered(message: seq<byte>) | Disconnected

  datatype AsyncState = AsyncState(
    closed: bool,
    transport: Transport,
    reader: Reader,
    pending: Option<nat>,           // the payload size the receive task waits for after a header
    written: seq<byte>,             // bytes handed to the transport
    scheduled: seq<seq<byte>>,      // write coroutines submitted and not yet run
    deferred: seq<seq<byte>>,       // on_receive callbacks queued with call_soon
    events: seq<Dispatch>)

  function Started(reader: Reader, transport: Transport): AsyncState
  {
    AsyncState(false, transport, reader, None, [], [], [], [])
  }

  /** Whether the call raised (AttributeError: there is no transport to close), and the state after it. */
  datatype Outcome = Outcome(raised: bool, state: AsyncState)

  /** close(): only while not yet closed, close the transport, set the flag and dispatch on_disconnect. */
  function AfterClose(a: AsyncState): Outcome
  {
    if a.closed then Outcome(false, a)
    else if a.transport == Absent then Outcome(true, a)
    else Outcome(false, a.(transport := Closing, closed := true, events := a.events + [Disconnected]))
  }

  /** send(message): on a missing or closing transport close instead; otherwise submit one write. */
  function AfterSend(a: AsyncState, message: seq<byte>): Outcome
  {
    if a.transport != Open then AfterClose(a)
    else Outcome(false, a.(scheduled := a.scheduled + [message]))
  }

  /**
    One submitted write coroutine: frame the message and write it; a reset
    while draining closes the connection. Any other exception (a message too
    long for the header, no transport) stays in the coroutine's future and
    changes nothing; a closing transport drops the write.
  */
  function AfterRunSend(a: AsyncState, reset: bool): AsyncState
    requires a.scheduled != []
  {
    var m := a.scheduled[0];
    var a1 := a.(scheduled := a.scheduled[1..]);
    if !Packable(m) || a1.transport == Absent then a1
    else
      var a2 := if a1.transport == Open then a1.(written := a1.written + Frame(m)) else a1;
      if reset then AfterClose(a2).state else a2
  }

  /**
    The receive task, resumed where it last stopped: queue an on_receive per
    message read; an incomplete read closes the connection.
  */
  function AfterReceiveTask(a: AsyncState): AsyncState
  {
    if a.closed then a
    else
      var p := ReceivePass(a.reader, a.pending);
      var a1 := a.(reader := p.reader, pending := p.pending, deferred := a.deferred + p.messages);
      if p.stop == AtIncomplete then AfterClose(a1).state else a1
  }

  /**
    The receive task runs, stops to wait for data, and is resumed after more
    bytes (and perhaps EOF) have arrived: over the two runs it queues
    on_receive for exactly the messages of the whole stream, in order, never
    one made of a payload read as a header; with EOF the second run closes
    the connection and dispatches on_disconnect.
  */
  lemma ReceiveTaskResumes(a: AsyncState, more: seq<byte>, ending: Ending)
    requires !a.closed && a.pending.None? && a.reader.ending == Waiting && !ending.Failed?
    ensures var a1 := AfterReceiveTask(a);
      var a2 := AfterReceiveTask(a1.(reader := Reader(a1.reader.buffered + more, ending)));
      !a1.closed && a1.events == a.events
      && a2.deferred == a.deferred + DecodeAll(a.reader.buffered + more).messages
      && (ending == AtEof && a.transport != Absent ==> a2.closed && a2.events == a.events + [Disconnected])
  {
    ResumedPassDecodesRest(a.reader, more, ending);
  }

  /** The event loop runs the oldest callback queued with call_soon. */
  function AfterCallback(a: AsyncState): AsyncState
    requires a.deferred != []
  {
    a.(deferred := a.deferred[1..], events := a.events + [Delivered(a.deferred[0])])
  }

  /** close() called n times in a row. */
  function CloseTimes(a: AsyncState, n: nat): AsyncState
    decreases n
  {
    if n == 0 then a else CloseTimes(AfterClose(a).state, n - 1)
  }

  /**
    However often close is called, on_disconnect is dispatched at most once:
    exactly once if the connection was open with a transport, never if it was
    already closed; without a transport every call raises and nothing changes.
  */
  lemma {:induction false} CloseDispatchesOnce(a: AsyncState, n: nat)
    requires n >= 1
    ensures CloseTimes(a, n) == AfterClose(a).state
    ensures CloseTimes(a, n).events
         == if a.closed || a.transport == Absent then a.events else a.events + [Disconnected]
    ensures AfterClose(a).raised <==> !a.closed && a.transport == Absent
  {
    if n > 1 {
      CloseIsIdempotent(a);
      CloseTimesFixed(AfterClose(a).state, n - 1);
    }
  }

  lemma CloseIsIdempotent(a: AsyncState)
    ensures AfterClose(AfterClose(a).state).state == AfterClose(a).state
  {
  }

  lemma {:induction false} CloseTimesFixed(a: AsyncState, n: nat)
    requires AfterClose(a).state == a
    ensures CloseTimes(a, n) == a
  {
    if n > 0 {
      CloseTimesFixed(a, n - 1);
    }
  }

  /** send() called once per message, in order; the raised flags are dropped. */
  function SendEach(a: AsyncState, ms: seq<seq<byte>>): AsyncState
    decreases |ms|
  {
    if ms == [] then a else SendEach(AfterSend(a, ms[0]).state, ms[1..])
  }

  /**
    On an open transport every message is submitted for writing, in order,
    and nothing is dispatched; on a missing or closing transport no write is
    ever submitted and the sends amount to one close.
  */
  lemma {:induction false} SendsScheduleInOrder(a: AsyncState, ms: seq<seq<byte>>)
    requires ms != []
    ensures SendEach(a, ms) == if a.transport == Open then a.(scheduled := a.scheduled + ms)
                               else AfterClose(a).state
    decreases |ms|
  {
    var a1 := AfterSend(a, ms[0]).state;
    if |ms| > 1 {
      SendsScheduleInOrder(a1, ms[1..]);
      if a.transport == Open {
        assert a.scheduled + ms == a1.scheduled + ms[1..] by {
          assert ms == [ms[0]] + ms[1..];
        }
      }
    } else {
      assert a.scheduled + ms == a.scheduled + [ms[0]];
    }
  }

  /** The write coroutines run, in submission order, without a reset. */
  function RunSends(a: AsyncState): AsyncState
    decreases |a.scheduled|
  {
    if a.scheduled == [] then a else RunSends(AfterRunSend(a, false))
  }

  /** With the transport open, running the submitted writes puts one frame per message on the wire, in order. */
  lemma {:induction false} RunSendsWritesFrames(a: AsyncState)
    requires a.transport == Open && AllPackable(a.scheduled)
    ensures RunSends(a) == a.(written := a.written + EncodeAll(a.scheduled), scheduled := [])
    decreases |a.scheduled|
  {
    if a.scheduled != [] {
      var m := a.scheduled[0];
      var a1 := AfterRunSend(a, false);
      assert a1 == a.(scheduled := a.scheduled[1..], written := a.written + Frame(m));
      RunSendsWritesFrames(a1);
      assert a.written + EncodeAll(a.scheduled) == a1.written + EncodeAll(a1.scheduled);
    }
  }

  /**
    A peer that has sent everything and then EOF: the receive task queues
    one on_receive per complete frame, in order, then meets the incomplete
    read and closes the connection, dispatching on_disconnect.
  */
  lemma ReceiveTaskAtEof(a: AsyncState)
    requires !a.closed && a.pending.None? && a.transport == Open && a.reader.ending == AtEof
    ensures AfterReceiveTask(a)
         == a.(reader := Reader([], AtEof), deferred := a.deferred + DecodeAll(a.reader.buffered).messages,
               transport := Closing, closed := true, events := a.events + [Disconnected])
  {
    ReceivePassDecodesStream(a.reader);
    var p := ReceivePass(a.reader, None);
    assert p.reader == Reader([], AtEof);
  }

  /**
    Messages sent on an open connection reach a peer whose reader holds the
    written bytes followed by EOF exactly as sent: its receive task queues
    one on_receive per message, in order, and closes the peer connection.
  */
  lemma SentMessagesArriveInOrder(a: AsyncState, ms: seq<seq<byte>>, peer: AsyncState)
    requires a.transport == Open && a.scheduled == [] && a.written == [] && AllPackable(ms)
    requires !peer.closed && peer.pending.None? && peer.transport == Open && peer.deferred == []
    requires peer.reader == Reader(RunSends(SendEach(a, ms)).written, AtEof)
    ensures AfterReceiveTask(peer).deferred == ms
    ensures AfterReceiveTask(peer).events == peer.events + [Disconnected]
  {
    if ms == [] {
      assert SendEach(a, ms) == a && RunSends(a) == a;
    } else {
      SendsScheduleInOrder(a, ms);
    }
    assert SendEach(a, ms).scheduled == ms;
    RunSendsWritesFrames(SendEach(a, ms));
    assert peer.reader.buffered == EncodeAll(ms);
    ReceiveTaskAtEof(peer);
    DecodeAllEncodeAll(ms);
  }

  /**
    The on_receive calls are queued with call_soon while on_disconnect is
    dispatched at once, so a peer that sends frames and hangs up is seen to
    disconnect before any of its messages is delivered.
  */
  lemma DisconnectPrecedesDelivery(a: AsyncState, ms: seq<seq<byte>>)
    requires !a.closed && a.pending.None? && a.transport == Open && a.deferred == [] && |ms| >= 1 && AllPackable(ms)
    requires a.reader == Reader(EncodeAll(ms), AtEof)
    ensures var t := AfterReceiveTask(a);
      t.deferred == ms && t.events == a.events + [Disconnected]
      && AfterCallback(t).events == a.events + [Disconnected] + [Delivered(ms[0])]
  {
    DecodeAllEncodeAll(ms);
    ReceiveTaskAtEof(a);
    assert AfterReceiveTask(a).deferred == ms by {
      assert a.deferred + ms == ms;
    }
  }

  class AsyncConnection {
    var closed: bool
    var transport: Transport
    var reader: Reader
    var pending: Option<nat>
    var written: seq<byte>
    var scheduled: seq<seq<byte>>
    var deferred: seq<seq<byte>>
    var events: seq<Dispatch>

    function State(): AsyncState
      reads this
    {
      AsyncState(closed, transport, reader, pending, written, scheduled, deferred, events)
    }

    /** The reader and the writer's transport are parameters; the receive task is run by ReceiveTask. */
    constructor (reader: Reader, transport: Transport)
      ensures State() == Started(reader, transport)
    {
      closed := false;
      this.transport := transport;
      this.reader := reader;
      pending := None;
      written, scheduled, deferred, events := [], [], [], [];
    }

    method Close() returns (raised: bool)
      modifies this
      ensures Outcome(raised, State()) == AfterClose(old(State()))
    {
      raised := false;
      if !closed {
        if transport == Absent {
          return true;
        }
        transport := Closing;
        closed := true;
        events := events + [Disconnected];
      }
    }

    method Send(message: seq<byte>) returns (raised: bool)
      modifies this
      ensures Outcome(raised, State()) == AfterSend(old(State()), message)
    {
      if transport == Absent || transport == Closing {
        raised := Close();
        return;
      }
      scheduled := scheduled + [message];
      raised := false;
    }

    /** Run the oldest submitted write coroutine; `reset` says whether draining raises ConnectionResetError. */
    method RunSend(reset: bool)
      requires scheduled != []
      modifies this
      ensures State() == AfterRunSend(old(State()), reset)
    {
      var message := scheduled[0];
      scheduled := scheduled[1..];
      if !Packable(message) || transport == Absent {
        return;
      }
      if transport == Open {
        written := written + Frame(message);
      }
      if reset {
        var _ := Close();
      }
    }

    /**
      The receive task (`_recv`), resumed where it last waited, up to the
      point where it ends or waits for data again.
    */
    method ReceiveTask()
      modifies this
      ensures State() == AfterReceiveTask(old(State()))
    {
      while !closed
        invariant AfterReceiveTask(State()) == AfterReceiveTask(old(State()))
        decreases 2 * |reader.buffered| + (if pending.Some? then 1 else 0)
      {
        if pending.None? {
          ghost var before := State();
          var header := ReadExactly(reader, HeaderSize);
          if !header.Got? {
            ReceiveTaskStops(before, header);
            if header.Incomplete? {
              reader := header.reader;
              var _ := Close();
            }
            return;
          }
          reader := header.reader;
          pending := Some(UnpackLength(header.bytes));
          ReceiveTaskTakesHeader(before, header);
        }
        ghost var before := State();
        var message := ReadExactly(reader, pending.value);
        if !message.Got? {
          ReceiveTaskStopsInPayload(before, message);
          if message.Incomplete? {
            reader := message.reader;
            pending := None;
            var _ := Close();
          }
          return;
        }
        reader := message.reader;
        pending := None;
        deferred := deferred + [message.bytes];
        ReceiveTaskContinues(before, message);
      }
    }

    /** The event loop runs the oldest callback queued with call_soon: on_receive for one message. */
    method RunCallback()
      requires deferred != []
      modifies this
      ensures State() == AfterCallback(old(State()))
    {
      events := events + [Delivered(deferred[0])];
      deferred := deferred[1..];
    }
  }

  // Single steps of the receive task, each shown to leave the rest of the task's effect unchanged.

  lemma ReceiveTaskStops(a: AsyncState, header: Readout)
    requires !a.closed && a.pending.None? && header == ReadExactly(a.reader, HeaderSize) && !header.Got?
    ensures header.Incomplete? ==> AfterReceiveTask(a) == AfterClose(a.(reader := header.reader)).state
    ensures !header.Incomplete? ==> AfterReceiveTask(a) == a
  {
    assert a.deferred + [] == a.deferred;
  }

  lemma ReceiveTaskTakesHeader(a: AsyncState, header: Readout)
    requires !a.closed && a.pending.None? && header == ReadExactly(a.reader, HeaderSize) && header.Got?
    ensures AfterReceiveTask(a.(reader := header.reader, pending := Some(UnpackLength(header.bytes))))
         == AfterReceiveTask(a)
  {
  }

  lemma ReceiveTaskStopsInPayload(a: AsyncState, message: Readout)
    requires !a.closed && a.pending.Some? && message == ReadExactly(a.reader, a.pending.value) && !message.Got?
    ensures message.Incomplete? ==> AfterReceiveTask(a) == AfterClose(a.(reader := message.reader, pending := None)).state
    ensures !message.Incomplete? ==> AfterReceiveTask(a) == a
  {
    assert a.deferred + [] == a.deferred;
  }

  lemma ReceiveTaskContinues(a: AsyncState, message: Readout)
    requires !a.closed && a.pending.Some? && message == ReadExactly(a.reader, a.pending.value) && message.Got?
    ensures AfterReceiveTask(a.(reader := message.reader, pending := None, deferred := a.deferred + [message.bytes]))
         == AfterReceiveTask(a)
  {
    var rest := ReceivePass(message.reader, None);
    assert ReceivePass(a.reader, a.pending).messages == [message.bytes] + rest.messages;
    assert a.deferred + ([message.bytes] + rest.messages) == a.deferred + [message.bytes] + rest.messages;
  }
}
