/**
  The blocking connection (`_BaseConnection` in pyglet/net/__init__.py): an
  outbound queue fed by `send`, a `_terminate` flag, a poison-pill sentinel
  pushed by `close`, and two threads: one receiving frames, one writing queued
  messages.

  The threads are modelled sequentially: `ReceiveLoop` and `SendLoop` each run
  one thread's body to the point where it stops or would block. Their effect,
  and the effect of `Close` and `Send`, is stated as a function of the state
  before the call (`AfterClose`, `AfterSend`, `AfterRecvThread`,
  `AfterSendThread`); the lemmas below are about those functions.
*/
module Blocking {
  import opened Base
  import opened Framing
  import opened Sockets
  import opened Receiver

  /** An entry of the outbound queue: a message, or the poison pill that close() pushes. */
  datatype Item = Payload(message: seq<byte>) | Sentinel

  /** The events a connection dispatches, in the order it dispatches them. */
  datatype Event = OnReceive(message: seq<byte>) | OnDisconnect(reason: Option<Error>)

  datatype ConnState = ConnState(terminate: bool, queue: seq<Item>, events: seq<Event>, socket: Sock)

  function Initial(socket: Sock): ConnState
  {
    ConnState(false, [], [], socket)
  }

  /** close(exception): push the sentinel, close the socket, and only the first time set the flag and dispatch on_disconnect. */
  function AfterClose(c: ConnState, exception: Option<Error>): ConnState
  {
    ConnState(true, c.queue + [Sentinel],
              if c.terminate then c.events else c.events + [OnDisconnect(exception)],
              c.socket.(open := false))
  }

  /** What send raised, if anything, and the state after it. */
  datatype Sending = Sending(raised: Option<Error>, state: ConnState)

  /** send(message): ConnectionError once closed, otherwise the message joins the tail of the queue. */
  function AfterSend(c: ConnState, message: seq<byte>): Sending
  {
    if c.terminate then Sending(Some(ConnectionClosed), c)
    else Sending(None, c.(queue := c.queue + [Payload(message)]))
  }

  function Receipts(ms: seq<seq<byte>>): (es: seq<Event>)
    ensures |es| == |ms| && forall i :: 0 <= i < |ms| ==> es[i] == OnReceive(ms[i])
  {
    if ms == [] then [] else [OnReceive(ms[0])] + Receipts(ms[1..])
  }

  /** The receiving thread: dispatch every frame it reads, then close with the error that ended it. */
  function AfterRecvThread(c: ConnState): ConnState
  {
    if c.terminate then c
    else
      var r := ReceiveFrames(c.socket);
      AfterClose(c.(socket := r.sock, events := c.events + Receipts(r.messages)), Some(r.error))
  }

  /**
    The messages the sending thread took off the queue and wrote whole, the
    part of a frame a failed sendall had already written, what is left of the
    queue, the socket, and the failure that stopped the thread.
  */
  datatype Drained = Drained(sent: seq<seq<byte>>, torn: seq<byte>, rest: seq<Item>, sock: Sock, fault: Option<Error>)

  /**
    The sending thread's loop over the queue: each message is framed and
    written with sendall; the sentinel stops the loop and writes nothing; an
    empty queue is where get() blocks.
  */
  function Drain(q: seq<Item>, s: Sock): Drained
    decreases |q|
  {
    if q == [] then Drained([], [], [], s, None)
    else match q[0]
      case Sentinel => Drained([], [], q[1..], s, None)
      case Payload(m) =>
        if !Packable(m) then Drained([], [], q[1..], s, Some(StructError))
        else
          var w := SendAll(s, Frame(m));
          if w.fault.Some? then Drained([], w.written, q[1..], w.sock, w.fault)
          else
            var d := Drain(q[1..], w.sock);
            d.(sent := [m] + d.sent)
  }

  /** The sending thread: drain the queue, closing with the error if a write failed. */
  function AfterSendThread(c: ConnState): ConnState
  {
    if c.terminate then c
    else
      var d := Drain(c.queue, c.socket);
      var c' := c.(queue := d.rest, socket := d.sock);
      if d.fault.Some? then AfterClose(c', d.fault) else c'
  }

  /** The receiving thread stops the way the receiver did: every received frame dispatched, then close. */
  lemma RecvThreadStops(c: ConnState, r: Received)
    requires !c.terminate && ReceiveFrames(c.socket) == r && r.messages == []
    ensures AfterRecvThread(c) == AfterClose(c.(socket := r.sock), Some(r.error))
  {
    assert c.events + Receipts([]) == c.events;
  }

  /** Dispatching one frame and carrying on is the same thread. */
  lemma RecvThreadContinues(c: ConnState, m: seq<byte>, after: Sock)
    requires !c.terminate
    requires ReceiveFrames(c.socket) == ReceiveFrames(after).(messages := [m] + ReceiveFrames(after).messages)
    ensures var c' := c.(socket := after, events := c.events + [OnReceive(m)]);
      AfterRecvThread(c') == AfterRecvThread(c)
  {
    var rest := ReceiveFrames(after);
    ReceiptsCons(m, rest.messages);
    assert c.events + Receipts([m] + rest.messages) == c.events + [OnReceive(m)] + Receipts(rest.messages);
  }

  lemma ReceiptsCons(m: seq<byte>, ms: seq<seq<byte>>)
    ensures Receipts([m] + ms) == [OnReceive(m)] + Receipts(ms)
  {
    assert ([m] + ms)[1..] == ms;
  }

  function Sentinels(n: nat): (q: seq<Item>)
    ensures |q| == n && forall i :: 0 <= i < n ==> q[i] == Sentinel
  {
    if n == 0 then [] else [Sentinel] + Sentinels(n - 1)
  }

  /** close() called once per reason, in that order. */
  function CloseEach(c: ConnState, reasons: seq<Option<Error>>): ConnState
    decreases |reasons|
  {
    if reasons == [] then c else CloseEach(AfterClose(c, reasons[0]), reasons[1..])
  }

  /**
    close is safe to call any number of times: on_disconnect goes out once,
    with the first call's reason and not at all if the connection was already
    closed; the socket ends up closed and each call wakes the sending thread
    with one more sentinel.
  */
  lemma {:induction false} CloseDispatchesOnce(c: ConnState, reasons: seq<Option<Error>>)
    requires reasons != []
    ensures var d := CloseEach(c, reasons);
      d.terminate && d.socket == c.socket.(open := false)
      && d.events == (if c.terminate then c.events else c.events + [OnDisconnect(reasons[0])])
      && d.queue == c.queue + Sentinels(|reasons|)
    decreases |reasons|
  {
    var c1 := AfterClose(c, reasons[0]);
    assert Sentinels(|reasons|) == [Sentinel] + Sentinels(|reasons| - 1);
    if |reasons| > 1 {
      CloseDispatchesOnce(c1, reasons[1..]);
    }
  }

  function Payloads(ms: seq<seq<byte>>): (q: seq<Item>)
    ensures |q| == |ms| && forall i :: 0 <= i < |ms| ==> q[i] == Payload(ms[i])
  {
    if ms == [] then [] else [Payload(ms[0])] + Payloads(ms[1..])
  }

  /** send() called once per message, in that order. */
  function SendEach(c: ConnState, ms: seq<seq<byte>>): ConnState
    decreases |ms|
  {
    if ms == [] then c else SendEach(AfterSend(c, ms[0]).state, ms[1..])
  }

  /**
    On an open connection the messages join the queue in the order they were
    sent; once it is closed every send raises and leaves the state as it was.
  */
  lemma {:induction false} SendsQueueInOrder(c: ConnState, ms: seq<seq<byte>>)
    ensures SendEach(c, ms) == if c.terminate then c else c.(queue := c.queue + Payloads(ms))
    decreases |ms|
  {
    if ms != [] {
      var c1 := AfterSend(c, ms[0]).state;
      SendsQueueInOrder(c1, ms[1..]);
      if !c.terminate {
        assert Payloads(ms) == [Payload(ms[0])] + Payloads(ms[1..]);
        AppendAssoc(c.queue, [Payload(ms[0])], Payloads(ms[1..]));
      }
    }
  }

  /**
    After close nothing moves any more: sends raise without queueing, and
    neither thread reads, writes or dispatches (messages still queued are
    never written).
  */
  lemma CloseStopsTraffic(c: ConnState, exception: Option<Error>, ms: seq<seq<byte>>)
    ensures var d := AfterClose(c, exception);
      SendEach(d, ms) == d && AfterSendThread(d) == d && AfterRecvThread(d) == d
  {
    SendsQueueInOrder(AfterClose(c, exception), ms);
  }

  /** The messages waiting in a queue ahead of its first sentinel. */
  function Pending(q: seq<Item>): (ms: seq<seq<byte>>)
    ensures |ms| <= |q|
  {
    if q == [] || q[0].Sentinel? then [] else [q[0].message] + Pending(q[1..])
  }

  /**
    What one pass of the sending thread over q, starting on socket s, does
    (d is the pass's result). It takes only messages ahead of the first
    sentinel, in queue order, and writes one whole frame for each; a failed
    sendall may add part of the next message's frame, and nothing else is
    written; unless something failed it takes every message ahead of the
    sentinel; and what it leaves in the queue is what follows the item it
    stopped at (the sentinel, or the message that failed).
  */
  predicate WritesFrames(q: seq<Item>, s: Sock, d: Drained)
  {
    AllPackable(d.sent) && |d.sent| <= |Pending(q)| && d.sent == Pending(q)[..|d.sent|]
    && d.sock.outbound == s.outbound + EncodeAll(d.sent) + d.torn
    && d.sock.open == s.open && d.sock.inbound == s.inbound && d.sock.recvs == s.recvs
    && (d.fault.None? ==> d.sent == Pending(q) && d.torn == [])
    && (d.torn != [] ==>
          |d.sent| < |Pending(q)| && Packable(Pending(q)[|d.sent|])
          && |d.torn| <= |Frame(Pending(q)[|d.sent|])| && d.torn == Frame(Pending(q)[|d.sent|])[..|d.torn|])
    && d.rest == q[Min(|d.sent| + 1, |q|)..]
  }

  lemma {:induction false} DrainWritesFrames(q: seq<Item>, s: Sock)
    ensures WritesFrames(q, s, Drain(q, s))
    decreases |q|
  {
    if q != [] && q[0].Payload? && Packable(q[0].message) && SendAll(s, Frame(q[0].message)).fault.None? {
      var w := SendAll(s, Frame(q[0].message));
      DrainWritesFrames(q[1..], w.sock);
      DrainWritesFramesStep(q, s);
    } else {
      DrainStopsAtOnce(q, s);
    }
  }

  /** The cases where the sending thread stops at the first item: nothing whole is written. */
  lemma DrainStopsAtOnce(q: seq<Item>, s: Sock)
    requires q != [] && q[0].Payload? && Packable(q[0].message) ==> SendAll(s, Frame(q[0].message)).fault.Some?
    ensures WritesFrames(q, s, Drain(q, s))
  {
    var d := Drain(q, s);
    assert d.sent == [] && EncodeAll(d.sent) == [];
    assert s.outbound + [] + d.torn == s.outbound + d.torn;
    if q != [] && q[0].Payload? {
      assert Pending(q) == [q[0].message] + Pending(q[1..]);
    }
  }

  /**
    The sending thread on an open connection writes one frame per message it
    takes, in queue order, possibly followed by part of the frame whose write
    failed. When a write fails it closes the connection with that error,
    dispatching on_disconnect once and pushing a sentinel after what is left
    of the queue; otherwise it has taken every message ahead of the first
    sentinel, dispatches nothing and leaves the connection open with the
    items after that sentinel still queued.
  */
  lemma SendThreadWrites(c: ConnState)
    requires !c.terminate
    ensures var d := Drain(c.queue, c.socket);
      var e := AfterSendThread(c);
      AllPackable(d.sent) && |d.sent| <= |Pending(c.queue)| && d.sent == Pending(c.queue)[..|d.sent|]
      && e.socket.outbound == c.socket.outbound + EncodeAll(d.sent) + d.torn
      && e.queue == c.queue[Min(|d.sent| + 1, |c.queue|)..] + (if d.fault.Some? then [Sentinel] else [])
      && (d.fault.Some? ==> e.terminate && !e.socket.open && e.events == c.events + [OnDisconnect(d.fault)])
      && (d.fault.None? ==> !e.terminate && e.events == c.events && d.sent == Pending(c.queue) && d.torn == []
                            && e.socket.open == c.socket.open)
  {
    DrainWritesFrames(c.queue, c.socket);
  }

  /** The inductive step of DrainWritesFrames: one message written, then the rest as the hypothesis says. */
  lemma DrainWritesFramesStep(q: seq<Item>, s: Sock)
    requires q != [] && q[0].Payload? && Packable(q[0].message)
    requires SendAll(s, Frame(q[0].message)).fault.None?
    requires var w := SendAll(s, Frame(q[0].message)).sock;
      WritesFrames(q[1..], w, Drain(q[1..], w))
    ensures WritesFrames(q, s, Drain(q, s))
  {
    var m := q[0].message;
    var w := SendAll(s, Frame(m)).sock;
    var d := Drain(q[1..], w);
    assert Drain(q, s) == d.(sent := [m] + d.sent);
    assert Pending(q) == [m] + Pending(q[1..]);
    PrefixCons(m, d.sent, Pending(q[1..]));
    assert d.sock.outbound == s.outbound + EncodeAll([m] + d.sent) + d.torn by {
      EncodeAllCons(m, d.sent);
      AppendAssoc(s.outbound, Frame(m), EncodeAll(d.sent));
    }
    assert d.torn != [] ==> Pending(q)[|[m] + d.sent|] == Pending(q[1..])[|d.sent|];
    assert q[1..][Min(|d.sent| + 1, |q| - 1)..] == q[Min(|[m] + d.sent| + 1, |q|)..];
  }

  lemma AppendAssoc<T>(a: seq<T>, b: seq<T>, c: seq<T>)
    ensures (a + b) + c == a + (b + c)
  {
  }

  predicate Accepts(steps: seq<WriteStep>, n: nat)
  {
    n <= |steps| && forall i :: 0 <= i < n ==> steps[i].Accept?
  }

  /** With a socket that accepts every write, the queued messages are all written, one frame each, in order. */
  lemma {:induction false} DrainPayloads(ms: seq<seq<byte>>, s: Sock)
    requires AllPackable(ms) && s.open && Accepts(s.sends, |ms|)
    ensures Drain(Payloads(ms), s)
         == Drained(ms, [], [], s.(outbound := s.outbound + EncodeAll(ms), sends := s.sends[|ms|..]), None)
    decreases |ms|
  {
    if ms == [] {
      assert EncodeAll(ms) == [];
      NothingWritten(s);
    } else {
      var w := s.(outbound := s.outbound + Frame(ms[0]), sends := s.sends[1..]);
      DrainPayloads(ms[1..], w);
      DrainFirstThenOthers(ms, s);
    }
  }

  /** The inductive step of DrainPayloads: the first message, then the others as the hypothesis says. */
  lemma DrainFirstThenOthers(ms: seq<seq<byte>>, s: Sock)
    requires ms != [] && AllPackable(ms) && s.open && Accepts(s.sends, |ms|)
    requires var w := s.(outbound := s.outbound + Frame(ms[0]), sends := s.sends[1..]);
      Drain(Payloads(ms[1..]), w)
      == Drained(ms[1..], [], [], w.(outbound := w.outbound + EncodeAll(ms[1..]), sends := w.sends[|ms| - 1..]), None)
    ensures Drain(Payloads(ms), s)
         == Drained(ms, [], [], s.(outbound := s.outbound + EncodeAll(ms), sends := s.sends[|ms|..]), None)
  {
    var m := ms[0];
    var w := s.(outbound := s.outbound + Frame(m), sends := s.sends[1..]);
    var y := Drain(Payloads(ms[1..]), w);
    assert Drain(Payloads(ms), s) == y.(sent := [m] + y.sent) by {
      assert Payloads(ms) == [Payload(m)] + Payloads(ms[1..]);
      DrainAccepted(m, Payloads(ms[1..]), s);
    }
    assert w.(outbound := w.outbound + EncodeAll(ms[1..]), sends := w.sends[|ms| - 1..])
        == s.(outbound := s.outbound + EncodeAll(ms), sends := s.sends[|ms|..]) by {
      WrittenInTurn(ms, s);
    }
    assert [m] + ms[1..] == ms;
  }

  /** Writing the first frame and then the others leaves the socket as writing all of them at once. */
  lemma WrittenInTurn(ms: seq<seq<byte>>, s: Sock)
    requires ms != [] && AllPackable(ms) && |ms| <= |s.sends|
    ensures var w := s.(outbound := s.outbound + Frame(ms[0]), sends := s.sends[1..]);
      w.(outbound := w.outbound + EncodeAll(ms[1..]), sends := w.sends[|ms| - 1..])
      == s.(outbound := s.outbound + EncodeAll(ms), sends := s.sends[|ms|..])
  {
    SockWrites(s, Frame(ms[0]), EncodeAll(ms[1..]), |ms|);
  }

  lemma NothingWritten(s: Sock)
    ensures s.(outbound := s.outbound + [], sends := s.sends[0..]) == s
  {
    assert s.outbound + [] == s.outbound && s.sends[0..] == s.sends;
  }

  lemma SockWrites(s: Sock, a: seq<byte>, b: seq<byte>, n: nat)
    requires 1 <= n <= |s.sends|
    ensures s.(outbound := s.outbound + a, sends := s.sends[1..]).(outbound := s.outbound + a + b, sends := s.sends[1..][n - 1..])
         == s.(outbound := s.outbound + (a + b), sends := s.sends[n..])
  {
    assert s.sends[1..][n - 1..] == s.sends[n..];
  }

  /** One message the socket accepts: its frame is written and the thread goes on with the rest of the queue. */
  lemma DrainAccepted(m: seq<byte>, rest: seq<Item>, s: Sock)
    requires Packable(m) && s.open && s.sends != [] && s.sends[0].Accept?
    ensures var w := s.(outbound := s.outbound + Frame(m), sends := s.sends[1..]);
      var d := Drain(rest, w);
      Drain([Payload(m)] + rest, s) == d.(sent := [m] + d.sent)
  {
    assert ([Payload(m)] + rest)[1..] == rest;
  }

  /**
    Messages sent on an open connection leave, once the sending thread has
    run, as one frame each in order, and a peer's receiving side hands back
    exactly those messages.
  */
  lemma SentMessagesArriveInOrder(c: ConnState, ms: seq<seq<byte>>)
    requires !c.terminate && c.queue == [] && c.socket.open && c.socket.outbound == []
    requires AllPackable(ms) && Accepts(c.socket.sends, |ms|)
    ensures var d := AfterSendThread(SendEach(c, ms));
      !d.terminate && d.queue == [] && d.events == c.events && d.socket.outbound == EncodeAll(ms)
      && forall peer: Sock ::
           (peer.open && AllDeliver(peer.recvs) && peer.inbound == d.socket.outbound
            && |peer.recvs| >= 2 * |peer.inbound| + 1) ==> ReceiveFrames(peer).messages == ms
  {
    SendsQueueInOrder(c, ms);
    var c1 := c.(queue := Payloads(ms));
    assert SendEach(c, ms) == c1 by {
      assert c.queue + Payloads(ms) == Payloads(ms);
    }
    DrainPayloads(ms, c.socket);
    var s' := c.socket.(outbound := c.socket.outbound + EncodeAll(ms), sends := c.socket.sends[|ms|..]);
    assert AfterSendThread(c1) == c1.(queue := [], socket := s');
    assert s'.outbound == EncodeAll(ms);
    forall peer: Sock | peer.open && AllDeliver(peer.recvs) && peer.inbound == EncodeAll(ms)
                  && |peer.recvs| >= 2 * |peer.inbound| + 1
      ensures ReceiveFrames(peer).messages == ms
    {
      ReceiveRoundTrip(ms, peer);
    }
  }

  /**
    The receiving thread dispatches on_receive for a prefix of the messages in
    the peer's stream, in order, and then exactly one on_disconnect carrying
    the error that stopped it; afterwards the connection is closed.
  */
  lemma RecvThreadDispatches(c: ConnState)
    requires !c.terminate
    ensures var d := AfterRecvThread(c);
      var stream := DecodeAll(c.socket.inbound).messages;
      var k := |d.events| - |c.events| - 1;
      d.terminate && !d.socket.open && d.queue == c.queue + [Sentinel]
      && 0 <= k <= |stream| && d.events[..|c.events|] == c.events
      && (forall i :: 0 <= i < k ==> d.events[|c.events| + i] == OnReceive(stream[i]))
      && d.events[|d.events| - 1] == OnDisconnect(Some(ReceiveFrames(c.socket).error))
  {
    var r := ReceiveFrames(c.socket);
    ReceivedArePrefixOfStream(c.socket);
    var d := AfterRecvThread(c);
    assert d.events == c.events + Receipts(r.messages) + [OnDisconnect(Some(r.error))];
    assert d.events[..|c.events|] == c.events;
    forall i | 0 <= i < |r.messages|
      ensures d.events[|c.events| + i] == OnReceive(DecodeAll(c.socket.inbound).messages[i])
    {
      assert d.events[|c.events| + i] == Receipts(r.messages)[i];
    }
  }

  /** A peer that hangs up in the middle of a header: no message, one on_disconnect, and the connection closed. */
  lemma PeerHangsUpMidHeader(c: ConnState, k: nat)
    requires !c.terminate && k >= 2 && c.socket == Sock(true, [5, 0], Delivers(k), [], [])
    ensures AfterRecvThread(c)
         == ConnState(true, c.queue + [Sentinel], c.events + [OnDisconnect(Some(EndOfStream))],
                      Sock(false, [], Delivers(k - 2), [], []))
  {
    EofEndsReceive(k);
    assert c.events + Receipts([]) == c.events;
  }

  class Connection {
    var terminate: bool
    var queue: seq<Item>
    var events: seq<Event>
    var socket: Sock

    function State(): ConnState
      reads this
    {
      ConnState(terminate, queue, events, socket)
    }

    constructor (socket: Sock)
      ensures State() == Initial(socket)
    {
      terminate, queue, events := false, [], [];
      this.socket := socket;
    }

    method Close(exception: Option<Error>)
      modifies this
      ensures State() == AfterClose(old(State()), exception)
    {
      queue := queue + [Sentinel];
      socket := socket.(open := false);
      if !terminate {
        terminate := true;
        events := events + [OnDisconnect(exception)];
      }
    }

    method Send(message: seq<byte>) returns (raised: Option<Error>)
      modifies this
      ensures Sending(raised, State()) == AfterSend(old(State()), message)
    {
      if terminate {
        return Some(ConnectionClosed);
      }
      queue := queue + [Payload(message)];
      raised := None;
    }

    /** One recv(n) and then more recv calls until n bytes have arrived. */
    method RecvExactly(n: nat) returns (r: Result<seq<byte>>)
      modifies this
      ensures Read(r, socket) == ReadExactly(old(socket), n)
      ensures terminate == old(terminate) && queue == old(queue) && events == old(events)
    {
      var first := Recv(socket, n);
      socket := first.sock;
      if first.result.Err? {
        return first.result;
      }
      var buf := first.result.value;
      if n > 0 && buf == [] {
        return Err(EndOfStream);
      }
      while |buf| < n
        invariant |buf| <= n
        invariant Fill(socket, buf, n) == ReadExactly(old(socket), n)
        invariant terminate == old(terminate) && queue == old(queue) && events == old(events)
        decreases |socket.recvs|
      {
        var chunk := Recv(socket, n - |buf|);
        socket := chunk.sock;
        if chunk.result.Err? {
          return chunk.result;
        }
        if chunk.result.value == [] {
          return Err(EndOfStream);
        }
        buf := buf + chunk.result.value;
      }
      r := Ok(buf);
    }

    /** The receiving thread's body (`_recv`). */
    method ReceiveLoop()
      modifies this
      ensures State() == AfterRecvThread(old(State()))
    {
      while !terminate
        invariant AfterRecvThread(State()) == AfterRecvThread(old(State()))
        decreases |socket.recvs|
      {
        ghost var before := State();
        var header := RecvExactly(HeaderSize);
        if header.Err? {
          RecvThreadStops(before, Received([], header.error, socket));
          Close(Some(header.error));
          break;
        }
        var message := RecvExactly(UnpackLength(header.value));
        if message.Err? {
          RecvThreadStops(before, Received([], message.error, socket));
          Close(Some(message.error));
          break;
        }
        events := events + [OnReceive(message.value)];
        RecvThreadContinues(before, message.value, socket);
      }
    }

    /** The sending thread's body (`_send`); it stops where queue.get() would block on an empty queue. */
    method SendLoop()
      modifies this
      ensures State() == AfterSendThread(old(State()))
    {
      while !terminate && queue != []
        invariant AfterSendThread(State()) == AfterSendThread(old(State()))
        decreases |queue|
      {
        ghost var before := State();
        var item := queue[0];
        queue := queue[1..];
        if item.Sentinel? {
          break;
        }
        var packet := Encode(item.message);
        if packet.None? {
          Close(Some(StructError));
          break;
        }
        var sent := SendAll(socket, packet.value);
        socket := sent.sock;
        if sent.fault.Some? {
          Close(sent.fault);
          break;
        }
        assert AfterSendThread(State()) == AfterSendThread(before) by {
          var d := Drain(queue, socket);
          assert Drain(before.queue, before.socket) == d.(sent := [item.message] + d.sent);
        }
      }
    }
  }
}
