/**
  The receiving half of the blocking connection (`_BaseConnection._recv`):
  read a 4-byte header, unpack the payload length, read that many bytes,
  dispatch the payload, and start again, until a read fails.

  The functions here are the specification the connection's receiving loop is
  proved against. `ReadExactly` is the corrected read: each follow-up recv asks
  only for the bytes still missing, and an empty recv (the peer shut down) ends
  the read. The functions suffixed `AsWritten` follow the source line by line,
  and the lemmas next to them exhibit where it goes wrong.
*/
module Receiver {
  import opened Base
  import opened Framing
  import opened Sockets

  /** Keep reading until buf holds n bytes, asking each time only for what is missing. */
  function Fill(s: Sock, buf: seq<byte>, n: nat): (r: Read)
    requires |buf| <= n
    ensures SameSendSide(s, r.sock)
    ensures r.result.Ok? ==> |r.result.value| == n && r.result.value + r.sock.inbound == buf + s.inbound
    ensures |r.sock.recvs| <= |s.recvs|
    decreases |s.recvs|
  {
    if |buf| == n then Read(Ok(buf), s)
    else
      var r := Recv(s, n - |buf|);
      match r.result
      case Err(_) => r
      case Ok(chunk) =>
        if chunk == [] then Read(Err(EndOfStream), r.sock)
        else Fill(r.sock, buf + chunk, n)
  }

  /**
    Read exactly n bytes: one recv(n), then more until n bytes have arrived.
    On success the bytes are exactly the next n the peer sent.
  */
  function ReadExactly(s: Sock, n: nat): (r: Read)
    ensures SameSendSide(s, r.sock)
    ensures r.result.Ok? ==> |r.result.value| == n && r.result.value + r.sock.inbound == s.inbound
    ensures r.result.Ok? ==> |r.sock.recvs| < |s.recvs|
  {
    var r := Recv(s, n);
    match r.result
    case Err(_) => r
    case Ok(first) =>
      if n > 0 && first == [] then Read(Err(EndOfStream), r.sock)
      else Fill(r.sock, first, n)
  }

  /** The payloads one receiving thread dispatches, the error that ends it, and the socket after it. */
  datatype Received = Received(messages: seq<seq<byte>>, error: Error, sock: Sock)

  /** The receiving loop: frames are read and dispatched until a read fails. */
  function ReceiveFrames(s: Sock): (r: Received)
    ensures SameSendSide(s, r.sock)
    decreases |s.recvs|
  {
    var h := ReadExactly(s, HeaderSize);
    match h.result
    case Err(e) => Received([], e, h.sock)
    case Ok(header) =>
      var p := ReadExactly(h.sock, UnpackLength(header));
      match p.result
      case Err(e) => Received([], e, p.sock)
      case Ok(message) =>
        var rest := ReceiveFrames(p.sock);
        Received([message] + rest.messages, rest.error, rest.sock)
  }

  /**
    Whatever the chunking and whatever failures the transport produces, the
    receiver dispatches, in order, a prefix of the messages the reference
    decoder finds in the peer's byte stream: never a corrupted, reordered or
    invented message.
  */
  lemma {:induction false} ReceivedArePrefixOfStream(s: Sock)
    ensures |ReceiveFrames(s).messages| <= |DecodeAll(s.inbound).messages|
    ensures ReceiveFrames(s).messages == DecodeAll(s.inbound).messages[..|ReceiveFrames(s).messages|]
    decreases |s.recvs|
  {
    var h := ReadExactly(s, HeaderSize);
    if h.result.Ok? && ReadExactly(h.sock, UnpackLength(h.result.value)).result.Ok? {
      var p := ReadExactly(h.sock, UnpackLength(h.result.value));
      ReceivedArePrefixOfStream(p.sock);
      PrefixExtends(s);
    } else {
      assert ReceiveFrames(s).messages == [];
    }
  }

  /** The inductive step of ReceivedArePrefixOfStream: one whole frame, then a prefix of the rest. */
  lemma PrefixExtends(s: Sock)
    requires ReadExactly(s, HeaderSize).result.Ok?
    requires var h := ReadExactly(s, HeaderSize);
      ReadExactly(h.sock, UnpackLength(h.result.value)).result.Ok?
    requires var h := ReadExactly(s, HeaderSize);
      var p := ReadExactly(h.sock, UnpackLength(h.result.value));
      var got, stream := ReceiveFrames(p.sock).messages, DecodeAll(p.sock.inbound).messages;
      |got| <= |stream| && got == stream[..|got|]
    ensures |ReceiveFrames(s).messages| <= |DecodeAll(s.inbound).messages|
    ensures ReceiveFrames(s).messages == DecodeAll(s.inbound).messages[..|ReceiveFrames(s).messages|]
  {
    var h := ReadExactly(s, HeaderSize);
    var p := ReadExactly(h.sock, UnpackLength(h.result.value));
    var m := p.result.value;
    FrameReadAtFront(s);
    PrefixCons(m, ReceiveFrames(p.sock).messages, DecodeAll(p.sock.inbound).messages);
  }

  lemma PrefixCons<T>(x: T, a: seq<T>, b: seq<T>)
    requires |a| <= |b| && a == b[..|a|]
    ensures |[x] + a| <= |[x] + b| && [x] + a == ([x] + b)[..|[x] + a|]
  {
  }

  /** A frame the receiver reads whole is the first frame the reference decoder finds. */
  lemma FrameReadAtFront(s: Sock)
    requires ReadExactly(s, HeaderSize).result.Ok?
    requires var h := ReadExactly(s, HeaderSize);
      ReadExactly(h.sock, UnpackLength(h.result.value)).result.Ok?
    ensures var h := ReadExactly(s, HeaderSize);
      var p := ReadExactly(h.sock, UnpackLength(h.result.value));
      DecodeAll(s.inbound).messages == [p.result.value] + DecodeAll(p.sock.inbound).messages
      && ReceiveFrames(s).messages == [p.result.value] + ReceiveFrames(p.sock).messages
  {
    var h := ReadExactly(s, HeaderSize);
    var header := h.result.value;
    var p := ReadExactly(h.sock, UnpackLength(header));
    var m := p.result.value;
    PackUnpack(header);
    assert s.inbound == Frame(m) + p.sock.inbound;
    DecodeFrameOfFrame(m, p.sock.inbound);
  }

  lemma {:induction false} FillCompletes(s: Sock, buf: seq<byte>, n: nat)
    requires |buf| <= n && s.open && AllDeliver(s.recvs)
    requires |s.inbound| >= n - |buf| && |s.recvs| >= n - |buf|
    ensures Fill(s, buf, n).result == Ok(buf + s.inbound[..n - |buf|])
    ensures Fill(s, buf, n).sock.inbound == s.inbound[n - |buf|..]
    ensures |Fill(s, buf, n).sock.recvs| >= |s.recvs| - (n - |buf|)
    ensures AllDeliver(Fill(s, buf, n).sock.recvs)
    decreases |s.recvs|
  {
    if |buf| < n {
      assert s.recvs[0].Deliver?;
      var r := Recv(s, n - |buf|);
      assert r.result.Ok?;
      var chunk := r.result.value;
      assert chunk != [];
      assert Fill(s, buf, n) == Fill(r.sock, buf + chunk, n);
      FillCompletes(r.sock, buf + chunk, n);
      assert s.inbound[..n - |buf|] == chunk + r.sock.inbound[..n - |buf| - |chunk|];
      assert (buf + chunk) + r.sock.inbound[..n - |buf| - |chunk|] == buf + s.inbound[..n - |buf|];
      assert s.inbound[n - |buf|..] == r.sock.inbound[n - |buf| - |chunk|..];
    } else {
      assert buf + s.inbound[..0] == buf && s.inbound[0..] == s.inbound;
    }
  }

  lemma {:induction false} FillMeetsEnd(s: Sock, buf: seq<byte>, n: nat)
    requires |buf| <= n && s.open && AllDeliver(s.recvs)
    requires |s.inbound| < n - |buf| && |s.recvs| > |s.inbound|
    ensures Fill(s, buf, n).result == Err(EndOfStream)
    decreases |s.recvs|
  {
    var r := Recv(s, n - |buf|);
    if s.inbound != [] {
      FillMeetsEnd(r.sock, buf + r.result.value, n);
    }
  }

  /** With every recv handing over at least one byte and enough of them, the read takes exactly the next n bytes. */
  lemma ReadExactlyCompletes(s: Sock, n: nat)
    requires s.open && AllDeliver(s.recvs) && |s.inbound| >= n && |s.recvs| >= Max(n, 1)
    ensures ReadExactly(s, n).result == Ok(s.inbound[..n])
    ensures ReadExactly(s, n).sock.inbound == s.inbound[n..]
    ensures |ReadExactly(s, n).sock.recvs| >= |s.recvs| - Max(n, 1)
    ensures AllDeliver(ReadExactly(s, n).sock.recvs)
  {
    var r := Recv(s, n);
    var first := r.result.value;
    FillCompletes(r.sock, first, n);
    assert s.inbound[..n] == first + r.sock.inbound[..n - |first|];
  }

  lemma ReadExactlyMeetsEnd(s: Sock, n: nat)
    requires s.open && AllDeliver(s.recvs) && |s.inbound| < n && |s.recvs| > |s.inbound|
    ensures ReadExactly(s, n).result == Err(EndOfStream)
  {
    var r := Recv(s, n);
    if r.result.value != [] {
      FillMeetsEnd(r.sock, r.result.value, n);
    }
  }

  /**
    Liveness: when every recv hands over at least one byte and there are
    enough recv calls (one per byte, one per empty payload, one to see the
    peer shut down), the receiver dispatches every whole frame the peer sent,
    in order, and then ends because the peer shut down.
  */
  lemma {:induction false} ReceiveFramesDeliversStream(s: Sock)
    requires s.open && AllDeliver(s.recvs) && |s.recvs| >= 2 * |s.inbound| + 1
    ensures ReceiveFrames(s).messages == DecodeAll(s.inbound).messages
    ensures ReceiveFrames(s).error == EndOfStream
    decreases |s.inbound|
  {
    var h := ReadExactly(s, HeaderSize);
    if |s.inbound| < HeaderSize {
      ReadExactlyMeetsEnd(s, HeaderSize);
      assert DecodeFrame(s.inbound) == None;
    } else {
      ReadExactlyCompletes(s, HeaderSize);
      var header := h.result.value;
      assert header == s.inbound[..HeaderSize];
      var n := UnpackLength(header);
      var p := ReadExactly(h.sock, n);
      if |h.sock.inbound| < n {
        ReadExactlyMeetsEnd(h.sock, n);
        assert DecodeFrame(s.inbound) == None;
      } else {
        ReadExactlyCompletes(h.sock, n);
        var m := p.result.value;
        assert s.inbound == header + m + p.sock.inbound;
        PackUnpack(header);
        assert s.inbound == Frame(m) + p.sock.inbound;
        DecodeFrameOfFrame(m, p.sock.inbound);
        ReceiveFramesDeliversStream(p.sock);
        assert ReceiveFrames(s).messages == [m] + ReceiveFrames(p.sock).messages;
      }
    }
  }

  /** The round trip: a peer that sends ms and shuts down, read with any chunking, delivers exactly ms. */
  lemma ReceiveRoundTrip(ms: seq<seq<byte>>, s: Sock)
    requires AllPackable(ms) && s.inbound == EncodeAll(ms)
    requires s.open && AllDeliver(s.recvs) && |s.recvs| >= 2 * |s.inbound| + 1
    ensures ReceiveFrames(s).messages == ms && ReceiveFrames(s).error == EndOfStream
  {
    DecodeAllEncodeAll(ms);
    ReceiveFramesDeliversStream(s);
  }

  // ---------------------------------------------------------------------------
  // The receiving loop as written in the source.

  /** `while len(buf) < n: buf += socket.recv(n)`: every follow-up recv asks for n bytes again. */
  function FillAsWritten(s: Sock, buf: seq<byte>, n: nat): (r: Read)
    ensures SameSendSide(s, r.sock)
    ensures r.result.Ok? ==> |r.result.value| >= n
    ensures |r.sock.recvs| <= |s.recvs|
    decreases |s.recvs|
  {
    if |buf| >= n then Read(Ok(buf), s)
    else
      var r := Recv(s, n);
      match r.result
      case Err(_) => r
      case Ok(chunk) => FillAsWritten(r.sock, buf + chunk, n)
  }

  /** `buf = socket.recv(n)` followed by the loop above. */
  function ReadAsWritten(s: Sock, n: nat): (r: Read)
    ensures SameSendSide(s, r.sock)
    ensures r.result.Ok? ==> |r.result.value| >= n && |r.sock.recvs| < |s.recvs|
  {
    var r := Recv(s, n);
    match r.result
    case Err(_) => r
    case Ok(first) => FillAsWritten(r.sock, first, n)
  }

  /** `_recv` as written; struct.unpack raises unless the header is exactly 4 bytes long. */
  function ReceiveFramesAsWritten(s: Sock): (r: Received)
    ensures SameSendSide(s, r.sock)
    ensures |r.sock.recvs| <= |s.recvs|
    decreases |s.recvs|
  {
    var h := ReadAsWritten(s, HeaderSize);
    match h.result
    case Err(e) => Received([], e, h.sock)
    case Ok(header) =>
      if |header| != HeaderSize then Received([], StructError, h.sock)
      else
        var p := ReadAsWritten(h.sock, UnpackLength(header));
        match p.result
        case Err(e) => Received([], e, p.sock)
        case Ok(message) =>
          var rest := ReceiveFramesAsWritten(p.sock);
          Received([message] + rest.messages, rest.error, rest.sock)
  }

  /** Every recv call delivers, and may hand over at least k bytes. */
  predicate DeliversAtLeast(steps: seq<ReadStep>, k: nat)
  {
    forall i :: 0 <= i < |steps| ==> steps[i].Deliver? && steps[i].avail >= k
  }

  /** Once the peer's bytes have run out, the loop as written can only end in a failing recv. */
  lemma {:induction false} FillAsWrittenRunsDry(s: Sock, buf: seq<byte>, n: nat)
    requires |buf| < n && s.inbound == []
    ensures FillAsWritten(s, buf, n).result.Err?
    decreases |s.recvs|
  {
    var r := Recv(s, n);
    if r.result.Ok? {
      assert r.result.value == [] && buf + r.result.value == buf;
      FillAsWrittenRunsDry(r.sock, buf, n);
    }
  }

  /**
    When each recv may hand over all the bytes still unread, a read of n bytes
    succeeds exactly when the socket is open, a recv call is left and n bytes
    are there; it then takes them with one recv, as written and corrected
    alike. Otherwise both reads fail.
  */
  lemma WholeReadsAgree(s: Sock, n: nat)
    requires DeliversAtLeast(s.recvs, |s.inbound|)
    ensures var ok := s.open && s.recvs != [] && n <= |s.inbound|;
      (ok ==>
        ReadExactly(s, n) == Read(Ok(s.inbound[..n]), s.(inbound := s.inbound[n..], recvs := s.recvs[1..]))
        && ReadAsWritten(s, n) == ReadExactly(s, n))
      && (!ok ==> ReadExactly(s, n).result.Err? && ReadAsWritten(s, n).result.Err?)
  {
    if s.open && s.recvs != [] && n > |s.inbound| {
      assert s.recvs[0].Deliver? && s.recvs[0].avail >= |s.inbound|;
      assert Min(Min(n, s.recvs[0].avail), |s.inbound|) == |s.inbound|;
      assert s.inbound[..|s.inbound|] == s.inbound && s.inbound[|s.inbound|..] == [];
      var r := Recv(s, n);
      assert r.result == Ok(s.inbound) && r.sock.inbound == [];
      FillAsWrittenRunsDry(r.sock, s.inbound, n);
    }
  }

  /**
    With recv calls that may each hand over all the bytes still unread, the
    source's over-asking reads never take more than they asked for: the
    receiving loop as written then dispatches exactly the messages of the
    corrected one. The over-reads shown below need recv calls that hand over less.
  */
  lemma {:induction false} AsWrittenAgreesOnWholeReads(s: Sock)
    requires DeliversAtLeast(s.recvs, |s.inbound|)
    ensures ReceiveFramesAsWritten(s).messages == ReceiveFrames(s).messages
    decreases |s.recvs|
  {
    WholeReadsAgree(s, HeaderSize);
    var h := ReadExactly(s, HeaderSize);
    if h.result.Ok? {
      var n := UnpackLength(h.result.value);
      WholeReadsAgree(h.sock, n);
      var p := ReadExactly(h.sock, n);
      if p.result.Ok? {
        AsWrittenAgreesOnWholeReads(p.sock);
      }
    }
  }

  /** One recv call that hands over `taken`, leaving `left` unread and the remaining steps `later`. */
  lemma RecvStep(s: Sock, n: nat, taken: seq<byte>, left: seq<byte>, later: seq<ReadStep>)
    requires s.open && s.recvs != [] && s.recvs[0].Deliver? && later == s.recvs[1..]
    requires |taken| == Min(Min(n, s.recvs[0].avail), |s.inbound|) && s.inbound == taken + left
    ensures Recv(s, n) == Read(Ok(taken), s.(inbound := left, recvs := later))
  {
    assert s.inbound[..|taken|] == taken && s.inbound[|taken|..] == left;
  }

  // Single unfoldings of the read functions, used to evaluate them on concrete streams.

  lemma FillStep(s: Sock, buf: seq<byte>, n: nat, chunk: seq<byte>, t: Sock)
    requires |buf| < n && Recv(s, n - |buf|) == Read(Ok(chunk), t) && chunk != []
    ensures Fill(s, buf, n) == Fill(t, buf + chunk, n)
  {
  }

  lemma ReadExactlyStep(s: Sock, n: nat, first: seq<byte>, t: Sock)
    requires Recv(s, n) == Read(Ok(first), t) && (n == 0 || first != [])
    ensures ReadExactly(s, n) == Fill(t, first, n)
  {
  }

  lemma FramesStep(s: Sock, header: seq<byte>, sh: Sock, message: seq<byte>, sp: Sock)
    requires |header| == HeaderSize && ReadExactly(s, HeaderSize) == Read(Ok(header), sh)
    requires ReadExactly(sh, UnpackLength(header)) == Read(Ok(message), sp)
    ensures ReceiveFrames(s).messages == [message] + ReceiveFrames(sp).messages
  {
  }

  lemma FillAsWrittenStep(s: Sock, buf: seq<byte>, n: nat, chunk: seq<byte>, t: Sock)
    requires |buf| < n && Recv(s, n) == Read(Ok(chunk), t)
    ensures FillAsWritten(s, buf, n) == FillAsWritten(t, buf + chunk, n)
  {
  }

  lemma FramesAsWrittenStep(s: Sock, header: seq<byte>, sh: Sock, message: seq<byte>, sp: Sock)
    requires |header| == HeaderSize && ReadAsWritten(s, HeaderSize) == Read(Ok(header), sh)
    requires ReadAsWritten(sh, UnpackLength(header)) == Read(Ok(message), sp)
    ensures ReceiveFramesAsWritten(s).messages == [message] + ReceiveFramesAsWritten(sp).messages
  {
  }

  /**
    Header over-read: the peer sends the frame for "hi"; the first recv(4)
    brings 2 bytes and the second recv(4) brings 4, two of them payload. The
    6-byte header makes struct.unpack fail and nothing is delivered, where the
    corrected receiver delivers "hi".
  */
  lemma HeaderOverRead()
    ensures var s := HeaderOverReadStart();
      s.inbound == EncodeAll([[104, 105]])
      && ReceiveFramesAsWritten(s) == Received([], StructError, Sock(true, [], [Deliver(4), Deliver(4)], [], []))
      && ReceiveFrames(s).messages == [[104, 105]]
  {
    HeaderOverReadStream();
    HeaderOverReadAsWritten();
    HeaderOverReadCorrected();
  }

  /** The peer's bytes and the chunking of the header over-read. */
  function HeaderOverReadStart(): Sock
  {
    Sock(true, [2, 0, 0, 0, 104, 105], [Deliver(2), Deliver(4), Deliver(4), Deliver(4)], [], [])
  }

  lemma HeaderOverReadStream()
    ensures HeaderOverReadStart().inbound == EncodeAll([[104, 105]])
  {
    assert PackLength(2) == [2, 0, 0, 0] by { PackUnpack([2, 0, 0, 0]); }
    assert EncodeAll([[104, 105]]) == Frame([104, 105]) + EncodeAll([]);
  }

  /** As written, the second recv(4) takes all four remaining bytes. */
  lemma HeaderOverReadAsWritten()
    ensures ReceiveFramesAsWritten(HeaderOverReadStart())
         == Received([], StructError, Sock(true, [], [Deliver(4), Deliver(4)], [], []))
  {
    var s := HeaderOverReadStart();
    var s1 := Sock(true, [0, 0, 104, 105], [Deliver(4), Deliver(4), Deliver(4)], [], []);
    RecvStep(s, 4, [2, 0], s1.inbound, s1.recvs);
    var s2 := Sock(true, [], [Deliver(4), Deliver(4)], [], []);
    RecvStep(s1, 4, [0, 0, 104, 105], s2.inbound, s2.recvs);
    FillAsWrittenStep(s1, [2, 0], 4, [0, 0, 104, 105], s2);
    assert [2, 0] + [0, 0, 104, 105] == [2, 0, 0, 0, 104, 105];
    assert ReadAsWritten(s, HeaderSize) == Read(Ok([2, 0, 0, 0, 104, 105]), s2);
  }

  /** Corrected, the second recv asks for the two missing bytes only. */
  lemma HeaderOverReadCorrected()
    ensures ReceiveFrames(HeaderOverReadStart()).messages == [[104, 105]]
  {
    var afterHeader := HeaderOverReadHeaderCorrected();
    assert UnpackLength([2, 0, 0, 0]) == 2;
    var afterPayload := HeaderOverReadPayloadCorrected();
    FramesStep(HeaderOverReadStart(), [2, 0, 0, 0], afterHeader, [104, 105], afterPayload);
    assert ReceiveFrames(afterPayload).messages == [] by {
      RecvStep(afterPayload, 4, [], [], []);
    }
    assert [[104, 105]] + [] == [[104, 105]];
  }

  lemma HeaderOverReadHeaderCorrected() returns (after: Sock)
    ensures ReadExactly(HeaderOverReadStart(), HeaderSize) == Read(Ok([2, 0, 0, 0]), after)
    ensures after == HeaderOverReadAfterHeader()
  {
    var s := HeaderOverReadStart();
    var s1 := Sock(true, [0, 0, 104, 105], [Deliver(4), Deliver(4), Deliver(4)], [], []);
    after := HeaderOverReadAfterHeader();
    RecvStep(s, 4, [2, 0], s1.inbound, s1.recvs);
    RecvStep(s1, 2, [0, 0], after.inbound, after.recvs);
    FillStep(s1, [2, 0], 4, [0, 0], after);
    assert [2, 0] + [0, 0] == [2, 0, 0, 0];
    ReadExactlyStep(s, 4, [2, 0], s1);
  }

  lemma HeaderOverReadPayloadCorrected() returns (after: Sock)
    ensures ReadExactly(HeaderOverReadAfterHeader(), 2) == Read(Ok([104, 105]), after)
    ensures after == Sock(true, [], [Deliver(4)], [], [])
  {
    var s := HeaderOverReadAfterHeader();
    after := Sock(true, [], [Deliver(4)], [], []);
    RecvStep(s, 2, [104, 105], after.inbound, after.recvs);
    ReadExactlyStep(s, 2, [104, 105], after);
  }

  /** The corrected receiver's socket once the header has been read. */
  function HeaderOverReadAfterHeader(): Sock
  {
    Sock(true, [104, 105], [Deliver(4), Deliver(4)], [], [])
  }

  /**
    Payload over-read: the peer sends the frames for [7, 7] and for the empty
    message. The payload's first recv(2) brings 1 byte and the second recv(2)
    brings 2, where 1 was missing, so the message dispatched is [7, 7, 0],
    which the peer never sent. With the same chunking the corrected receiver
    dispatches [7, 7].
  */
  lemma PayloadOverRead()
    ensures OverReadStart().inbound == EncodeAll([[7, 7], []])
    ensures ReceiveFramesAsWritten(OverReadStart()).messages == [[7, 7, 0]]
    ensures ReceiveFrames(OverReadStart()).messages == [[7, 7]]
  {
    OverReadStreamIsTwoFrames();
    PayloadOverReadAsWritten();
    PayloadOverReadCorrected();
  }

  /** Both receivers take the 4-byte header [2, 0, 0, 0] with the first recv. */
  lemma OverReadHeader()
    ensures ReadAsWritten(OverReadStart(), HeaderSize) == Read(Ok([2, 0, 0, 0]), OverReadAfterHeader())
    ensures ReadExactly(OverReadStart(), HeaderSize) == Read(Ok([2, 0, 0, 0]), OverReadAfterHeader())
    ensures UnpackLength([2, 0, 0, 0]) == 2
  {
    var s1 := OverReadAfterHeader();
    RecvStep(OverReadStart(), 4, [2, 0, 0, 0], s1.inbound, s1.recvs);
  }

  lemma PayloadOverReadAsWritten()
    ensures ReceiveFramesAsWritten(OverReadStart()).messages == [[7, 7, 0]]
  {
    OverReadHeader();
    var asWritten := OverReadPayloadAsWritten();
    FramesAsWrittenStep(OverReadStart(), [2, 0, 0, 0], OverReadAfterHeader(), [7, 7, 0], asWritten);
    ScriptEndStopsReceive(asWritten);
    assert [[7, 7, 0]] + [] == [[7, 7, 0]];
  }

  lemma PayloadOverReadCorrected()
    ensures ReceiveFrames(OverReadStart()).messages == [[7, 7]]
  {
    OverReadHeader();
    var corrected := OverReadPayloadCorrected();
    FramesStep(OverReadStart(), [2, 0, 0, 0], OverReadAfterHeader(), [7, 7], corrected);
    ScriptEndStopsReceive(corrected);
    assert [[7, 7]] + [] == [[7, 7]];
  }

  /** Once the read script is used up, neither receiver dispatches anything more. */
  lemma ScriptEndStopsReceive(s: Sock)
    requires s.recvs == []
    ensures ReceiveFramesAsWritten(s).messages == [] && ReceiveFrames(s).messages == []
  {
  }

  lemma OverReadStreamIsTwoFrames()
    ensures OverReadStart().inbound == EncodeAll([[7, 7], []])
  {
    var ms: seq<seq<byte>> := [[7, 7], []];
    assert PackLength(2) == [2, 0, 0, 0] by { PackUnpack([2, 0, 0, 0]); }
    assert PackLength(0) == [0, 0, 0, 0] by { PackUnpack([0, 0, 0, 0]); }
    assert Frame([7, 7]) == [2, 0, 0, 0, 7, 7];
    assert Frame([]) == [0, 0, 0, 0];
    assert ms[1..] == [[]] && ms[1..][1..] == [];
    assert EncodeAll(ms[1..]) == [0, 0, 0, 0];
    assert EncodeAll(ms) == [2, 0, 0, 0, 7, 7] + [0, 0, 0, 0];
  }

  /** The stream and chunking of PayloadOverRead. */
  function OverReadStart(): Sock
  {
    Sock(true, [2, 0, 0, 0, 7, 7, 0, 0, 0, 0], [Deliver(4), Deliver(1), Deliver(2)], [], [])
  }

  /** The same, once the 4-byte header has been read. */
  function OverReadAfterHeader(): Sock
  {
    Sock(true, [7, 7, 0, 0, 0, 0], [Deliver(1), Deliver(2)], [], [])
  }

  /** As written, the follow-up recv(2) takes [7, 0], one byte of the next header included. */
  lemma OverReadPayloadAsWritten() returns (after: Sock)
    ensures ReadAsWritten(OverReadAfterHeader(), 2) == Read(Ok([7, 7, 0]), after)
    ensures after == Sock(true, [0, 0, 0], [], [], [])
  {
    var s1 := OverReadAfterHeader();
    var s2 := Sock(true, [7, 0, 0, 0, 0], [Deliver(2)], [], []);
    after := Sock(true, [0, 0, 0], [], [], []);
    RecvStep(s1, 2, [7], s2.inbound, s2.recvs);
    RecvStep(s2, 2, [7, 0], after.inbound, after.recvs);
    assert [7] + [7, 0] == [7, 7, 0];
    FillAsWrittenStep(s2, [7], 2, [7, 0], after);
  }

  /** Corrected, the follow-up recv asks for the one missing byte. */
  lemma OverReadPayloadCorrected() returns (after: Sock)
    ensures ReadExactly(OverReadAfterHeader(), 2) == Read(Ok([7, 7]), after)
    ensures after == Sock(true, [0, 0, 0, 0], [], [], [])
  {
    var s1 := OverReadAfterHeader();
    var s2 := Sock(true, [7, 0, 0, 0, 0], [Deliver(2)], [], []);
    after := Sock(true, [0, 0, 0, 0], [], [], []);
    RecvStep(s1, 2, [7], s2.inbound, s2.recvs);
    RecvStep(s2, 1, [7], after.inbound, after.recvs);
    assert [7] + [7] == [7, 7];
    FillStep(s2, [7], 2, [7], after);
    ReadExactlyStep(s1, 2, [7], s2);
  }

  /** k recv calls, each able to hand over up to 4 bytes. */
  function Delivers(k: nat): (steps: seq<ReadStep>)
    ensures |steps| == k && AllDeliver(steps)
  {
    if k == 0 then [] else [Deliver(4)] + Delivers(k - 1)
  }

  lemma {:induction false} FillAsWrittenSpins(k: nat)
    ensures FillAsWritten(Sock(true, [], Delivers(k), [], []), [5, 0], HeaderSize)
         == Read(Err(Reset), Sock(true, [], [], [], []))
  {
    var s := Sock(true, [], Delivers(k), [], []);
    if k > 0 {
      assert Delivers(k)[0] == Deliver(4) && Delivers(k)[1..] == Delivers(k - 1);
      RecvStep(s, HeaderSize, [], [], Delivers(k - 1));
      assert [5, 0] + [] == [5, 0];
      FillAsWrittenSpins(k - 1);
    } else {
      assert Recv(s, HeaderSize) == Read(Err(Reset), s);
    }
  }

  /**
    End of stream never noticed: the peer sends 2 of the 4 header bytes and
    shuts down. Each further recv returns no bytes, the loop appends them and
    asks again; however many recv calls there are, the receiver uses all of
    them and ends only when the socket fails under it, never because the peer
    left.
  */
  lemma EofNeverNoticed(k: nat)
    requires k >= 1
    ensures ReceiveFramesAsWritten(Sock(true, [5, 0], Delivers(k), [], []))
         == Received([], Reset, Sock(true, [], [], [], []))
  {
    var s := Sock(true, [5, 0], Delivers(k), [], []);
    assert Delivers(k)[0] == Deliver(4) && Delivers(k)[1..] == Delivers(k - 1);
    RecvStep(s, HeaderSize, [5, 0], [], Delivers(k - 1));
    FillAsWrittenSpins(k - 1);
    assert ReadAsWritten(s, HeaderSize) == Read(Err(Reset), Sock(true, [], [], [], []));
  }

  /** The corrected receiver stops at the second recv, reporting that the peer shut down. */
  lemma EofEndsReceive(k: nat)
    requires k >= 2
    ensures ReceiveFrames(Sock(true, [5, 0], Delivers(k), [], []))
         == Received([], EndOfStream, Sock(true, [], Delivers(k - 2), [], []))
  {
    assert Delivers(k)[1..] == Delivers(k - 1);
    assert Delivers(k - 1)[1..] == Delivers(k - 2);
  }
}
