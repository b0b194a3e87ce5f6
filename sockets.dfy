/**
  A stream socket as seen by one connection. The operating system and the peer
  are replaced by data: the bytes the peer sends before shutting down its side,
  and finite scripts saying how each further `recv` and `sendall` call behaves.
  When a script is used up, the next call fails: that stands for the socket
  being closed under a blocked thread, which is how the source ends its threads.
*/
module Sockets {
  import opened Base
  import opened Framing

  datatype Error =
    | Reset            // the peer reset the connection, or the socket was closed under the call
    | BadDescriptor    // the call was made on a socket this side has already closed
    | EndOfStream      // recv returned no bytes although some were asked for: the peer shut down
    | StructError      // struct.pack or struct.unpack refused its argument
    | ConnectionClosed // send on a connection that has been closed

  datatype Result<+T> = Ok(value: T) | Err(error: Error)

  type Pos = n: nat | n > 0 witness 1

  /** How one recv call behaves: hand over at most `avail` bytes, or fail. */
  datatype ReadStep = Deliver(avail: Pos) | ReadFault(error: Error)

  /**
    How one sendall call behaves: write the whole packet, or fail after the
    first `written` bytes of it (all of them at most) went out.
  */
  datatype WriteStep = Accept | WriteFault(error: Error, written: nat)

  datatype Sock = Sock(
    open: bool,                // false once this side has called close()
    inbound: seq<byte>,        // bytes the peer has sent that have not been read; it shuts down after the last
    recvs: seq<ReadStep>,      // how the further recv calls behave
    outbound: seq<byte>,       // every byte sendall has written
    sends: seq<WriteStep>)    // how the further sendall calls behave

  /** What one read hands back, and the socket after it. */
  datatype Read = Read(result: Result<seq<byte>>, sock: Sock)

  predicate AllDeliver(steps: seq<ReadStep>)
  {
    forall i :: 0 <= i < |steps| ==> steps[i].Deliver?
  }

  /** Only the receiving side may have moved between s and t. */
  predicate SameSendSide(s: Sock, t: Sock)
  {
    t.open == s.open && t.outbound == s.outbound && t.sends == s.sends
  }

  /**
    socket.recv(n): at most n bytes, taken from the front of what the peer
    sent; no bytes at all only when n is 0 or the peer has shut down.
  */
  function Recv(s: Sock, n: nat): (r: Read)
    ensures SameSendSide(s, r.sock)
    ensures r.result.Ok? ==> |r.result.value| <= n && r.result.value + r.sock.inbound == s.inbound
    ensures r.result.Ok? ==> |r.sock.recvs| == |s.recvs| - 1 && (AllDeliver(s.recvs) ==> AllDeliver(r.sock.recvs))
    ensures r.result.Ok? && r.result.value == [] ==> n == 0 || s.inbound == []
    ensures r.result.Err? ==> r.sock.inbound == s.inbound && |r.sock.recvs| <= |s.recvs|
  {
    if !s.open then Read(Err(BadDescriptor), s)
    else if s.recvs == [] then Read(Err(Reset), s)
    else match s.recvs[0]
      case ReadFault(e) => Read(Err(e), s.(recvs := s.recvs[1..]))
      case Deliver(avail) =>
        var k := Min(Min(n, avail), |s.inbound|);
        assert s.inbound[..k] + s.inbound[k..] == s.inbound;
        Read(Ok(s.inbound[..k]), s.(inbound := s.inbound[k..], recvs := s.recvs[1..]))
  }

  /** What one sendall call reports, the bytes of the packet it wrote, and the socket after it. */
  datatype Sent = Sent(fault: Option<Error>, written: seq<byte>, sock: Sock)

  /**
    socket.sendall(packet): on success the whole packet is appended to the
    outbound bytes; on failure a prefix of it may already have gone out.
  */
  function SendAll(s: Sock, packet: seq<byte>): (r: Sent)
    ensures r.sock.open == s.open && r.sock.inbound == s.inbound && r.sock.recvs == s.recvs
    ensures r.sock.outbound == s.outbound + r.written
    ensures |r.written| <= |packet| && r.written == packet[..|r.written|]
    ensures r.fault.None? ==> r.written == packet
    ensures r.fault.None? <==> s.open && s.sends != [] && s.sends[0].Accept?
  {
    if !s.open then Sent(Some(BadDescriptor), [], s)
    else if s.sends == [] then Sent(Some(Reset), [], s)
    else match s.sends[0]
      case Accept => Sent(None, packet, s.(outbound := s.outbound + packet, sends := s.sends[1..]))
      case WriteFault(e, k) =>
        var part := packet[..Min(k, |packet|)];
        Sent(Some(e), part, s.(outbound := s.outbound + part, sends := s.sends[1..]))
  }
}
