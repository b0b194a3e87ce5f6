/**
  The wire format of pyglet.net: every message travels as a 4-byte unsigned
  length header followed by the payload bytes unchanged.

  The source packs the header with struct's native 'I' format; the model fixes
  little-endian byte order (the order of the usual hosts). A length of 2^32 or
  more is refused by struct.pack, which the model keeps as the `None` result of
  `Encode`.
*/
module Framing {
  import opened Base

  /** One byte on the wire. */
  type byte = b: int | 0 <= b < 256

  /** Width of the length header that precedes every payload. */
  const HeaderSize: nat := 4

  /** One more than the largest length an unsigned 4-byte header can carry. */
  const LengthLimit: nat := 0x1_0000_0000

  function Pow256(k: nat): (p: nat)
    ensures p >= 1
  {
    if k == 0 then 1 else 256 * Pow256(k - 1)
  }

  lemma HeaderCapacity()
    ensures Pow256(HeaderSize) == LengthLimit
  {
    assert Pow256(1) == 256;
    assert Pow256(2) == 65536;
    assert Pow256(3) == 16777216;
  }

  /** The k low-order base-256 digits of n, least significant first. */
  function ToDigits(n: nat, k: nat): (s: seq<byte>)
    ensures |s| == k
  {
    if k == 0 then [] else [n % 256] + ToDigits(n / 256, k - 1)
  }

  /** The number whose base-256 digits, least significant first, are s. */
  function FromDigits(s: seq<byte>): nat
  {
    if s == [] then 0 else s[0] + 256 * FromDigits(s[1..])
  }

  lemma {:induction false} FromDigitsBound(s: seq<byte>)
    ensures FromDigits(s) < Pow256(|s|)
  {
    if s != [] {
      FromDigitsBound(s[1..]);
    }
  }

  lemma {:induction false} FromToDigits(n: nat, k: nat)
    requires n < Pow256(k)
    ensures FromDigits(ToDigits(n, k)) == n
  {
    if k > 0 {
      FromToDigits(n / 256, k - 1);
    }
  }

  lemma {:induction false} ToFromDigits(s: seq<byte>)
    ensures ToDigits(FromDigits(s), |s|) == s
  {
    if s != [] {
      var n := FromDigits(s);
      assert n % 256 == s[0] && n / 256 == FromDigits(s[1..]);
      ToFromDigits(s[1..]);
      assert ToDigits(n, |s|) == [s[0]] + s[1..];
    }
  }

  /** struct.unpack('I', header)[0] for a header of exactly four bytes. */
  function UnpackLength(header: seq<byte>): (n: nat)
    requires |header| == HeaderSize
    ensures n < LengthLimit
  {
    FromDigitsBound(header);
    HeaderCapacity();
    FromDigits(header)
  }

  /** struct.pack('I', n) for a length the format can hold. */
  function PackLength(n: nat): (header: seq<byte>)
    requires n < LengthLimit
    ensures |header| == HeaderSize
    ensures UnpackLength(header) == n
  {
    HeaderCapacity();
    FromToDigits(n, HeaderSize);
    ToDigits(n, HeaderSize)
  }

  /** Every 4-byte header is the packing of the length it unpacks to. */
  lemma PackUnpack(header: seq<byte>)
    requires |header| == HeaderSize
    ensures PackLength(UnpackLength(header)) == header
  {
    ToFromDigits(header);
  }

  /** Whether struct.pack('I', len(m)) accepts the payload's length. */
  predicate Packable(m: seq<byte>)
  {
    |m| < LengthLimit
  }

  predicate AllPackable(ms: seq<seq<byte>>)
  {
    forall i :: 0 <= i < |ms| ==> Packable(ms[i])
  }

  /** The packet sent for a packable payload: its length header, then the payload. */
  function Frame(m: seq<byte>): (packet: seq<byte>)
    requires Packable(m)
    ensures |packet| == HeaderSize + |m|
    ensures UnpackLength(packet[..HeaderSize]) == |m| && packet[HeaderSize..] == m
  {
    var header := PackLength(|m|);
    assert (header + m)[..HeaderSize] == header;
    header + m
  }

  /** A payload split off the front of a byte stream, and what follows it. */
  datatype Decoded = Decoded(payload: seq<byte>, rest: seq<byte>)

  /**
    The reference decoder: the first frame of a stream, or None while the
    stream holds less than a whole frame.
  */
  function DecodeFrame(s: seq<byte>): (r: Option<Decoded>)
    ensures r.Some? ==> Packable(r.value.payload) && s == Frame(r.value.payload) + r.value.rest
    ensures r.None? <==> |s| < HeaderSize || |s| < HeaderSize + UnpackLength(s[..HeaderSize])
  {
    if |s| < HeaderSize then None
    else
      var n := UnpackLength(s[..HeaderSize]);
      if |s| < HeaderSize + n then None
      else
        var payload, rest := s[HeaderSize..HeaderSize + n], s[HeaderSize + n..];
        PackUnpack(s[..HeaderSize]);
        assert s == s[..HeaderSize] + payload + rest;
        Some(Decoded(payload, rest))
  }

  /**
    `struct.pack('I', len(message)) + message`: None when the length does not
    fit the header, otherwise a packet the decoder turns back into exactly the
    message, whatever bytes follow it on the stream.
  */
  function Encode(m: seq<byte>): (r: Option<seq<byte>>)
    ensures r.Some? <==> |m| < LengthLimit
    ensures r.Some? ==> forall rest :: DecodeFrame(r.value + rest) == Some(Decoded(m, rest))
  {
    if Packable(m) then
      var packet := Frame(m);
      assert forall rest :: DecodeFrame(packet + rest) == Some(Decoded(m, rest)) by {
        forall rest ensures DecodeFrame(packet + rest) == Some(Decoded(m, rest)) {
          DecodeFrameOfFrame(m, rest);
        }
      }
      Some(packet)
    else None
  }

  /** Decoding a frame followed by anything yields the payload and the bytes after it. */
  lemma DecodeFrameOfFrame(m: seq<byte>, rest: seq<byte>)
    requires Packable(m)
    ensures DecodeFrame(Frame(m) + rest) == Some(Decoded(m, rest))
  {
    var s := Frame(m) + rest;
    assert s[..HeaderSize] == Frame(m)[..HeaderSize];
    assert s[HeaderSize..HeaderSize + |m|] == m;
    assert s[HeaderSize + |m|..] == rest;
  }

  /** The bytes a sender writes for the messages ms, one frame each, in order. */
  function EncodeAll(ms: seq<seq<byte>>): (s: seq<byte>)
    requires AllPackable(ms)
  {
    if ms == [] then [] else Frame(ms[0]) + EncodeAll(ms[1..])
  }

  /** The complete frames at the front of a stream, and the bytes after the last of them. */
  datatype Stream = Stream(messages: seq<seq<byte>>, leftover: seq<byte>)

  /** The reference decoder for a whole stream: split off frames until less than one remains. */
  function DecodeAll(s: seq<byte>): (r: Stream)
    decreases |s|
  {
    match DecodeFrame(s)
    case None => Stream([], s)
    case Some(d) =>
      var tail := DecodeAll(d.rest);
      Stream([d.payload] + tail.messages, tail.leftover)
  }

  /** The framing round trip over a stream: decoding what was encoded gives the messages back, in order. */
  lemma {:induction false} DecodeAllEncodeAll(ms: seq<seq<byte>>)
    requires AllPackable(ms)
    ensures DecodeAll(EncodeAll(ms)) == Stream(ms, [])
  {
    if ms != [] {
      DecodeFrameOfFrame(ms[0], EncodeAll(ms[1..]));
      DecodeAllEncodeAll(ms[1..]);
      assert [ms[0]] + ms[1..] == ms;
    } else {
      assert DecodeFrame([]) == None;
    }
  }

  lemma EncodeAllCons(m: seq<byte>, ms: seq<seq<byte>>)
    requires Packable(m) && AllPackable(ms)
    ensures AllPackable([m] + ms) && EncodeAll([m] + ms) == Frame(m) + EncodeAll(ms)
  {
    assert ([m] + ms)[1..] == ms;
  }

  /**
    Decoding a stream that grows: the messages of s + more are those of s,
    then those found in what s left over followed by more.
  */
  lemma {:induction false} DecodeAllExtend(s: seq<byte>, more: seq<byte>)
    ensures DecodeAll(s + more).messages
         == DecodeAll(s).messages + DecodeAll(DecodeAll(s).leftover + more).messages
    decreases |s|
  {
    match DecodeFrame(s)
    case None =>
      assert DecodeAll(s) == Stream([], s);
    case Some(d) =>
      assert s + more == Frame(d.payload) + (d.rest + more);
      DecodeFrameOfFrame(d.payload, d.rest + more);
      DecodeAllExtend(d.rest, more);
  }
}
