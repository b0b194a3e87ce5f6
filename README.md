# pyglet networking and animation bookkeeping, modelled in Dafny

This project models two parts of pyglet.

**`pyglet.net`** sends length-prefixed messages over stream sockets:
- **The wire format.** Each message is a 4-byte unsigned length header followed by the payload.
- **The blocking connection** (`_BaseConnection`) has:
  - a `_terminate` flag;
  - an outbound FIFO queue that `close` wakes with a sentinel;
  - a receiving thread and a sending thread.
- **The asyncio connection** (`AsyncConnection`) has a `_closed` flag, a receive task that queues `on_receive` with `call_soon`, and one write coroutine per `send`.
- **The threaded `Server`** has an `_alive` flag that ends its accept loop.

**`pyglet.animation`**:
- animation frames, animations and their total duration;
- `Animation.from_sequence`;
- the `frame_index` and `paused` setters of an animation controller.

The modules are:
- `Framing` (framing.dfy): struct `'I'` packing and unpacking, frames, and a reference decoder with its round trip.
- `Sockets` (sockets.dfy): a socket as a value. It holds:
  - the bytes the peer sent before shutting down;
  - scripts saying how each further `recv` and `sendall` behaves.

  When a script is used up, the next call fails. This stands for the socket being closed under a blocked thread.
- `Receiver` (receiver.dfy) describes the receiving loop in two versions:
  - as written;
  - corrected, where each follow-up `recv` asks only for the missing bytes and an empty `recv` ends the read.

  It also has the lemmas that set the two apart.
- `Blocking` (blocking.dfy): the connection as a class whose methods are proved against state functions (`AfterClose`, `AfterSend`, `AfterRecvThread`, `AfterSendThread`), plus lemmas about those functions.
- `Servers` (server.dfy): the server class and its accept loop.
- `Cooperative` (cooperative.dfy): the asyncio connection. The event loop's steps are methods the caller runs:
  - the receive task;
  - one write coroutine;
  - one `call_soon` callback.
- `Animations` (animation.dfy): frames as objects whose duration can be overwritten, animations, and the controller.

The threads are modelled sequentially. Each loop method runs one thread's body until that body stops or would block. Its effect is stated as a function of the state before the call.

## Model

| member | source | states |
|---|---|---|
| Framing.UnpackLength | pyglet/net/__init__.py:41 | unpacking a 4-byte header gives a length below 2^32 |
| Framing.PackLength | pyglet/net/__init__.py:73 | packing a length below 2^32 gives 4 bytes that unpack to that length |
| Framing.PackUnpack | pyglet/net/__init__.py:128 | every 4-byte header is the packing of the length it unpacks to |
| Framing.Frame | pyglet/net/__init__.py:73 | a packet is 4 + len(m) bytes; its header unpacks to len(m) and the payload follows unchanged |
| Framing.Encode | pyglet/net/__init__.py:138 | packing succeeds exactly when len(m) < 2^32; the packet decodes back to m whatever bytes follow it |
| Framing.DecodeFrame | pyglet/net/__init__.py:41-45 | the reference decoder fails exactly when the stream holds less than a header plus its payload; otherwise the stream is that frame followed by the rest |
| Framing.DecodeFrameOfFrame | pyglet/net/__init__.py:73 | decoding a frame followed by anything gives the payload, including the empty one, and the bytes after it |
| Framing.DecodeAllExtend | pyglet/net/__init__.py:124-134 | decoding a stream extended by more bytes gives the messages of the old stream, then those of its undecoded rest followed by the new bytes |
| Framing.DecodeAllEncodeAll | pyglet/net/__init__.py:73-74 | decoding the concatenated frames of a message sequence gives back the sequence, in order, with nothing left over |
| Sockets.Recv | pyglet/net/__init__.py:37 | recv(n) returns at most n bytes from the front of the peer's stream; it returns none only for n = 0 or after the peer shut down |
| Sockets.SendAll | pyglet/net/__init__.py:74 | sendall succeeds exactly on an open socket whose next write is accepted, and then appends the whole packet; a failing sendall may already have sent a prefix of the packet, and nothing else |
| Receiver.FillAsWritten | pyglet/net/__init__.py:38-39 | the reassembly loop as written exits only with at least n bytes accumulated |
| Receiver.ReadAsWritten | pyglet/net/__init__.py:43-45 | a read as written yields at least the requested bytes and uses at least one recv |
| Receiver.Fill | pyglet/net/__init__.py:44-45 | the corrected loop yields exactly n bytes, and they are the next bytes of the stream |
| Receiver.ReadExactly | pyglet/net/__init__.py:37-39 | a corrected read yields exactly the next n bytes and uses at least one recv |
| Receiver.ReceivedArePrefixOfStream | pyglet/net/__init__.py:35-46 | for any chunking and any failures, the messages the corrected receiver hands back are a prefix of the messages the reference decoder finds in the stream |
| Receiver.FillCompletes | pyglet/net/__init__.py:44-45 | with enough bytes and delivering recv calls, the loop takes exactly the missing bytes |
| Receiver.FillMeetsEnd | pyglet/net/__init__.py:44-45 | when the peer shuts down before enough bytes arrive, the corrected loop ends with end of stream |
| Receiver.ReadExactlyCompletes | pyglet/net/__init__.py:37-39 | with enough bytes and recv calls, a read takes exactly the next n bytes |
| Receiver.ReadExactlyMeetsEnd | pyglet/net/__init__.py:37-39 | a read that the peer's shutdown cuts short reports end of stream |
| Receiver.ReceiveFramesDeliversStream | pyglet/net/__init__.py:35-46 | with delivering recv calls, the corrected receiver dispatches exactly the decoded messages and then ends at end of stream |
| Receiver.ReceiveRoundTrip | pyglet/net/__init__.py:35-46 | a peer that sends ms and shuts down is received by the corrected receiver as exactly ms, whatever the chunking |
| Receiver.ReceiveFramesAsWritten | pyglet/net/__init__.py:32-50 | the receiving loop as written: its reads change only the receiving side of the socket, and it uses no more recv calls than the script holds |
| Receiver.WholeReadsAgree | pyglet/net/__init__.py:37-45 | when each recv may hand over all the unread bytes, a read of n bytes succeeds exactly when the socket is open, a recv is left and n bytes are there; it then takes exactly those n bytes with one recv, as written and corrected alike; otherwise both fail |
| Receiver.AsWrittenAgreesOnWholeReads | pyglet/net/__init__.py:32-50 | when each recv may hand over all the unread bytes, the loop as written dispatches exactly the messages of the corrected receiver, so the over-reads of HeaderOverRead and PayloadOverRead need recv calls that hand over less |
| Receiver.HeaderOverRead | pyglet/net/__init__.py:37-41 | the frame for "hi" read in chunks of 2 then 4 makes the loop as written fail in struct.unpack with nothing delivered; the corrected loop delivers "hi" |
| Receiver.PayloadOverRead | pyglet/net/__init__.py:43-46 | frames [7, 7] and [] read in chunks of 4, 1, 2 make the loop as written deliver [7, 7, 0]; the corrected loop delivers [7, 7] |
| Receiver.FillAsWrittenSpins | pyglet/net/__init__.py:38-39 | after the peer shut down, the loop as written goes on calling recv until recv fails |
| Receiver.EofNeverNoticed | pyglet/net/__init__.py:35-39 | a peer that sends 2 header bytes and shuts down keeps the loop as written reading until the socket fails |
| Receiver.EofEndsReceive | pyglet/net/__init__.py:35-39 | the same peer makes the corrected receiver stop at its second recv with end of stream |
| Blocking.CloseDispatchesOnce | pyglet/net/__init__.py:24-30 | closing any number of times sets the flag and closes the socket; each call pushes one sentinel; on_disconnect goes out once, with the first reason, and not at all if already closed |
| Blocking.SendsQueueInOrder | pyglet/net/__init__.py:63-65 | sends on an open connection append the messages at the queue's tail in order; on a closed one they change nothing |
| Blocking.CloseStopsTraffic | pyglet/net/__init__.py:24-30 | after close, sends change nothing and neither thread reads, writes or dispatches |
| Blocking.DrainWritesFrames | pyglet/net/__init__.py:67-74 | the sending thread writes one whole frame per message it takes, in queue order, only for messages ahead of the first sentinel, and for all of them unless a write failed; a failed write may add a prefix of the next message's frame; the queue left is what follows the sentinel or the message whose write failed |
| Blocking.SendThreadWrites | pyglet/net/__init__.py:67-78 | the frames written, possibly followed by part of the one that failed, and the queue left behind; a failed write closes the connection with that error, dispatches on_disconnect once and queues a sentinel after what is left; otherwise every pending message is written whole, nothing is dispatched and the connection stays open |
| Blocking.DrainPayloads | pyglet/net/__init__.py:67-74 | with a socket that accepts every write, the queued messages are all written, one frame each, in order |
| Blocking.SentMessagesArriveInOrder | pyglet/net/__init__.py:52-78 | messages sent on an open connection go out as their frames in order, and the corrected receiver of any peer hands back exactly those messages |
| Blocking.RecvThreadDispatches | pyglet/net/__init__.py:32-50 | the corrected receiving thread dispatches on_receive for a prefix of the stream's messages, in order, then one on_disconnect carrying the error that stopped its reads, and closes the connection |
| Blocking.PeerHangsUpMidHeader | pyglet/net/__init__.py:32-50 | with the corrected receiving thread, a peer that sends 2 of 4 header bytes and hangs up causes no on_receive and one on_disconnect carrying end of stream; the connection is closed |
| Blocking.Connection.constructor | pyglet/net/__init__.py:14-19 | a new connection is open, with an empty queue and no events |
| Blocking.Connection.Close | pyglet/net/__init__.py:24-30 | the new state is AfterClose of the old one |
| Blocking.Connection.Send | pyglet/net/__init__.py:52-65 | the raised error and the new state are AfterSend of the old state |
| Blocking.Connection.RecvExactly | pyglet/net/__init__.py:37-39 | the result and the socket are those of the corrected read ReadExactly, and nothing else changes |
| Blocking.Connection.ReceiveLoop | pyglet/net/__init__.py:32-50 | the corrected receiving thread: the new state is AfterRecvThread of the old one |
| Blocking.Connection.SendLoop | pyglet/net/__init__.py:67-78 | the new state is AfterSendThread of the old one |
| Servers.AcceptLoopTakesWaitingPeers | pyglet/net/__init__.py:202-209 | on an open listening socket the loop accepts the peers waiting before the first failing accept, in order, and consumes that failure; on a closed one it accepts nothing |
| Servers.Server.constructor | pyglet/net/__init__.py:191-196 | a new server has its stop flag clear, keeps the given listening socket and has dispatched nothing |
| Servers.Server.Close | pyglet/net/__init__.py:198-200 | the flag is set and the listening socket closed |
| Servers.Server.ReceiveConnections | pyglet/net/__init__.py:202-210 | one new connection event per accepted socket, in order, each connection new and in its initial state, then one on_disconnect; afterwards the flag is set |
| Cooperative.ReadExactly | pyglet/net/__init__.py:127-129 | readexactly returns n bytes exactly when no failure is recorded and n are buffered, and raises IncompleteReadError exactly at EOF with fewer |
| Cooperative.ReceivePassDecodesStream | pyglet/net/__init__.py:124-134 | a task that starts at a header queues exactly the decoded messages of the buffered stream, in order; at EOF it ends with an incomplete read, otherwise it waits, and when it waits inside a payload it keeps that payload's size |
| Cooperative.ResumeAsFromHeader | pyglet/net/__init__.py:127-129 | a task resumed inside a payload of a given size reads on exactly as one that finds that size's header in front of the buffer |
| Cooperative.ResumedPassDecodesRest | pyglet/net/__init__.py:124-134 | a task that waited and is resumed after more bytes (and perhaps EOF) arrive queues, over both passes, exactly the messages of the whole stream, in order; with EOF the second pass ends with an incomplete read |
| Cooperative.ReceiveTaskResumes | pyglet/net/__init__.py:124-134 | the same for the connection: the first run dispatches nothing, the two runs queue on_receive for exactly the messages of the whole stream, and with EOF on an existing transport the second run closes the connection and dispatches on_disconnect |
| Cooperative.SameMessagesAsBlocking | pyglet/net/__init__.py:124-134 | on the same bytes the receive task yields the same messages as the blocking receiving thread |
| Cooperative.CloseDispatchesOnce | pyglet/net/__init__.py:118-122 | any number of close calls act as one; on_disconnect is dispatched once on an open connection, never on a closed one; a missing transport makes close raise |
| Cooperative.CloseIsIdempotent | pyglet/net/__init__.py:118-122 | a second close changes nothing |
| Cooperative.SendsScheduleInOrder | pyglet/net/__init__.py:144-149 | on an open transport each send submits its write, in order; on a missing or closing transport the sends amount to one close and submit nothing |
| Cooperative.RunSendsWritesFrames | pyglet/net/__init__.py:136-142 | the submitted writes put one frame per message on the transport, in order |
| Cooperative.ReceiveTaskAtEof | pyglet/net/__init__.py:124-134 | with the peer at EOF, the task queues on_receive for every whole frame, then closes the connection and dispatches on_disconnect |
| Cooperative.SentMessagesArriveInOrder | pyglet/net/__init__.py:136-149 | messages sent and written reach a peer's receive task as exactly those messages, in order |
| Cooperative.DisconnectPrecedesDelivery | pyglet/net/__init__.py:122 | on_disconnect is dispatched before the first on_receive queued with call_soon |
| Cooperative.AsyncConnection.constructor | pyglet/net/__init__.py:111-116 | a new connection is not closed and has written, submitted and dispatched nothing |
| Cooperative.AsyncConnection.Close | pyglet/net/__init__.py:118-122 | whether it raised, and the new state, are AfterClose of the old state |
| Cooperative.AsyncConnection.Send | pyglet/net/__init__.py:144-149 | whether it raised, and the new state, are AfterSend of the old state |
| Cooperative.AsyncConnection.RunSend | pyglet/net/__init__.py:136-142 | the new state is AfterRunSend of the old one |
| Cooperative.AsyncConnection.ReceiveTask | pyglet/net/__init__.py:124-134 | the new state, including the payload size the task waits on when suspended inside a payload, is AfterReceiveTask of the old one |
| Cooperative.AsyncConnection.RunCallback | pyglet/net/__init__.py:130 | the oldest queued on_receive is dispatched |
| Animations.AnimationFrame.constructor | pyglet/animation/base.py:133-135 | the frame holds the given data and duration |
| Animations.Animation.constructor | pyglet/animation/base.py:107-110 | an animation holds the given non-empty frame list |
| Animations.Animation.GetDuration | pyglet/animation/base.py:112-114 | with no negative duration, the total is not negative and no single frame exceeds it |
| Animations.TotalDurationAppend | pyglet/animation/base.py:114 | the total of two runs of frames is the sum of their totals |
| Animations.TotalDurationSkipsNone | pyglet/animation/base.py:114 | a frame without a duration adds nothing, wherever it stands |
| Animations.TotalDurationBounds | pyglet/animation/base.py:114 | with no negative duration, the total is not negative and bounds every duration |
| Animations.SequenceDuration | pyglet/animation/base.py:116-122 | the durations from_sequence assigns sum to n times the duration when looping, and to n - 1 times it otherwise |
| Animations.SequenceAnimationDuration | pyglet/animation/base.py:112-122 | an animation with from_sequence's durations has get_duration equal to that sum |
| Animations.Animation.FromSequence | pyglet/animation/base.py:116-122 | one new frame per item, in order, each with the given data; the durations are the given one, with the last set to None without looping; an empty sequence fails with IndexError, or with AssertionError when looping |
| Animations.ClampIndex | pyglet/animation/base.py:88 | the stored index lies in [0, count - 1]; it equals the request exactly when the request is in range; otherwise it is the nearer end |
| Animations.ClampIndexIdempotent | pyglet/animation/base.py:88 | clamping a clamped index changes nothing |
| Animations.SetFrameIndexInRange | pyglet/animation/base.py:83-88 | with an animation the setter stores an index in range, and the request itself when in range; only the index changes; setting the stored index again changes nothing |
| Animations.SetPausedChanges | pyglet/animation/base.py:65-76 | the state changes exactly when there is an animation and the value differs; paused then takes the new value; pausing keeps the next delay; resuming sets it to the current frame's duration |
| Animations.PauseThenResume | pyglet/animation/base.py:65-76 | pausing then resuming leaves the controller unpaused, with the current frame's duration as next delay; the clock is asked to unschedule, then to schedule once for a truthy duration |
| Animations.AnimationController.constructor | pyglet/animation/base.py:51-55 | the class defaults: index 0, next delay 0, not paused, no animation |
| Animations.AnimationController.SetPaused | pyglet/animation/base.py:65-76 | whether it raised, and the new state, are AfterSetPaused of the old state and the animation's durations |
| Animations.AnimationController.SetFrameIndex | pyglet/animation/base.py:83-88 | the new state is AfterSetFrameIndex of the old state and the frame count |

## Left out

- **Threads, queue blocking, asyncio tasks, futures and the event loop.** Each thread or task body runs sequentially to the point where it would block. Interleavings are not modelled.
- **Operating-system sockets.** `create_connection`, `create_server` and the `accept` system call are not modelled. The sockets are values given as parameters: a peer's byte stream plus scripts of how each `recv`, `sendall` and `accept` behaves.
- **`Client` and `AsyncServer`.** Both only open a transport and wrap it in a connection. The `__repr__` and `__del__` methods are diagnostics and are left out too.
- **The event dispatcher.** pyglet/event.py is not part of this model. Dispatched events are appended to an event log, so handlers never run. In particular, `Client.on_disconnect` re-raising the error is not modelled.
- **Byte order.** struct's native byte order for `'I'` is fixed to little-endian.
- **Floating-point durations.** Durations are reals; rounding is not modelled.
- **`pyglet.clock`.** `schedule_once` and `unschedule` are recorded as calls in the controller's log instead of being made.
- **Blocking.Connection.ReceiveLoop: corrected reads.** It runs the corrected reads (`Receiver.ReadExactly`), not the reads as written. The reads as written are modelled separately (`Receiver.ReceiveFramesAsWritten`) and contrasted under Findings.
- **Blocking.Connection.SendLoop: stops on an empty queue.** It stops where `queue.get()` would block on an empty queue. The thread's later wake-up is another call.
- **Cooperative.AsyncConnection.RunSend: reset as a parameter.** Whether draining raises ConnectionResetError is a parameter.
  - An exception other than a reset is kept in the coroutine's future, so it changes nothing here.
  - On a closing transport, asyncio drops the write. That holds when the transport's write buffer is empty at close; the model has no transport buffer, so a write either reaches the peer or is dropped.
- **Cooperative.ReadExactly: asyncio behaviour.** It follows the documented behaviour of asyncio's `StreamReader.readexactly`; asyncio's own source is not part of this model.
  - An exception other than IncompleteReadError raised in the receive task ends the task without a close, as in the source.
- **Animations.AnimationController.SetPaused: `pause` is a bool.** Other truthy values are not modelled; the source compares `pause is True`.
- **Animations.AnimationController: no `_animate`.** `_animate` raises NotImplementedError in this class and is not modelled.
- **Animation frame data.** The data is any value of a type parameter.
- **The server's on_disconnect.** `Server` dispatches `on_disconnect`, which it never registers as an event type. The model records the dispatch.
- **Async send on a closed transport does not raise.** `_BaseConnection.send` raises ConnectionError once the connection is closed (pyglet/net/__init__.py:63-64). `AsyncConnection.send` on a closing or missing transport instead calls `close` and returns (pyglet/net/__init__.py:146-148). The model keeps the difference: `Cooperative.AfterSend` reports no error unless `close` raises for a missing transport.
- **Async on_disconnect carries no reason.** The blocking connection dispatches on_disconnect with the exception that closed it (pyglet/net/__init__.py:30); the asyncio connection dispatches it with no argument (pyglet/net/__init__.py:122). It is also dispatched before the `on_receive` callbacks already queued with `call_soon`; `Cooperative.DisconnectPrecedesDelivery` shows this.

## Findings

| source | as written | input that shows it | evidently intended | confidence | as-written member | corrected member |
|---|---|---|---|---|---|---|
| pyglet/net/__init__.py:38-39 | the header loop repeats `recv(4)`, so the header can grow beyond 4 bytes and struct.unpack raises | the frame for "hi" (bytes 2,0,0,0,104,105) delivered as 2 bytes, then 4: the header becomes 6 bytes and nothing is delivered | ask only for the missing `4 - len(header)` bytes | not executed | Receiver.HeaderOverRead | Receiver.ReceiveFramesDeliversStream |
| pyglet/net/__init__.py:44-45 | the payload loop repeats `recv(size)`, so the message can swallow bytes of the next frame | the frames for [7, 7] and [] delivered as 4, 1 and 2 bytes: [7, 7, 0] is dispatched | ask only for the missing `size - len(message)` bytes | not executed | Receiver.PayloadOverRead | Receiver.ReceivedArePrefixOfStream |
| pyglet/net/__init__.py:37-45 | an empty `recv` (the peer shut down) is appended and the loop goes on, calling recv until it fails | a peer that sends 2,0 and shuts down: the thread keeps calling recv instead of reporting the disconnect | treat an empty recv as end of stream and close the connection | not executed | Receiver.EofNeverNoticed | Receiver.EofEndsReceive |
