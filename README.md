# TouchController bridge — a Dafny model

The launcher forwards synthetic touch and camera events to the game over a
Unix domain socket. A mod inside the game reads them. This project models
the launcher side of that bridge and proves properties of the model.

- `wire_codec.dfy`, module `WireCodec`, models `tc_htonf`, `tc_ntohf` and
  `tc_hton32`. A float is only its 32-bit IEEE-754 pattern (`Float32(bits)`).
  Nothing computes with floats, so every law is bit-exact, negative zero and
  NaN payloads included. The launcher machine's byte order is a parameter
  (`Endian`). `HostLayout` is the memory image of a `uint32_t`, which is what
  lands in a frame when the converted word is copied into it.
- `transfer.dfy`, module `Transfer`, models `tc_write_fully` and
  `tc_read_fully` as methods with loops over a `Descriptor` object, which
  stands for the kernel end of the socket. The descriptor holds a finite
  script of kernel answers, one per call:
  - a count, which may be smaller than asked (a short write or read);
  - `EINTR`;
  - a hard error.

  When the script runs out, the peer is gone. A closed descriptor answers
  `EBADF`. The descriptor also holds what the peer has received from us
  (`sent`), the whole stream the peer sends us (`incoming`), and how many
  bytes of that stream have been read (`received`). The pure functions
  `WriteLoop` and `ReadLoop` say what one full transfer does with such a
  script. `WriteAfter` and `ReadAfter` say what it does once a call has
  answered. The methods are proved to do exactly that.
- `transport.dfy`, module `Transport`, holds the four frames with their
  opcodes (AddPointer 0, RemovePointer 1, ClearPointer 2, MoveView 3) and
  the default socket name `"AmethystLauncher"`. It also holds a reference
  decoder (`DecodeFrame`, `DecodeAll`). This decoder is the reference
  decoder the frames are proved against, not the mod's own code.
  The `Server` class has a `state` that is Stopped, Listening or Connected,
  a socket name, and the connected `Descriptor`, if any. It provides
  `Start`, an abstract `Accept` step, `Stop` and the four senders.

Some behaviour is not fixed by the declarations and their comments. The
model decides it as follows:
- The transfer helpers return 0 on success and -1 on failure.
- A `write`/`read` returning 0 for a non-empty request ends the transfer
  with failure. For a read, that 0 is end of file.
- Starting a server that is already running changes nothing.
- A send whose write fails closes the connection and the server goes back
  to Listening. The caller sees nothing, because every sender returns
  `void`.
- `Accept` closes the previous connection: the newest connection wins.

The header's declarations and comments decide two more points:
- `TC_StartServer` returns `void`, so a bind failure is not reported. The
  server just stays Stopped (the `bound` parameter of `Start`).
- The header's "empty" name covers both `nil` and `@""`, and both select
  the default name.

## Model

| member | source | states |
|---|---|---|
| WireCodec.FloatToNet | Natives/TouchController/TCProtocol.h:13-14 | the converted word's memory image on any host is the float's bit pattern most significant byte first |
| WireCodec.NetToFloat | Natives/TouchController/TCProtocol.h:15-16 | the result's bit pattern, most significant byte first, is the memory image of the network word |
| WireCodec.FloatRoundTrip | Natives/TouchController/TCProtocol.h:13-16 | tc_ntohf(tc_htonf(f)) is f bit for bit on every host; NaN-ness and negative zero are kept |
| WireCodec.WordRoundTrip | Natives/TouchController/TCProtocol.h:13-16 | tc_htonf(tc_ntohf(u)) is u for every 32-bit word, so the two are mutual inverses |
| WireCodec.FloatExamples | Natives/TouchController/TCProtocol.h:13-16 | negative zero goes out as 80 00 00 00; a NaN with payload 0x7FC01234 goes out as 7F C0 12 34 and comes back the same NaN |
| WireCodec.HostToNet32 | Natives/TouchController/TCProtocol.h:17-18 | htonl: the result's memory image on the given host is the word most significant byte first |
| WireCodec.NetToHost32 | Natives/TouchController/TCProtocol.h:15-16 | ntohl: the result's bytes, most significant first, are the memory image of the network word |
| WireCodec.NetToHostOfHostToNet | Natives/TouchController/TCProtocol.h:13-16 | ntohl undoes htonl on every host |
| WireCodec.HostToNetOfNetToHost | Natives/TouchController/TCProtocol.h:13-16 | htonl undoes ntohl on every host |
| WireCodec.Int32Bits | Natives/TouchController/TCProtocol.h:17-18 | the result is congruent to the value modulo 2^32 (C's conversion to `uint32_t`), and reading it back as signed gives the value |
| WireCodec.Int32ToNet | Natives/TouchController/TCProtocol.h:17-18 | tc_hton32's memory image is the two's-complement pattern of v, most significant byte first |
| WireCodec.Int32RoundTrip | Natives/TouchController/TCProtocol.h:17-18 | reading tc_hton32's four bytes MSB-first as two's complement gives back v, on every host |
| WireCodec.Int32Examples | Natives/TouchController/TCProtocol.h:17-18 | -1, INT32_MIN and 3 go out as FF FF FF FF, 80 00 00 00 and 00 00 00 03 |
| Transfer.WriteLoop | Natives/TouchController/TCProtocol.h:20-21 | a full write moves at most count bytes and succeeds exactly when it moved all of them |
| Transfer.ReadLoop | Natives/TouchController/TCProtocol.h:20-22 | a full read moves at most count bytes and no more than the peer sent, and succeeds exactly when it moved count bytes |
| Transfer.Descriptor.Write | Natives/TouchController/TCProtocol.h:21 | one write(2) call: at most the bytes asked for, appended to what the peer received in order, or an error that moves nothing |
| Transfer.Descriptor.Read | Natives/TouchController/TCProtocol.h:22 | one read(2) call: the next unread bytes of the peer's stream, copied to buf[off..] in order and counted as received, the rest of buf untouched; or 0 at end of file; or an error that moves nothing |
| Transfer.WriteFully | Natives/TouchController/TCProtocol.h:20-21 | returns 0 or -1; 0 exactly when WriteLoop succeeds; the peer then holds its prior bytes followed by buf[0..count]; on failure it holds an in-order prefix of buf |
| Transfer.ReadFully | Natives/TouchController/TCProtocol.h:20-22 | returns 0 or -1; 0 exactly when ReadLoop succeeds; buf[0..moved] holds the next unread bytes of the peer's stream in order and the rest of buf is untouched; on success that is all count bytes; never success on a partial read |
| Transfer.ZeroCountSucceeds | Natives/TouchController/TCProtocol.h:21-22 | with count 0 both helpers succeed, move nothing and make no call |
| Transfer.InterruptedWriteIsRetried | Natives/TouchController/TCProtocol.h:20-21 | an EINTR answer moves no byte and does not change the outcome of the write |
| Transfer.InterruptedReadIsRetried | Natives/TouchController/TCProtocol.h:20-22 | an EINTR answer moves no byte and does not change the outcome of the read |
| Transfer.EarlyCloseFailsRead | Natives/TouchController/TCProtocol.h:22 | when the peer sends fewer than count bytes, the read fails |
| Transfer.WriteSucceedsWhenKernelKeepsUp | Natives/TouchController/TCProtocol.h:20-21 | any mix of short writes and interruptions that takes the bytes in the end makes the write succeed |
| Transfer.ReadSucceedsWhenDataArrives | Natives/TouchController/TCProtocol.h:20-22 | any mix of short reads and interruptions succeeds once the peer has sent count bytes |
| Transport.EncodeAddPointer | Natives/TouchController/TCTransport.h:18-19 | 13 bytes: opcode 0, then index, x and y, each 4 bytes in network order |
| Transport.EncodeRemovePointer | Natives/TouchController/TCTransport.h:21-22 | 5 bytes: opcode 1, then index in network order |
| Transport.EncodeClearPointer | Natives/TouchController/TCTransport.h:24-25 | the single byte 02 |
| Transport.EncodeMoveView | Natives/TouchController/TCTransport.h:27-28 | 10 bytes: opcode 3, screenBased as one byte 0 or 1, then deltaPitch and deltaYaw in network order |
| Transport.BoolByte | Natives/TouchController/TCTransport.h:27-28 | screenBased becomes exactly one byte, 1 for true and 0 for false |
| Transport.Encode | Natives/TouchController/TCTransport.h:18-28 | every frame starts with its event's opcode and has the length its field types give |
| Transport.EncodeIsHostIndependent | Natives/TouchController/TCTransport.h:18-28 | a little-endian and a big-endian launcher put the same bytes on the wire |
| Transport.DecodeFrame | Natives/TouchController/TCTransport.h:18-28 | a decoded frame is never longer than the input and its length matches its event |
| Transport.DecodeEncode | Natives/TouchController/TCTransport.h:18-28 | the decoder reads back exactly the event sent, with its frame length, whatever follows it |
| Transport.DecodeEncodeAll | Natives/TouchController/TCTransport.h:18-28 | frames sent one after another decode to the same events in the same order |
| Transport.TruncatedFrameIsRejected | Natives/TouchController/TCTransport.h:18-28 | a frame cut short decodes to no event |
| Transport.ExampleFrames | Natives/TouchController/TCTransport.h:18-25 | AddPointer(3, 0.5, -1.25) is 00 00000003 3F000000 BFA00000; ClearPointer is 02 |
| Transport.SocketName | Natives/TouchController/TCTransport.h:10-13 | a nil or empty name selects "AmethystLauncher"; any other name is used unchanged; the result is never empty |
| Transport.Server.Start | Natives/TouchController/TCTransport.h:10-13 | from Stopped with a successful bind: Listening under SocketName(name), no client; a failed bind stays Stopped; a running server is unchanged |
| Transport.Server.Accept | Natives/TouchController/TCTransport.h:12 | while running, the new connection becomes the client and the old one is closed; nothing happens while stopped |
| Transport.Server.Stop | Natives/TouchController/TCTransport.h:15-16 | from any state: Stopped, no name, no client, and the old connection closed with its output unchanged |
| Transport.Server.Send | Natives/TouchController/TCTransport.h:18-28 | no client: nothing changes; with a client: the written prefix of the frame is appended to its output; a full write stays Connected, a failed one closes it and returns to Listening |
| Transport.Server.SendAddPointer | Natives/TouchController/TCTransport.h:18-19 | no effect without a client; otherwise the client's output grows by the prefix of the AddPointer frame that WriteLoop moves, the kernel's script is what WriteLoop leaves, success keeps the same client Connected, and failure closes it and goes back to Listening; when still Connected, the whole frame was appended |
| Transport.Server.SendRemovePointer | Natives/TouchController/TCTransport.h:21-22 | no effect without a client; otherwise the client's output grows by the prefix of the RemovePointer frame that WriteLoop moves, the kernel's script is what WriteLoop leaves, success keeps the same client Connected, and failure closes it and goes back to Listening; when still Connected, the whole frame was appended |
| Transport.Server.SendClearPointer | Natives/TouchController/TCTransport.h:24-25 | no effect without a client; otherwise the client's output grows by the prefix of the byte 02 that WriteLoop moves, the kernel's script is what WriteLoop leaves, success keeps the same client Connected, and failure closes it and goes back to Listening; when still Connected, the whole frame was appended |
| Transport.Server.SendMoveView | Natives/TouchController/TCTransport.h:27-28 | no effect without a client; otherwise the client's output grows by the prefix of the MoveView frame that WriteLoop moves, the kernel's script is what WriteLoop leaves, success keeps the same client Connected, and failure closes it and goes back to Listening; when still Connected, the whole frame was appended |
| Transport.SessionDeliversInOrder | Natives/TouchController/TCTransport.h:10-28 | start, accept, two sends: the mod decodes both events in the order sent |
| Transport.StopIsIdempotent | Natives/TouchController/TCTransport.h:15-16 | the state after the second stop equals the state after the first (Stopped, no name, no client), and the former client stays closed with its output and script unchanged |
| Transport.SendAfterStopWritesNothing | Natives/TouchController/TCTransport.h:15-19 | after Stop, a send adds no byte to the former client's output |

## Left out

- The socket system calls (`socket`, `bind`, `listen`, `accept`, `unlink`) and the filesystem socket entry are foreign OS calls. They appear only as the `bound` parameter of `Start` and the `Accept` step.
- The background acceptor thread and any locking around the client descriptor are concurrency. `Accept` is an ordinary sequential step, and interleavings of sends with accepts are not modelled.
- Float arithmetic is not modelled: floats are 32-bit patterns only.
- Blocking behaviour, timeouts and a non-blocking drop policy are not modelled. A call either returns an answer from the script or the peer is gone.
- Transfer.ReadFully: the return code does not tell "end of file before any byte" apart from a later failure. It returns -1 in both cases. The moved count in its contract says how far it got.
- Logging of accept failures is left out. An accept failure is simply no `Accept` step.
- Mod scanning, metadata, icons and file toggling (`Natives/ModItem.h`, `Natives/ModService.h`) are filesystem and network work.
- Downloads (`Natives/MinecraftResourceDownloadTask.h`) are network I/O.
- The UIKit views (`Natives/ModTableViewCell.h`, `Natives/ModTableViewController.h`, `Natives/ModsManagerViewController.h`) are user interface.
- The authentication wrapper (`Natives/authenticator/ThirdPartyAuthenticator.h`) wraps code that is not part of this model.
- The bodies of the TouchController functions are not part of this model. Behaviour the declarations leave open is decided as described above.
