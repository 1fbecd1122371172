/**
 * The launcher side of the TouchController bridge: the four event frames
 * and the server that owns the socket and the one connected game-side mod.
 *
 * A frame is a one-byte opcode followed by its fields; every 32-bit field
 * is the word tc_hton32 or tc_htonf returns, copied into the frame as it
 * lies in memory.  `DecodeFrame` is the reading side, as the mod parses
 * the stream; the lemmas show that it recovers every event, that frames
 * concatenated on a stream come back in order, and that a cut-off frame is
 * never mistaken for a whole one.
 *
 * The socket system calls (bind, listen, accept, unlink) and the acceptor
 * thread are replaced by the ordinary steps `Start` (whose bind outcome is
 * a parameter) and `Accept` (which is handed the new connection).
 */
module Transport {
  import opened WireCodec
  import opened Transfer

  datatype Option<T> = None | Some(value: T)

  /** The opcodes agreed with the game-side mod. */
  const OP_ADD_POINTER: Byte := 0
  const OP_REMOVE_POINTER: Byte := 1
  const OP_CLEAR_POINTER: Byte := 2
  const OP_MOVE_VIEW: Byte := 3

  /** The socket name used when the caller gives none. */
  const DEFAULT_SOCKET_NAME: string := "AmethystLauncher"

  /** One forwarded input event. */
  datatype Event =
    | AddPointer(index: Int32, x: Float32, y: Float32)
    | RemovePointer(index: Int32)
    | ClearPointer
    | MoveView(screenBased: bool, deltaPitch: Float32, deltaYaw: Float32)

  function Opcode(ev: Event): Byte {
    match ev
    case AddPointer(_, _, _) => OP_ADD_POINTER
    case RemovePointer(_) => OP_REMOVE_POINTER
    case ClearPointer => OP_CLEAR_POINTER
    case MoveView(_, _, _) => OP_MOVE_VIEW
  }

  /** The frame length that follows from the field types. */
  function FrameLength(ev: Event): nat {
    match ev
    case AddPointer(_, _, _) => 1 + 4 + 4 + 4
    case RemovePointer(_) => 1 + 4
    case ClearPointer => 1
    case MoveView(_, _, _) => 1 + 1 + 4 + 4
  }

  /** A BOOL goes out as exactly one byte, 0 or 1. */
  function BoolByte(b: bool): (r: Byte)
    ensures r == 0 || r == 1
    ensures (r == 1) == b
  {
    if b then 1 else 0
  }

  // ---------------------------------------------------------------------
  // Encoding, as the senders build a frame on a `host` machine

  /** The frame TC_SendAddPointer writes: opcode, index, x, y. */
  function EncodeAddPointer(host: Endian, index: Int32, x: Float32, y: Float32): (frame: seq<Byte>)
    ensures |frame| == 13
    ensures frame == [OP_ADD_POINTER] + BigEndianBytes(Int32Bits(index))
                     + BigEndianBytes(x.bits) + BigEndianBytes(y.bits)
  {
    [OP_ADD_POINTER] + HostLayout(Int32ToNet(index, host), host)
      + HostLayout(FloatToNet(x, host), host) + HostLayout(FloatToNet(y, host), host)
  }

  /** The frame TC_SendRemovePointer writes: opcode, index. */
  function EncodeRemovePointer(host: Endian, index: Int32): (frame: seq<Byte>)
    ensures |frame| == 5
    ensures frame == [OP_REMOVE_POINTER] + BigEndianBytes(Int32Bits(index))
  {
    [OP_REMOVE_POINTER] + HostLayout(Int32ToNet(index, host), host)
  }

  /** The frame TC_SendClearPointer writes: the opcode alone. */
  function EncodeClearPointer(): (frame: seq<Byte>)
    ensures frame == [2]
  {
    [OP_CLEAR_POINTER]
  }

  /** The frame TC_SendMoveView writes: opcode, screenBased, pitch, yaw. */
  function EncodeMoveView(host: Endian, screenBased: bool, deltaPitch: Float32, deltaYaw: Float32): (frame: seq<Byte>)
    ensures |frame| == 10
    ensures frame == [OP_MOVE_VIEW, if screenBased then 1 else 0]
                     + BigEndianBytes(deltaPitch.bits) + BigEndianBytes(deltaYaw.bits)
  {
    [OP_MOVE_VIEW, BoolByte(screenBased)]
      + HostLayout(FloatToNet(deltaPitch, host), host) + HostLayout(FloatToNet(deltaYaw, host), host)
  }

  function Encode(host: Endian, ev: Event): (frame: seq<Byte>)
    ensures |frame| == FrameLength(ev) && frame[0] == Opcode(ev)
  {
    match ev
    case AddPointer(i, x, y) => EncodeAddPointer(host, i, x, y)
    case RemovePointer(i) => EncodeRemovePointer(host, i)
    case ClearPointer => EncodeClearPointer()
    case MoveView(s, p, q) => EncodeMoveView(host, s, p, q)
  }

  /** The bytes on the wire do not depend on the launcher's byte order. */
  lemma EncodeIsHostIndependent(ev: Event)
    ensures Encode(LittleEndian, ev) == Encode(BigEndian, ev)
  {
  }

  /** The frames of `evs`, one after another, as a stream carries them. */
  function EncodeAll(host: Endian, evs: seq<Event>): seq<Byte> {
    if evs == [] then [] else Encode(host, evs[0]) + EncodeAll(host, evs[1..])
  }

  // ---------------------------------------------------------------------
  // Decoding, as the game-side mod reads the stream

  function Float32At(s: seq<Byte>, i: nat): Float32
    requires i + 4 <= |s|
  {
    Float32(FromBigEndian(s[i..i + 4]))
  }

  function Int32At(s: seq<Byte>, i: nat): Int32
    requires i + 4 <= |s|
  {
    DecodeInt32(s[i..i + 4])
  }

  /** The first frame of `s` and its length, or None when `s` does not start
      with a whole frame (an unknown opcode, a screenBased byte other than
      0 or 1, or too few bytes). */
  function DecodeFrame(s: seq<Byte>): (r: Option<(Event, nat)>)
    ensures r.Some? ==> r.value.1 == FrameLength(r.value.0) <= |s|
  {
    if s == [] then None
    else if s[0] == OP_ADD_POINTER then
      if |s| < 13 then None
      else Some((AddPointer(Int32At(s, 1), Float32At(s, 5), Float32At(s, 9)), 13))
    else if s[0] == OP_REMOVE_POINTER then
      if |s| < 5 then None
      else Some((RemovePointer(Int32At(s, 1)), 5))
    else if s[0] == OP_CLEAR_POINTER then
      Some((ClearPointer, 1))
    else if s[0] == OP_MOVE_VIEW then
      if |s| < 10 || s[1] > 1 then None
      else Some((MoveView(s[1] == 1, Float32At(s, 2), Float32At(s, 6)), 10))
    else None
  }

  /** The events of a stream made of whole frames, or None. */
  function DecodeAll(s: seq<Byte>): Option<seq<Event>>
    decreases |s|
  {
    if s == [] then Some([])
    else match DecodeFrame(s)
      case None => None
      case Some((ev, n)) =>
        match DecodeAll(s[n..])
        case None => None
        case Some(evs) => Some([ev] + evs)
  }

  lemma Int32AtBytes(a: seq<Byte>, v: Int32, b: seq<Byte>)
    ensures Int32At(a + BigEndianBytes(Int32Bits(v)) + b, |a|) == v
  {
    assert (a + BigEndianBytes(Int32Bits(v)) + b)[|a|..|a| + 4] == BigEndianBytes(Int32Bits(v));
    FromBigEndianOfBytes(Int32Bits(v));
  }

  lemma DecodeAddPointer(host: Endian, i: Int32, x: Float32, y: Float32, rest: seq<Byte>)
    ensures DecodeFrame(EncodeAddPointer(host, i, x, y) + rest) == Some((AddPointer(i, x, y), 13))
  {
    var s := EncodeAddPointer(host, i, x, y) + rest;
    var bIndex, bX, bY := BigEndianBytes(Int32Bits(i)), BigEndianBytes(x.bits), BigEndianBytes(y.bits);
    assert s[1..5] == bIndex && s[5..9] == bX && s[9..13] == bY;
    FromBigEndianOfBytes(Int32Bits(i));
    FromBigEndianOfBytes(x.bits);
    FromBigEndianOfBytes(y.bits);
  }

  lemma DecodeMoveView(host: Endian, sb: bool, p: Float32, q: Float32, rest: seq<Byte>)
    ensures DecodeFrame(EncodeMoveView(host, sb, p, q) + rest) == Some((MoveView(sb, p, q), 10))
  {
    var s := EncodeMoveView(host, sb, p, q) + rest;
    assert s[2..6] == BigEndianBytes(p.bits) && s[6..10] == BigEndianBytes(q.bits);
    FromBigEndianOfBytes(p.bits);
    FromBigEndianOfBytes(q.bits);
  }

  /** The mod reads back exactly the event that was sent, whatever follows
      it on the stream. */
  lemma {:induction false} DecodeEncode(host: Endian, ev: Event, rest: seq<Byte>)
    ensures DecodeFrame(Encode(host, ev) + rest) == Some((ev, FrameLength(ev)))
  {
    match ev
    case AddPointer(i, x, y) => DecodeAddPointer(host, i, x, y, rest);
    case RemovePointer(i) => Int32AtBytes([OP_REMOVE_POINTER], i, rest);
    case ClearPointer =>
    case MoveView(sb, p, q) => DecodeMoveView(host, sb, p, q, rest);
  }

  /** Frames written one after another come back as the same events in the
      same order. */
  lemma {:induction false} DecodeEncodeAll(host: Endian, evs: seq<Event>)
    ensures DecodeAll(EncodeAll(host, evs)) == Some(evs)
  {
    if evs != [] {
      var s := EncodeAll(host, evs);
      var n := FrameLength(evs[0]);
      DecodeEncode(host, evs[0], EncodeAll(host, evs[1..]));
      assert s[n..] == EncodeAll(host, evs[1..]);
      DecodeEncodeAll(host, evs[1..]);
      assert [evs[0]] + evs[1..] == evs;
    }
  }

  /** A frame cut short (as a failed write leaves it) is not read as any
      frame: the mod never acts on half an event. */
  lemma TruncatedFrameIsRejected(host: Endian, ev: Event, k: nat)
    requires k < FrameLength(ev)
    ensures DecodeFrame(Encode(host, ev)[..k]) == None
  {
  }

  /** Two sample frames: AddPointer(3, 0.5, -1.25) and ClearPointer(). */
  lemma ExampleFrames(host: Endian)
    ensures Encode(host, AddPointer(3, Float32(0x3F00_0000), Float32(0xBFA0_0000)))
            == [0x00, 0x00, 0x00, 0x00, 0x03, 0x3F, 0x00, 0x00, 0x00, 0xBF, 0xA0, 0x00, 0x00]
    ensures Encode(host, ClearPointer) == [0x02]
  {
    assert BigEndianBytes(Int32Bits(3)) == [0x00, 0x00, 0x00, 0x03];
    assert BigEndianBytes(0x3F00_0000) == [0x3F, 0x00, 0x00, 0x00];
    assert BigEndianBytes(0xBFA0_0000) == [0xBF, 0xA0, 0x00, 0x00];
  }

  // ---------------------------------------------------------------------
  // The server

  /** The name TC_StartServer listens on: the caller's, or the default when
      the caller passes nil or an empty string. */
  function SocketName(name: Option<string>): (r: string)
    ensures r != ""
    ensures name.Some? && name.value != "" ==> r == name.value
    ensures name == None || name == Some("") ==> r == DEFAULT_SOCKET_NAME
  {
    if name.Some? && name.value != "" then name.value else DEFAULT_SOCKET_NAME
  }

  datatype ServerState = Stopped | Listening | Connected

  /** The process-wide server state behind TC_StartServer, TC_StopServer and
      the four senders. */
  class Server {
    /** The byte order of the machine the launcher runs on. */
    const host: Endian
    var state: ServerState
    /** The name the socket is bound to; empty while stopped. */
    var socketName: string
    /** The connection to the mod, while connected. */
    var client: Descriptor?

    ghost predicate Valid()
      reads this, client
    {
      (state == Stopped <==> socketName == "") &&
      (state == Connected <==> client != null) &&
      (client != null ==> client.open)
    }

    constructor (host: Endian)
      ensures Valid() && this.host == host
      ensures state == Stopped && socketName == "" && client == null
    {
      this.host := host;
      state := Stopped;
      socketName := "";
      client := null;
    }

    /** TC_StartServer.  Starting a running server changes nothing; when the
        socket cannot be bound (`bound` is false) the server stays stopped. */
    method Start(name: Option<string>, bound: bool)
      requires Valid()
      modifies this
      ensures Valid()
      ensures old(state) != Stopped ==>
                state == old(state) && socketName == old(socketName) && client == old(client)
      ensures old(state) == Stopped && bound ==>
                state == Listening && socketName == SocketName(name) && client == null
      ensures old(state) == Stopped && !bound ==>
                state == Stopped && socketName == "" && client == null
    {
      if state == Stopped && bound {
        state := Listening;
        socketName := SocketName(name);
      }
    }

    /** One step of the acceptor loop: the mod has connected on `peer`.  The
        newest connection wins and the previous one is closed.  Nothing is
        accepted while the server is stopped. */
    method Accept(peer: Descriptor)
      requires Valid() && peer.open && peer != client
      modifies this, client
      ensures Valid()
      ensures socketName == old(socketName)
      ensures old(state) == Stopped ==> state == Stopped && client == null
      ensures old(state) != Stopped ==> state == Connected && client == peer
      ensures old(state) != Stopped && old(client) != null ==> !old(client).open
      ensures old(client) != null ==>
                old(client).sent == old(client.sent) && old(client).offers == old(client.offers)
      ensures peer.open && peer.sent == old(peer.sent) && peer.offers == old(peer.offers)
    {
      if state != Stopped {
        if client != null {
          client.Close();
        }
        client := peer;
        state := Connected;
      }
    }

    /** TC_StopServer: close the connection and the socket, whatever the
        previous state.  Calling it again leaves the same state. */
    method Stop()
      requires Valid()
      modifies this, client
      ensures Valid()
      ensures state == Stopped && socketName == "" && client == null
      ensures old(client) != null ==>
                !old(client).open && old(client).sent == old(client.sent) &&
                old(client).offers == old(client.offers)
    {
      if client != null {
        client.Close();
      }
      state := Stopped;
      socketName := "";
      client := null;
    }

    /** Writes the frame of `ev` to the mod, if one is connected.  Nothing is
        reported to the caller; a failed write drops the connection and the
        server goes back to listening. */
    method Send(ev: Event)
      requires Valid()
      modifies this, client
      ensures Valid()
      ensures socketName == old(socketName)
      ensures old(client) == null ==> state == old(state) && client == null
      ensures old(client) != null ==>
                var frame := Encode(host, ev);
                var t := WriteLoop(true, old(client.offers), |frame|, 0);
                old(client).sent == old(client.sent) + frame[..t.moved] &&
                old(client).offers == t.rest &&
                (t.ok ==> state == Connected && client == old(client)) &&
                (!t.ok ==> state == Listening && client == null && !old(client).open)
      ensures state == Connected ==> old(client).sent == old(client.sent) + Encode(host, ev)
    {
      if client != null {
        var frame := Encode(host, ev);
        var r := WriteFully(client, frame, |frame|);
        if r != SUCCESS {
          client.Close();
          client := null;
          state := Listening;
        }
      }
    }

    /** TC_SendAddPointer. */
    method SendAddPointer(index: Int32, x: Float32, y: Float32)
      requires Valid()
      modifies this, client
      ensures Valid()
      ensures socketName == old(socketName)
      ensures old(client) == null ==> state == old(state) && client == null
      ensures old(client) != null ==>
                var frame := EncodeAddPointer(host, index, x, y);
                var t := WriteLoop(true, old(client.offers), |frame|, 0);
                old(client).sent == old(client.sent) + frame[..t.moved] &&
                old(client).offers == t.rest &&
                (t.ok ==> state == Connected && client == old(client)) &&
                (!t.ok ==> state == Listening && client == null && !old(client).open)
      ensures state == Connected ==> old(client).sent == old(client.sent) + EncodeAddPointer(host, index, x, y)
    {
      Send(AddPointer(index, x, y));
    }

    /** TC_SendRemovePointer. */
    method SendRemovePointer(index: Int32)
      requires Valid()
      modifies this, client
      ensures Valid()
      ensures socketName == old(socketName)
      ensures old(client) == null ==> state == old(state) && client == null
      ensures old(client) != null ==>
                var frame := EncodeRemovePointer(host, index);
                var t := WriteLoop(true, old(client.offers), |frame|, 0);
                old(client).sent == old(client.sent) + frame[..t.moved] &&
                old(client).offers == t.rest &&
                (t.ok ==> state == Connected && client == old(client)) &&
                (!t.ok ==> state == Listening && client == null && !old(client).open)
      ensures state == Connected ==> old(client).sent == old(client.sent) + EncodeRemovePointer(host, index)
    {
      Send(RemovePointer(index));
    }

    /** TC_SendClearPointer. */
    method SendClearPointer()
      requires Valid()
      modifies this, client
      ensures Valid()
      ensures socketName == old(socketName)
      ensures old(client) == null ==> state == old(state) && client == null
      ensures old(client) != null ==>
                var frame := EncodeClearPointer();
                var t := WriteLoop(true, old(client.offers), |frame|, 0);
                old(client).sent == old(client.sent) + frame[..t.moved] &&
                old(client).offers == t.rest &&
                (t.ok ==> state == Connected && client == old(client)) &&
                (!t.ok ==> state == Listening && client == null && !old(client).open)
      ensures state == Connected ==> old(client).sent == old(client.sent) + EncodeClearPointer()
    {
      Send(ClearPointer);
    }

    /** TC_SendMoveView. */
    method SendMoveView(screenBased: bool, deltaPitch: Float32, deltaYaw: Float32)
      requires Valid()
      modifies this, client
      ensures Valid()
      ensures socketName == old(socketName)
      ensures old(client) == null ==> state == old(state) && client == null
      ensures old(client) != null ==>
                var frame := EncodeMoveView(host, screenBased, deltaPitch, deltaYaw);
                var t := WriteLoop(true, old(client.offers), |frame|, 0);
                old(client).sent == old(client.sent) + frame[..t.moved] &&
                old(client).offers == t.rest &&
                (t.ok ==> state == Connected && client == old(client)) &&
                (!t.ok ==> state == Listening && client == null && !old(client).open)
      ensures state == Connected ==> old(client).sent == old(client.sent) + EncodeMoveView(host, screenBased, deltaPitch, deltaYaw)
    {
      Send(MoveView(screenBased, deltaPitch, deltaYaw));
    }
  }

  /** A write the kernel takes whole in one call. */
  lemma OneWriteSuffices(rest: seq<SysResult>, n: nat)
    requires n > 0
    ensures WriteLoop(true, [Count(n)] + rest, n, 0) == Transfer(true, n, rest)
  {
    var offers := [Count(n)] + rest;
    assert offers[1..] == rest;
    assert WriteCall(true, offers, n) == Call(Count(n), rest);
    assert WriteLoop(true, rest, n, n) == Transfer(true, n, rest);
  }

  lemma TwoFramesRoundTrip(host: Endian, a: Event, b: Event)
    ensures DecodeAll(Encode(host, a) + Encode(host, b)) == Some([a, b])
  {
    assert EncodeAll(host, [a, b]) == Encode(host, a) + Encode(host, b) by {
      assert [a, b][1..] == [b] && [b][1..] == [];
      assert EncodeAll(host, [b]) == Encode(host, b) + EncodeAll(host, []);
    }
    DecodeEncodeAll(host, [a, b]);
  }

  /** A session as the launcher drives it: start under the default name, the
      mod connects, two events go out.  With a kernel that takes every byte,
      the mod reads back both events in order. */
  method SessionDeliversInOrder(host: Endian, peer: Descriptor, a: Event, b: Event)
      returns (received: Option<seq<Event>>)
    requires peer.open && peer.sent == []
    requires peer.offers == [Count(FrameLength(a)), Count(FrameLength(b))]
    modifies peer
    ensures received == Some([a, b])
  {
    var server := new Server(host);
    server.Start(None, true);
    assert server.socketName == DEFAULT_SOCKET_NAME;
    server.Accept(peer);
    assert peer.offers == [Count(FrameLength(a))] + [Count(FrameLength(b))];
    OneWriteSuffices([Count(FrameLength(b))], FrameLength(a));
    server.Send(a);
    assert server.state == Connected && server.client == peer;
    assert peer.sent == Encode(host, a);
    assert peer.offers == [Count(FrameLength(b))] + [];
    OneWriteSuffices([], FrameLength(b));
    server.Send(b);
    assert server.state == Connected;
    assert peer.sent == Encode(host, a) + Encode(host, b);
    TwoFramesRoundTrip(host, a, b);
    received := DecodeAll(peer.sent);
  }

  /** Stopping twice leaves the server exactly as stopping once, and the
      mod that was connected stays closed with its output untouched. */
  method StopIsIdempotent(server: Server) returns (afterOne: (ServerState, string, Descriptor?))
    requires server.Valid()
    modifies server, server.client
    ensures server.Valid()
    ensures afterOne == (Stopped, "", null)
    ensures (server.state, server.socketName, server.client) == afterOne
    ensures old(server.client) != null ==>
              !old(server.client).open && old(server.client).sent == old(server.client.sent) &&
              old(server.client).offers == old(server.client.offers)
  {
    server.Stop();
    afterOne := (server.state, server.socketName, server.client);
    server.Stop();
  }

  /** Once the server is stopped, a send reaches no connection: the mod that
      was connected receives nothing more. */
  method SendAfterStopWritesNothing(server: Server, peer: Descriptor, index: Int32, x: Float32, y: Float32)
    requires server.Valid() && server.client == peer
    modifies server, peer
    ensures server.state == Stopped && server.client == null
    ensures peer.sent == old(peer.sent) && !peer.open
  {
    server.Stop();
    server.SendAddPointer(index, x, y);
  }
}
