/**
 * The full-transfer helpers of the TouchController bridge,
 * tc_write_fully and tc_read_fully, over an abstract socket descriptor.
 *
 * The kernel end of a descriptor is a `Descriptor` object.  Its `offers`
 * field is the finite script of answers the kernel gives to the coming
 * read(2)/write(2) calls, one per call: `Count(n)` lets through at most `n`
 * bytes (so a call may move fewer bytes than asked), `Error(EINTR)` is a
 * call interrupted by a signal, any other `Error` a hard failure.  Once
 * the script is used up the peer is gone: a write fails with EPIPE and a
 * read sees end of file.  A closed descriptor answers EBADF.
 *
 * What one full transfer does with a script is a pure function
 * (`WriteLoop`, `ReadLoop`); the methods are proved to do exactly that.
 */
module Transfer {
  import opened WireCodec

  /** The error numbers the model distinguishes. */
  datatype Errno = EINTR | EPIPE | ECONNRESET | EBADF

  /** What one read(2) or write(2) call returns: a byte count, or -1 with
      `errno` set. */
  datatype SysResult = Count(n: nat) | Error(errno: Errno)

  /** The return values of tc_write_fully and tc_read_fully. */
  const SUCCESS: int := 0
  const FAILURE: int := -1

  function Min(a: nat, b: nat): (m: nat)
    ensures m <= a && m <= b && (m == a || m == b)
  {
    if a <= b then a else b
  }

  /** The answer to a write of `requested` bytes when the kernel offers `offer`. */
  function WriteAnswer(offer: SysResult, requested: nat): (r: SysResult)
    ensures r.Count? ==> r.n <= requested
  {
    match offer
    case Count(n) => Count(Min(n, requested))
    case Error(e) => Error(e)
  }

  /** The answer to a read of `requested` bytes when the kernel offers `offer`
      and `available` bytes have arrived from the peer. */
  function ReadAnswer(offer: SysResult, requested: nat, available: nat): (r: SysResult)
    ensures r.Count? ==> r.n <= requested && r.n <= available
  {
    match offer
    case Count(n) => Count(Min(n, Min(requested, available)))
    case Error(e) => Error(e)
  }

  /** One call as the kernel answers it, and what is left of its script. */
  datatype Call = Call(result: SysResult, rest: seq<SysResult>)

  /** A write(2) of `requested` bytes on a descriptor that is `open` and
      whose kernel will answer `offers`. */
  function WriteCall(open: bool, offers: seq<SysResult>, requested: nat): (c: Call)
    ensures c.result.Count? ==> c.result.n <= requested
    ensures |c.rest| <= |offers|
    ensures Progresses(c.result) ==> |c.rest| < |offers|
  {
    if !open then Call(Error(EBADF), offers)
    else if offers == [] then Call(Error(EPIPE), offers)
    else Call(WriteAnswer(offers[0], requested), offers[1..])
  }

  /** A read(2) of at most `requested` bytes when `available` bytes have
      arrived; an exhausted script is end of file. */
  function ReadCall(open: bool, offers: seq<SysResult>, available: nat, requested: nat): (c: Call)
    ensures c.result.Count? ==> c.result.n <= requested && c.result.n <= available
    ensures |c.rest| <= |offers|
    ensures Progresses(c.result) ==> |c.rest| < |offers|
  {
    if !open then Call(Error(EBADF), offers)
    else if offers == [] then Call(Count(0), offers)
    else Call(ReadAnswer(offers[0], requested, available), offers[1..])
  }

  /** The outcome of one full transfer: whether it reported success, the
      offset it reached (the bytes moved), and what is left of the kernel's
      script. */
  datatype Transfer = Transfer(ok: bool, moved: nat, rest: seq<SysResult>)

  /** What tc_write_fully does from offset `off` on, with `count` bytes to
      write in all: retry on EINTR, advance by each short write, give up on
      any other error or on a write that makes no progress. */
  function WriteLoop(open: bool, offers: seq<SysResult>, count: nat, off: nat): (t: Transfer)
    requires off <= count
    ensures off <= t.moved <= count
    ensures t.ok <==> t.moved == count
    ensures |t.rest| <= |offers|
    decreases |offers|, 1
  {
    if off == count then Transfer(true, off, offers)
    else WriteAfter(open, count, off, |offers|, WriteCall(open, offers, count - off))
  }

  /** What tc_write_fully does once the call from offset `off` returned `c`. */
  function WriteAfter(open: bool, count: nat, off: nat, calls: nat, c: Call): (t: Transfer)
    requires off < count
    requires c.result.Count? ==> c.result.n <= count - off
    requires |c.rest| <= calls && (Progresses(c.result) ==> |c.rest| < calls)
    ensures off <= t.moved <= count
    ensures t.ok <==> t.moved == count
    ensures |t.rest| <= |c.rest|
    decreases calls, 0
  {
    if c.result == Error(EINTR) then WriteLoop(open, c.rest, count, off)
    else if c.result.Count? && c.result.n > 0 then WriteLoop(open, c.rest, count, off + c.result.n)
    else Transfer(false, off, c.rest)
  }

  /** What tc_read_fully does from offset `off` on, with `count` bytes to
      read in all and `available` bytes waiting from the peer: retry on
      EINTR, advance by each short read, give up on end of file or any
      other error. */
  function ReadLoop(open: bool, offers: seq<SysResult>, available: nat, count: nat, off: nat): (t: Transfer)
    requires off <= count
    ensures off <= t.moved <= count
    ensures t.moved - off <= available
    ensures t.ok <==> t.moved == count
    ensures |t.rest| <= |offers|
    decreases |offers|, 1
  {
    if off == count then Transfer(true, off, offers)
    else ReadAfter(open, available, count, off, |offers|, ReadCall(open, offers, available, count - off))
  }

  /** What tc_read_fully does once the call from offset `off` returned `c`. */
  function ReadAfter(open: bool, available: nat, count: nat, off: nat, calls: nat, c: Call): (t: Transfer)
    requires off < count
    requires c.result.Count? ==> c.result.n <= count - off && c.result.n <= available
    requires |c.rest| <= calls && (Progresses(c.result) ==> |c.rest| < calls)
    ensures off <= t.moved <= count
    ensures t.moved - off <= available
    ensures t.ok <==> t.moved == count
    ensures |t.rest| <= |c.rest|
    decreases calls, 0
  {
    if c.result == Error(EINTR) then ReadLoop(open, c.rest, available, count, off)
    else if c.result.Count? && c.result.n > 0 then
      ReadLoop(open, c.rest, available - c.result.n, count, off + c.result.n)
    else Transfer(false, off, c.rest)
  }

  /** With nothing to move both helpers succeed at once, move no byte and
      make no call. */
  lemma ZeroCountSucceeds(open: bool, offers: seq<SysResult>, available: nat)
    ensures WriteLoop(open, offers, 0, 0) == Transfer(true, 0, offers)
    ensures ReadLoop(open, offers, available, 0, 0) == Transfer(true, 0, offers)
  {
  }

  /** An interrupted write moves nothing and is simply retried. */
  lemma InterruptedWriteIsRetried(offers: seq<SysResult>, count: nat, off: nat)
    requires off < count
    ensures WriteLoop(true, [Error(EINTR)] + offers, count, off) == WriteLoop(true, offers, count, off)
  {
    assert ([Error(EINTR)] + offers)[1..] == offers;
  }

  /** An interrupted read moves nothing and is simply retried. */
  lemma InterruptedReadIsRetried(offers: seq<SysResult>, available: nat, count: nat, off: nat)
    requires off < count
    ensures ReadLoop(true, [Error(EINTR)] + offers, available, count, off)
            == ReadLoop(true, offers, available, count, off)
  {
    assert ([Error(EINTR)] + offers)[1..] == offers;
  }

  /** A read that asks for more than the peer sends before closing fails. */
  lemma EarlyCloseFailsRead(open: bool, offers: seq<SysResult>, available: nat, count: nat)
    requires available < count
    ensures !ReadLoop(open, offers, available, count, 0).ok
  {
  }

  /** A kernel answer that lets the helpers go on: some bytes, or an
      interruption. */
  predicate Progresses(r: SysResult) {
    (r.Count? && r.n > 0) || r == Error(EINTR)
  }

  predicate Cooperative(offers: seq<SysResult>) {
    forall i :: 0 <= i < |offers| ==> Progresses(offers[i])
  }

  /** How many bytes the script lets through in all. */
  function Capacity(offers: seq<SysResult>): nat {
    if offers == [] then 0
    else (if offers[0].Count? then offers[0].n else 0) + Capacity(offers[1..])
  }

  /** However the kernel splits the transfer into short writes and however
      many interruptions it interleaves, tc_write_fully succeeds as long as
      no call fails and the kernel takes the bytes in the end. */
  lemma {:induction false} WriteSucceedsWhenKernelKeepsUp(offers: seq<SysResult>, count: nat, off: nat)
    requires off <= count
    requires Cooperative(offers) && count - off <= Capacity(offers)
    ensures WriteLoop(true, offers, count, off).ok
    decreases |offers|
  {
    if off < count {
      assert Progresses(offers[0]);
      assert Cooperative(offers[1..]) by {
        forall i | 0 <= i < |offers[1..]| ensures Progresses(offers[1..][i]) {
          assert offers[1..][i] == offers[i + 1];
        }
      }
      match offers[0]
      case Error(_) =>
        WriteSucceedsWhenKernelKeepsUp(offers[1..], count, off);
      case Count(n) =>
        WriteSucceedsWhenKernelKeepsUp(offers[1..], count, off + Min(n, count - off));
    }
  }

  /** Likewise tc_read_fully succeeds when the peer has sent enough bytes
      and no call fails. */
  lemma {:induction false} ReadSucceedsWhenDataArrives(offers: seq<SysResult>, available: nat, count: nat, off: nat)
    requires off <= count
    requires Cooperative(offers) && count - off <= Capacity(offers) && count - off <= available
    ensures ReadLoop(true, offers, available, count, off).ok
    decreases |offers|
  {
    if off < count {
      assert Progresses(offers[0]);
      assert Cooperative(offers[1..]) by {
        forall i | 0 <= i < |offers[1..]| ensures Progresses(offers[1..][i]) {
          assert offers[1..][i] == offers[i + 1];
        }
      }
      match offers[0]
      case Error(_) =>
        ReadSucceedsWhenDataArrives(offers[1..], available, count, off);
      case Count(n) =>
        var m := Min(n, Min(count - off, available));
        ReadSucceedsWhenDataArrives(offers[1..], available - m, count, off + m);
    }
  }

  /** The kernel end of a connected stream socket. */
  class Descriptor {
    var open: bool
    /** The bytes the peer has received from us, in order. */
    var sent: seq<Byte>
    /** The bytes the peer sends us, in order, and how many of them have
        been read so far. */
    const incoming: seq<Byte>
    var received: nat
    /** The kernel's answers to the coming calls, in order. */
    var offers: seq<SysResult>

    /** No more bytes are read than the peer sends. */
    predicate Valid()
      reads this
    {
      received <= |incoming|
    }

    constructor (incoming: seq<Byte>, offers: seq<SysResult>)
      ensures Valid()
      ensures open && sent == [] && this.incoming == incoming && received == 0 && this.offers == offers
    {
      this.open := true;
      this.sent := [];
      this.incoming := incoming;
      this.received := 0;
      this.offers := offers;
    }

    /** close(2). */
    method Close()
      modifies this
      ensures !open && sent == old(sent) && received == old(received) && offers == old(offers)
    {
      open := false;
    }

    /** write(2) of all of `data`. */
    method Write(data: seq<Byte>) returns (r: SysResult)
      modifies this
      ensures Call(r, offers) == WriteCall(old(open), old(offers), |data|)
      ensures r.Count? ==> sent == old(sent) + data[..r.n]
      ensures r.Error? ==> sent == old(sent)
      ensures open == old(open) && received == old(received)
    {
      var c := WriteCall(open, offers, |data|);
      r := c.result;
      offers := c.rest;
      if r.Count? {
        sent := sent + data[..r.n];
      }
    }

    /** read(2) of at most `k` bytes into `buf[off..off + k]`. */
    method Read(buf: array<Byte>, off: nat, k: nat) returns (r: SysResult)
      requires Valid() && off + k <= buf.Length
      modifies this, buf
      ensures Valid()
      ensures Call(r, offers) == ReadCall(old(open), old(offers), |incoming| - old(received), k)
      ensures r.Count? ==> received == old(received) + r.n
      ensures r.Count? ==> forall i :: 0 <= i < buf.Length ==>
                buf[i] == if off <= i < off + r.n then incoming[old(received) + i - off] else old(buf[i])
      ensures r.Error? ==> received == old(received) && buf[..] == old(buf[..])
      ensures open == old(open) && sent == old(sent)
    {
      var c := ReadCall(open, offers, |incoming| - received, k);
      r := c.result;
      offers := c.rest;
      if r.Count? {
        var m := r.n;
        forall i | off <= i < off + m {
          buf[i] := incoming[received + i - off];
        }
        received := received + m;
      }
    }
  }

  /** Sending the first `n` of the bytes from `off` on extends what was
      sent by those bytes. */
  lemma SentGrows(s: seq<Byte>, buf: seq<Byte>, off: nat, count: nat, n: nat)
    requires off + n <= count <= |buf|
    ensures s + buf[..off] + buf[off..count][..n] == s + buf[..off + n]
  {
    assert buf[..off] + buf[off..count][..n] == buf[..off + n];
  }

  /** tc_write_fully: write `buf[..count]` to `fd`, looping on short writes
      and retrying on EINTR.  Success means every byte went out, in order. */
  method WriteFully(fd: Descriptor, buf: seq<Byte>, count: nat) returns (r: int)
    requires count <= |buf|
    modifies fd
    ensures var t := WriteLoop(old(fd.open), old(fd.offers), count, 0);
            (r == SUCCESS <==> t.ok) && (r == SUCCESS || r == FAILURE) &&
            fd.sent == old(fd.sent) + buf[..t.moved] && fd.offers == t.rest
    ensures r == SUCCESS ==> fd.sent == old(fd.sent) + buf[..count]
    ensures fd.open == old(fd.open) && fd.received == old(fd.received)
  {
    ghost var total := WriteLoop(fd.open, fd.offers, count, 0);
    var off: nat := 0;
    while off < count
      invariant off <= count
      invariant fd.sent == old(fd.sent) + buf[..off]
      invariant fd.open == old(fd.open) && fd.received == old(fd.received)
      invariant total == WriteLoop(fd.open, fd.offers, count, off)
      decreases |fd.offers|
    {
      var res := fd.Write(buf[off..count]);
      if res.Error? {
        if res.errno == EINTR {
          continue;
        }
        return FAILURE;
      }
      if res.n == 0 {
        return FAILURE;
      }
      SentGrows(old(fd.sent), buf, off, count, res.n);
      off := off + res.n;
    }
    return SUCCESS;
  }

  /** tc_read_fully: read exactly `count` bytes from `fd` into `buf`,
      looping on short reads and retrying on EINTR.  Success means `buf`
      holds the next `count` bytes the peer sent, in order; end of file
      before that is a failure. */
  method ReadFully(fd: Descriptor, buf: array<Byte>, count: nat) returns (r: int)
    requires fd.Valid() && count <= buf.Length
    modifies fd, buf
    ensures fd.Valid()
    ensures var t := ReadLoop(old(fd.open), old(fd.offers), |fd.incoming| - old(fd.received), count, 0);
            (r == SUCCESS <==> t.ok) && (r == SUCCESS || r == FAILURE) &&
            fd.received == old(fd.received) + t.moved && fd.offers == t.rest &&
            forall i :: 0 <= i < buf.Length ==>
              buf[i] == if i < t.moved then fd.incoming[old(fd.received) + i] else old(buf[i])
    ensures r == SUCCESS ==> forall i :: 0 <= i < count ==> buf[i] == fd.incoming[old(fd.received) + i]
    ensures fd.open == old(fd.open) && fd.sent == old(fd.sent)
  {
    ghost var total := ReadLoop(fd.open, fd.offers, |fd.incoming| - fd.received, count, 0);
    ghost var start := fd.received;
    var off: nat := 0;
    r := SUCCESS;
    while off < count
      invariant fd.Valid() && off <= count && fd.received == start + off
      invariant forall i :: 0 <= i < buf.Length ==>
                  buf[i] == if i < off then fd.incoming[start + i] else old(buf[i])
      invariant fd.open == old(fd.open) && fd.sent == old(fd.sent)
      invariant r == SUCCESS && total == ReadLoop(fd.open, fd.offers, |fd.incoming| - fd.received, count, off)
      decreases |fd.offers|
    {
      var res := fd.Read(buf, off, count - off);
      if res == Error(EINTR) {
        continue;
      } else if res.Count? && res.n > 0 {
        off := off + res.n;
      } else {
        r := FAILURE;
        break;
      }
    }
  }
}
