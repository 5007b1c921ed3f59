/**
 Byte streams as the transports see them. A socket holds the segments its peer has delivered and
 not yet been read; the peer is any function of what has been written so far. `Udp` adds the
 adapter that turns datagrams into a stream.
 */
module Net {
  import opened Bytes
  import opened Modbus

  /** What a peer sends when `written` follows the bytes of `history`, segment by segment. */
  type Peer = (seq<Byte>, seq<Byte>) -> seq<seq<Byte>>

  /** How a connection fails to deliver more: a deadline passes (a serial port reports it as
      `RequestTimedOut`), or the peer has closed its end. */
  type Silence = e: Error | e == Timeout || e == RequestTimedOut || e == EndOfStream witness Timeout

  lemma {:induction false} FlattenConcat(a: seq<seq<Byte>>, b: seq<seq<Byte>>)
    ensures Flatten(a + b) == Flatten(a) + Flatten(b)
  {
    if a == [] {
      assert a + b == b;
    } else {
      assert (a + b)[1..] == a[1..] + b;
      FlattenConcat(a[1..], b);
    }
  }

  class Socket {
    var inbox: seq<seq<Byte>>
    var sent: seq<Byte>
    var closed: bool
    const peer: Peer
    // what reading gives once everything delivered has been read
    const silence: Silence

    constructor (peer: Peer, inbox: seq<seq<Byte>>, silence: Silence)
      ensures this.peer == peer && this.inbox == inbox && this.silence == silence
      ensures sent == [] && !closed
    {
      this.peer, this.inbox, this.silence := peer, inbox, silence;
      sent, closed := [], false;
    }

    /** A read on a TCP connection: some of the first segment, whatever the reader asked for. */
    method ReadStream(buf: array<Byte>, lo: nat, hi: nat) returns (n: nat, err: Option<Error>)
      requires lo <= hi <= buf.Length
      modifies this`inbox, buf
      ensures n <= hi - lo && n <= |old(Flatten(inbox))|
      ensures buf[lo..lo + n] == old(Flatten(inbox))[..n]
      ensures forall i :: 0 <= i < buf.Length && !(lo <= i < lo + n) ==> buf[i] == old(buf[i])
      ensures Flatten(inbox) == old(Flatten(inbox))[n..]
      ensures err.None? ==> n > 0 || |inbox| < |old(inbox)| || lo == hi
      ensures err.None? ==> |inbox| <= |old(inbox)|
      ensures err.Some? ==> old(inbox) == [] && inbox == [] && n == 0 && err.value == silence
    {
      if inbox == [] {
        return 0, Some(silence);
      }
      var segment := inbox[0];
      n := Smaller(|segment|, hi - lo);
      Fill(buf, lo, segment[..n]);
      assert Flatten(inbox)[..n] == segment[..n];
      if n == |segment| {
        inbox := inbox[1..];
      } else {
        assert ([segment[n..]] + inbox[1..])[1..] == inbox[1..];
        inbox := [segment[n..]] + inbox[1..];
      }
      err := None;
    }

    /** A read on a UDP socket: one datagram, cut to the size of the buffer. */
    method ReadDatagram(buf: array<Byte>) returns (n: nat, err: Option<Error>)
      modifies this`inbox, buf
      ensures err.Some? ==> old(inbox) == [] && inbox == [] && n == 0 && err.value == silence && buf[..] == old(buf[..])
      ensures err.None? ==> old(inbox) != [] && inbox == old(inbox)[1..]
      ensures err.None? ==> n == Smaller(|old(inbox)[0]|, buf.Length)
      ensures err.None? ==> buf[..n] == old(inbox)[0][..n]
    {
      if inbox == [] {
        return 0, Some(silence);
      }
      n := Smaller(|inbox[0]|, buf.Length);
      Fill(buf, 0, inbox[0][..n]);
      inbox := inbox[1..];
      err := None;
    }

    method Write(bytes: seq<Byte>)
      modifies this`sent, this`inbox
      ensures sent == old(sent) + bytes
      ensures inbox == old(inbox) + peer(old(sent), bytes)
    {
      inbox := inbox + peer(sent, bytes);
      sent := sent + bytes;
    }

    method Close()
      modifies this`closed
      ensures closed
    {
      closed := true;
    }
  }

  /** `copy(buf[lo:], bytes)` */
  method Fill(buf: array<Byte>, lo: nat, bytes: seq<Byte>)
    requires lo + |bytes| <= buf.Length
    modifies buf
    ensures buf[lo..lo + |bytes|] == bytes
    ensures forall i :: 0 <= i < buf.Length && !(lo <= i < lo + |bytes|) ==> buf[i] == old(buf[i])
  {
    forall i | lo <= i < lo + |bytes| {
      buf[i] := bytes[i - lo];
    }
  }

  // ------------------------------------------------------------------ datagrams as a stream

  const MAX_TCP_FRAME_LENGTH: nat := 260

  /** The part of each datagram that fits the receive buffer. */
  function Clip(datagrams: seq<seq<Byte>>): (clipped: seq<seq<Byte>>)
    ensures |clipped| == |datagrams|
  {
    seq(|datagrams|, i requires 0 <= i < |datagrams| =>
      datagrams[i][..Smaller(|datagrams[i]|, MAX_TCP_FRAME_LENGTH)])
  }

  /** A datagram of up to 260 bytes is whole; of a longer one the first 260 bytes are left. */
  lemma ClipInNumbers(datagrams: seq<seq<Byte>>, i: nat)
    requires i < |datagrams|
    ensures |datagrams[i]| <= 260 ==> Clip(datagrams)[i] == datagrams[i]
    ensures |datagrams[i]| > 260 ==> Clip(datagrams)[i] == datagrams[i][..260]
  {
  }

  lemma ClipTail(datagrams: seq<seq<Byte>>)
    requires datagrams != []
    ensures Clip(datagrams)[1..] == Clip(datagrams[1..])
  {
  }

  lemma ClipConcat(a: seq<seq<Byte>>, b: seq<seq<Byte>>)
    ensures Clip(a + b) == Clip(a) + Clip(b)
  {
  }

  class UdpSockWrapper {
    var leftoverCount: nat
    const rxbuf: array<Byte>
    const sock: Socket
    // every byte handed to readers so far, and every datagram taken off the socket
    ghost var delivered: seq<Byte>
    ghost var consumed: seq<seq<Byte>>

    constructor (sock: Socket)
      ensures this.sock == sock && Valid() && fresh(rxbuf)
      ensures Held() == [] && delivered == [] && consumed == []
    {
      rxbuf := new Byte[MAX_TCP_FRAME_LENGTH](_ => 0);
      this.sock := sock;
      leftoverCount := 0;
      delivered, consumed := [], [];
    }

    /** The adapter is a queue: delivered, then held, is exactly what the datagrams carried. */
    ghost predicate Valid()
      reads this, rxbuf
    {
      && rxbuf.Length == MAX_TCP_FRAME_LENGTH
      && leftoverCount <= rxbuf.Length
      && delivered + rxbuf[..leftoverCount] == Flatten(Clip(consumed))
    }

    ghost function Held(): seq<Byte>
      requires leftoverCount <= rxbuf.Length
      reads this, rxbuf
    {
      rxbuf[..leftoverCount]
    }

    /** What a reader is still to see. */
    ghost function Stream(): seq<Byte>
      requires leftoverCount <= rxbuf.Length
      reads this, rxbuf, sock
    {
      Held() + Flatten(Clip(sock.inbox))
    }

    /** Takes the next datagram off the socket into the empty buffer. */
    method Receive() returns (err: Option<Error>)
      requires Valid() && leftoverCount == 0
      modifies this, rxbuf, sock`inbox
      ensures Valid() && Stream() == old(Stream()) && delivered == old(delivered)
      ensures err.None? ==> old(sock.inbox) != [] && sock.inbox == old(sock.inbox)[1..]
      ensures err.None? ==> consumed == old(consumed) + [old(sock.inbox)[0]]
      ensures err.Some? ==> Stream() == [] && leftoverCount == 0 && err.value == sock.silence
      ensures err.Some? ==> sock.inbox == old(sock.inbox) == [] && consumed == old(consumed)
    {
      ghost var before := sock.inbox;
      var rlen;
      rlen, err := sock.ReadDatagram(rxbuf);
      if err.Some? {
        return;
      }
      ghost var datagram := before[0];
      leftoverCount := rlen;
      ClipTail(before);
      ClipConcat(consumed, [datagram]);
      FlattenConcat(Clip(consumed), Clip([datagram]));
      assert Clip([datagram])[1..] == [];
      assert Flatten(Clip([datagram])) == Clip([datagram])[0] == rxbuf[..rlen];
      assert rxbuf[..0] == [];
      consumed := consumed + [datagram];
    }

    /** Hands held bytes to the reader and moves the rest to the front. */
    method Deliver(buf: array<Byte>, lo: nat, hi: nat) returns (copied: nat)
      requires Valid() && buf != rxbuf && lo <= hi <= buf.Length
      modifies this`leftoverCount, this`delivered, rxbuf, buf
      ensures Valid() && copied == Smaller(old(leftoverCount), hi - lo)
      ensures buf[lo..lo + copied] == old(Held())[..copied] && Held() == old(Held())[copied..]
      ensures delivered == old(delivered) + old(Held())[..copied]
      ensures forall i :: 0 <= i < buf.Length && !(lo <= i < lo + copied) ==> buf[i] == old(buf[i])
    {
      hide Flatten, Clip;
      ghost var held := Held();
      copied := Smaller(leftoverCount, hi - lo);
      delivered := delivered + held[..copied];
      HandOver(rxbuf, leftoverCount, buf, lo, copied);
      leftoverCount := leftoverCount - copied;
      Split(old(delivered), held, copied);
    }

    method Read(buf: array<Byte>, lo: nat, hi: nat) returns (n: nat, err: Option<Error>)
      requires Valid() && buf != rxbuf && lo <= hi <= buf.Length
      modifies this, rxbuf, buf, sock`inbox
      ensures Valid()
      ensures n <= hi - lo && n <= |old(Stream())|
      ensures buf[lo..lo + n] == old(Stream())[..n]
      ensures forall i :: 0 <= i < buf.Length && !(lo <= i < lo + n) ==> buf[i] == old(buf[i])
      ensures Stream() == old(Stream())[n..]
      ensures delivered == old(delivered) + old(Stream())[..n]
      ensures old(leftoverCount) > 0 ==> sock.inbox == old(sock.inbox) && consumed == old(consumed)
      ensures err.None? ==> n > 0 || |sock.inbox| < |old(sock.inbox)| || lo == hi
      ensures err.None? ==> |sock.inbox| <= |old(sock.inbox)|
      ensures err.Some? ==> old(Stream()) == [] && Stream() == [] && n == 0 && err.value == sock.silence
    {
      hide Flatten, Clip;
      err := None;
      if leftoverCount == 0 {
        err := Receive();
        if err.Some? {
          return 0, err;
        }
      }
      n := Deliver(buf, lo, hi);
    }
  }

  /** The first `n` of the `count` bytes held go to the reader, the others to the front. */
  method HandOver(rxbuf: array<Byte>, count: nat, buf: array<Byte>, lo: nat, n: nat)
    requires rxbuf != buf && n <= count <= rxbuf.Length && lo + n <= buf.Length
    modifies rxbuf, buf
    ensures buf[lo..lo + n] == old(rxbuf[..count])[..n] && rxbuf[..count - n] == old(rxbuf[..count])[n..]
    ensures forall i :: 0 <= i < buf.Length && !(lo <= i < lo + n) ==> buf[i] == old(buf[i])
  {
    assert rxbuf[..count][..n] == rxbuf[..n] && rxbuf[..count][n..] == rxbuf[n..count];
    Fill(buf, lo, rxbuf[..n]);
    MoveToFront(rxbuf, n, count);
  }

  lemma Split(before: seq<Byte>, held: seq<Byte>, n: nat)
    requires n <= |held|
    ensures before + held == (before + held[..n]) + held[n..]
  {
    assert held == held[..n] + held[n..];
  }

  /** `copy(buf, buf[from:to])`: source and destination overlap. */
  method MoveToFront(buf: array<Byte>, from: nat, to: nat)
    requires from <= to <= buf.Length
    modifies buf
    ensures buf[..to - from] == old(buf[from..to])
  {
    forall i | 0 <= i < to - from {
      buf[i] := buf[from + i];
    }
  }

  // ------------------------------------------------------------------ either kind of connection

  datatype Conn = Plain(plain: Socket) | Udp(wrapper: UdpSockWrapper) {

    function Sock(): Socket {
      match this
      case Plain(s) => s
      case Udp(u) => u.sock
    }

    function Repr(): set<object> {
      match this
      case Plain(s) => {s}
      case Udp(u) => {u, u.rxbuf, u.sock}
    }

    ghost predicate Valid()
      reads Repr()
    {
      Udp? ==> wrapper.Valid()
    }

    /** The bytes still to be read. */
    ghost function Stream(): seq<Byte>
      requires Valid()
      reads Repr()
    {
      match this
      case Plain(s) => Flatten(s.inbox)
      case Udp(u) => u.Stream()
    }

    /** The bytes a reader gets to see of the peer's answer to a write. */
    function Answer(history: seq<Byte>, written: seq<Byte>): seq<Byte> {
      match this
      case Plain(s) => Flatten(s.peer(history, written))
      case Udp(u) => Flatten(Clip(u.sock.peer(history, written)))
    }

    method Read(buf: array<Byte>, lo: nat, hi: nat) returns (n: nat, err: Option<Error>)
      requires Valid() && buf !in Repr() && lo <= hi <= buf.Length
      modifies Repr(), buf
      ensures Valid() && Sock().sent == old(Sock().sent) && Sock().closed == old(Sock().closed)
      ensures n <= hi - lo && n <= |old(Stream())|
      ensures buf[lo..lo + n] == old(Stream())[..n]
      ensures forall i :: 0 <= i < buf.Length && !(lo <= i < lo + n) ==> buf[i] == old(buf[i])
      ensures Stream() == old(Stream())[n..]
      ensures err.None? ==> n > 0 || |Sock().inbox| < |old(Sock().inbox)| || lo == hi
      ensures err.None? ==> |Sock().inbox| <= |old(Sock().inbox)|
      ensures err.Some? ==> old(Stream()) == [] && Stream() == [] && n == 0 && err.value == Sock().silence
    {
      assert Flatten([]) == [];
      hide Flatten, Clip;
      match this {
        case Plain(s) => n, err := s.ReadStream(buf, lo, hi);
        case Udp(u) => n, err := u.Read(buf, lo, hi);
      }
    }

    method Write(bytes: seq<Byte>)
      requires Valid()
      modifies Repr()
      ensures Valid() && Sock().closed == old(Sock().closed)
      ensures Sock().sent == old(Sock().sent) + bytes
      ensures Stream() == old(Stream()) + Answer(old(Sock().sent), bytes)
    {
      hide Flatten, Clip;
      ghost var answer := Sock().peer(Sock().sent, bytes);
      FlattenConcat(Sock().inbox, answer);
      FlattenConcat(Clip(Sock().inbox), Clip(answer));
      ClipConcat(Sock().inbox, answer);
      match this {
        case Plain(s) => s.Write(bytes);
        case Udp(u) => u.sock.Write(bytes);
      }
    }

    /** `io.ReadFull(conn, buf[lo:hi])`: reads until the slice is full or the stream fails. */
    method ReadFull(buf: array<Byte>, lo: nat, hi: nat) returns (n: nat, err: Option<Error>)
      requires Valid() && buf !in Repr() && lo <= hi <= buf.Length
      modifies Repr(), buf
      ensures Valid() && Sock().sent == old(Sock().sent) && Sock().closed == old(Sock().closed)
      ensures n == Smaller(hi - lo, |old(Stream())|)
      ensures buf[lo..lo + n] == old(Stream())[..n]
      ensures forall i :: 0 <= i < buf.Length && !(lo <= i < lo + n) ==> buf[i] == old(buf[i])
      ensures Stream() == old(Stream())[n..]
      ensures err == if n == hi - lo then None else Some(Shortage(Sock().silence, n))
    {
      hide Flatten, Clip, Stream, Valid;
      n := 0;
      err := None;
      ghost var before := Stream();
      while n < hi - lo && err.None?
        invariant Valid() && Sock().sent == old(Sock().sent) && Sock().closed == old(Sock().closed)
        invariant n <= hi - lo && n <= |before|
        invariant buf[lo..lo + n] == before[..n]
        invariant forall i :: 0 <= i < buf.Length && !(lo <= i < lo + n) ==> buf[i] == old(buf[i])
        invariant Stream() == before[n..]
        invariant err.Some? ==> Stream() == [] && err.value == Sock().silence && n < hi - lo
        decreases err.None?, hi - lo - n, |Sock().inbox|
      {
        var k: nat;
        label L:
        k, err := Read(buf, lo + n, hi);
        assert buf[lo..lo + n] == before[..n];
        JoinSlices(buf[..], before, lo, n, k);
        n := n + k;
      }
      if err == Some(EndOfStream) && n > 0 {
        err := Some(UnexpectedEndOfStream);
      }
    }
  }

  lemma JoinSlices(s: seq<Byte>, stream: seq<Byte>, lo: nat, n: nat, k: nat)
    requires lo + n + k <= |s| && n + k <= |stream|
    requires s[lo..lo + n] == stream[..n]
    requires s[lo + n..lo + n + k] == stream[n..][..k]
    ensures s[lo..lo + (n + k)] == stream[..n + k]
    ensures stream[n..][k..] == stream[n + k..]
  {
    assert s[lo..lo + (n + k)] == s[lo..lo + n] + s[lo + n..lo + n + k];
    assert stream[..n + k] == stream[..n] + stream[n..][..k];
  }

  /** The error of a read that got `n` bytes and no more. */
  function Shortage(silence: Silence, n: nat): Error {
    if silence == EndOfStream && n > 0 then UnexpectedEndOfStream else silence
  }
}
