/** The RTU transport: one request at a time, with the silent intervals of section 2.5.1.1 of
    MODBUS over Serial Line V1.02 between frames. Times are nanoseconds since the zero time. */
module RtuTransport {
  import opened Bytes
  import opened Modbus
  import opened Net
  import opened Rtu

  const SECOND: nat := 1_000_000_000

  // ------------------------------------------------------------------ intervals

  /** How long a character of eleven bits takes on the line. */
  function SerialCharTime(rate: nat): nat
    requires rate > 0
  {
    11 * SECOND / rate
  }

  /** The silent interval between frames. */
  function InterFrameTime(rate: nat): nat
    requires rate > 0
  {
    if rate >= 19200 then 1_750_000 else SerialCharTime(rate) * 35 / 10
  }

  lemma QuotientBounds(x: nat, d: nat)
    requires d > 0
    ensures x / d * d <= x < (x / d + 1) * d
  {
    var q, r := x / d, x % d;
    assert x == q * d + r;
    assert (q + 1) * d == q * d + d;
  }

  /** Three and a half characters of eleven bits take 38.5 / rate seconds. Below 19200 bauds the
      interval, truncated twice to whole nanoseconds, falls short of that by less than four; and
      at no rate is it shorter than the 1750 microseconds prescribed for fast lines, which get just that. */
  lemma IntervalAccurate(rate: nat)
    requires rate > 0
    ensures rate < 19200 ==> 2 * InterFrameTime(rate) * rate <= 77 * SECOND < (2 * InterFrameTime(rate) + 8) * rate
    ensures InterFrameTime(rate) >= 1_750_000
    ensures rate >= 19200 ==> InterFrameTime(rate) == 1_750_000
  {
    if rate < 19200 {
      var c, t := SerialCharTime(rate), InterFrameTime(rate);
      QuotientBounds(11 * SECOND, rate);
      assert 7 * c - 1 <= 2 * t <= 7 * c;
      Scale(2 * t, 7 * c, rate);
      Scale(7 * c + 7, 2 * t + 8, rate);
      assert 7 * c * rate == 7 * (c * rate);
      assert (7 * c + 7) * rate == 7 * ((c + 1) * rate);
      Scale(rate, 19199, c + 1);
      assert c >= 572946;
    }
  }

  lemma Scale(x: nat, y: nat, k: nat)
    requires x <= y
    ensures x * k <= y * k
  {
  }

  // ------------------------------------------------------------------ time

  class Clock {
    var time: int

    constructor ()
      ensures time >= 0
    {
      var t: nat :| true;
      time := t;
    }

    /** Some time passes between any two readings. */
    method Now() returns (t: int)
      modifies this
      ensures t == time && time >= old(time)
    {
      var elapsed: nat :| true;
      time := time + elapsed;
      t := time;
    }

    /** Sleeps at least as long as asked; not at all if the duration is negative. */
    method Sleep(duration: int)
      modifies this
      ensures time >= old(time) && time >= old(time) + duration
    {
      var late: nat :| true;
      if duration > 0 {
        time := time + duration + late;
      }
    }
  }

  /** When a write of so many bytes was started, and when the line is estimated to have fallen silent
      after it. */
  datatype Transmission = Transmission(start: int, end: int, bytes: nat)

  /** Each transmission starts an interval after the previous one has ended. */
  predicate Spaced(history: seq<Transmission>, interval: int) {
    && (forall i :: 0 <= i < |history| ==> history[i].start <= history[i].end)
    && (forall i :: 0 < i < |history| ==> history[i].start >= history[i - 1].end + interval)
  }

  /** And so after every earlier one. */
  lemma {:induction false} SpacedFromAll(history: seq<Transmission>, interval: int, i: nat, j: nat)
    requires Spaced(history, interval) && interval >= 0 && i < j < |history|
    ensures history[j].start >= history[i].end + interval
    decreases j
  {
    if i + 1 < j {
      SpacedFromAll(history, interval, i, j - 1);
    }
  }

  /** In the line's own terms: at `speed` bits a second, a byte of eleven bits takes 11 / speed seconds,
      and the estimate falls short of that by less than a nanosecond a byte. */
  predicate Estimated(t: Transmission, speed: nat) {
    (t.end - t.start) * speed <= t.bytes * 11 * 1_000_000_000
    && (t.bytes > 0 ==> t.bytes * 11 * 1_000_000_000 < (t.end - t.start + t.bytes) * speed)
  }

  predicate AllEstimated(history: seq<Transmission>, speed: nat) {
    forall i :: 0 <= i < |history| ==> Estimated(history[i], speed)
  }

  lemma BusyEstimated(start: int, n: nat, speed: nat)
    requires speed > 0
    ensures Estimated(Transmission(start, start + Busy(n, SerialCharTime(speed)), n), speed)
  {
    var c := SerialCharTime(speed);
    QuotientBounds(11 * SECOND, speed);
    Scale(c * speed, 11 * SECOND, n);
    assert c * speed * n == n * c * speed;
    if n > 0 {
      assert 11 * SECOND * n < (c + 1) * speed * n by { StrictScale(11 * SECOND, (c + 1) * speed, n); }
      assert (c + 1) * speed * n == (n * c + n) * speed;
    }
  }

  lemma StrictScale(x: nat, y: nat, k: nat)
    requires x < y && k > 0
    ensures x * k < y * k
  {
  }

  /** So the starts of two transmissions in a row are apart by the interval and by the time that the
      first one's bytes take on the line, but for less than a nanosecond a byte. */
  lemma StartsApart(history: seq<Transmission>, interval: int, speed: nat, i: nat)
    requires Spaced(history, interval) && AllEstimated(history, speed) && i + 1 < |history| && history[i].bytes > 0
    ensures var apart := history[i + 1].start - history[i].start - interval;
            history[i].bytes * 11 * 1_000_000_000 < (apart + history[i].bytes) * speed
  {
    var t, apart := history[i], history[i + 1].start - history[i].start - interval;
    assert Estimated(t, speed);
    assert history[i + 1].start >= history[i].end + interval;
    assert t.end - t.start + t.bytes <= apart + t.bytes;
    Scale(t.end - t.start + t.bytes, apart + t.bytes, speed);
  }

  /** How long `n` characters keep the line busy. */
  function Busy(n: nat, t1: nat): nat {
    n * t1
  }

  class RtuTransport {
    const conn: Conn
    const clock: Clock
    const t1: nat
    const t35: nat
    ghost const speed: nat
    var lastActivity: int
    ghost var history: seq<Transmission>

    constructor (conn: Conn, clock: Clock, speed: nat)
      requires speed > 0 && conn.Valid() && clock !in conn.Repr() && clock.time >= 0
      modifies conn.Repr()
      ensures Valid() && this.conn == conn && this.clock == clock && history == []
      ensures this.speed == speed
      ensures conn.Sock().sent == old(conn.Sock().sent)
    {
      this.conn, this.clock, this.speed := conn, clock, speed;
      t1 := SerialCharTime(speed);
      t35 := if speed >= 19200 then 1750 * 1000 else SerialCharTime(speed) * 35 / 10;
      lastActivity, history := 0, [];
      new;
      Discard(conn);
    }

    /** The times are those of the line's speed; transmissions are as long as their bytes take and an
        interval apart; and the line was last active no earlier than the end of the last one. */
    ghost predicate Valid()
      reads this, conn.Repr()
    {
      && this !in conn.Repr() && clock !in conn.Repr() && conn.Valid()
      && speed > 0 && t1 == SerialCharTime(speed) && t35 == InterFrameTime(speed)
      && Spaced(history, t35) && AllEstimated(history, speed)
      && (history != [] ==> lastActivity >= history[|history| - 1].end)
    }

    /** Lets the interval since the last activity expire and reads the clock. */
    method AwaitSilence() returns (ts: int)
      modifies clock
      ensures lastActivity + t35 <= ts <= clock.time
    {
      var now := clock.Now();
      var t := now - (lastActivity + t35);
      if t < 0 {
        clock.Sleep(-t);
      }
      ts := clock.Now();
    }

    /** Waits for the line to have been silent long enough, writes the request, and waits again. */
    method Transmit(req: Pdu)
      requires Valid()
      modifies this`lastActivity, this`history, clock, conn.Repr()
      ensures Valid() && clock.time >= lastActivity + t35
      ensures |history| == |old(history)| + 1 && history[..|old(history)|] == old(history)
      ensures history[|old(history)|].start >= old(lastActivity) + t35
      ensures history[|old(history)|].bytes == 4 + |req.payload| && lastActivity == history[|old(history)|].end
      ensures conn.Sock().sent == old(conn.Sock().sent) + RtuFrameOf(req)
      ensures conn.Stream() == old(conn.Stream()) + conn.Answer(old(conn.Sock().sent), RtuFrameOf(req))
    {
      hide Conn.Stream, Conn.Valid, Conn.Answer, RtuFrameOf, Busy, Spaced, AllEstimated, SerialCharTime, InterFrameTime;
      var ts := AwaitSilence();
      var frame := AssembleRtuFrame(req);
      conn.Write(frame);
      var n := |frame|;

      // how long the line is estimated to be busy with the frame
      BusyEstimated(ts, n, speed);
      Extend(history, t35, speed, Transmission(ts, ts + Busy(n, t1), n));
      lastActivity := ts + Busy(n, t1);
      history := history + [Transmission(ts, lastActivity, n)];

      var now := clock.Now();
      clock.Sleep(lastActivity + t35 - now);
    }

    /** After a bad response, waits for and flushes whatever is still coming off the line. */
    method Resync(e: Error)
      requires clock !in conn.Repr() && conn.Valid()
      modifies clock, conn.Repr()
      ensures conn.Valid() && clock.time >= old(clock.time) && conn.Sock().sent == old(conn.Sock().sent)
      ensures Resyncs(e) ==> clock.time >= old(clock.time) + Busy(256, t1)
      ensures conn.Stream() == AfterError(e, old(conn.Stream()))
    {
      hide Conn.Stream, Conn.Valid, Busy;
      if e == BadCrc || e == ProtocolError || e == ShortFrame {
        clock.Sleep(Busy(MAX_RTU_FRAME_LENGTH, t1));
        Discard(conn);
      }
    }

    /** Reads the response, lets the line re-sync after a bad one, and marks the time unless
        nothing was heard. */
    method Receive() returns (res: Result<Pdu>)
      requires Valid() && clock.time >= lastActivity
      modifies this`lastActivity, clock, conn.Repr()
      ensures Valid() && lastActivity >= old(lastActivity)
      ensures res == Err(RequestTimedOut) ==> lastActivity == old(lastActivity)
      ensures res != Err(RequestTimedOut) ==> lastActivity == clock.time
      ensures conn.Sock().sent == old(conn.Sock().sent)
      ensures match ParseRtu(old(conn.Stream()), conn.Sock().silence)
              case RtuFrame(p, rest) => res == Ok(p) && conn.Stream() == rest
              case RtuError(e, rest) => res == Err(e) && conn.Stream() == AfterError(e, rest)
    {
      hide Conn.Stream, Conn.Valid, ParseRtu, AfterError, Spaced, AllEstimated, SerialCharTime, InterFrameTime;
      res := ReadRtuFrame(conn);
      if res.Err? {
        Resync(res.error);
      }
      if res != Err(RequestTimedOut) {
        lastActivity := clock.Now();
      }
    }

    /** However the clock runs on and whatever comes back, the request is transmitted an interval
        or more after the last activity, and the response is the next RTU frame. */
    method ExecuteRequest(req: Pdu) returns (res: Result<Pdu>)
      requires Valid()
      modifies this`lastActivity, this`history, clock, conn.Repr()
      ensures Valid()
      ensures |history| == |old(history)| + 1 && history[..|old(history)|] == old(history)
      ensures history[|old(history)|].start >= old(lastActivity) + t35
      ensures history[|old(history)|].bytes == 4 + |req.payload| && lastActivity >= history[|old(history)|].end
      ensures res == Err(RequestTimedOut) ==> lastActivity == history[|old(history)|].end
      ensures res != Err(RequestTimedOut) ==> lastActivity == clock.time
      ensures conn.Sock().sent == old(conn.Sock().sent) + RtuFrameOf(req)
      ensures var s := old(conn.Stream()) + conn.Answer(old(conn.Sock().sent), RtuFrameOf(req));
              match ParseRtu(s, conn.Sock().silence)
              case RtuFrame(p, rest) => res == Ok(p) && conn.Stream() == rest
              case RtuError(e, rest) => res == Err(e) && conn.Stream() == AfterError(e, rest)
    {
      hide Conn.Stream, Conn.Valid, Conn.Answer, ParseRtu, RtuFrameOf, Busy, Spaced, AllEstimated, SerialCharTime,
        InterFrameTime;
      Transmit(req);
      res := Receive();
    }
  }

  lemma Extend(history: seq<Transmission>, interval: int, speed: nat, last: Transmission)
    requires Spaced(history, interval) && last.start <= last.end
    requires AllEstimated(history, speed) && Estimated(last, speed)
    requires history != [] ==> last.start >= history[|history| - 1].end + interval
    ensures Spaced(history + [last], interval) && AllEstimated(history + [last], speed)
  {
    hide Estimated;
  }

  /** The errors after which whatever is still coming off the line is thrown away. */
  predicate Resyncs(e: Error) {
    e == BadCrc || e == ProtocolError || e == ShortFrame
  }

  /** What is left unread after an error: without the next 1024 bytes if the line has to re-sync. */
  function AfterError(e: Error, rest: seq<Byte>): seq<Byte> {
    if Resyncs(e) then rest[Smaller(1024, |rest|)..] else rest
  }

  /** Just the three errors that a damaged or cut frame gives cost what else is there, up to 1024 bytes. */
  lemma ErrorsThatResync(e: Error, rest: seq<Byte>)
    ensures AfterError(e, rest) ==
              if e !in [BadCrc, ProtocolError, ShortFrame] then rest
              else if |rest| <= 1024 then []
              else rest[1024..]
    ensures Resyncs(e) <==> e in [BadCrc, ProtocolError, ShortFrame]
  {
  }

  /** Reads and drops up to 1024 bytes. */
  method Discard(conn: Conn)
    requires conn.Valid()
    modifies conn.Repr()
    ensures conn.Valid() && conn.Sock().sent == old(conn.Sock().sent)
    ensures conn.Stream() == old(conn.Stream())[Smaller(1024, |old(conn.Stream())|)..]
  {
    hide Conn.Stream, Conn.Valid;
    var rxbuf := new Byte[1024](_ => 0);
    var n, err := conn.ReadFull(rxbuf, 0, 1024);
  }
}
