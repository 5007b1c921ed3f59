/**
 Transaction ids over whole runs of requests, timeouts and late responses included. Responses
 may arrive any number of requests late; the 16-bit id tells them apart as long as none is
 65536 or more requests late, and not beyond.
 */
module Transactions {
  import opened Bytes
  import opened Modbus
  import opened Net
  import opened Mbap

  const IDS: nat := 0x1_0000

  /** The id of the n-th request after id `first`. */
  function IdOf(first: Word, n: nat): Word {
    (first + n) % IDS
  }

  /** What may arrive while the client waits: a response to the n-th request, under the id the
      server echoes, or a frame of another protocol. */
  datatype Arrival = Answered(n: nat, res: Pdu) | Foreign(frame: seq<Byte>)

  predicate WellFormed(a: Arrival) {
    match a
    case Answered(_, res) => |res.payload| <= MAX_PAYLOAD
    case Foreign(frame) => ParseFrame(frame) == UnknownProtocol([])
  }

  predicate AllWellFormed(list: seq<Arrival>) {
    forall i :: 0 <= i < |list| ==> WellFormed(list[i])
  }

  function FrameBytes(first: Word, a: Arrival): seq<Byte> {
    match a
    case Answered(n, res) => FrameOf(IdOf(first, n), res)
    case Foreign(frame) => frame
  }

  function WireBytes(first: Word, list: seq<Arrival>): seq<Byte> {
    if list == [] then [] else FrameBytes(first, list[0]) + WireBytes(first, list[1..])
  }

  lemma {:induction false} WireBytesConcat(first: Word, a: seq<Arrival>, b: seq<Arrival>)
    ensures WireBytes(first, a + b) == WireBytes(first, a) + WireBytes(first, b)
  {
    hide FrameBytes;
    if a == [] {
      assert a + b == b;
    } else {
      assert (a + b)[1..] == a[1..] + b;
      WireBytesConcat(first, a[1..], b);
    }
  }

  // ------------------------------------------------------------------ the two ways to match

  /** The first response to request `n`, and what is left unread behind it. */
  function FirstAnswer(list: seq<Arrival>, n: nat): (Option<Pdu>, seq<Arrival>) {
    if list == [] then (None, [])
    else if list[0].Answered? && list[0].n == n then (Some(list[0].res), list[1..])
    else FirstAnswer(list[1..], n)
  }

  /** The first response whose id is that of request `n`: what the client can see. */
  function FirstById(list: seq<Arrival>, n: nat): (Option<Pdu>, seq<Arrival>) {
    if list == [] then (None, [])
    else if list[0].Answered? && list[0].n % IDS == n % IDS then (Some(list[0].res), list[1..])
    else FirstById(list[1..], n)
  }

  /** No response in the list is 65536 or more requests late. */
  predicate InTime(list: seq<Arrival>, n: nat) {
    forall i :: 0 <= i < |list| && list[i].Answered? ==> n - IDS < list[i].n <= n
  }

  lemma {:induction false} IdsSuffice(list: seq<Arrival>, n: nat)
    requires InTime(list, n)
    ensures FirstById(list, n) == FirstAnswer(list, n)
  {
    if list != [] {
      assert list[0].Answered? ==> n - IDS < list[0].n <= n;
      assert forall i :: 0 <= i < |list[1..]| ==> list[1..][i] == list[i + 1];
      IdsSuffice(list[1..], n);
    }
  }

  /** The bound is exact: the id of a response tells it from request `n` if and only if it is not
      a positive multiple of 65536 requests late. */
  lemma IdMatchesIff(first: Word, m: nat, n: nat)
    requires m <= n
    ensures IdOf(first, m) == IdOf(first, n) <==> exists k: nat :: n - m == k * IDS
  {
    var d := n - m;
    if d % IDS == 0 {
      var k := d / IDS;
      assert d == k * IDS;
      assert IdOf(first, n) == (first + m + k * IDS) % IDS;
      MultipleVanishes(first + m, k);
    }
    if IdOf(first, m) == IdOf(first, n) {
      assert d % IDS == 0;
    }
    forall k: nat | d == k * IDS ensures d % IDS == 0 {
      MultipleVanishes(0, k);
    }
  }

  lemma {:induction false} MultipleVanishes(x: nat, k: nat)
    ensures (x + k * IDS) % IDS == x % IDS
  {
    if k > 0 {
      MultipleVanishes(x, k - 1);
    }
  }

  /** A response to request `n`, and one that its id takes for such although it answers another. */
  predicate Answers(a: Arrival, n: nat) {
    a.Answered? && a.n == n
  }

  predicate Mistakable(a: Arrival, n: nat) {
    a.Answered? && a.n != n && a.n % IDS == n % IDS
  }

  /** One of the latter comes before any of the former. */
  predicate Overtaken(list: seq<Arrival>, n: nat) {
    exists i :: 0 <= i < |list| && Mistakable(list[i], n) && forall k :: 0 <= k < i ==> !Answers(list[k], n)
  }

  lemma OvertakenTail(list: seq<Arrival>, n: nat)
    requires list != [] && !Mistakable(list[0], n) && !Answers(list[0], n)
    ensures Overtaken(list, n) <==> Overtaken(list[1..], n)
  {
    if Overtaken(list, n) {
      var i :| 0 <= i < |list| && Mistakable(list[i], n) && forall k :: 0 <= k < i ==> !Answers(list[k], n);
      assert Mistakable(list[1..][i - 1], n);
    }
    if Overtaken(list[1..], n) {
      var t := list[1..];
      var i :| 0 <= i < |t| && Mistakable(t[i], n) && forall k :: 0 <= k < i ==> !Answers(t[k], n);
      assert Mistakable(list[i + 1], n);
      assert forall k :: 0 <= k < i + 1 ==> !Answers(list[k], n) by {
        assert forall k :: 1 <= k < i + 1 ==> list[k] == t[k - 1];
      }
    }
  }

  lemma OvertakenHead(list: seq<Arrival>, n: nat)
    requires list != []
    ensures Mistakable(list[0], n) ==> Overtaken(list, n)
    ensures Answers(list[0], n) ==> !Overtaken(list, n)
  {
  }

  /** The response found, or the error of a link that has nothing more to read. */
  function ResultOf(found: Option<Pdu>, silence: Silence): Result<Pdu> {
    match found
    case Some(res) => Ok(res)
    case None => Err(silence)
  }

  // ------------------------------------------------------------------ bytes

  /** Reading the bytes of a list for request `n` finds the first response by id and leaves the
      bytes of the rest. */
  lemma {:induction false} AwaitById(first: Word, list: seq<Arrival>, n: nat, silence: Silence)
    requires AllWellFormed(list)
    ensures AwaitResponse(WireBytes(first, list), IdOf(first, n), silence)
         == Awaited(ResultOf(FirstById(list, n).0, silence), WireBytes(first, FirstById(list, n).1))
    decreases list
  {
    hide ParseFrame, FrameOf;
    if list == [] {
      EmptyStarves();
    } else {
      var a, more := list[0], WireBytes(first, list[1..]);
      assert WellFormed(a);
      assert forall i :: 0 <= i < |list[1..]| ==> list[1..][i] == list[i + 1];
      match a
      case Answered(m, res) =>
        ParsePrinted(IdOf(first, m), res, more);
        SameId(first, m, n);
        if m % IDS != n % IDS {
          AwaitById(first, list[1..], n, silence);
        }
      case Foreign(frame) =>
        ParseExtended(frame, more);
        assert [] + more == more;
        AwaitById(first, list[1..], n, silence);
    }
  }

  lemma SameId(first: Word, m: nat, n: nat)
    ensures IdOf(first, m) == IdOf(first, n) <==> m % IDS == n % IDS
  {
  }

  lemma {:induction false} AnswerLeavesLess(first: Word, list: seq<Arrival>, n: nat)
    requires AllWellFormed(list) && FirstAnswer(list, n).0.Some?
    ensures |WireBytes(first, FirstAnswer(list, n).1)| < |WireBytes(first, list)|
    decreases list
  {
    hide FrameOf, ParseFrame;
    if !Answers(list[0], n) {
      assert forall i :: 0 <= i < |list[1..]| ==> list[1..][i] == list[i + 1];
      AnswerLeavesLess(first, list[1..], n);
    }
  }

  /** What the client makes of the bytes of any arrivals is right, result and remainder, if and only
      if no response to another request that shares the id comes before its own. */
  lemma {:induction false} OwnAnswerReadIff(first: Word, list: seq<Arrival>, n: nat, silence: Silence)
    requires AllWellFormed(list)
    ensures AwaitResponse(WireBytes(first, list), IdOf(first, n), silence)
         == Awaited(ResultOf(FirstAnswer(list, n).0, silence), WireBytes(first, FirstAnswer(list, n).1))
       <==> !Overtaken(list, n)
  {
    hide AwaitResponse, FrameBytes, Overtaken, WellFormed;
    AwaitById(first, list, n, silence);
    ByIdIff(first, list, n);
  }

  /** On lists: the two ways to match agree if and only if none comes before. */
  lemma {:induction false} ByIdIff(first: Word, list: seq<Arrival>, n: nat)
    requires AllWellFormed(list)
    ensures !Overtaken(list, n) ==> FirstById(list, n) == FirstAnswer(list, n)
    ensures Overtaken(list, n) ==>
              && FirstById(list, n).0.Some?
              && (FirstAnswer(list, n).0.Some? ==>
                    |WireBytes(first, FirstAnswer(list, n).1)| < |WireBytes(first, FirstById(list, n).1)|)
    decreases list
  {
    hide FrameBytes, Overtaken, WellFormed;
    if list != [] {
      OvertakenHead(list, n);
      assert forall i :: 0 <= i < |list[1..]| ==> list[1..][i] == list[i + 1];
      if Mistakable(list[0], n) {
        if FirstAnswer(list, n).0.Some? {
          AnswerLeavesLess(first, list[1..], n);
        }
      } else if !Answers(list[0], n) {
        OvertakenTail(list, n);
        ByIdIff(first, list[1..], n);
      }
    } else {
      NoneOvertaken(n);
    }
  }

  lemma NoneOvertaken(n: nat)
    ensures !Overtaken([], n)
  {
  }

  /** So a response exactly 65536 requests late is returned in place of the current one. */
  lemma WrappedIdMistaken(first: Word, n: nat, stale: Pdu, current: Pdu, silence: Silence)
    requires |stale.payload| <= MAX_PAYLOAD && |current.payload| <= MAX_PAYLOAD
    ensures AwaitResponse(FrameOf(IdOf(first, n), stale) + FrameOf(IdOf(first, n + IDS), current),
                          IdOf(first, n + IDS), silence)
         == Awaited(Ok(stale), FrameOf(IdOf(first, n + IDS), current))
  {
    hide FrameOf, ParseFrame, AwaitResponse;
    MultipleVanishes(n, 1);
    MultipleVanishes(first + n, 1);
    var tail := FrameOf(IdOf(first, n + IDS), current);
    FirstMatchReturned([], IdOf(first, n), stale, tail, silence);
    assert Flatten([]) + FrameOf(IdOf(first, n), stale) + tail == FrameOf(IdOf(first, n), stale) + tail;
  }

  // ------------------------------------------------------------------ runs

  /** One request, and what arrives before the client stops waiting for its response. */
  datatype Turn = Turn(req: Pdu, arriving: seq<Arrival>)

  /** The results of a run of requests over the bytes of the link. */
  function WireTurns(first: Word, silence: Silence, link: Link, turns: seq<Turn>): seq<Result<Pdu>>
    decreases turns
  {
    if turns == [] then []
    else
      var arriving := WireBytes(first, turns[0].arriving);
      var (link', result) := Exchange((_, _) => arriving, silence, link, turns[0].req);
      [result] + WireTurns(first, silence, link', turns[1..])
  }

  /** The results when responses are told apart by the request they answer. */
  function OwnAnswers(n: nat, silence: Silence, unread: seq<Arrival>, turns: seq<Turn>): seq<Result<Pdu>>
    decreases turns
  {
    if turns == [] then []
    else
      var (found, rest) := FirstAnswer(unread + turns[0].arriving, n + 1);
      [ResultOf(found, silence)] + OwnAnswers(n + 1, silence, rest, turns[1..])
  }

  /** In every turn, nothing the client comes to read is 65536 or more requests late. */
  predicate RunInTime(n: nat, unread: seq<Arrival>, turns: seq<Turn>)
    decreases turns
  {
    turns == [] ||
    var seen := unread + turns[0].arriving;
    && AllWellFormed(seen)
    && InTime(seen, n + 1)
    && RunInTime(n + 1, FirstAnswer(seen, n + 1).1, turns[1..])
  }

  /** Over any run, with any timeouts and any late responses within the bound, every result is
      the response to the request just sent, or the lack of one. */
  lemma {:induction false} RunAnswersOwnRequests(
      first: Word, n: nat, silence: Silence, link: Link, unread: seq<Arrival>, turns: seq<Turn>)
    requires link.txnId == IdOf(first, n) && link.stream == WireBytes(first, unread)
    requires RunInTime(n, unread, turns)
    ensures WireTurns(first, silence, link, turns) == OwnAnswers(n, silence, unread, turns)
    decreases turns
  {
    hide WireBytes, FrameOf, AwaitResponse, FirstAnswer, FirstById, InTime, AllWellFormed;
    if turns != [] {
      var seen := unread + turns[0].arriving;
      WireBytesConcat(first, unread, turns[0].arriving);
      NextId(first, n);
      AwaitById(first, seen, n + 1, silence);
      IdsSuffice(seen, n + 1);
      var rest := FirstAnswer(seen, n + 1).1;
      var sent := link.sent + FrameOf(IdOf(first, n + 1), turns[0].req);
      var link' := Link(IdOf(first, n + 1), WireBytes(first, rest), sent);
      RunAnswersOwnRequests(first, n + 1, silence, link', rest, turns[1..]);
    }
  }

  lemma NextId(first: Word, n: nat)
    ensures (IdOf(first, n) + 1) % IDS == IdOf(first, n + 1)
  {
  }

  lemma {:induction false} FirstAnswerAmong(list: seq<Arrival>, n: nat)
    ensures var (found, rest) := FirstAnswer(list, n);
            && (found.Some? ==> Answered(n, found.value) in list)
            && (found.None? ==> forall a :: a in list ==> !(a.Answered? && a.n == n))
            && (forall a :: a in rest ==> a in list)
  {
    if list != [] {
      FirstAnswerAmong(list[1..], n);
    }
  }

  /** Spelled out: the j-th result of a run is a response that arrived to the j-th request. */
  lemma {:induction false} OwnAnswerArrived(n: nat, silence: Silence, unread: seq<Arrival>, turns: seq<Turn>, j: nat)
    requires j < |turns|
    ensures |OwnAnswers(n, silence, unread, turns)| == |turns|
    ensures OwnAnswers(n, silence, unread, turns)[j].Ok? ==>
              var a := Answered(n + 1 + j, OwnAnswers(n, silence, unread, turns)[j].value);
              a in unread || exists i :: 0 <= i <= j && a in turns[i].arriving
    decreases turns
  {
    hide FirstAnswer;
    var seen := unread + turns[0].arriving;
    FirstAnswerAmong(seen, n + 1);
    var rest := FirstAnswer(seen, n + 1).1;
    if j > 0 {
      OwnAnswerArrived(n + 1, silence, rest, turns[1..], j - 1);
      var r := OwnAnswers(n + 1, silence, rest, turns[1..])[j - 1];
      if r.Ok? {
        var a := Answered(n + 1 + j, r.value);
        if a !in rest {
          var i :| 0 <= i <= j - 1 && a in turns[1..][i].arriving;
          assert a in turns[i + 1].arriving;
        } else if a !in unread {
          assert a in turns[0].arriving;
        }
      }
    } else if |turns| > 1 {
      OwnAnswerArrived(n + 1, silence, rest, turns[1..], 0);
    }
  }

  /** Everything that arrives in a run answers a request already sent, or is of another protocol. */
  predicate AnswersSent(n: nat, turns: seq<Turn>) {
    forall i, a :: 0 <= i < |turns| && a in turns[i].arriving ==>
      WellFormed(a) && (a.Answered? ==> 1 <= a.n <= n + 1 + i)
  }

  /** A run of up to 65536 requests, counted from the first, is within the bound, whatever it brings. */
  lemma {:induction false} ShortRunsInTime(n: nat, unread: seq<Arrival>, turns: seq<Turn>)
    requires n + |turns| <= 65536
    requires forall a :: a in unread ==> WellFormed(a) && (a.Answered? ==> 1 <= a.n <= n)
    requires AnswersSent(n, turns)
    ensures RunInTime(n, unread, turns)
    decreases turns
  {
    hide FirstAnswer, WellFormed;
    if turns != [] {
      var seen := unread + turns[0].arriving;
      forall i | 0 <= i < |seen|
        ensures WellFormed(seen[i]) && (seen[i].Answered? ==> 1 <= seen[i].n <= n + 1)
      {
        assert seen[i] in unread || seen[i] in turns[0].arriving;
      }
      FirstAnswerAmong(seen, n + 1);
      var rest := FirstAnswer(seen, n + 1).1;
      forall a | a in rest ensures WellFormed(a) && (a.Answered? ==> 1 <= a.n <= n + 1) {
        assert a in seen;
      }
      assert forall i :: 0 <= i < |turns[1..]| ==> turns[1..][i] == turns[i + 1];
      ShortRunsInTime(n + 1, rest, turns[1..]);
    }
  }
}
