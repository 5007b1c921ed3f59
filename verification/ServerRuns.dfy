/**
 Runs of requests against a server, the transaction ids carried through: the server echoes the id
 of each request, and so the client gets the server's answers to its own requests, however late,
 lost, repeated or out of order they arrive, within the width of the id.
 */
module ServerRuns {
  import opened Bytes
  import opened Modbus
  import opened Net
  import opened Mbap
  import opened Serving
  import opened Transactions

  /** Requests under consecutive ids, as a client numbers them. */
  function Numbered(first: Word, reqs: seq<Pdu>): (numbered: seq<(Word, Pdu)>)
    ensures |numbered| == |reqs|
  {
    seq(|reqs|, i requires 0 <= i < |reqs| => (IdOf(first, 1 + i), reqs[i]))
  }

  /** Responses as arrivals, tagged with the requests they answer from the n-th on. */
  function Tagged(n: nat, responses: seq<(Word, Pdu)>): (tagged: seq<Arrival>)
    ensures |tagged| == |responses|
  {
    seq(|responses|, i requires 0 <= i < |responses| => Answered(n + i, responses[i].1))
  }

  /** The server's responses to a run of requests. */
  function ResponsesTo<S>(h: Handler<S>, s: S, first: Word, reqs: seq<Pdu>): seq<(Word, Pdu)> {
    Responses(h, s, Numbered(first, reqs))
  }

  // ------------------------------------------------------------------ the echo

  predicate NumberedFrom(first: Word, n: nat, responses: seq<(Word, Pdu)>) {
    forall i :: 0 <= i < |responses| ==> responses[i].0 == IdOf(first, n + i) && |responses[i].1.payload| <= MAX_PAYLOAD
  }

  lemma {:induction false} TaggedBytes(first: Word, n: nat, responses: seq<(Word, Pdu)>)
    requires NumberedFrom(first, n, responses)
    ensures AllWellFormed(Tagged(n, responses))
    ensures FramesOf(responses) == WireBytes(first, Tagged(n, responses))
    decreases responses
  {
    hide FrameOf;
    if responses != [] {
      assert responses[0].0 == IdOf(first, n + 0);
      assert NumberedFrom(first, n + 1, responses[1..]) by {
        assert forall i :: 0 <= i < |responses[1..]| ==> responses[1..][i] == responses[i + 1];
      }
      TaggedBytes(first, n + 1, responses[1..]);
      assert Tagged(n, responses)[1..] == Tagged(n + 1, responses[1..]);
    }
  }

  /** Whatever the handler, the server's output is its responses under the ids of their requests:
      a tag says which request a frame answers because the server has echoed that request's id. */
  lemma ServerEchoes<S>(h: Handler<S>, s: S, first: Word, reqs: seq<Pdu>)
    ensures var responses := ResponsesTo(h, s, first, reqs);
            && |responses| <= |reqs|
            && NumberedFrom(first, 1, responses)
            && FramesOf(responses) == WireBytes(first, Tagged(1, responses))
  {
    hide Responses, Answer;
    var numbered := Numbered(first, reqs);
    var responses := ResponsesTo(h, s, first, reqs);
    OnlyClosingStopsResponses(h, s, numbered);
    forall i | 0 <= i < |responses|
      ensures responses[i].0 == IdOf(first, 1 + i) && |responses[i].1.payload| <= MAX_PAYLOAD
    {
      ResponsesMatch(h, s, numbered, i);
    }
    TaggedBytes(first, 1, responses);
  }

  // ------------------------------------------------------------------ any delivery

  function RequestsOf(turns: seq<Turn>): (reqs: seq<Pdu>)
    ensures |reqs| == |turns|
  {
    seq(|turns|, i requires 0 <= i < |turns| => turns[i].req)
  }

  /** Everything that arrives is a response of the server's or a frame of another protocol. */
  predicate FromServer(turns: seq<Turn>, responses: seq<(Word, Pdu)>) {
    forall i, a :: 0 <= i < |turns| && a in turns[i].arriving ==> a.Answered? ==> a in Tagged(1, responses)
  }

  /** The server's answer to the j-th request, in the state the earlier ones have led to. */
  function AnswerTo<S>(h: Handler<S>, s: S, first: Word, reqs: seq<Pdu>, j: nat): Outcome
    requires j < |reqs|
  {
    Answer(h, StateAfter(h, s, Numbered(first, reqs)[..j]), reqs[j]).1
  }

  /** For every handler and run, and any delivery of the server's output by whole frames, lost,
      repeated, late or out of order, but nothing 65536 or more requests late: each response the
      client returns is the server's answer to the request just sent. */
  lemma ClientGetsOwnAnswers<S>(h: Handler<S>, s: S, silence: Silence, link: Link, turns: seq<Turn>, j: nat)
    requires link.stream == [] && j < |turns|
    requires FromServer(turns, ResponsesTo(h, s, link.txnId, RequestsOf(turns)))
    requires RunInTime(0, [], turns)
    ensures var results := WireTurns(link.txnId, silence, link, turns);
            && |results| == |turns|
            && (results[j].Ok? ==>
                  AnswerTo(h, s, link.txnId, RequestsOf(turns), j) == Respond(results[j].value))
  {
    hide WireTurns, Answer, Responses, StateAfter, RunInTime, OwnAnswers, RequestsOf;
    var first, reqs := link.txnId, RequestsOf(turns);
    var responses := ResponsesTo(h, s, first, reqs);
    RunAnswersOwnRequests(first, 0, silence, link, [], turns);
    OwnAnswerArrived(0, silence, [], turns, j);
    ServerEchoes(h, s, first, reqs);
    var result := OwnAnswers(0, silence, [], turns)[j];
    if result.Ok? {
      var a := Answered(1 + j, result.value);
      var i :| 0 <= i <= j && a in turns[i].arriving;
      assert a in Tagged(1, responses);
      assert a == Tagged(1, responses)[j];
      ResponseIsAnswer(h, s, Numbered(first, reqs), j);
    }
  }

  // ------------------------------------------------------------------ delivery in order

  /** The results of requests `from` on, when the given bytes arrive during each. */
  function StreamTurns(silence: Silence, link: Link, reqs: seq<Pdu>, pieces: seq<seq<Byte>>, from: nat)
    : seq<Result<Pdu>>
    requires |reqs| == |pieces| && from <= |reqs|
    decreases |reqs| - from
  {
    if from == |reqs| then []
    else
      var (link', result) := Exchange((_, _) => pieces[from], silence, link, reqs[from]);
      [result] + StreamTurns(silence, link', reqs, pieces, from + 1)
  }

  /** How many responses have arrived before the turn of request `i`. */
  function Before(cuts: seq<nat>, i: nat): nat
    requires i <= |cuts|
  {
    if i == 0 then 0 else cuts[i - 1]
  }

  /** By the end of each turn so many responses have arrived: in order, none before its request,
      and none 65536 or more requests late. */
  predicate InOrder(cuts: seq<nat>, count: nat) {
    forall i :: 0 <= i < |cuts| ==>
      && Before(cuts, i) <= cuts[i] <= count && cuts[i] <= i + 1
      && (Before(cuts, i) < cuts[i] ==> i < Before(cuts, i) + IDS)
  }

  /** In a run of up to 65536 requests nothing can be late. */
  lemma ShortRunsInOrder(cuts: seq<nat>, count: nat)
    requires |cuts| <= 65536
    requires forall i :: 0 <= i < |cuts| ==> Before(cuts, i) <= cuts[i] <= count && cuts[i] <= i + 1
    ensures InOrder(cuts, count)
  {
  }

  /** The responses that arrive in the turn of request `i`. */
  function Arriving(responses: seq<(Word, Pdu)>, cuts: seq<nat>, i: nat): seq<(Word, Pdu)>
    requires InOrder(cuts, |responses|) && i < |cuts|
  {
    responses[Before(cuts, i)..cuts[i]]
  }

  /** The server's output, cut between frames. */
  function Pieces(responses: seq<(Word, Pdu)>, cuts: seq<nat>): (pieces: seq<seq<Byte>>)
    requires InOrder(cuts, |responses|)
    ensures |pieces| == |cuts|
  {
    seq(|cuts|, i requires 0 <= i < |cuts| => FramesOf(Arriving(responses, cuts, i)))
  }

  lemma {:induction false} FirstAnswerTagged(n: nat, responses: seq<(Word, Pdu)>, m: nat)
    requires n <= m
    ensures FirstAnswer(Tagged(n, responses), m) ==
              if m < n + |responses| then (Some(responses[m - n].1), Tagged(m + 1, responses[m - n + 1..]))
              else (None, [])
    decreases responses
  {
    if responses != [] {
      assert Tagged(n, responses)[1..] == Tagged(n + 1, responses[1..]);
      if n < m {
        FirstAnswerTagged(n + 1, responses[1..], m);
      }
    }
  }

  lemma NoBytes(first: Word)
    ensures WireBytes(first, []) == []
  {
  }

  /** What the client reads in one turn. */
  lemma TurnInOrder(
      first: Word, silence: Silence, responses: seq<(Word, Pdu)>, lo: nat, hi: nat, i: nat)
    requires NumberedFrom(first, 1, responses)
    requires lo <= hi <= |responses| && lo <= i && hi <= i + 1 && (lo < hi ==> i < lo + IDS)
    ensures AwaitResponse(FramesOf(responses[lo..hi]), IdOf(first, i + 1), silence)
         == Awaited(if hi == i + 1 then Ok(responses[i].1) else Err(silence), [])
  {
    hide AwaitResponse, FirstAnswer, FirstById, FramesOf, WireBytes;
    var arrived := responses[lo..hi];
    assert NumberedFrom(first, 1 + lo, arrived) by {
      forall k | 0 <= k < |arrived| ensures arrived[k] == responses[lo + k] && 1 + lo + k == 1 + (lo + k) {}
    }
    TaggedBytes(first, 1 + lo, arrived);
    AwaitById(first, Tagged(1 + lo, arrived), i + 1, silence);
    IdsSuffice(Tagged(1 + lo, arrived), i + 1);
    FirstAnswerTagged(1 + lo, arrived, i + 1);
    assert Tagged(i + 2, []) == [];
    NoBytes(first);
  }

  lemma OwnAnswerIs<S>(h: Handler<S>, s: S, first: Word, reqs: seq<Pdu>, j: nat)
    requires j < |ResponsesTo(h, s, first, reqs)| <= |reqs|
    ensures AnswerTo(h, s, first, reqs, j) == Respond(ResponsesTo(h, s, first, reqs)[j].1)
  {
    hide Responses, StateAfter, Answer;
    ResponseIsAnswer(h, s, Numbered(first, reqs), j);
  }

  /** The result of request `j`: the server's answer if that has arrived in the request's own turn,
      and the failure of the link otherwise. */
  predicate RightResult<S>(
      h: Handler<S>, s: S, first: Word, silence: Silence, reqs: seq<Pdu>, cuts: seq<nat>, j: nat, result: Result<Pdu>)
    requires j < |reqs| == |cuts|
  {
    if cuts[j] == j + 1 then result.Ok? && AnswerTo(h, s, first, reqs, j) == Respond(result.value)
    else result == Err(silence)
  }

  lemma ArrivingBounds(cuts: seq<nat>, count: nat, i: nat)
    requires InOrder(cuts, count) && i < |cuts|
    ensures Before(cuts, i) <= cuts[i] <= count && Before(cuts, i) <= i && cuts[i] <= i + 1
    ensures Before(cuts, i) < cuts[i] ==> i < Before(cuts, i) + IDS
  {
  }

  lemma ExchangeReads(silence: Silence, link: Link, req: Pdu, piece: seq<Byte>)
    requires link.stream == []
    ensures var awaited := AwaitResponse(piece, (link.txnId + 1) % IDS, silence);
            var (link', result) := Exchange((_, _) => piece, silence, link, req);
            link'.txnId == (link.txnId + 1) % IDS && link'.stream == awaited.rest && result == awaited.result
  {
    hide AwaitResponse, FrameOf;
    assert [] + piece == piece;
  }

  lemma ExchangeInOrder<S>(
      h: Handler<S>, s: S, first: Word, silence: Silence, link: Link, reqs: seq<Pdu>, cuts: seq<nat>, i: nat)
    requires i < |reqs| == |cuts|
    requires InOrder(cuts, |ResponsesTo(h, s, first, reqs)|)
    requires link.txnId == IdOf(first, i) && link.stream == []
    ensures var piece := Pieces(ResponsesTo(h, s, first, reqs), cuts)[i];
            var (link', result) := Exchange((_, _) => piece, silence, link, reqs[i]);
            && link'.txnId == IdOf(first, i + 1) && link'.stream == []
            && RightResult(h, s, first, silence, reqs, cuts, i, result)
  {
    hide AwaitResponse, ResponsesTo, Exchange, FramesOf, AnswerTo, NumberedFrom, InOrder, Before, IdOf, WireBytes;
    var responses := ResponsesTo(h, s, first, reqs);
    ServerEchoes(h, s, first, reqs);
    ArrivingBounds(cuts, |responses|, i);
    NextId(first, i);
    ExchangeReads(silence, link, reqs[i], FramesOf(Arriving(responses, cuts, i)));
    TurnInOrder(first, silence, responses, Before(cuts, i), cuts[i], i);
    if cuts[i] == i + 1 {
      OwnAnswerIs(h, s, first, reqs, i);
    }
  }

  /** Over a stream that delivers the server's output in order, whole frames at a time, every result
      of a run is the right one. */
  lemma {:induction false} StreamGivesOwnAnswers<S>(
      h: Handler<S>, s: S, first: Word, silence: Silence, link: Link, reqs: seq<Pdu>, cuts: seq<nat>, from: nat)
    requires |reqs| == |cuts| && from <= |reqs|
    requires InOrder(cuts, |ResponsesTo(h, s, first, reqs)|)
    requires link.txnId == IdOf(first, from) && link.stream == []
    ensures var results := StreamTurns(silence, link, reqs, Pieces(ResponsesTo(h, s, first, reqs), cuts), from);
            && |results| == |reqs| - from
            && forall k :: 0 <= k < |results| ==> RightResult(h, s, first, silence, reqs, cuts, from + k, results[k])
    decreases |reqs| - from
  {
    hide Exchange, ResponsesTo, Pieces, InOrder, RightResult, IdOf;
    if from < |reqs| {
      var pieces := Pieces(ResponsesTo(h, s, first, reqs), cuts);
      ExchangeInOrder(h, s, first, silence, link, reqs, cuts, from);
      var link' := Exchange((_, _) => pieces[from], silence, link, reqs[from]).0;
      StreamGivesOwnAnswers(h, s, first, silence, link', reqs, cuts, from + 1);
    }
  }
}
