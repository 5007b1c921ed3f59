/**
 The server's pool of connections. Every access to it runs under one lock, so the goroutines that
 accept, serve, start and stop are modelled as steps taken in any order at the lock boundaries.
 */
module Pool {
  /** A connection, by the order in which the listener handed it out. */
  type Sock = nat

  // ------------------------------------------------------------------ the guarded sections

  predicate NoDuplicates(pool: seq<Sock>) {
    forall i, j :: 0 <= i < j < |pool| ==> pool[i] != pool[j]
  }

  function Members(pool: seq<Sock>): set<Sock> {
    set s | s in pool
  }

  /** The pool without a connection: the last one takes its place. */
  function SwapRemove(pool: seq<Sock>, sock: Sock): seq<Sock> {
    if sock !in pool then pool
    else pool[IndexOf(pool, sock) := pool[|pool| - 1]][..|pool| - 1]
  }

  function IndexOf(pool: seq<Sock>, sock: Sock): (i: nat)
    requires sock in pool
    ensures i < |pool| && pool[i] == sock && sock !in pool[..i]
  {
    if pool[0] == sock then 0 else 1 + IndexOf(pool[1..], sock)
  }

  lemma {:induction false} FirstIndexUnique(pool: seq<Sock>, sock: Sock, i: nat)
    requires i < |pool| && pool[i] == sock && sock !in pool[..i]
    ensures sock in pool && IndexOf(pool, sock) == i
    decreases i
  {
    if i > 0 {
      assert pool[..i][0] == pool[0];
      assert pool[1..][..i - 1] == pool[..i][1..];
      FirstIndexUnique(pool[1..], sock, i - 1);
    }
  }

  lemma SwapRemoveRemoves(pool: seq<Sock>, sock: Sock)
    requires NoDuplicates(pool)
    ensures NoDuplicates(SwapRemove(pool, sock))
    ensures Members(SwapRemove(pool, sock)) == Members(pool) - {sock}
    ensures |SwapRemove(pool, sock)| == if sock in pool then |pool| - 1 else |pool|
  {
    if sock in pool {
      var i, last := IndexOf(pool, sock), |pool| - 1;
      var r := SwapRemove(pool, sock);
      assert forall j :: 0 <= j < last ==> r[j] == if j == i then pool[last] else pool[j];
      forall s ensures s in r <==> s in pool && s != sock {
        if s in pool && s != sock {
          var j :| 0 <= j < |pool| && pool[j] == s;
          assert if j == last then r[i] == s else r[j] == s;
        }
      }
    }
  }

  // ------------------------------------------------------------------ all goroutines

  /** The pool, and where every connection handed out by the listener is: not yet decided upon,
      refused and about to be closed, being served, or served and about to be closed. */
  datatype State = State(
    maxClients: nat,
    started: bool,
    pool: seq<Sock>,
    handedOut: nat,
    undecided: set<Sock>,
    refused: set<Sock>,
    serving: set<Sock>,
    leaving: set<Sock>,
    closed: set<Sock>)

  datatype Step =
    | Start(listens: bool)
    | Stop
    | Accept
    | Decide(sock: Sock)
    | CloseRefused(sock: Sock)
    | HandlerExits(sock: Sock)
    | CloseLeaving(sock: Sock)

  predicate Enabled(s: State, step: Step) {
    match step
    case Start(_) => true
    case Stop => true
    case Accept => true
    case Decide(sock) => sock in s.undecided
    case CloseRefused(sock) => sock in s.refused
    case HandlerExits(sock) => sock in s.serving
    case CloseLeaving(sock) => sock in s.leaving
  }

  function Apply(s: State, step: Step): State {
    match step
    case Start(listens) => s.(started := s.started || listens)
    case Stop => s.(started := false, closed := if s.started then s.closed + Members(s.pool) else s.closed)
    case Accept => s.(undecided := s.undecided + {s.handedOut}, handedOut := s.handedOut + 1)
    case Decide(sock) =>
      if s.started && |s.pool| < s.maxClients then
        s.(undecided := s.undecided - {sock}, pool := s.pool + [sock], serving := s.serving + {sock})
      else
        s.(undecided := s.undecided - {sock}, refused := s.refused + {sock})
    case CloseRefused(sock) => s.(refused := s.refused - {sock}, closed := s.closed + {sock})
    case HandlerExits(sock) =>
      s.(pool := SwapRemove(s.pool, sock), serving := s.serving - {sock}, leaving := s.leaving + {sock})
    case CloseLeaving(sock) => s.(leaving := s.leaving - {sock}, closed := s.closed + {sock})
  }

  function Initial(maxClients: nat): State {
    State(maxClients, false, [], 0, {}, {}, {}, {}, {})
  }

  predicate Runs(s: State, steps: seq<Step>)
    decreases steps
  {
    steps == [] || (Enabled(s, steps[0]) && Runs(Apply(s, steps[0]), steps[1..]))
  }

  function After(s: State, steps: seq<Step>): State
    decreases steps
  {
    if steps == [] then s else After(Apply(s, steps[0]), steps[1..])
  }

  // ------------------------------------------------------------------ what every run keeps

  ghost predicate Invariant(s: State) {
    && |s.pool| <= s.maxClients
    && NoDuplicates(s.pool)
    // pooled is the same as being served
    && Members(s.pool) == s.serving
    // a connection is in one place at a time, and what is closed is past being refused
    && s.undecided !! s.refused !! s.serving !! s.leaving
    && s.closed !! s.undecided && s.closed !! s.refused
    // every connection handed out is on its way in, pooled, on its way out, or closed
    && (forall sock: Sock :: sock < s.handedOut <==>
          sock in s.undecided || sock in s.refused || sock in s.serving || sock in s.leaving || sock in s.closed)
    // while stopped, whatever is still pooled has been closed
    && (!s.started ==> s.serving <= s.closed)
  }

  lemma MembersAppend(pool: seq<Sock>, sock: Sock)
    ensures Members(pool + [sock]) == Members(pool) + {sock}
  {
  }

  lemma StepKeepsInvariant(s: State, step: Step)
    requires Invariant(s) && Enabled(s, step)
    ensures Invariant(Apply(s, step))
  {
    match step
    case Decide(sock) =>
      MembersAppend(s.pool, sock);
      assert sock !in Members(s.pool);
    case HandlerExits(sock) =>
      hide SwapRemove;
      SwapRemoveRemoves(s.pool, sock);
    case _ =>
  }

  /** Over every interleaving of accepting, serving, starting and stopping. */
  lemma {:induction false} RunKeepsInvariant(s: State, steps: seq<Step>)
    requires Invariant(s) && Runs(s, steps)
    ensures Invariant(After(s, steps))
    decreases steps
  {
    hide Invariant, Apply, Enabled;
    if steps != [] {
      StepKeepsInvariant(s, steps[0]);
      RunKeepsInvariant(Apply(s, steps[0]), steps[1..]);
    }
  }

  lemma EveryRunSafe(maxClients: nat, steps: seq<Step>)
    requires Runs(Initial(maxClients), steps)
    ensures Invariant(After(Initial(maxClients), steps))
  {
    hide Runs, After;
    RunKeepsInvariant(Initial(maxClients), steps);
  }

  /** A connection enters the pool only by a decision taken while the server is started and the
      pool is not full, and leaves it only when its own handler exits. */
  lemma PoolChanges(s: State, step: Step, sock: Sock)
    requires Invariant(s) && Enabled(s, step)
    ensures sock in Apply(s, step).pool && sock !in s.pool ==>
              step == Decide(sock) && s.started && |s.pool| < s.maxClients
    ensures sock in s.pool && sock !in Apply(s, step).pool ==> step == HandlerExits(sock)
  {
    if step.HandlerExits? {
      SwapRemoveRemoves(s.pool, step.sock);
      assert sock in Apply(s, step).pool <==> sock in Members(Apply(s, step).pool);
    }
  }

  /** And it does enter: a connection decided upon is pooled, and so served, if and only if the server
      is started and the pool not full; otherwise it is refused. */
  lemma DecidedPooledIff(s: State, sock: Sock)
    requires Invariant(s) && sock in s.undecided
    ensures var s' := Apply(s, Decide(sock));
            && (sock in s'.pool <==> s.started && |s.pool| < s.maxClients)
            && (sock in s'.serving <==> sock in s'.pool) && (sock in s'.refused <==> sock !in s'.pool)
  {
    if s.started && |s.pool| < s.maxClients {
      assert sock in s.pool + [sock];
    }
    assert sock in s.pool <==> sock in Members(s.pool);
  }

  /** What starting, stopping and listening do. */
  lemma StepsTake(s: State, listens: bool)
    ensures Apply(s, Start(listens)).started == (s.started || listens)
    ensures Apply(s, Start(listens)).pool == s.pool
    ensures !Apply(s, Stop).started && Apply(s, Stop).pool == s.pool
    ensures s.started ==> Members(s.pool) <= Apply(s, Stop).closed
    ensures s.handedOut in Apply(s, Accept).undecided && Apply(s, Accept).handedOut == s.handedOut + 1
  {
  }

  predicate NoStop(steps: seq<Step>) {
    forall i :: 0 <= i < |steps| ==> !steps[i].Stop?
  }

  lemma {:induction false} StaysStarted(s: State, steps: seq<Step>)
    requires s.started && Runs(s, steps) && NoStop(steps)
    ensures After(s, steps).started && After(s, steps).maxClients == s.maxClients
    decreases steps
  {
    if steps != [] {
      assert !steps[0].Stop?;
      assert forall i :: 0 <= i < |steps[1..]| ==> steps[1..][i] == steps[i + 1];
      StaysStarted(Apply(s, steps[0]), steps[1..]);
    }
  }

  /** Over runs: once started, and as long as it is not stopped, the server admits every connection
      that it decides upon while the pool is below the limit, and refuses it otherwise. */
  lemma StartedAdmits(s: State, steps: seq<Step>, sock: Sock)
    requires Invariant(s) && Runs(Apply(s, Start(true)), steps) && NoStop(steps)
    requires sock in After(Apply(s, Start(true)), steps).undecided
    ensures var t := After(Apply(s, Start(true)), steps);
            && (sock in Apply(t, Decide(sock)).pool <==> |t.pool| < s.maxClients)
            && (sock in Apply(t, Decide(sock)).serving <==> |t.pool| < s.maxClients)
  {
    hide Invariant, Apply, Runs, After;
    var s1 := Apply(s, Start(true));
    StepsTake(s, true);
    StartKeepsLimit(s, true);
    StepKeepsInvariant(s, Start(true));
    RunKeepsInvariant(s1, steps);
    StaysStarted(s1, steps);
    DecidedPooledIff(After(s1, steps), sock);
  }

  lemma StartKeepsLimit(s: State, listens: bool)
    ensures Apply(s, Start(listens)).maxClients == s.maxClients
  {
  }

  /** One connection's whole way through a server that allows any: handed out, admitted, served, out of
      the pool, closed. */
  lemma OneConnection(maxClients: nat)
    requires maxClients > 0
    ensures var steps := [Start(true), Accept, Decide(0), HandlerExits(0), CloseLeaving(0)];
            && Runs(Initial(maxClients), steps)
            && After(Initial(maxClients), steps[..3]).pool == [0]
            && After(Initial(maxClients), steps).pool == [] && After(Initial(maxClients), steps).closed == {0}
  {
    var s0 := Initial(maxClients);
    var s1 := Apply(s0, Start(true));
    var s2 := Apply(s1, Accept);
    var s3 := Apply(s2, Decide(0));
    var s4 := Apply(s3, HandlerExits(0));
    assert s3.pool == [0] && s4.pool == [];
    assert 0 in s2.undecided && 0 in s3.serving && 0 in s4.leaving;
    assert Apply(s4, CloseLeaving(0)).closed == {0};
    hide Apply;
    var steps := [Start(true), Accept, Decide(0), HandlerExits(0), CloseLeaving(0)];
    assert steps[..3] == [Start(true), Accept, Decide(0)];
    Follow(s0, steps[..3]);
    Follow(s1, [Accept, Decide(0)]);
    Follow(s2, [Decide(0)]);
    Follow(s0, steps);
    Follow(s1, [Accept, Decide(0), HandlerExits(0), CloseLeaving(0)]);
    Follow(s2, [Decide(0), HandlerExits(0), CloseLeaving(0)]);
    Follow(s3, [HandlerExits(0), CloseLeaving(0)]);
    Follow(s4, [CloseLeaving(0)]);
    assert [Accept, Decide(0)][1..] == [Decide(0)] && [Decide(0)][1..] == [] && [CloseLeaving(0)][1..] == [];
  }

  lemma Follow(s: State, steps: seq<Step>)
    requires steps != []
    ensures After(s, steps) == After(Apply(s, steps[0]), steps[1..])
    ensures Runs(s, steps) <==> Enabled(s, steps[0]) && Runs(Apply(s, steps[0]), steps[1..])
  {
    hide Apply, Enabled;
  }

  function Exits(steps: seq<Step>): nat
    decreases steps
  {
    if steps == [] then 0 else (if steps[0].HandlerExits? then 1 else 0) + Exits(steps[1..])
  }

  predicate NoRestart(steps: seq<Step>) {
    forall i :: 0 <= i < |steps| ==> !steps[i].Start?
  }

  /** Once stopped and until restarted, the pool shrinks by one with every handler that exits and
      changes in no other way; it is empty when as many have exited as were pooled. */
  lemma {:induction false} StoppedPoolDrains(s: State, steps: seq<Step>)
    requires Invariant(s) && !s.started && Runs(s, steps) && NoRestart(steps)
    ensures Exits(steps) <= |s.pool|
    ensures |After(s, steps).pool| == |s.pool| - Exits(steps)
    ensures !After(s, steps).started
    decreases steps
  {
    hide Invariant, SwapRemove;
    if steps != [] {
      var step := steps[0];
      StepKeepsInvariant(s, step);
      assert !step.Start?;
      assert forall i :: 0 <= i < |steps[1..]| ==> steps[1..][i] == steps[i + 1];
      StoppedPoolDrains(Apply(s, step), steps[1..]);
      if step.HandlerExits? {
        ExitShrinks(s, step.sock);
      }
    }
  }

  /** So it is after every stop: everything pooled is closed, nothing more is admitted, and the pool has
      shrunk by as many connections as handlers have exited. */
  lemma AfterStop(s: State, steps: seq<Step>)
    requires Invariant(s) && Runs(Apply(s, Stop), steps) && NoRestart(steps)
    ensures Members(s.pool) <= Apply(s, Stop).closed
    ensures Exits(steps) <= |s.pool| && |After(Apply(s, Stop), steps).pool| == |s.pool| - Exits(steps)
    ensures !After(Apply(s, Stop), steps).started
  {
    StepKeepsInvariant(s, Stop);
    StepsTake(s, true);
    hide Runs, After, Exits;
    StoppedPoolDrains(Apply(s, Stop), steps);
  }

  lemma ExitShrinks(s: State, sock: Sock)
    requires Invariant(s) && sock in s.serving
    ensures |SwapRemove(s.pool, sock)| == |s.pool| - 1
  {
    SwapRemoveRemoves(s.pool, sock);
    assert sock in Members(s.pool);
  }

  // ------------------------------------------------------------------ the code of the steps

  class ModbusServerPool {
    var started: bool
    var tcpClients: seq<Sock>
    const maxClients: nat
    // the whole system: this object, the listener and the goroutines
    ghost var state: State

    constructor (maxClients: nat)
      ensures Valid() && this.maxClients == maxClients && state == Initial(maxClients)
    {
      this.maxClients := maxClients;
      started, tcpClients := false, [];
      state := Initial(maxClients);
    }

    ghost predicate Valid()
      reads this
    {
      state.maxClients == maxClients && state.started == started && state.pool == tcpClients
    }

    /** Starting fails when the listener cannot be opened. */
    method Start(listens: bool) returns (ok: bool)
      requires Valid()
      modifies this
      ensures Valid() && state == Apply(old(state), Step.Start(listens))
      ensures ok == started
    {
      state := Apply(state, Step.Start(listens));
      if started {
        return true;
      }
      if !listens {
        return false;
      }
      started := true;
      ok := true;
    }

    /** Closes every pooled connection; their handlers leave the pool on their own. */
    method Stop() returns (closing: set<Sock>)
      requires Valid()
      modifies this
      ensures Valid() && state == Apply(old(state), Step.Stop)
      ensures closing == if old(started) then Members(old(tcpClients)) else {}
    {
      closing := {};
      state := Apply(state, Step.Stop);
      if !started {
        return;
      }
      started := false;
      for i := 0 to |tcpClients|
        invariant closing == Members(tcpClients[..i])
      {
        assert tcpClients[..i + 1] == tcpClients[..i] + [tcpClients[i]];
        // sock.Close()
        closing := closing + {tcpClients[i]};
      }
      assert tcpClients[..|tcpClients|] == tcpClients;
    }

    /** The accept loop's guarded section: the connection joins the pool or is refused. */
    method Decide(sock: Sock) returns (accepted: bool)
      requires Valid() && sock in state.undecided
      modifies this
      ensures Valid() && state == Apply(old(state), Step.Decide(sock))
      ensures accepted == (|tcpClients| > |old(tcpClients)|)
    {
      state := Apply(state, Step.Decide(sock));
      if started && |tcpClients| < maxClients {
        accepted := true;
        tcpClients := tcpClients + [sock];
      } else {
        accepted := false;
      }
    }

    /** The end of a handler's goroutine: the last connection takes the place of its own. */
    method HandlerExits(sock: Sock)
      requires Valid() && sock in state.serving
      modifies this
      ensures Valid() && state == Apply(old(state), Step.HandlerExits(sock))
    {
      state := Apply(state, Step.HandlerExits(sock));
      ghost var before := tcpClients;
      for i := 0 to |tcpClients|
        invariant tcpClients == before
        invariant sock !in tcpClients[..i]
      {
        if tcpClients[i] == sock {
          FirstIndexUnique(tcpClients, sock, i);
          tcpClients := tcpClients[i := tcpClients[|tcpClients| - 1]];
          tcpClients := tcpClients[..|tcpClients| - 1];
          return;
        }
      }
    }
  }
}
