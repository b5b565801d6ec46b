/** One HTTP or HTTPS proxy dial of internal/proxypool/pool.go, from the moment its cancellation
    watcher is armed until Pool.DialContext returns, racing with a context that may be cancelled
    at any moment. Reads and writes on the socket, and the clearing of its deadline, may succeed
    or fail. */
module ProxyTunnel {

  /** The callback registered by context.AfterFunc. */
  datatype Hook = Armed | Stopped | Started | Closed | Delivered

  /** Where the dialing goroutine stands. `ok` says whether the CONNECT exchange succeeded. */
  datatype Pc =
    | Handshake               // writing the request, reading the response
    | Stopping(ok: bool)      // about to call stop
    | Waiting(ok: bool)       // stop returned false: receiving the callback's result
    | CheckContext            // stop returned true after success: looking at ctx.Err
    | ClearDeadline
    | CloseSelf               // about to close the connection itself
    | DialFailed              // the endpoint's dial returned an error
    | DialSucceeded           // the endpoint's dial returned the open connection
    | PoolClose               // the pool found the context done and closes the connection
    | Leaving(open: bool)     // the deferred cancel is still to run
    | Done(open: bool)

  datatype State = State(pc: Pc, ctxDone: bool, hook: Hook, mailbox: nat, closes: nat, releases: nat)

  function Init(ctxDone: bool): State {
    State(Handshake, ctxDone, Armed, 0, 0, 0)
  }

  datatype Move =
    | Cancel                     // the caller's context, or the pool's timeout
    | HookStart | HookClose | HookDeliver
    | Exchange(ok: bool)
    | Stop | Receive | Check | Clear(ok: bool) | Close | Release | PoolCheck | DeferredCancel

  predicate Enabled(s: State, m: Move) {
    match m
    case Cancel => !s.ctxDone
    case HookStart => s.hook == Armed && s.ctxDone
    case HookClose => s.hook == Started
    case HookDeliver => s.hook == Closed && s.mailbox == 0   // the channel holds one result
    case Exchange(_) => s.pc == Handshake
    case Stop => s.pc.Stopping?
    case Receive => s.pc.Waiting? && s.mailbox > 0
    case Check => s.pc == CheckContext
    case Clear(_) => s.pc == ClearDeadline
    case Close => s.pc == CloseSelf || s.pc == PoolClose
    case Release => s.pc == DialFailed
    case PoolCheck => s.pc == DialSucceeded
    case DeferredCancel => s.pc.Leaving?
  }

  function Step(s: State, m: Move): State
    requires Enabled(s, m)
  {
    match m
    case Cancel => s.(ctxDone := true)
    case HookStart => s.(hook := Started)
    case HookClose => s.(hook := Closed, closes := s.closes + 1)
    case HookDeliver => s.(hook := Delivered, mailbox := s.mailbox + 1)
    case Exchange(ok) => s.(pc := Stopping(ok))
    case Stop =>
      if s.hook == Armed then s.(hook := Stopped, pc := if s.pc.ok then CheckContext else CloseSelf)
      else s.(pc := Waiting(s.pc.ok))
    case Receive => s.(pc := DialFailed, mailbox := s.mailbox - 1)
    case Check => s.(pc := if s.ctxDone then CloseSelf else ClearDeadline)
    case Clear(ok) => s.(pc := if ok then DialSucceeded else CloseSelf)
    case Close => s.(pc := DialFailed, closes := s.closes + 1)
    case Release => s.(pc := Leaving(false), releases := s.releases + 1)
    case PoolCheck => s.(pc := if s.ctxDone then PoolClose else Leaving(true))
    case DeferredCancel => s.(pc := Done(s.pc.open), ctxDone := true)
  }

  /** The state after the moves, and whether each of them was possible in turn. */
  function Run(ctxDone: bool, moves: seq<Move>): (r: (bool, State)) {
    if moves == [] then (true, Init(ctxDone))
    else
      var (ok, s) := Run(ctxDone, moves[..|moves| - 1]);
      if ok && Enabled(s, moves[|moves| - 1]) then (true, Step(s, moves[|moves| - 1])) else (false, s)
  }

  predicate HookFired(s: State) {
    s.hook in {Started, Closed, Delivered}
  }

  // The dialing goroutine has closed the connection itself.
  predicate ClosedSelf(s: State) {
    s.hook == Stopped && s.pc in {DialFailed, Leaving(false), Done(false)}
  }

  ghost predicate Inv(s: State) {
    && (HookFired(s) ==> s.ctxDone)
    && s.closes == (if s.hook in {Closed, Delivered} || ClosedSelf(s) then 1 else 0)
    && s.mailbox == (if s.hook == Delivered && (s.pc == Handshake || s.pc.Stopping? || s.pc.Waiting?) then 1 else 0)
    && s.releases == (if s.pc in {Leaving(false), Done(false)} then 1 else 0)
    && match s.pc
       case Handshake => s.hook != Stopped
       case Stopping(_) => s.hook != Stopped
       case Waiting(_) => HookFired(s)
       case DialFailed => s.hook in {Stopped, Delivered}
       case Leaving(open) => s.hook == Stopped || (!open && s.hook == Delivered)
       case Done(open) => s.hook == Stopped || (!open && s.hook == Delivered)
       case _ => s.hook == Stopped
  }

  lemma StepKeepsInv(s: State, m: Move)
    requires Inv(s) && Enabled(s, m)
    ensures Inv(Step(s, m))
  {
  }

  lemma {:induction false} RunKeepsInv(ctxDone: bool, moves: seq<Move>)
    requires Run(ctxDone, moves).0
    ensures Inv(Run(ctxDone, moves).1)
  {
    if moves != [] {
      RunKeepsInv(ctxDone, moves[..|moves| - 1]);
      StepKeepsInv(Run(ctxDone, moves[..|moves| - 1]).1, moves[|moves| - 1]);
    }
  }

  /** Every race ends in one of two ways: the connection is returned open, its proxy slot still
      held and its watcher disarmed, or it was closed exactly once and the slot released once.
      It is never closed twice on the way. */
  lemma EveryRaceEndsCleanly(ctxDone: bool, moves: seq<Move>)
    requires Run(ctxDone, moves).0
    ensures var s := Run(ctxDone, moves).1;
            && s.closes <= 1 && s.releases <= 1
            && (s.pc == Done(true) ==> s.closes == 0 && s.releases == 0 && s.hook == Stopped)
            && (s.pc == Done(false) ==> s.closes == 1 && s.releases == 1)
  {
    RunKeepsInv(ctxDone, moves);
  }

  /** A race that deserves its connection: the context was live from the start until the pool looked
      at it, the proxy granted the tunnel and the deadline could be cleared. */
  ghost predicate Granted(ctxDone: bool, moves: seq<Move>) {
    && !ctxDone && Exchange(true) in moves && Clear(true) in moves
    && exists k :: 0 <= k < |moves| && moves[k] == PoolCheck && Cancel !in moves[..k]
  }

  // What the position of the dialing goroutine says about the moves so far.
  ghost predicate Tells(ctxDone: bool, s: State, moves: seq<Move>) {
    && (!s.pc.Done? ==> (s.ctxDone <==> ctxDone || Cancel in moves))
    && (PoolCheck in moves ==> s.pc in {PoolClose, DialFailed, Leaving(false), Leaving(true), Done(false), Done(true)})
    && match s.pc
       case Handshake => Exchange(true) !in moves && Clear(true) !in moves
       case Stopping(ok) => (ok <==> Exchange(true) in moves) && Clear(true) !in moves
       case Waiting(ok) => Clear(true) !in moves
       case CheckContext => Exchange(true) in moves && Clear(true) !in moves
       case ClearDeadline => Exchange(true) in moves && Clear(true) !in moves
       case DialSucceeded => Exchange(true) in moves && Clear(true) in moves
       case Leaving(open) => open <==> Granted(ctxDone, moves)
       case Done(open) => open <==> Granted(ctxDone, moves)
       case _ => !Granted(ctxDone, moves)
  }

  lemma GrantedStep(ctxDone: bool, before: seq<Move>, m: Move)
    ensures m == PoolCheck && Exchange(true) in before && Clear(true) in before && PoolCheck !in before ==>
              (Granted(ctxDone, before + [m]) <==> !ctxDone && Cancel !in before)
    ensures m != PoolCheck && m != Exchange(true) && m != Clear(true) ==>
              (Granted(ctxDone, before + [m]) <==> Granted(ctxDone, before))
    ensures PoolCheck !in before + [m] ==> !Granted(ctxDone, before + [m])
  {
    var moves := before + [m];
    assert forall k :: 0 <= k < |before| ==> moves[k] == before[k] && moves[..k] == before[..k];
    assert moves[..|before|] == before && moves[|before|] == m;
    if Granted(ctxDone, before) {
      var k :| 0 <= k < |before| && before[k] == PoolCheck && Cancel !in before[..k];
      assert moves[k] == PoolCheck && Cancel !in moves[..k];
    }
  }

  lemma TellsStep(ctxDone: bool, s: State, before: seq<Move>, m: Move)
    requires Inv(s) && Tells(ctxDone, s, before) && Enabled(s, m)
    ensures Tells(ctxDone, Step(s, m), before + [m])
  {
    GrantedStep(ctxDone, before, m);
  }

  lemma {:induction false} RunTells(ctxDone: bool, moves: seq<Move>)
    requires Run(ctxDone, moves).0
    ensures Tells(ctxDone, Run(ctxDone, moves).1, moves)
  {
    if moves != [] {
      var before := moves[..|moves| - 1];
      RunTells(ctxDone, before);
      RunKeepsInv(ctxDone, before);
      TellsStep(ctxDone, Run(ctxDone, before).1, before, moves[|moves| - 1]);
      assert moves == before + [moves[|moves| - 1]];
    }
  }

  /** DialContext returns an open connection exactly when the context was live from the start until
      the pool looked at it, the CONNECT exchange succeeded and the deadline was cleared; otherwise it
      returns an error. */
  lemma OpenIffGranted(ctxDone: bool, moves: seq<Move>)
    requires Run(ctxDone, moves).0 && Run(ctxDone, moves).1.pc.Done?
    ensures Run(ctxDone, moves).1.pc == Done(Granted(ctxDone, moves))
  {
    RunTells(ctxDone, moves);
  }

  // The dial looked at the context after stopping the watcher, and found it live.
  ghost predicate FoundLive(ctxDone: bool, moves: seq<Move>) {
    !ctxDone && exists k :: 0 <= k < |moves| && moves[k] == Check && Cancel !in moves[..k]
  }

  lemma FoundLiveStep(ctxDone: bool, before: seq<Move>, m: Move)
    ensures FoundLive(ctxDone, before) ==> FoundLive(ctxDone, before + [m])
    ensures m == Check && !ctxDone && Cancel !in before ==> FoundLive(ctxDone, before + [m])
  {
    var moves := before + [m];
    assert moves[..|before|] == before && moves[|before|] == m;
    if FoundLive(ctxDone, before) {
      var k :| 0 <= k < |before| && before[k] == Check && Cancel !in before[..k];
      assert moves[k] == Check && moves[..k] == before[..k];
    }
  }

  /** The endpoint's dial goes on to clear the deadline, and hands a connection to the pool, only if
      the context was still live when it looked after the handshake. */
  lemma {:induction false} EndpointLooksAtContext(ctxDone: bool, moves: seq<Move>)
    requires Run(ctxDone, moves).0
    ensures Run(ctxDone, moves).1.pc in {ClearDeadline, DialSucceeded, PoolClose, Leaving(true), Done(true)} ==>
              FoundLive(ctxDone, moves)
  {
    if moves != [] {
      var before, m := moves[..|moves| - 1], moves[|moves| - 1];
      assert moves == before + [m];
      EndpointLooksAtContext(ctxDone, before);
      RunTells(ctxDone, before);
      FoundLiveStep(ctxDone, before, m);
    }
  }

  predicate ReturnedOpen(s: State) {
    s.pc == Leaving(true) || s.pc == Done(true)
  }

  lemma OpenStaysOpen(s: State, m: Move)
    requires Inv(s) && ReturnedOpen(s) && Enabled(s, m)
    ensures ReturnedOpen(Step(s, m)) && Step(s, m).closes == 0
  {
  }

  /** A returned connection stays open: not even the pool's own deferred cancel, nor any later
      cancellation, lets the watcher close it. */
  lemma {:induction false} ReturnedConnectionStaysOpen(ctxDone: bool, moves: seq<Move>, more: seq<Move>)
    requires Run(ctxDone, moves).0 && ReturnedOpen(Run(ctxDone, moves).1)
    requires Run(ctxDone, moves + more).0
    ensures ReturnedOpen(Run(ctxDone, moves + more).1) && Run(ctxDone, moves + more).1.closes == 0
  {
    if more == [] {
      assert moves + more == moves;
      RunKeepsInv(ctxDone, moves);
    } else {
      var before, all := moves + more[..|more| - 1], moves + more;
      assert all[..|all| - 1] == before && all[|all| - 1] == more[|more| - 1];
      ReturnedConnectionStaysOpen(ctxDone, moves, more[..|more| - 1]);
      RunKeepsInv(ctxDone, before);
      OpenStaysOpen(Run(ctxDone, before).1, all[|all| - 1]);
    }
  }

  /** stopWatching never waits for a result that will not come: while it waits, the result is in
      the channel or the callback's next move is possible. And it waits only once the context is
      done, so the fallback error for a live context is never built. */
  lemma WaitIsServed(ctxDone: bool, moves: seq<Move>)
    requires Run(ctxDone, moves).0 && Run(ctxDone, moves).1.pc.Waiting?
    ensures var s := Run(ctxDone, moves).1;
            && s.ctxDone
            && (Enabled(s, Receive) || Enabled(s, HookClose) || Enabled(s, HookDeliver))
  {
    RunKeepsInv(ctxDone, moves);
  }

  function PcRank(pc: Pc): nat {
    match pc
    case Handshake => 9
    case Stopping(_) => 8
    case Waiting(_) => 7
    case CheckContext => 7
    case ClearDeadline => 6
    case DialSucceeded => 5
    case CloseSelf => 4
    case PoolClose => 4
    case DialFailed => 3
    case Leaving(_) => 2
    case Done(_) => 0
  }

  function HookRank(hook: Hook): nat {
    match hook
    case Armed => 4
    case Started => 2
    case Closed => 1
    case _ => 0
  }

  function Measure(s: State): nat {
    PcRank(s.pc) + HookRank(s.hook) + if s.ctxDone then 0 else 1
  }

  lemma MeasureDrops(s: State, m: Move)
    requires Enabled(s, m)
    ensures Measure(Step(s, m)) < Measure(s)
  {
  }

  lemma SomeMoveIsPossible(s: State)
    requires Inv(s) && !s.pc.Done?
    ensures exists m :: m != Cancel && Enabled(s, m)
  {
    var next := match s.pc
      case Handshake => Exchange(true)
      case Stopping(_) => Stop
      case Waiting(_) => if s.mailbox > 0 then Receive else if s.hook == Started then HookClose else HookDeliver
      case CheckContext => Check
      case ClearDeadline => Clear(true)
      case CloseSelf => Close
      case PoolClose => Close
      case DialFailed => Release
      case DialSucceeded => PoolCheck
      case Leaving(_) => DeferredCancel;
    assert Enabled(s, next);
  }

  /** No race runs for more than 14 moves, and none gets stuck before DialContext returns: some
      move other than a cancellation by the caller is always possible. */
  lemma {:induction false} EveryRaceEnds(ctxDone: bool, moves: seq<Move>)
    requires Run(ctxDone, moves).0
    ensures |moves| + Measure(Run(ctxDone, moves).1) <= 14
    ensures !Run(ctxDone, moves).1.pc.Done? ==>
              exists m :: m != Cancel && Enabled(Run(ctxDone, moves).1, m)
  {
    if moves != [] {
      EveryRaceEnds(ctxDone, moves[..|moves| - 1]);
      MeasureDrops(Run(ctxDone, moves[..|moves| - 1]).1, moves[|moves| - 1]);
    }
    RunKeepsInv(ctxDone, moves);
    if !Run(ctxDone, moves).1.pc.Done? { SomeMoveIsPossible(Run(ctxDone, moves).1); }
  }
}
