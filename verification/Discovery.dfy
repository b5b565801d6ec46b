/** Host discovery, internal/discovery/discovery.go: the ordered fan-out of Discover, in every
    interleaving, and the decision that check makes about one target. */
module Discovery {
  import opened Common
  import opened FanOut

  datatype HostResult = HostResult(target: string, alive: bool, how: string, error: Option<string>)

  // ---------------------------------------------------------------- the fan-out

  /** Discover between the start of its workers and its return: `sent` targets were sent to the
      job queue, each slot is None until it is written, and `returned` says whether Discover
      returned its results. */
  datatype State = State(sent: nat, sending: bool, queue: seq<nat>, workers: seq<Phase<HostResult>>,
                         cancelled: bool, results: seq<Option<HostResult>>, returned: Option<bool>)

  datatype Move =
    | Cancel
    | Send | GiveUpSending | FinishSending
    | Take(w: nat) | Drained(w: nat)
    | Write(w: nat, index: nat, result: HostResult)   // check returned; results[index] is assigned
    | Return

  function Init(targets: seq<string>, limit: nat): State {
    State(0, true, [], seq(WorkerCount(|targets|, limit), i => Idle), false, seq(|targets|, i => None), None)
  }

  predicate Enabled(targets: seq<string>, s: State, m: Move) {
    match m
    case Cancel => !s.cancelled
    case Send => s.sending && s.sent < |targets| && |s.queue| < |s.workers|
    case GiveUpSending => s.sending && s.sent < |targets| && s.cancelled
    case FinishSending => s.sending && s.sent >= |targets|
    case Take(w) => w < |s.workers| && s.workers[w].Idle? && s.queue != []
    case Drained(w) => w < |s.workers| && s.workers[w].Idle? && s.queue == [] && !s.sending
    case Write(w, index, result) =>
      w < |s.workers| && s.workers[w] == Working(index) &&
      index < |targets| && index < |s.results| && result.target == targets[index]
    case Return => !s.sending && AllExited(s.workers) && s.returned.None?
  }

  function Step(targets: seq<string>, s: State, m: Move): State
    requires Enabled(targets, s, m)
  {
    match m
    case Cancel => s.(cancelled := true)
    case Send => s.(queue := s.queue + [s.sent], sent := s.sent + 1)
    case GiveUpSending => s.(sending := false)
    case FinishSending => s.(sending := false)
    case Take(w) => s.(workers := s.workers[w := Working(s.queue[0])], queue := s.queue[1..])
    case Drained(w) => s.(workers := s.workers[w := Exited])
    case Write(w, index, result) =>
      s.(workers := s.workers[w := Idle], results := s.results[index := Some(result)])
    case Return => s.(returned := Some(!s.cancelled))
  }

  /** The state after the moves, and whether each of them was possible in turn. */
  function Run(targets: seq<string>, limit: nat, moves: seq<Move>): (r: (bool, State)) {
    if moves == [] then (true, Init(targets, limit))
    else
      var (ok, s) := Run(targets, limit, moves[..|moves| - 1]);
      var m := moves[|moves| - 1];
      if ok && Enabled(targets, s, m) then (true, Step(targets, s, m)) else (false, s)
  }

  /** The slots that the moves wrote, in order. */
  function Written(moves: seq<Move>): seq<nat> {
    if moves == [] then []
    else
      var before, m := Written(moves[..|moves| - 1]), moves[|moves| - 1];
      if m.Write? then before + [m.index] else before
  }

  /** The last result that the moves gave for this slot. */
  function Answer(moves: seq<Move>, i: nat): Option<HostResult> {
    if moves == [] then None
    else
      var m := moves[|moves| - 1];
      if m.Write? && m.index == i then Some(m.result) else Answer(moves[..|moves| - 1], i)
  }

  ghost predicate Shape(targets: seq<string>, limit: nat, s: State) {
    && |s.workers| == WorkerCount(|targets|, limit) && |s.queue| <= |s.workers|
    && |s.results| == |targets| && s.sent <= |targets|
    && (!s.cancelled && !s.sending ==> s.sent == |targets|)
    && ((exists w :: 0 <= w < |s.workers| && s.workers[w].Exited?) ==> !s.sending && s.queue == [])
    && (forall w :: 0 <= w < |s.workers| ==> !s.workers[w].Delivering?)
    && (s.returned.Some? ==> AllExited(s.workers) && (s.returned.value ==> s.sent == |targets|))
  }

  // How often job i is queued, with a worker or written.
  function Places(s: State, written: seq<nat>, i: nat): nat {
    Count(s.queue, Some(i)) + Held(s.workers, Some(i)) + Count(written, Some(i))
  }

  // Every job sent is in one of these places, once.
  ghost predicate Conserved(s: State, written: seq<nat>) {
    forall i: nat :: Places(s, written, i) == if i < s.sent then 1 else 0
  }

  ghost predicate Answered(targets: seq<string>, s: State, moves: seq<Move>) {
    forall i :: 0 <= i < |s.results| && i < |targets| ==>
      && s.results[i] == Answer(moves, i)
      && (s.results[i].Some? ==> s.results[i].value.target == targets[i])
      && (i in Written(moves) ==> s.results[i].Some?)
  }

  lemma ShapeStep(targets: seq<string>, limit: nat, s: State, m: Move)
    requires Shape(targets, limit, s) && Enabled(targets, s, m) && limit > 0
    ensures Shape(targets, limit, Step(targets, s, m))
  {
    var s' := Step(targets, s, m);
    if w :| 0 <= w < |s'.workers| && s'.workers[w].Exited? {
      if !m.Drained? { assert s.workers[w].Exited?; }
    }
    if m.Return? && !s.cancelled && s.workers != [] { assert s.workers[0].Exited?; }
  }

  // How often the move sends job i, hands it to a worker, or takes it off a worker's hands.
  function Queued(s: State, m: Move, i: nat): nat {
    if m.Send? then Count([s.sent], Some(i)) else 0
  }

  function Taken(s: State, m: Move, i: nat): nat {
    if m.Take? && s.queue != [] then Count([s.queue[0]], Some(i)) else 0
  }

  function Finished(m: Move, i: nat): nat {
    if m.Write? then Count([m.index], Some(i)) else 0
  }

  lemma QueueStep(targets: seq<string>, s: State, m: Move, i: nat)
    requires Enabled(targets, s, m)
    ensures Count(Step(targets, s, m).queue, Some(i)) + Taken(s, m, i) == Count(s.queue, Some(i)) + Queued(s, m, i)
  {
    if m.Send? { CountAppend(s.queue, [s.sent], Some(i)); }
    if m.Take? { CountPop(s.queue, Some(i)); }
  }

  lemma HeldStep(targets: seq<string>, s: State, m: Move, i: nat)
    requires Enabled(targets, s, m)
    ensures Held(Step(targets, s, m).workers, Some(i)) + Finished(m, i) == Held(s.workers, Some(i)) + Taken(s, m, i)
  {
    if m.Take? || m.Drained? || m.Write? {
      HeldUpdate(s.workers, m.w, Step(targets, s, m).workers[m.w], Some(i));
    }
  }

  lemma PlacesStep(targets: seq<string>, s: State, m: Move, written: seq<nat>, i: nat)
    requires Enabled(targets, s, m)
    ensures Places(Step(targets, s, m), if m.Write? then written + [m.index] else written, i) ==
            Places(s, written, i) + if m.Send? && s.sent == i then 1 else 0
  {
    QueueStep(targets, s, m, i);
    HeldStep(targets, s, m, i);
    if m.Write? { CountAppend(written, [m.index], Some(i)); }
    CountOne(s.sent, Some(i));
  }

  lemma ConservedStep(targets: seq<string>, s: State, m: Move, written: seq<nat>)
    requires Conserved(s, written) && Enabled(targets, s, m)
    ensures Conserved(Step(targets, s, m), if m.Write? then written + [m.index] else written)
  {
    var s' := Step(targets, s, m);
    var written' := if m.Write? then written + [m.index] else written;
    forall i: nat ensures Places(s', written', i) == if i < s'.sent then 1 else 0 {
      PlacesStep(targets, s, m, written, i);
    }
  }

  lemma AnsweredStep(targets: seq<string>, s: State, before: seq<Move>, m: Move)
    requires Answered(targets, s, before) && Enabled(targets, s, m)
    ensures Answered(targets, Step(targets, s, m), before + [m])
  {
    var moves := before + [m];
    assert moves[..|moves| - 1] == before && moves[|moves| - 1] == m;
  }

  lemma {:induction false} InitConserved(targets: seq<string>, limit: nat)
    ensures Conserved(Init(targets, limit), [])
  {
    var s := Init(targets, limit);
    forall i: nat ensures Places(s, [], i) == 0 {
      NothingHeld(s.workers, Some(i));
    }
  }

  lemma {:induction false} RunKeepsInv(targets: seq<string>, limit: nat, moves: seq<Move>)
    requires targets != [] && limit > 0 && Run(targets, limit, moves).0
    ensures var s := Run(targets, limit, moves).1;
            Shape(targets, limit, s) && Conserved(s, Written(moves)) && Answered(targets, s, moves)
  {
    if moves == [] {
      InitConserved(targets, limit);
    } else {
      var before, m := moves[..|moves| - 1], moves[|moves| - 1];
      var s := Run(targets, limit, before).1;
      RunKeepsInv(targets, limit, before);
      ShapeStep(targets, limit, s, m);
      ConservedStep(targets, s, m, Written(before));
      AnsweredStep(targets, s, before, m);
      assert moves == before + [m];
    }
  }

  lemma {:induction false} CancelledMeansCancel(targets: seq<string>, limit: nat, moves: seq<Move>)
    requires Run(targets, limit, moves).0
    ensures Run(targets, limit, moves).1.cancelled <==> Cancel in moves
  {
    if moves != [] {
      CancelledMeansCancel(targets, limit, moves[..|moves| - 1]);
      assert moves == moves[..|moves| - 1] + [moves[|moves| - 1]];
    }
  }

  /** Discover returns once; it returns its results exactly when nothing was cancelled before, and
      an error otherwise. */
  lemma {:induction false} ResultsUnlessCancelled(targets: seq<string>, limit: nat, moves: seq<Move>, k: nat)
    requires Run(targets, limit, moves).0 && k < |moves| && moves[k] == Return
    ensures Run(targets, limit, moves).1.returned == Some(Cancel !in moves[..k])
  {
    var before := moves[..|moves| - 1];
    if k == |before| {
      CancelledMeansCancel(targets, limit, before);
    } else {
      assert before[k] == Return && before[..k] == moves[..k];
      ResultsUnlessCancelled(targets, limit, before, k);
    }
  }

  lemma {:induction false} ReturnedMeansReturn(targets: seq<string>, limit: nat, moves: seq<Move>)
    requires Run(targets, limit, moves).0
    ensures Run(targets, limit, moves).1.returned.Some? <==> Return in moves
  {
    if moves != [] {
      ReturnedMeansReturn(targets, limit, moves[..|moves| - 1]);
      assert moves == moves[..|moves| - 1] + [moves[|moves| - 1]];
    }
  }

  /** In every interleaving in which Discover returns its results, every slot was written exactly
      once, and slot i holds the result of the check of the i-th target. */
  lemma EverySlotIsWrittenOnce(targets: seq<string>, limit: nat, moves: seq<Move>, i: nat)
    requires targets != [] && limit > 0 && Run(targets, limit, moves).0
    requires Run(targets, limit, moves).1.returned == Some(true) && i < |targets|
    ensures var s := Run(targets, limit, moves).1;
            && Count(Written(moves), Some(i)) == 1
            && |s.results| == |targets| && s.results[i].Some?
            && s.results[i] == Answer(moves, i) && s.results[i].value.target == targets[i]
  {
    var s := Run(targets, limit, moves).1;
    RunKeepsInv(targets, limit, moves);
    assert s.workers[0].Exited?;
    NothingHeld(s.workers, Some(i));
    assert Places(s, Written(moves), i) == 1;
    CountMember(Written(moves), i);
  }

  lemma {:induction false} AnswerOfCheck(targets: seq<string>, moves: seq<Move>, check: string -> HostResult, i: nat)
    requires forall j :: 0 <= j < |moves| && moves[j].Write? && moves[j].index < |targets| ==>
               moves[j].result == check(targets[moves[j].index])
    requires i < |targets|
    ensures Answer(moves, i).Some? ==> Answer(moves, i).value == check(targets[i])
  {
    if moves != [] {
      var before := moves[..|moves| - 1];
      assert forall k :: 0 <= k < |before| ==> before[k] == moves[k];
      AnswerOfCheck(targets, before, check, i);
    }
  }

  /** Whatever the number of workers and the interleaving, Discover is a sequential map: in a run
      that returned with nothing cancelled before, and in which each check gave what `check` says of
      its target, it returns the results of the targets in order. */
  lemma DiscoverIsAMap(targets: seq<string>, limit: nat, moves: seq<Move>, k: nat, check: string -> HostResult)
    requires targets != [] && limit > 0 && Run(targets, limit, moves).0
    requires k < |moves| && moves[k] == Return && Cancel !in moves[..k]
    requires forall j :: 0 <= j < |moves| && moves[j].Write? && moves[j].index < |targets| ==>
               moves[j].result == check(targets[moves[j].index])
    ensures Run(targets, limit, moves).1.returned == Some(true)
    ensures Run(targets, limit, moves).1.results ==
            seq(|targets|, i requires 0 <= i < |targets| => Some(check(targets[i])))
  {
    var s := Run(targets, limit, moves).1;
    ResultsUnlessCancelled(targets, limit, moves, k);
    RunKeepsInv(targets, limit, moves);
    forall i: nat | i < |targets| ensures s.results[i] == Some(check(targets[i])) {
      EverySlotIsWrittenOnce(targets, limit, moves, i);
      AnswerOfCheck(targets, moves, check, i);
    }
  }

  function Measure(targets: seq<string>, s: State): nat {
    5 * (if s.sent < |targets| then |targets| - s.sent else 0) + 4 * |s.queue| + Ranks(s.workers)
    + (if s.sending then 1 else 0) + (if s.cancelled then 0 else 1) + (if s.returned.None? then 1 else 0)
  }

  lemma MeasureDrops(targets: seq<string>, s: State, m: Move)
    requires Enabled(targets, s, m)
    ensures Measure(targets, Step(targets, s, m)) < Measure(targets, s)
  {
    if m.Take? || m.Drained? || m.Write? { RanksUpdate(s.workers, m.w, Step(targets, s, m).workers[m.w]); }
  }

  lemma WorkingIsSent(s: State, written: seq<nat>, w: nat)
    requires Conserved(s, written) && w < |s.workers| && s.workers[w].Working?
    ensures s.workers[w].index < s.sent
  {
    var i := s.workers[w].index;
    HeldByOne(s.workers, w, Some(i));
    CountOne(i, Some(i));
    assert Places(s, written, i) > 0;
  }

  lemma SomeMoveIsPossible(targets: seq<string>, limit: nat, s: State, written: seq<nat>)
    requires Shape(targets, limit, s) && Conserved(s, written) && s.returned.None? && targets != [] && limit > 0
    ensures exists m :: m != Cancel && Enabled(targets, s, m)
  {
    if !AllExited(s.workers) {
      var w :| 0 <= w < |s.workers| && !s.workers[w].Exited?;
      if s.workers[w].Working? {
        var i := s.workers[w].index;
        WorkingIsSent(s, written, w);
        assert Enabled(targets, s, Write(w, i, HostResult(targets[i], true, "", None)));
      } else if s.queue != [] {
        assert Enabled(targets, s, Take(w));
      } else {
        assert Enabled(targets, s, if !s.sending then Drained(w) else if s.sent < |targets| then Send else FinishSending);
      }
    } else {
      assert s.workers[0].Exited?;
      assert Enabled(targets, s, Return);
    }
  }

  /** Once it is cancelled Discover comes to return without sending another job. */
  lemma CancelledDiscoveryNeedsNoSend(targets: seq<string>, limit: nat, moves: seq<Move>)
    requires targets != [] && limit > 0 && Run(targets, limit, moves).0
    requires Cancel in moves && Return !in moves
    ensures exists m :: m != Cancel && m != Send && Enabled(targets, Run(targets, limit, moves).1, m)
  {
    var s := Run(targets, limit, moves).1;
    RunKeepsInv(targets, limit, moves);
    CancelledMeansCancel(targets, limit, moves);
    ReturnedMeansReturn(targets, limit, moves);
    SomeMoveIsPossible(targets, limit, s, Written(moves));
    var m :| m != Cancel && Enabled(targets, s, m);
    if m == Send { assert Enabled(targets, s, GiveUpSending); }
  }

  /** Discover always comes to return: no run is longer than the measure of the initial state, and
      until it returns some move besides a cancellation is possible. */
  lemma {:induction false} EveryDiscoveryEnds(targets: seq<string>, limit: nat, moves: seq<Move>)
    requires targets != [] && limit > 0 && Run(targets, limit, moves).0
    ensures |moves| + Measure(targets, Run(targets, limit, moves).1) <= Measure(targets, Init(targets, limit))
    ensures Run(targets, limit, moves).1.returned.None? ==>
              exists m :: m != Cancel && Enabled(targets, Run(targets, limit, moves).1, m)
  {
    if moves != [] {
      EveryDiscoveryEnds(targets, limit, moves[..|moves| - 1]);
      MeasureDrops(targets, Run(targets, limit, moves[..|moves| - 1]).1, moves[|moves| - 1]);
    }
    var s := Run(targets, limit, moves).1;
    RunKeepsInv(targets, limit, moves);
    if s.returned.None? { SomeMoveIsPossible(targets, limit, s, Written(moves)); }
  }

  // ---------------------------------------------------------------- one target

  datatype Strategy = NoDiscovery | Tcp | Icmp | IcmpThenTcp

  /** What one dial gives: a connection, which is closed again, or an error, with what the context,
      the error and the attempt's deadline say after it. */
  datatype Attempt =
    | Connected(closeError: Option<string>)
    | Failed(error: string, cancelled: Option<string>, refused: bool, timedOut: bool)

  datatype HostEvent =
    | Probe(how: string, port: int, alive: bool, detail: string, error: Option<string>)
    | Fallback(error: Option<string>)

  predicate Decisive(a: Attempt) {
    a.Connected? || a.cancelled.Some? || a.refused
  }

  // The attempt shows that somebody is there: a connection, or a refusal while the context is live.
  predicate Answering(a: Attempt) {
    a.Connected? || (a.cancelled.None? && a.refused)
  }

  // The context is done and there is no connection.
  predicate Stopped(a: Attempt) {
    a.Failed? && a.cancelled.Some?
  }

  predicate Timeout(a: Attempt) {
    !Decisive(a) && a.timedOut
  }

  // What a decisive attempt means: whether the target is up, and the error.
  function Meaning(a: Attempt): (bool, Option<string>)
    requires Decisive(a)
  {
    match a
    case Connected(None) => (true, None)
    case Connected(Some(e)) => (true, Some("close TCP discovery connection: " + e))
    case Failed(_, cancelled, _, _) => (cancelled.None?, cancelled)
  }

  /** The verdict of checkTCP on these attempts, after an error to fall back on. */
  function Verdict(attempts: seq<Attempt>, lastError: Option<string>): (bool, Option<string>) {
    if attempts == [] then (false, lastError)
    else if Decisive(attempts[0]) then Meaning(attempts[0])
    else Verdict(attempts[1..], if Timeout(attempts[0]) then lastError else Some(attempts[0].error))
  }

  // The diagnostic event of an attempt.
  ghost predicate Describes(e: HostEvent, port: int, a: Attempt) {
    && e.Probe? && e.how == "tcp" && e.port == port && e.alive == Answering(a)
    && match a
       case Connected(closeError) => e.detail == "connected" && e.error == closeError
       case Failed(error, cancelled, refused, timedOut) =>
         if cancelled.Some? then e.detail == "canceled" && e.error == cancelled
         else if refused then e.detail == "connection refused" && e.error == Some(error)
         else if timedOut then e.detail == "timeout" && e.error == None
         else e.detail == "failed" && e.error == Some(error)
  }

  method CheckTCP(ports: seq<int>, attempts: seq<Attempt>)
    returns (alive: bool, error: Option<string>, events: seq<HostEvent>)
    requires |attempts| == |ports|   // attempts[i] is what dialing ports[i] gives
    ensures (alive, error) == Verdict(attempts, None)
    ensures var k := FirstIndex(attempts, Decisive, 0);
            && |events| == (if k < |attempts| then k + 1 else k)
            && (forall i :: 0 <= i < |events| ==> Describes(events[i], ports[i], attempts[i]))
  {
    var lastError: Option<string> := None;
    events := [];
    for i := 0 to |ports|
      invariant Verdict(attempts, None) == Verdict(attempts[i..], lastError)
      invariant forall k :: 0 <= k < i ==> !Decisive(attempts[k])
      invariant |events| == i && forall k :: 0 <= k < i ==> Describes(events[k], ports[k], attempts[k])
    {
      var a := attempts[i];
      match a {
        case Connected(closeError) =>
          events := events + [Probe("tcp", ports[i], true, "connected", closeError)];
          return true, (if closeError.None? then None
                        else Some("close TCP discovery connection: " + closeError.value)), events;
        case Failed(e, cancelled, refused, timedOut) =>
          if cancelled.Some? {
            events := events + [Probe("tcp", ports[i], false, "canceled", cancelled)];
            return false, cancelled, events;
          }
          if refused {
            events := events + [Probe("tcp", ports[i], true, "connection refused", Some(e))];
            return true, None, events;
          }
          if timedOut {
            events := events + [Probe("tcp", ports[i], false, "timeout", None)];
          } else {
            events := events + [Probe("tcp", ports[i], false, "failed", Some(e))];
            lastError := Some(e);
          }
      }
      assert attempts[i..][1..] == attempts[i + 1..];
    }
    return false, lastError, events;
  }

  function LastFailure(attempts: seq<Attempt>): Option<string>
    requires forall i :: 0 <= i < |attempts| ==> !Decisive(attempts[i])
  {
    if attempts == [] then None
    else
      var a := attempts[|attempts| - 1];
      if Timeout(a) then LastFailure(attempts[..|attempts| - 1]) else Some(a.error)
  }

  /** The verdict is that of the first decisive attempt: a target is up exactly when it accepts or
      refuses a connection before the context is done. Without one, the target is down, for the
      last error that is not a timeout. */
  lemma {:induction false} VerdictIsFirstDecisive(attempts: seq<Attempt>)
    ensures var k := FirstIndex(attempts, Decisive, 0);
            Verdict(attempts, None) == if k < |attempts| then Meaning(attempts[k]) else (false, LastFailure(attempts))
  {
    VerdictFrom(attempts, 0);
    assert attempts[0..] == attempts;
  }

  /** A target is up exactly when some attempt connects or is refused and none before it finds the
      context done. */
  lemma UpMeansAnswered(attempts: seq<Attempt>)
    ensures Verdict(attempts, None).0 <==>
            exists k :: 0 <= k < |attempts| && Answering(attempts[k]) && forall i :: 0 <= i < k ==> !Stopped(attempts[i])
  {
    VerdictIsFirstDecisive(attempts);
    var k := FirstIndex(attempts, Decisive, 0);
    if j :| 0 <= j < |attempts| && Answering(attempts[j]) && forall i :: 0 <= i < j ==> !Stopped(attempts[i]) {
      assert Decisive(attempts[j]) && k <= j;
    }
  }

  lemma {:induction false} VerdictFrom(attempts: seq<Attempt>, i: nat)
    requires i <= |attempts| && forall k :: 0 <= k < i ==> !Decisive(attempts[k])
    ensures var k := FirstIndex(attempts, Decisive, i);
            Verdict(attempts[i..], LastFailure(attempts[..i])) ==
            if k < |attempts| then Meaning(attempts[k]) else (false, LastFailure(attempts))
    decreases |attempts| - i
  {
    if i == |attempts| {
      assert attempts[..i] == attempts;
    } else if !Decisive(attempts[i]) {
      VerdictFrom(attempts, i + 1);
      assert attempts[i..][1..] == attempts[i + 1..];
      assert attempts[..i + 1][..i] == attempts[..i];
    }
  }

  function WithoutTimeouts(attempts: seq<Attempt>): seq<Attempt> {
    if attempts == [] then []
    else if Timeout(attempts[0]) then WithoutTimeouts(attempts[1..])
    else [attempts[0]] + WithoutTimeouts(attempts[1..])
  }

  /** Ports that time out have no say. */
  lemma {:induction false} TimeoutsDoNotMatter(attempts: seq<Attempt>, lastError: Option<string>)
    ensures Verdict(WithoutTimeouts(attempts), lastError) == Verdict(attempts, lastError)
  {
    if attempts != [] {
      var a := attempts[0];
      if !Decisive(a) { TimeoutsDoNotMatter(attempts[1..], if Timeout(a) then lastError else Some(a.error)); }
    }
  }

  // errors.Join, on the texts.
  function Join(a: Option<string>, b: Option<string>): Option<string> {
    if a.None? then b else if b.None? then a else Some(a.value + "\n" + b.value)
  }

  method CheckICMP(ping: (bool, Option<string>)) returns (alive: bool, error: Option<string>, events: seq<HostEvent>)
    ensures (alive, error) == ping && |events| == 1 && events[0].Probe? && events[0].alive == alive
  {
    var detail := "no echo reply";
    if ping.0 {
      detail := "echo reply";
    } else if ping.1.Some? {
      detail := "failed";
    }
    return ping.0, ping.1, [Probe("icmp", 0, ping.0, detail, ping.1)];
  }

  /** check: the target is up exactly when one of the strategy's methods says so, `how` names the
      first one that did, and the fallback to TCP is made only if the ping did not answer and the
      context is live. `contextError` is what ctx.Err gives after the ping. */
  method Check(strategy: Strategy, target: string, ping: (bool, Option<string>), contextError: Option<string>,
               ports: seq<int>, attempts: seq<Attempt>) returns (result: HostResult, events: seq<HostEvent>)
    requires |attempts| == |ports|
    ensures var byPing := strategy in {Icmp, IcmpThenTcp} && ping.0;
            var fellBack := strategy == IcmpThenTcp && !ping.0 && contextError.None?;
            var byTcp := (strategy == Tcp || fellBack) && Verdict(attempts, None).0;
            && result.target == target
            && (result.alive <==> strategy == NoDiscovery || byPing || byTcp)
            && result.how == (if !result.alive then "" else if byPing then "icmp" else if byTcp then "tcp" else "none")
            && ((exists i :: 0 <= i < |events| && events[i].Fallback?) <==> fellBack)
            && result.error == (match strategy
                                case NoDiscovery => None
                                case Tcp => Verdict(attempts, None).1
                                case Icmp => ping.1
                                case IcmpThenTcp =>
                                  if byPing then ping.1 else if !fellBack then contextError
                                  else if byTcp then Verdict(attempts, None).1
                                  else match (ping.1, Verdict(attempts, None).1)
                                    case (None, e) => e
                                    case (Some(e), None) => Some(e)
                                    case (Some(e), Some(f)) => Some(e + "\n" + f))
  {
    result, events := HostResult(target, false, "", None), [];
    match strategy {
      case NoDiscovery =>
        result := result.(alive := true, how := "none");
      case Tcp =>
        var alive, error, probes := CheckTCP(ports, attempts);
        result, events := result.(alive := alive, error := error, how := if alive then "tcp" else ""), probes;
      case Icmp =>
        var alive, error, probes := CheckICMP(ping);
        result, events := result.(alive := alive, error := error, how := if alive then "icmp" else ""), probes;
      case IcmpThenTcp =>
        var alive, error, probes := CheckICMP(ping);
        result, events := result.(alive := alive, error := error), probes;
        if alive { return result.(how := "icmp"), events; }
        if contextError.Some? { return result.(error := contextError), events; }
        events := events + [Fallback(error)];
        assert events[1].Fallback?;
        var tcpAlive, tcpError, tcpProbes := CheckTCP(ports, attempts);
        events := events + tcpProbes;
        assert events[1].Fallback?;
        result := result.(alive := tcpAlive, error := tcpError);
        if tcpAlive { return result.(how := "tcp"), events; }
        result := result.(error := Join(error, tcpError));
    }
  }
}
