/** Reverse DNS, internal/reversedns/reversedns.go: a pool whose jobs are all queued beforehand and
    whose results pass through a channel that nobody reads until every worker has ended. */
module ReverseDns {
  import opened Common
  import opened FanOut

  datatype PtrError = LookupFailed(error: string) | NoHostname

  datatype PtrResult = PtrResult(target: string, hostname: string, error: Option<PtrError>)

  datatype PtrJob = PtrJob(index: nat, target: string, address: string)

  // ---------------------------------------------------------------- the jobs

  /** The targets that are IP literals, in order. `address` gives an IP literal's canonical text. */
  function IPTargets(targets: seq<string>, address: map<string, string>): seq<string> {
    if targets == [] then []
    else
      var before, t := IPTargets(targets[..|targets| - 1], address), targets[|targets| - 1];
      if t in address then before + [t] else before
  }

  function LiteralFlags(targets: seq<string>, address: map<string, string>): seq<bool> {
    seq(|targets|, i requires 0 <= i < |targets| => targets[i] in address)
  }

  /** Exactly the targets that are IP literals are looked up, in order and once each. */
  lemma {:induction false} IPTargetsAre(targets: seq<string>, address: map<string, string>)
    ensures var flags, ips := LiteralFlags(targets, address), IPTargets(targets, address);
            var at := TrueAt(flags);
            Selects(at, flags) && |ips| == |at| && forall k :: 0 <= k < |ips| ==> ips[k] == targets[at[k]]
  {
    TrueAtSelects(LiteralFlags(targets, address));
    if targets != [] {
      IPTargetsAre(targets[..|targets| - 1], address);
      assert LiteralFlags(targets, address)[..|targets| - 1] == LiteralFlags(targets[..|targets| - 1], address);
    }
  }

  method Jobs(targets: seq<string>, address: map<string, string>) returns (jobs: seq<PtrJob>)
    ensures |jobs| == |IPTargets(targets, address)|
    ensures forall i :: 0 <= i < |jobs| ==>
              && jobs[i].index == i && jobs[i].target == IPTargets(targets, address)[i]
              && jobs[i].target in address && jobs[i].address == address[jobs[i].target]
  {
    jobs := [];
    for k := 0 to |targets|
      invariant |jobs| == |IPTargets(targets[..k], address)|
      invariant forall i :: 0 <= i < |jobs| ==>
                  && jobs[i].index == i && jobs[i].target == IPTargets(targets[..k], address)[i]
                  && jobs[i].target in address && jobs[i].address == address[jobs[i].target]
    {
      assert targets[..k + 1][..k] == targets[..k];
      if targets[k] in address {
        jobs := jobs + [PtrJob(|jobs|, targets[k], address[targets[k]])];
      }
    }
    assert targets[..|targets|] == targets;
  }

  // ---------------------------------------------------------------- the pool

  /** Resolve from the start of its workers until it has waited for them. Jobs are numbered by their
      position; `ended` says whether the context was live when the workers had ended. */
  datatype State = State(jobQueue: seq<nat>, workers: seq<Phase<PtrResult>>, cancelled: bool,
                         resultQueue: seq<(nat, PtrResult)>, ended: Option<bool>)

  datatype Move =
    | Cancel
    | Quit(w: nat) | Take(w: nat) | Drained(w: nat)   // the arms of the worker's select
    | Resolved(w: nat, index: nat, result: PtrResult)
    | Deliver(w: nat, index: nat, result: PtrResult)
    | Wait

  function Init(ips: seq<string>, limit: nat): State {
    State(UpTo(|ips|), seq(WorkerCount(|ips|, limit), i => Idle), false, [], None)
  }

  predicate Enabled(ips: seq<string>, s: State, m: Move) {
    match m
    case Cancel => !s.cancelled
    case Quit(w) => w < |s.workers| && s.workers[w].Idle? && s.cancelled
    case Take(w) => w < |s.workers| && s.workers[w].Idle? && s.jobQueue != []
    case Drained(w) => w < |s.workers| && s.workers[w].Idle? && s.jobQueue == []
    case Resolved(w, index, result) =>
      w < |s.workers| && s.workers[w] == Working(index) && index < |ips| && result.target == ips[index]
    case Deliver(w, index, result) =>
      w < |s.workers| && s.workers[w] == Delivering(index, result) && |s.resultQueue| < |ips|
    case Wait => AllExited(s.workers) && s.ended.None?
  }

  function Step(ips: seq<string>, s: State, m: Move): State
    requires Enabled(ips, s, m)
  {
    match m
    case Cancel => s.(cancelled := true)
    case Quit(w) => s.(workers := s.workers[w := Exited])
    case Take(w) => s.(workers := s.workers[w := Working(s.jobQueue[0])], jobQueue := s.jobQueue[1..])
    case Drained(w) => s.(workers := s.workers[w := Exited])
    case Resolved(w, index, result) => s.(workers := s.workers[w := Delivering(index, result)])
    case Deliver(w, index, result) =>
      s.(workers := s.workers[w := Idle], resultQueue := s.resultQueue + [(index, result)])
    case Wait => s.(ended := Some(!s.cancelled))
  }

  /** The state after the moves, and whether each of them was possible in turn. */
  function Run(ips: seq<string>, limit: nat, moves: seq<Move>): (r: (bool, State)) {
    if moves == [] then (true, Init(ips, limit))
    else
      var (ok, s) := Run(ips, limit, moves[..|moves| - 1]);
      var m := moves[|moves| - 1];
      if ok && Enabled(ips, s, m) then (true, Step(ips, s, m)) else (false, s)
  }

  function Indices(queue: seq<(nat, PtrResult)>): seq<nat> {
    if queue == [] then [] else Indices(queue[..|queue| - 1]) + [queue[|queue| - 1].0]
  }

  lemma {:induction false} IndicesAt(queue: seq<(nat, PtrResult)>)
    ensures |Indices(queue)| == |queue| && forall k :: 0 <= k < |queue| ==> Indices(queue)[k] == queue[k].0
  {
    if queue != [] { IndicesAt(queue[..|queue| - 1]); }
  }

  lemma IndicesAppend(queue: seq<(nat, PtrResult)>, index: nat, result: PtrResult, i: Option<nat>)
    ensures Count(Indices(queue + [(index, result)]), i) == Count(Indices(queue), i) + Count([index], i)
  {
    assert (queue + [(index, result)])[..|queue|] == queue;
    CountAppend(Indices(queue), [index], i);
  }

  // How often job i, or any job, is queued, with a worker or delivered.
  function Places(s: State, i: Option<nat>): nat {
    Count(s.jobQueue, i) + Held(s.workers, i) + Count(Indices(s.resultQueue), i)
  }

  ghost predicate Shape(ips: seq<string>, limit: nat, s: State) {
    && |s.workers| == WorkerCount(|ips|, limit)
    && (!s.cancelled && (exists w :: 0 <= w < |s.workers| && s.workers[w].Exited?) ==> s.jobQueue == [])
    && (forall w :: 0 <= w < |s.workers| && s.workers[w].Delivering? ==>
          s.workers[w].index < |ips| && s.workers[w].result.target == ips[s.workers[w].index])
    && (forall k :: 0 <= k < |s.resultQueue| ==>
          s.resultQueue[k].0 < |ips| && s.resultQueue[k].1.target == ips[s.resultQueue[k].0])
    && (s.ended.Some? ==> AllExited(s.workers))
    && (s.ended == Some(true) ==> s.jobQueue == [])
  }

  ghost predicate Conserved(ips: seq<string>, s: State) {
    forall i :: Places(s, i) == Count(UpTo(|ips|), i)
  }

  lemma ShapeStep(ips: seq<string>, limit: nat, s: State, m: Move)
    requires Shape(ips, limit, s) && Enabled(ips, s, m) && ips != [] && limit > 0
    ensures Shape(ips, limit, Step(ips, s, m))
  {
    var s' := Step(ips, s, m);
    if w :| 0 <= w < |s'.workers| && s'.workers[w].Exited? {
      if !m.Drained? && !m.Quit? { assert s.workers[w].Exited?; }
    }
    if m.Wait? { assert s.workers[0].Exited?; }
  }

  // How often the move hands job i to a worker, or takes it off a worker's hands.
  function Taken(s: State, m: Move, i: Option<nat>): nat {
    if m.Take? && s.jobQueue != [] then Count([s.jobQueue[0]], i) else 0
  }

  function Finished(m: Move, i: Option<nat>): nat {
    if m.Deliver? then Count([m.index], i) else 0
  }

  lemma HeldStep(ips: seq<string>, s: State, m: Move, i: Option<nat>)
    requires Enabled(ips, s, m)
    ensures Held(Step(ips, s, m).workers, i) + Finished(m, i) == Held(s.workers, i) + Taken(s, m, i)
  {
    if !m.Cancel? && !m.Wait? {
      HeldUpdate(s.workers, m.w, Step(ips, s, m).workers[m.w], i);
    }
  }

  lemma PlacesStep(ips: seq<string>, s: State, m: Move, i: Option<nat>)
    requires Enabled(ips, s, m)
    ensures Places(Step(ips, s, m), i) == Places(s, i)
  {
    HeldStep(ips, s, m, i);
    if m.Take? { CountPop(s.jobQueue, i); }
    if m.Deliver? { IndicesAppend(s.resultQueue, m.index, m.result, i); }
  }

  lemma {:induction false} RunKeepsInv(ips: seq<string>, limit: nat, moves: seq<Move>)
    requires ips != [] && limit > 0 && Run(ips, limit, moves).0
    ensures Shape(ips, limit, Run(ips, limit, moves).1) && Conserved(ips, Run(ips, limit, moves).1)
  {
    if moves == [] {
      forall i { NothingHeld(Init(ips, limit).workers, i); }
    } else {
      var s, m := Run(ips, limit, moves[..|moves| - 1]).1, moves[|moves| - 1];
      RunKeepsInv(ips, limit, moves[..|moves| - 1]);
      ShapeStep(ips, limit, s, m);
      forall i ensures Places(Step(ips, s, m), i) == Count(UpTo(|ips|), i) { PlacesStep(ips, s, m, i); }
    }
  }

  /** No worker ever blocks on the result queue, although nothing is received from it while workers
      run: a worker with a result finds room, in every interleaving. */
  lemma NoWorkerBlocks(ips: seq<string>, limit: nat, moves: seq<Move>, w: nat)
    requires ips != [] && limit > 0 && Run(ips, limit, moves).0
    requires w < |Run(ips, limit, moves).1.workers| && Run(ips, limit, moves).1.workers[w].Delivering?
    ensures var s := Run(ips, limit, moves).1;
            Enabled(ips, s, Deliver(w, s.workers[w].index, s.workers[w].result))
  {
    var s := Run(ips, limit, moves).1;
    RunKeepsInv(ips, limit, moves);
    HeldByOne(s.workers, w, None);
    CountOne(s.workers[w].index, None);
    assert Places(s, None) == Count(UpTo(|ips|), None);
    CountAll(UpTo(|ips|));
    CountAll(Indices(s.resultQueue));
    IndicesAt(s.resultQueue);
  }

  lemma {:induction false} CancelledMeansCancel(ips: seq<string>, limit: nat, moves: seq<Move>)
    requires Run(ips, limit, moves).0
    ensures Run(ips, limit, moves).1.cancelled <==> Cancel in moves
  {
    if moves != [] {
      CancelledMeansCancel(ips, limit, moves[..|moves| - 1]);
      assert moves == moves[..|moves| - 1] + [moves[|moves| - 1]];
    }
  }

  /** Resolve returns its results exactly when nothing was cancelled before its workers had ended,
      and an error otherwise. */
  lemma {:induction false} ResultsUnlessCancelled(ips: seq<string>, limit: nat, moves: seq<Move>, k: nat)
    requires Run(ips, limit, moves).0 && k < |moves| && moves[k] == Wait
    ensures Run(ips, limit, moves).1.ended == Some(Cancel !in moves[..k])
  {
    var before := moves[..|moves| - 1];
    if k == |before| {
      CancelledMeansCancel(ips, limit, before);
    } else {
      assert before[k] == Wait && before[..k] == moves[..k];
      ResultsUnlessCancelled(ips, limit, before, k);
    }
  }

  /** When the context is live after the workers ended, every job is in the result queue exactly
      once, with a result for the target of its number. */
  lemma EveryJobIsDeliveredOnce(ips: seq<string>, limit: nat, moves: seq<Move>)
    requires ips != [] && limit > 0 && Run(ips, limit, moves).0 && Run(ips, limit, moves).1.ended == Some(true)
    ensures var queue := Run(ips, limit, moves).1.resultQueue;
            && |queue| == |ips|
            && (forall i: nat :: Count(Indices(queue), Some(i)) == if i < |ips| then 1 else 0)
            && (forall k :: 0 <= k < |queue| ==> queue[k].0 < |ips| && queue[k].1.target == ips[queue[k].0])
  {
    var s := Run(ips, limit, moves).1;
    RunKeepsInv(ips, limit, moves);
    forall i: Option<nat> ensures Count(Indices(s.resultQueue), i) == Count(UpTo(|ips|), i) {
      NothingHeld(s.workers, i);
      assert Places(s, i) == Count(UpTo(|ips|), i);
    }
    CountAll(UpTo(|ips|));
    CountAll(Indices(s.resultQueue));
    IndicesAt(s.resultQueue);
    forall i: nat ensures Count(Indices(s.resultQueue), Some(i)) == if i < |ips| then 1 else 0 {
      UpToCounts(|ips|, i);
    }
  }

  function Measure(s: State): nat {
    4 * |s.jobQueue| + Ranks(s.workers) + (if s.cancelled then 0 else 1) + (if s.ended.None? then 1 else 0)
  }

  lemma MeasureDrops(ips: seq<string>, s: State, m: Move)
    requires Enabled(ips, s, m)
    ensures Measure(Step(ips, s, m)) < Measure(s)
  {
    if !m.Cancel? && !m.Wait? { RanksUpdate(s.workers, m.w, Step(ips, s, m).workers[m.w]); }
  }

  lemma WorkingIsAJob(ips: seq<string>, s: State, w: nat)
    requires Conserved(ips, s) && w < |s.workers| && s.workers[w].Working?
    ensures s.workers[w].index < |ips|
  {
    var i := s.workers[w].index;
    HeldByOne(s.workers, w, Some(i));
    CountOne(i, Some(i));
    assert Places(s, Some(i)) == Count(UpTo(|ips|), Some(i));
    UpToCounts(|ips|, i);
  }

  /** Resolve always comes to the end of its workers, in a bounded number of moves. */
  lemma {:induction false} EveryResolveEnds(ips: seq<string>, limit: nat, moves: seq<Move>)
    requires ips != [] && limit > 0 && Run(ips, limit, moves).0
    ensures |moves| + Measure(Run(ips, limit, moves).1) <= Measure(Init(ips, limit))
    ensures Run(ips, limit, moves).1.ended.None? ==>
              exists m :: m != Cancel && Enabled(ips, Run(ips, limit, moves).1, m)
  {
    if moves != [] {
      EveryResolveEnds(ips, limit, moves[..|moves| - 1]);
      MeasureDrops(ips, Run(ips, limit, moves[..|moves| - 1]).1, moves[|moves| - 1]);
    }
    var s := Run(ips, limit, moves).1;
    if s.ended.None? {
      if AllExited(s.workers) {
        assert Enabled(ips, s, Wait);
      } else {
        var w :| 0 <= w < |s.workers| && !s.workers[w].Exited?;
        WorkerCanMove(ips, limit, moves, w);
      }
    }
  }

  lemma WorkerCanMove(ips: seq<string>, limit: nat, moves: seq<Move>, w: nat)
    requires ips != [] && limit > 0 && Run(ips, limit, moves).0
    requires w < |Run(ips, limit, moves).1.workers| && !Run(ips, limit, moves).1.workers[w].Exited?
    ensures exists m :: m != Cancel && Enabled(ips, Run(ips, limit, moves).1, m)
  {
    var s := Run(ips, limit, moves).1;
    match s.workers[w] {
      case Idle => assert Enabled(ips, s, if s.jobQueue == [] then Drained(w) else Take(w));
      case Working(i) =>
        RunKeepsInv(ips, limit, moves);
        WorkingIsAJob(ips, s, w);
        assert Enabled(ips, s, Resolved(w, i, PtrResult(ips[i], "", None)));
      case Delivering(i, r) =>
        NoWorkerBlocks(ips, limit, moves, w);
        assert Enabled(ips, s, Deliver(w, i, r));
    }
  }

  /** Once it is cancelled Resolve comes to its end without another lookup. */
  lemma CancelledResolveNeedsNoLookup(ips: seq<string>, limit: nat, moves: seq<Move>)
    requires ips != [] && limit > 0 && Run(ips, limit, moves).0
    requires Cancel in moves && Run(ips, limit, moves).1.ended.None?
    ensures exists m :: m != Cancel && !m.Take? && Enabled(ips, Run(ips, limit, moves).1, m)
  {
    var s := Run(ips, limit, moves).1;
    CancelledMeansCancel(ips, limit, moves);
    EveryResolveEnds(ips, limit, moves);
    var m :| m != Cancel && Enabled(ips, s, m);
    if m.Take? { assert Enabled(ips, s, Quit(m.w)); }
  }

  // ---------------------------------------------------------------- the results

  /** The last result that the queue holds for this slot. */
  function SlotOf(queue: seq<(nat, PtrResult)>, i: nat): Option<PtrResult> {
    if queue == [] then None
    else if queue[|queue| - 1].0 == i then Some(queue[|queue| - 1].1)
    else SlotOf(queue[..|queue| - 1], i)
  }

  method Collect(n: nat, queue: seq<(nat, PtrResult)>) returns (results: array<PtrResult>)
    requires forall k :: 0 <= k < |queue| ==> queue[k].0 < n
    ensures results.Length == n
    ensures forall i :: 0 <= i < n ==>
              results[i] == if SlotOf(queue, i).Some? then SlotOf(queue, i).value else PtrResult("", "", None)
  {
    results := new PtrResult[n](i => PtrResult("", "", None));
    for k := 0 to |queue|
      invariant forall i :: 0 <= i < n ==>
                  results[i] == if SlotOf(queue[..k], i).Some? then SlotOf(queue[..k], i).value else PtrResult("", "", None)
    {
      assert queue[..k + 1][..k] == queue[..k];
      results[queue[k].0] := queue[k].1;
    }
    assert queue[..|queue|] == queue;
  }

  lemma {:induction false} SlotOfDelivered(queue: seq<(nat, PtrResult)>, i: nat)
    ensures SlotOf(queue, i).Some? <==> Count(Indices(queue), Some(i)) > 0
    ensures SlotOf(queue, i).Some? ==> (i, SlotOf(queue, i).value) in queue
  {
    if queue != [] {
      var init, last := queue[..|queue| - 1], queue[|queue| - 1];
      assert queue == init + [last];
      SlotOfDelivered(init, i);
      IndicesAppend(init, last.0, last.1, Some(i));
      CountOne(last.0, Some(i));
    }
  }

  // What every lookup so far gave is what `lookup` says of its target.
  ghost predicate LooksUp(ips: seq<string>, moves: seq<Move>, lookup: string -> PtrResult) {
    forall k :: 0 <= k < |moves| && moves[k].Resolved? && moves[k].index < |ips| ==>
      moves[k].result == lookup(ips[moves[k].index])
  }

  // What workers hold and what they delivered is what the lookups gave.
  ghost predicate FromLookups(ips: seq<string>, s: State, lookup: string -> PtrResult) {
    && (forall w :: 0 <= w < |s.workers| && s.workers[w].Delivering? && s.workers[w].index < |ips| ==>
          s.workers[w].result == lookup(ips[s.workers[w].index]))
    && (forall k :: 0 <= k < |s.resultQueue| && s.resultQueue[k].0 < |ips| ==>
          s.resultQueue[k].1 == lookup(ips[s.resultQueue[k].0]))
  }

  lemma FromLookupsStep(ips: seq<string>, s: State, m: Move, lookup: string -> PtrResult)
    requires FromLookups(ips, s, lookup) && Enabled(ips, s, m)
    requires m.Resolved? && m.index < |ips| ==> m.result == lookup(ips[m.index])
    ensures FromLookups(ips, Step(ips, s, m), lookup)
  {
  }

  lemma {:induction false} ResultsAreLookups(ips: seq<string>, limit: nat, moves: seq<Move>, lookup: string -> PtrResult)
    requires Run(ips, limit, moves).0 && LooksUp(ips, moves, lookup)
    ensures FromLookups(ips, Run(ips, limit, moves).1, lookup)
  {
    if moves != [] {
      var before := moves[..|moves| - 1];
      assert forall k :: 0 <= k < |before| ==> before[k] == moves[k];
      ResultsAreLookups(ips, limit, before, lookup);
      FromLookupsStep(ips, Run(ips, limit, before).1, moves[|moves| - 1], lookup);
    }
  }

  /** Whatever the number of workers and the interleaving, Resolve is a sequential map over the IP
      targets: when nothing was cancelled before its workers had ended and every lookup gave what
      `lookup` says of its target, it returns results, and slot i holds that of the i-th. */
  lemma ResolveIsAMap(ips: seq<string>, limit: nat, moves: seq<Move>, k: nat, lookup: string -> PtrResult, i: nat)
    requires ips != [] && limit > 0 && Run(ips, limit, moves).0
    requires k < |moves| && moves[k] == Wait && Cancel !in moves[..k]
    requires i < |ips| && LooksUp(ips, moves, lookup)
    ensures Run(ips, limit, moves).1.ended == Some(true)
    ensures SlotOf(Run(ips, limit, moves).1.resultQueue, i) == Some(lookup(ips[i]))
  {
    var queue := Run(ips, limit, moves).1.resultQueue;
    ResultsUnlessCancelled(ips, limit, moves, k);
    EveryJobIsDeliveredOnce(ips, limit, moves);
    SlotOfDelivered(queue, i);
    ResultsAreLookups(ips, limit, moves, lookup);
    var j :| 0 <= j < |queue| && queue[j] == (i, SlotOf(queue, i).value);
  }
}
