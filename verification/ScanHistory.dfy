/** What the events of a scan say about what happened: the moves of a worker since it took a check
    decide the event that it sends for it. */
module ScanHistory {
  import opened Common
  import opened Scanner

  /** An account of one worker since it last took a pair, kept from the moves alone: how many pairs
      had been taken before, whether an event was sent, the durations of the dials that succeeded and
      the failures of those that did not, the results of the probes and of failed dials for probes in
      order, whether some close failed, and whether an error or the end of the probes came when the
      context was done already. */
  datatype Account = Account(taken: nat, announced: bool, durations: seq<int>, failures: seq<Failure>,
                             results: seq<ProbeResult>, closeFailed: bool, late: bool)

  function Opened(taken: nat): Account {
    Account(taken, false, [], [], [], false, false)
  }

  function Noted(a: Account, act: Act, cancelled: bool): Account {
    match act
    case Emit => a.(announced := true)
    case DialOk(duration) => a.(durations := a.durations + [duration])
    case DialError(failure) => a.(failures := a.failures + [failure], late := a.late || cancelled)
    case RedialError(result) => a.(results := a.results + [result], late := a.late || cancelled)
    case RunProbe(result) => a.(results := a.results + [result])
    case CloseConnection(failed) => a.(closeFailed := a.closeFailed || failed)
    case Decide => a.(late := a.late || cancelled)
    case _ => a
  }

  /** The pairs that the workers took from the queue. */
  function Takes(moves: seq<Move>): nat {
    if moves == [] then 0
    else
      var m := moves[|moves| - 1];
      Takes(moves[..|moves| - 1]) + if m.Work? && m.act.Take? then 1 else 0
  }

  function AccountOf(moves: seq<Move>, w: nat): Account {
    if moves == [] then Opened(0)
    else
      var before, m := moves[..|moves| - 1], moves[|moves| - 1];
      if !(m.Work? && m.w == w) then AccountOf(before, w)
      else if m.act.Take? then Opened(Takes(before))
      else Noted(AccountOf(before, w), m.act, Cancel in before)
  }

  /** A terminal event tells what the account holds: Open after the one dial that succeeded, with its
      duration, every result in order and whether a close failed; Closed after the one dial that
      failed, with its failure; and nothing that was only learnt after the context was done. */
  ghost predicate Tells(e: Event, a: Account) {
    && !a.late
    && match e
       case Open(_, duration, probes, closeFailed) =>
         a.durations == [duration] && a.failures == [] && a.results == probes && a.closeFailed == closeFailed
       case Closed(_, failure) => a.durations == [] && a.failures == [failure]
       case Checking(_) => false
  }

  ghost predicate Agrees(cancelled: bool, p: Phase, a: Account) {
    match p
    case Announcing(_) => a == Opened(a.taken)
    case Dialing(_) => a == Opened(a.taken).(announced := true)
    case ClosingPlain(_, duration) => a == Account(a.taken, true, [duration], [], [], false, false)
    case Redialing(_, duration, results, failed) => a == Account(a.taken, true, [duration], [], results, failed, false)
    case Probing(_, duration, results, failed) => a == Account(a.taken, true, [duration], [], results, failed, false)
    case ClosingProbe(_, duration, results, failed) => a == Account(a.taken, true, [duration], [], results, failed, false)
    case Probed(_, duration, results, failed) =>
      cancelled || a == Account(a.taken, true, [duration], [], results, failed, false)
    case Reporting(e) => a.announced && Tells(e, a)
    case _ => true
  }

  ghost predicate TakenAt(c: Config, p: Phase, a: Account) {
    !p.Idle? && !p.Exited? ==>
      a.taken < |AllPairs(c.targets, c.ports)| && Holds(p, false) == [AllPairs(c.targets, c.ports)[a.taken]]
  }

  // The checks not yet taken stand in the queue and before it in their order.
  ghost predicate InOrder(c: Config, s: State, takes: nat) {
    takes <= |AllPairs(c.targets, c.ports)| && s.queue + s.unsent == AllPairs(c.targets, c.ports)[takes..]
  }

  ghost predicate Kept(c: Config, s: State, moves: seq<Move>) {
    && (s.cancelled <==> Cancel in moves)
    && InOrder(c, s, Takes(moves))
    && forall w :: 0 <= w < |s.workers| ==>
         Agrees(s.cancelled, s.workers[w], AccountOf(moves, w)) && TakenAt(c, s.workers[w], AccountOf(moves, w))
  }

  lemma ActAgrees(c: Config, s: State, p: Phase, act: Act, a: Account)
    requires CanAct(c, s, p, act) && Agrees(s.cancelled, p, a) && !act.Take?
    ensures Agrees(s.cancelled, Acted(c, s, p, act), Noted(a, act, s.cancelled))
    ensures TakenAt(c, p, a) ==> TakenAt(c, Acted(c, s, p, act), Noted(a, act, s.cancelled))
  {
  }

  lemma OrderStep(c: Config, s: State, m: Move, takes: nat)
    requires InOrder(c, s, takes) && Enabled(c, s, m)
    ensures InOrder(c, Step(c, s, m), takes + if m.Work? && m.act.Take? then 1 else 0)
    ensures m.Work? && m.act.Take? ==> takes < |AllPairs(c.targets, c.ports)| && s.queue[0] == AllPairs(c.targets, c.ports)[takes]
  {
    var all := AllPairs(c.targets, c.ports);
    if m.Send? { assert s.queue + [s.unsent[0]] + s.unsent[1..] == s.queue + s.unsent; }
    if m.Work? && m.act.Take? {
      assert (s.queue + s.unsent)[0] == s.queue[0] == all[takes];
      assert s.queue[1..] + s.unsent == (s.queue + s.unsent)[1..] == all[takes + 1..];
    }
  }

  lemma KeptStep(c: Config, s: State, before: seq<Move>, m: Move)
    requires Kept(c, s, before) && Enabled(c, s, m)
    ensures Kept(c, Step(c, s, m), before + [m])
  {
    var moves, s' := before + [m], Step(c, s, m);
    assert moves[..|moves| - 1] == before && moves[|moves| - 1] == m;
    OrderStep(c, s, m, Takes(before));
    forall w | 0 <= w < |s'.workers|
      ensures Agrees(s'.cancelled, s'.workers[w], AccountOf(moves, w)) && TakenAt(c, s'.workers[w], AccountOf(moves, w)) {
      if m.Work? && m.w == w {
        if !m.act.Take? { ActAgrees(c, s, s.workers[w], m.act, AccountOf(before, w)); }
      } else {
        assert s'.workers[w] == s.workers[w] && AccountOf(moves, w) == AccountOf(before, w);
      }
    }
  }

  lemma {:induction false} RunKeepsAccounts(c: Config, moves: seq<Move>)
    requires c.workers >= 0 && Run(c, moves).0
    ensures Kept(c, Run(c, moves).1, moves)
  {
    if moves != [] {
      var before := moves[..|moves| - 1];
      RunKeepsAccounts(c, before);
      KeptStep(c, Run(c, before).1, before, moves[|moves| - 1]);
      assert moves == before + [moves[|moves| - 1]];
    }
  }

  /** The context is done exactly when it was cancelled. */
  lemma CancelledMeansCancel(c: Config, moves: seq<Move>)
    requires c.workers >= 0 && Run(c, moves).0
    ensures Run(c, moves).1.cancelled <==> Cancel in moves
  {
    RunKeepsAccounts(c, moves);
  }

  /** Every event tells what its worker did. The event that worker w sends is about the pair it took,
      the k-th taken being the k-th of Targets x Ports; it is Checking if w has sent none for that
      pair, and otherwise tells what came of the dial, the probes and the closes. */
  lemma EventsTellWhatHappened(c: Config, moves: seq<Move>, w: nat)
    requires c.workers >= 0 && moves != [] && moves[|moves| - 1] == Work(w, Emit) && Run(c, moves).0
    ensures var before := moves[..|moves| - 1];
            var a, es, prior := AccountOf(before, w), Sent(Run(c, moves).1), Sent(Run(c, before).1);
            && |es| == |prior| + 1 && es[..|prior|] == prior
            && var e := es[|prior|];
               && a.taken < |AllPairs(c.targets, c.ports)| && e.pair == AllPairs(c.targets, c.ports)[a.taken]
               && (e.Checking? <==> !a.announced) && (!e.Checking? ==> Tells(e, a))
  {
    var before := moves[..|moves| - 1];
    var s := Run(c, before).1;
    RunKeepsAccounts(c, before);
    SentStep(c, s, Work(w, Emit));
  }
}
