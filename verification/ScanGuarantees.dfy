/** What every interleaving of a scan guarantees: which events reach the consumer, and that the
    scan always comes to an end. */
module ScanGuarantees {
  import opened Common
  import opened Scanner
  import ScanHistory

  // ---------------------------------------------------------------- the set of checks

  lemma {:induction false} HostPairsCount(host: string, ports: seq<int>, h: string, p: int)
    ensures multiset(PairsOfHost(host, ports))[Pair(h, p)] == if h == host then multiset(ports)[p] else 0
    ensures |PairsOfHost(host, ports)| == |ports|
  {
    if ports != [] {
      HostPairsCount(host, ports[1..], h, p);
      assert ports == [ports[0]] + ports[1..];
    }
  }

  lemma CountFirst(targets: seq<string>, h: string)
    requires targets != []
    ensures multiset(targets)[h] == (if targets[0] == h then 1 else 0) + multiset(targets[1..])[h]
  {
    assert targets == [targets[0]] + targets[1..];
  }

  lemma Distribute(a: nat, b: nat, n: nat)
    ensures (a + b) * n == a * n + b * n
  {
  }

  lemma CountFirstHost(targets: seq<string>, ports: seq<int>, h: string, p: int)
    requires targets != []
    ensures multiset(AllPairs(targets, ports))[Pair(h, p)] ==
            (if targets[0] == h then multiset(ports)[p] else 0) + multiset(AllPairs(targets[1..], ports))[Pair(h, p)]
  {
    HostPairsCount(targets[0], ports, h, p);
  }

  /** The checks are exactly Targets x Ports, repetitions counted. */
  lemma {:induction false} AllPairsIsProduct(targets: seq<string>, ports: seq<int>, h: string, p: int)
    ensures multiset(AllPairs(targets, ports))[Pair(h, p)] == multiset(targets)[h] * multiset(ports)[p]
  {
    if targets != [] {
      CountFirstHost(targets, ports, h, p);
      CountFirst(targets, h);
      AllPairsIsProduct(targets[1..], ports, h, p);
      Distribute(if targets[0] == h then 1 else 0, multiset(targets[1..])[h], multiset(ports)[p]);
    }
  }

  lemma {:induction false} AllPairsLength(targets: seq<string>, ports: seq<int>)
    ensures |AllPairs(targets, ports)| == |targets| * |ports|
  {
    if targets != [] {
      HostPairsCount(targets[0], ports, "", 0);
      AllPairsLength(targets[1..], ports);
      Distribute(1, |targets| - 1, |ports|);
    }
  }

  lemma {:induction false} HostPairsAt(host: string, ports: seq<int>, j: nat)
    requires j < |ports|
    ensures |PairsOfHost(host, ports)| == |ports| && PairsOfHost(host, ports)[j] == Pair(host, ports[j])
  {
    HostPairsCount(host, ports, "", 0);
    if j > 0 { HostPairsAt(host, ports[1..], j - 1); }
  }

  /** They are sent host by host, and each host's ports in their order. */
  lemma {:induction false} AllPairsAt(targets: seq<string>, ports: seq<int>, i: nat, j: nat)
    requires i < |targets| && j < |ports|
    ensures i * |ports| + j < |AllPairs(targets, ports)|
    ensures AllPairs(targets, ports)[i * |ports| + j] == Pair(targets[i], ports[j])
  {
    HostPairsAt(targets[0], ports, j);
    if i > 0 {
      AllPairsAt(targets[1..], ports, i - 1, j);
      Distribute(1, i - 1, |ports|);
    }
  }

  // ---------------------------------------------------------------- what is reported

  lemma SameCounts(ps: seq<Pair>, qs: seq<Pair>)
    requires forall x :: Occurs(ps, x) == Occurs(qs, x)
    ensures multiset(ps) == multiset(qs)
  {
    forall p: Pair ensures multiset(ps)[p] == multiset(qs)[p] {
      assert Occurs(ps, Some(p)) == Occurs(qs, Some(p));
    }
  }

  lemma FewerCounts(ps: seq<Pair>, qs: seq<Pair>)
    requires forall x :: Occurs(ps, x) <= Occurs(qs, x)
    ensures multiset(ps) <= multiset(qs)
  {
    forall p: Pair ensures multiset(ps)[p] <= multiset(qs)[p] {
      assert Occurs(ps, Some(p)) <= Occurs(qs, Some(p));
    }
  }

  /** If the context is still live when the event channel closes, the terminal events are exactly
      the configured checks, and so are the Checking events. */
  lemma LiveScanIsComplete(c: Config, moves: seq<Move>)
    requires Valid(c) && Run(c, moves).0
    requires Run(c, moves).1.eventsClosed && !Run(c, moves).1.cancelled
    ensures var es := Sent(Run(c, moves).1);
            && multiset(Reported(es)) == multiset(AllPairs(c.targets, c.ports))
            && multiset(Announced(es)) == multiset(AllPairs(c.targets, c.ports))
            && |Reported(es)| == Checks(c)
  {
    var s := Run(c, moves).1;
    RunKeepsInv(c, moves);
    assert s.workers[0].Exited?;
    forall x ensures Occurs(Reported(Sent(s)), x) == Occurs(AllPairs(c.targets, c.ports), x)
             ensures Occurs(Announced(Sent(s)), x) == Occurs(AllPairs(c.targets, c.ports), x) {
      NothingHeld(s.workers, false, x);
      NothingHeld(s.workers, true, x);
    }
    SameCounts(Reported(Sent(s)), AllPairs(c.targets, c.ports));
    SameCounts(Announced(Sent(s)), AllPairs(c.targets, c.ports));
    AllPairsLength(c.targets, c.ports);
    assert Occurs(Reported(Sent(s)), None) == Occurs(AllPairs(c.targets, c.ports), None);
  }

  /** At every moment, cancelled or not: no check is reported or announced more often than
      configured; in every prefix of the trace each terminal event comes after a Checking event of
      its own; and at most Workers checks are announced and not reported. */
  lemma NothingIsReportedTwice(c: Config, moves: seq<Move>)
    requires Valid(c) && Run(c, moves).0
    ensures var es := Sent(Run(c, moves).1);
            && multiset(Reported(es)) <= multiset(AllPairs(c.targets, c.ports))
            && multiset(Announced(es)) <= multiset(AllPairs(c.targets, c.ports))
            && (forall k :: 0 <= k <= |es| ==> multiset(Reported(es[..k])) <= multiset(Announced(es[..k])))
            && |Announced(es)| <= |Reported(es)| + c.workers
  {
    var s := Run(c, moves).1;
    var es := Sent(s);
    RunKeepsInv(c, moves);
    forall x ensures Occurs(Announced(es), x) <= Occurs(AllPairs(c.targets, c.ports), x) {
      CheckedHeldIsHeld(s.workers, x);
    }
    FewerCounts(Announced(es), AllPairs(c.targets, c.ports));
    FewerCounts(Reported(es), AllPairs(c.targets, c.ports));
    forall k | 0 <= k <= |es| ensures multiset(Reported(es[..k])) <= multiset(Announced(es[..k])) {
      FewerCounts(Reported(es[..k]), Announced(es[..k]));
    }
    HeldAtMostOneEach(s.workers, true);
    assert Occurs(Announced(es), None) == Occurs(Reported(es), None) + HeldBy(s.workers, true, None);
  }

  lemma {:induction false} CheckedHeldIsHeld(workers: seq<Phase>, x: Option<Pair>)
    ensures HeldBy(workers, true, x) <= HeldBy(workers, false, x)
  {
    if workers != [] {
      CheckedHeldIsHeld(workers[..|workers| - 1], x);
    }
  }

  /** Every Open event carries one result for each protocol configured for its port, in
      configuration order. */
  lemma OpenEventsNameEveryProtocol(c: Config, moves: seq<Move>, k: nat)
    requires Valid(c) && Run(c, moves).0
    requires k < |Sent(Run(c, moves).1)| && Sent(Run(c, moves).1)[k].Open?
    ensures var e := Sent(Run(c, moves).1)[k];
            && (e.pair.port !in c.protocols ==> e.probes == [])
            && (e.pair.port in c.protocols ==>
                  && |e.probes| == |c.protocols[e.pair.port]|
                  && forall i :: 0 <= i < |e.probes| ==> e.probes[i].protocol == c.protocols[e.pair.port][i])
  {
    RunKeepsInv(c, moves);
  }

  /** Neither channel ever holds more than Workers items, and once the events are closed the
      producer and every worker are through. */
  lemma ChannelsStaySafe(c: Config, moves: seq<Move>)
    requires Valid(c) && Run(c, moves).0
    ensures var s := Run(c, moves).1;
            && |s.queue| <= c.workers && |s.events| <= c.workers
            && (s.eventsClosed ==> forall w, act :: !Enabled(c, s, Work(w, act)))
            && (s.eventsClosed ==> !Enabled(c, s, Send))
  {
    RunKeepsInv(c, moves);
  }

  lemma ClosedStep(c: Config, s: State, m: Move)
    requires Flow(c, s) && s.eventsClosed && Enabled(c, s, m)
    ensures var s' := Step(c, s, m);
            s'.eventsClosed && Sent(s') == Sent(s) && s'.queue == s.queue && s'.unsent == s.unsent
  {
    if m.Receive? { assert s.events == [s.events[0]] + s.events[1..]; }
  }

  /** However a run goes on after the event channel was closed, nothing more is sent on it, and no
      pair is sent to the workers or taken by one. */
  lemma {:induction false} NothingIsSentAfterClose(c: Config, moves: seq<Move>, more: seq<Move>)
    requires Valid(c) && Run(c, moves).0 && Run(c, moves).1.eventsClosed && Run(c, moves + more).0
    ensures var s, t := Run(c, moves).1, Run(c, moves + more).1;
            t.eventsClosed && Sent(t) == Sent(s) && t.queue == s.queue && t.unsent == s.unsent
  {
    if more == [] {
      assert moves + more == moves;
    } else {
      var before, all := moves + more[..|more| - 1], moves + more;
      assert all[..|all| - 1] == before && all[|all| - 1] == more[|more| - 1];
      NothingIsSentAfterClose(c, moves, more[..|more| - 1]);
      RunKeepsInv(c, before);
      ClosedStep(c, Run(c, before).1, more[|more| - 1]);
    }
  }

  // ---------------------------------------------------------------- the scan ends

  function Remaining(c: Config, pair: Pair, results: seq<ProbeResult>): nat {
    var k := |Protocols(c, pair.port)|;
    if |results| <= k then k - |results| else 0
  }

  function Rank(c: Config, p: Phase): nat {
    match p
    case Exited(_, _) => 0
    case Idle => 1
    case Reporting(_) => 3
    case Probed(_, _, _, _) => 4
    case ClosingPlain(_, _) => 4
    case ClosingProbe(pair, _, results, _) => 3 * Remaining(c, pair, results) + 5
    case Probing(pair, _, results, _) => 3 * Remaining(c, pair, results) + 3
    case Redialing(pair, _, results, _) => 3 * Remaining(c, pair, results) + 4
    case Dialing(pair) => 3 * Remaining(c, pair, []) + 5
    case Announcing(pair) => 3 * Remaining(c, pair, []) + 7
  }

  function Ranks(c: Config, workers: seq<Phase>): nat {
    if workers == [] then 0 else Ranks(c, workers[..|workers| - 1]) + Rank(c, workers[|workers| - 1])
  }

  function Weights(c: Config, pairs: seq<Pair>, base: nat): nat {
    if pairs == [] then 0 else 3 * Remaining(c, pairs[0], []) + base + Weights(c, pairs[1..], base)
  }

  /** Bounds the number of moves still possible. */
  function Measure(c: Config, s: State): nat {
    Weights(c, s.unsent, 8) + Weights(c, s.queue, 7) + Ranks(c, s.workers) + |s.events|
    + (if s.sending then 1 else 0) + (if s.cancelled then 0 else 1)
    + (if s.eventsClosed then 0 else 1) + (if s.done then 0 else 1)
  }

  lemma {:induction false} RanksUpdate(c: Config, workers: seq<Phase>, w: nat, p: Phase)
    requires w < |workers|
    ensures Ranks(c, workers[w := p]) == Ranks(c, workers) - Rank(c, workers[w]) + Rank(c, p)
  {
    var last := |workers| - 1;
    if w == last {
      assert workers[w := p][..last] == workers[..last];
    } else {
      assert workers[w := p][..last] == workers[..last][w := p];
      RanksUpdate(c, workers[..last], w, p);
    }
  }

  lemma {:induction false} WeightsAppend(c: Config, pairs: seq<Pair>, p: Pair, base: nat)
    ensures Weights(c, pairs + [p], base) == Weights(c, pairs, base) + 3 * Remaining(c, p, []) + base
  {
    if pairs == [] {
      assert [] + [p] == [p];
    } else {
      assert (pairs + [p])[1..] == pairs[1..] + [p];
      WeightsAppend(c, pairs[1..], p, base);
    }
  }

  lemma RankDrops(c: Config, s: State, p: Phase, act: Act)
    requires PhaseOk(c, s.cancelled, p) && CanAct(c, s, p, act)
    ensures Rank(c, Acted(c, s, p, act)) + (if act.Emit? then 2 else 1) <=
            Rank(c, p) + (if act.Take? then 3 * Remaining(c, s.queue[0], []) + 7 else 0)
  {
  }

  lemma MeasureDrops(c: Config, s: State, m: Move)
    requires Shape(c, s) && Enabled(c, s, m)
    ensures Measure(c, Step(c, s, m)) < Measure(c, s)
  {
    match m {
      case Send => WeightsAppend(c, s.queue, s.unsent[0], 7);
      case Work(w, act) =>
        RanksUpdate(c, s.workers, w, Acted(c, s, s.workers[w], act));
        RankDrops(c, s, s.workers[w], act);
      case _ =>
    }
  }

  // Something other than a cancellation can happen, as long as the consumer is not done.
  lemma SomeMoveIsPossible(c: Config, s: State)
    requires Valid(c) && Shape(c, s) && Flow(c, s) && !s.done
    ensures exists m :: m != Cancel && Enabled(c, s, m)
  {
    if s.events != [] {
      assert Enabled(c, s, Receive);
    } else if !AllExited(s.workers) {
      var w :| 0 <= w < |s.workers| && !s.workers[w].Exited?;
      var p := s.workers[w];
      if p.Idle? && s.queue == [] && s.sending {
        assert Enabled(c, s, if s.unsent == [] then FinishSending else Send);
      } else {
        assert Enabled(c, s, Work(w, NextAct(c, s, p)));
      }
    } else if s.sending {
      assert s.workers[0].Exited?;
      assert Enabled(c, s, if s.unsent == [] then FinishSending else GiveUpSending);
    } else {
      assert Enabled(c, s, if s.eventsClosed then SeeClosed else CloseEvents);
    }
  }

  function NextAct(c: Config, s: State, p: Phase): Act
    requires !p.Exited?
    requires p.Redialing? || p.Probing? ==> |p.results| < |Protocols(c, p.pair.port)|
  {
    match p
    case Idle => if s.queue != [] then Take else Drained
    case Announcing(_) => Emit
    case Reporting(_) => Emit
    case Dialing(_) => DialOk(0)
    case Redialing(_, _, _, _) => RedialOk
    case Probing(pair, _, results, _) =>
      RunProbe(ProbeResult(Protocols(c, pair.port)[|results|], "", 0, None))
    case Probed(_, _, _, _) => Decide
    case _ => CloseConnection(false)
  }

  /** The scan never deadlocks and always ends: with a draining consumer and dials, probes and
      closes that return, every unfinished state has a move besides cancellation, and no run makes
      more moves than the measure of the initial state. */
  lemma {:induction false} EveryScanEnds(c: Config, moves: seq<Move>)
    requires Valid(c) && Run(c, moves).0
    ensures |moves| + Measure(c, Run(c, moves).1) <= Measure(c, Init(c))
    ensures !Run(c, moves).1.done ==> exists m :: m != Cancel && Enabled(c, Run(c, moves).1, m)
  {
    if moves != [] {
      var before := moves[..|moves| - 1];
      EveryScanEnds(c, before);
      RunKeepsInv(c, before);
      MeasureDrops(c, Run(c, before).1, moves[|moves| - 1]);
    }
    RunKeepsInv(c, moves);
    if !Run(c, moves).1.done { SomeMoveIsPossible(c, Run(c, moves).1); }
  }

  /** A cancelled scan closes its event channel even if nobody receives from it any more, and without
      sending or taking another check. */
  lemma CancelledScanNeedsNoConsumer(c: Config, moves: seq<Move>)
    requires Valid(c) && Run(c, moves).0 && Cancel in moves && !Run(c, moves).1.eventsClosed
    ensures exists m :: m != Cancel && m != Receive && m != Send && (m.Work? ==> m.act != Take)
                        && Enabled(c, Run(c, moves).1, m)
  {
    var s := Run(c, moves).1;
    RunKeepsInv(c, moves);
    ScanHistory.CancelledMeansCancel(c, moves);
    if !AllExited(s.workers) {
      var w :| 0 <= w < |s.workers| && !s.workers[w].Exited?;
      var p := s.workers[w];
      var act := if p.Idle? || p.Announcing? || p.Reporting? then Quit else NextAct(c, s, p);
      assert Enabled(c, s, Work(w, act));
    } else if s.sending {
      assert Enabled(c, s, if s.unsent == [] then FinishSending else GiveUpSending);
    } else {
      assert Enabled(c, s, CloseEvents);
    }
  }
}
