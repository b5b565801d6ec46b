/** A scan whose dials go through the proxy pool: the moves of the scanner interleaved with what
    Pool.DialContext and the Close of the connections it returned do to the pool. */
module ScanThroughPool {
  import opened Common
  import opened Scanner
  import ScanGuarantees
  import opened PoolLinks
  import Pool = ProxyPool

  datatype System = System(scan: Scanner.State, pool: Pool.State, links: seq<Link>)

  datatype Move =
    | Scan(m: Scanner.Move)
    | Acquire(w: nat, proxy: nat)
    | DialFails(w: nat)        // with an error, or with a connection the pool found cancelled
    | DialConnects(w: nat)
    | CloseSocket(w: nat)      // by the worker, or already by the running probe
    | Release(w: nat)

  /** The scan and the pool it dials through, which nobody uses when the scan starts: host discovery,
      if it dialed through the same pool, has given every slot back and only moved `next`. */
  datatype Setup = Setup(config: Config, strategy: Pool.Strategy, proxies: nat, next: nat)

  ghost predicate ValidSetup(u: Setup) {
    Valid(u.config) && u.next < u.proxies
  }

  function Init(u: Setup): System
    requires u.config.workers >= 0
  {
    System(Scanner.Init(u.config), IdlePool(u.proxies, u.next), NoLinks(u.config.workers))
  }

  predicate Dials(p: Phase) {
    p.Dialing? || p.Redialing?
  }

  predicate Connected(p: Phase) {
    p.ClosingPlain? || p.Probing? || p.ClosingProbe?
  }

  // The dial or close that ends with this act has happened.
  predicate LinkAllows(link: Link, act: Act) {
    match act
    case DialOk(_) => link.Live?
    case RedialOk => link.Live?
    case DialError(_) => link.Failed?
    case RedialError(_) => link.Failed?
    case CloseConnection(_) => link.Shut?
    case _ => true
  }

  function LinkAfter(link: Link, act: Act): Link {
    if act.DialError? || act.RedialError? || act.CloseConnection? then Absent else link
  }

  ghost predicate Enabled(u: Setup, s: System, m: Move) {
    match m
    case Scan(sm) =>
      Scanner.Enabled(u.config, s.scan, sm) &&
      (sm.Work? ==> sm.w < |s.links| && LinkAllows(s.links[sm.w], sm.act))
    case Acquire(w, proxy) =>
      w < |s.links| == |s.scan.workers| && s.links[w].Absent? && Dials(s.scan.workers[w]) &&
      Pool.WellFormed(s.pool) && Pool.MayAcquire(u.strategy, s.pool, proxy)
    case DialFails(w) => w < |s.links| && s.links[w].Tunnelling? && s.links[w].proxy < |s.pool.active|
    case DialConnects(w) => w < |s.links| && s.links[w].Tunnelling?
    case CloseSocket(w) =>
      w < |s.links| == |s.scan.workers| && s.links[w].Live? && Connected(s.scan.workers[w])
    case Release(w) => w < |s.links| && s.links[w].Draining? && s.links[w].proxy < |s.pool.active|
  }

  ghost function Step(u: Setup, s: System, m: Move): System
    requires Enabled(u, s, m)
  {
    match m
    case Scan(sm) =>
      s.(scan := Scanner.Step(u.config, s.scan, sm),
         links := if sm.Work? then s.links[sm.w := LinkAfter(s.links[sm.w], sm.act)] else s.links)
    case Acquire(w, proxy) =>
      s.(pool := Pool.Acquired(u.strategy, s.pool, proxy), links := s.links[w := Tunnelling(proxy)])
    case DialFails(w) => s.(pool := Pool.Released(s.pool, s.links[w].proxy), links := s.links[w := Failed])
    case DialConnects(w) => s.(links := s.links[w := Live(s.links[w].proxy)])
    case CloseSocket(w) => s.(links := s.links[w := Draining(s.links[w].proxy)])
    case Release(w) => s.(pool := Pool.Released(s.pool, s.links[w].proxy), links := s.links[w := Shut])
  }

  ghost function Run(u: Setup, moves: seq<Move>): (r: (bool, System))
    requires u.config.workers >= 0
  {
    if moves == [] then (true, Init(u))
    else
      var (ok, s) := Run(u, moves[..|moves| - 1]);
      var m := moves[|moves| - 1];
      if ok && Enabled(u, s, m) then (true, Step(u, s, m)) else (false, s)
  }

  // ---------------------------------------------------------------- the scan inside

  function ScanMoves(moves: seq<Move>): seq<Scanner.Move> {
    if moves == [] then []
    else ScanMoves(moves[..|moves| - 1]) + (if moves[|moves| - 1].Scan? then [moves[|moves| - 1].m] else [])
  }

  /** Dialing through the pool only restricts the scanner: every run contains a run of the scanner
      that reaches the same scan state, so everything guaranteed of scans holds here. */
  lemma {:induction false} PooledScanIsAScan(u: Setup, moves: seq<Move>)
    requires u.config.workers >= 0 && Run(u, moves).0
    ensures Scanner.Run(u.config, ScanMoves(moves)) == (true, Run(u, moves).1.scan)
  {
    if moves != [] {
      var before, m := moves[..|moves| - 1], moves[|moves| - 1];
      PooledScanIsAScan(u, before);
      if m.Scan? {
        var ms := ScanMoves(before);
        assert (ms + [m.m])[..|ms|] == ms;
      } else {
        assert ScanMoves(moves) == ScanMoves(before);
      }
    }
  }

  // ---------------------------------------------------------------- who holds which slot

  ghost predicate LinkOk(u: Setup, p: Phase, link: Link) {
    && (HoldsSome(link) ==> link.proxy < u.proxies)
    && (if Dials(p) then !link.Draining? && !link.Shut?
        else if Connected(p) then link.Live? || link.Draining? || link.Shut?
        else link.Absent?)
  }

  ghost predicate Linked(u: Setup, s: System) {
    && |s.links| == |s.scan.workers| == u.config.workers
    && forall w :: 0 <= w < |s.links| ==> LinkOk(u, s.scan.workers[w], s.links[w])
  }

  ghost predicate Balanced(u: Setup, s: System)
    requires u.proxies > 0 && u.config.workers >= 0
  {
    u.strategy.LeastConnections? ==>
      forall i :: 0 <= i < |s.pool.active| ==> s.pool.active[i] <= Pool.CeilDiv(u.config.workers, u.proxies)
  }

  ghost predicate Inv(u: Setup, s: System)
    requires ValidSetup(u)
  {
    Scanner.Inv(u.config, s.scan) && Linked(u, s) && Counted(u.proxies, s.pool, s.links) && Balanced(u, s)
  }

  lemma InitInv(u: Setup)
    requires ValidSetup(u)
    ensures Inv(u, Init(u))
  {
    Scanner.InitInv(u.config);
    IdleIsCounted(u.proxies, u.next, u.config.workers);
  }

  // A worker's act fits the link that allows it.
  lemma ActKeepsLinkOk(u: Setup, s: System, w: nat, act: Act)
    requires Linked(u, s) && Enabled(u, s, Scan(Work(w, act)))
    ensures LinkOk(u, Acted(u.config, s.scan, s.scan.workers[w], act), LinkAfter(s.links[w], act))
    ensures forall i :: PoolLinks.Holds(LinkAfter(s.links[w], act), i) == PoolLinks.Holds(s.links[w], i)
    ensures HoldsSome(LinkAfter(s.links[w], act)) == HoldsSome(s.links[w])
  {
  }

  lemma LinkedStep(u: Setup, s: System, m: Move)
    requires Linked(u, s) && Counted(u.proxies, s.pool, s.links) && Enabled(u, s, m)
    ensures Linked(u, Step(u, s, m))
  {
    if m.Scan? && m.m.Work? { ActKeepsLinkOk(u, s, m.m.w, m.m.act); }
  }

  lemma CountedStep(u: Setup, s: System, m: Move)
    requires Linked(u, s) && Counted(u.proxies, s.pool, s.links) && Enabled(u, s, m)
    ensures Counted(u.proxies, Step(u, s, m).pool, Step(u, s, m).links)
  {
    match m {
      case Scan(sm) =>
        if sm.Work? {
          ActKeepsLinkOk(u, s, sm.w, sm.act);
          SameSlot(u.proxies, s.pool, s.links, sm.w, LinkAfter(s.links[sm.w], sm.act));
        }
      case Acquire(w, proxy) => AcquireStep(u.strategy, u.proxies, s.pool, s.links, w, proxy);
      case DialFails(w) => ReleaseStep(u.proxies, s.pool, s.links, w, Failed);
      case Release(w) => ReleaseStep(u.proxies, s.pool, s.links, w, Shut);
      case DialConnects(w) => SameSlot(u.proxies, s.pool, s.links, w, Live(s.links[w].proxy));
      case CloseSocket(w) => SameSlot(u.proxies, s.pool, s.links, w, Draining(s.links[w].proxy));
    }
  }

  // Taking a least-loaded proxy keeps every load within the even share of `workers`.
  lemma ShareIsKept(active: seq<nat>, proxy: nat, workers: nat)
    requires proxy < |active| && Pool.Sum(active) + 1 <= workers
    requires forall j :: 0 <= j < |active| ==> active[proxy] <= active[j] <= Pool.CeilDiv(workers, |active|)
    ensures active[proxy] + 1 <= Pool.CeilDiv(workers, |active|)
  {
    Pool.MinimumStaysBelowCeiling(active, proxy);
    Pool.CeilDivMonotone(Pool.Sum(active) + 1, workers, |active|);
  }

  lemma BalancedStep(u: Setup, s: System, m: Move)
    requires ValidSetup(u) && Linked(u, s) && Counted(u.proxies, s.pool, s.links) && Balanced(u, s) && Enabled(u, s, m)
    ensures Balanced(u, Step(u, s, m))
  {
    if m.Acquire? && u.strategy.LeastConnections? {
      LinkChange(s.links, m.w, Tunnelling(m.proxy));
      HoldersBounds(s.links[m.w := Tunnelling(m.proxy)], 0);
      ShareIsKept(s.pool.active, m.proxy, u.config.workers);
    }
  }

  lemma {:induction false} RunKeepsInv(u: Setup, moves: seq<Move>)
    requires ValidSetup(u) && Run(u, moves).0
    ensures Inv(u, Run(u, moves).1)
  {
    PooledScanIsAScan(u, moves);
    Scanner.RunKeepsInv(u.config, ScanMoves(moves));
    if moves == [] {
      InitInv(u);
    } else {
      var s, m := Run(u, moves[..|moves| - 1]).1, moves[|moves| - 1];
      RunKeepsInv(u, moves[..|moves| - 1]);
      LinkedStep(u, s, m);
      CountedStep(u, s, m);
      BalancedStep(u, s, m);
    }
  }

  // ---------------------------------------------------------------- guarantees

  /** In every reachable state active[i] is the number of dials through proxy i in progress plus
      its connections not yet released, and a release always finds it positive. */
  lemma ActiveIsExact(u: Setup, moves: seq<Move>)
    requires ValidSetup(u) && Run(u, moves).0
    ensures var s := Run(u, moves).1;
            && |s.pool.active| == u.proxies
            && (forall i :: 0 <= i < u.proxies ==> s.pool.active[i] == Holders(s.links, i))
            && (forall w :: 0 <= w < |s.links| && HoldsSome(s.links[w]) ==>
                  s.links[w].proxy < u.proxies && s.pool.active[s.links[w].proxy] > 0)
  {
    RunKeepsInv(u, moves);
    var s := Run(u, moves).1;
    forall w | 0 <= w < |s.links| && HoldsSome(s.links[w])
      ensures s.links[w].proxy < u.proxies && s.pool.active[s.links[w].proxy] > 0 {
      HeldIsCounted(s.links, w);
    }
  }

  /** Once the event stream is closed every slot has been given back, even after a cancellation,
      failed probes and connections closed twice. */
  lemma AllSlotsReturn(u: Setup, moves: seq<Move>)
    requires ValidSetup(u) && Run(u, moves).0 && Run(u, moves).1.scan.eventsClosed
    ensures |Run(u, moves).1.pool.active| == u.proxies
    ensures forall i :: 0 <= i < u.proxies ==> Run(u, moves).1.pool.active[i] == 0
  {
    RunKeepsInv(u, moves);
    var s := Run(u, moves).1;
    forall i | 0 <= i < u.proxies ensures s.pool.active[i] == 0 {
      HoldersBounds(s.links, i);
    }
  }

  /** Under least_connections no proxy ever carries more than its even share of the workers. */
  lemma NoProxyIsOverloaded(u: Setup, moves: seq<Move>, i: nat)
    requires ValidSetup(u) && Run(u, moves).0 && u.strategy.LeastConnections? && i < u.proxies
    ensures |Run(u, moves).1.pool.active| == u.proxies
    ensures Run(u, moves).1.pool.active[i] <= Pool.CeilDiv(u.config.workers, u.proxies)
  {
    RunKeepsInv(u, moves);
  }

  // ---------------------------------------------------------------- the pooled scan ends

  function LinkRank(link: Link): nat {
    match link
    case Absent => 4
    case Tunnelling(_) => 3
    case Live(_) => 2
    case Draining(_) => 1
    case _ => 0
  }

  function LinkRanks(links: seq<Link>): nat {
    if links == [] then 0 else LinkRanks(links[..|links| - 1]) + LinkRank(links[|links| - 1])
  }

  function Measure(u: Setup, s: System): nat {
    5 * ScanGuarantees.Measure(u.config, s.scan) + LinkRanks(s.links)
  }

  lemma {:induction false} LinkRanksUpdate(links: seq<Link>, w: nat, link: Link)
    requires w < |links|
    ensures LinkRanks(links[w := link]) == LinkRanks(links) - LinkRank(links[w]) + LinkRank(link)
  {
    var last := |links| - 1;
    if w == last {
      assert links[w := link][..last] == links[..last];
    } else {
      assert links[w := link][..last] == links[..last][w := link];
      LinkRanksUpdate(links[..last], w, link);
    }
  }

  lemma MeasureDrops(u: Setup, s: System, m: Move)
    requires Scanner.Shape(u.config, s.scan) && Enabled(u, s, m)
    ensures Measure(u, Step(u, s, m)) < Measure(u, s)
  {
    var s' := Step(u, s, m);
    match m {
      case Scan(sm) =>
        ScanGuarantees.MeasureDrops(u.config, s.scan, sm);
        if sm.Work? { LinkRanksUpdate(s.links, sm.w, s'.links[sm.w]); }
      case _ => LinkRanksUpdate(s.links, m.w, s'.links[m.w]);
    }
  }

  lemma {:induction false} FirstMinimumExists(active: seq<nat>, start: nat, upTo: nat) returns (index: nat)
    requires start < |active| && 0 < upTo <= |active|
    ensures index < |active| && Pool.CyclicDistance(start, index, |active|) < upTo
    ensures forall j :: 0 <= j < |active| && Pool.CyclicDistance(start, j, |active|) < upTo ==>
              && active[index] <= active[j]
              && (active[j] == active[index] ==>
                    Pool.CyclicDistance(start, index, |active|) <= Pool.CyclicDistance(start, j, |active|))
  {
    if upTo == 1 {
      index := start;
    } else {
      index := FirstMinimumExists(active, start, upTo - 1);
      var candidate := (start + upTo - 1) % |active|;
      Pool.CyclicStep(start, upTo - 1, |active|);
      if active[candidate] < active[index] { index := candidate; }
    }
  }

  lemma SomeProxyCanBeAcquired(strategy: Pool.Strategy, s: Pool.State) returns (proxy: nat)
    requires Pool.WellFormed(s)
    ensures Pool.MayAcquire(strategy, s, proxy)
  {
    proxy := s.next;
    if strategy.LeastConnections? {
      proxy := FirstMinimumExists(s.active, s.next, |s.active|);
    }
  }

  // Whatever a dialing or closing worker waits for can happen.
  lemma WorkerCanMove(u: Setup, s: System, w: nat) returns (m: Move)
    requires ValidSetup(u) && Inv(u, s) && w < |s.links|
    requires Dials(s.scan.workers[w]) || s.scan.workers[w].ClosingPlain? || s.scan.workers[w].ClosingProbe?
    ensures m != Scan(Cancel) && Enabled(u, s, m)
  {
    var p := s.scan.workers[w];
    assert PhaseOk(u.config, s.scan.cancelled, p) && LinkOk(u, p, s.links[w]);
    match s.links[w] {
      case Absent =>
        var proxy := SomeProxyCanBeAcquired(u.strategy, s.pool);
        m := Acquire(w, proxy);
      case Tunnelling(_) => m := DialConnects(w);
      case Failed =>
        if p.Dialing? {
          m := Scan(Work(w, DialError(Other)));
        } else {
          var name := Protocols(u.config, p.pair.port)[|p.results|];
          m := Scan(Work(w, RedialError(ProbeResult(name, "", 0, Some("")))));
        }
      case Live(_) =>
        m := if p.Dialing? then Scan(Work(w, DialOk(0))) else if p.Redialing? then Scan(Work(w, RedialOk))
             else CloseSocket(w);
      case Draining(_) => m := Release(w);
      case Shut => m := Scan(Work(w, CloseConnection(false)));
    }
  }

  lemma SomePooledMoveIsPossible(u: Setup, s: System)
    requires ValidSetup(u) && Inv(u, s) && !s.scan.done
    ensures exists m :: m != Scan(Cancel) && Enabled(u, s, m)
  {
    ScanGuarantees.SomeMoveIsPossible(u.config, s.scan);
    var sm :| sm != Cancel && Scanner.Enabled(u.config, s.scan, sm);
    if sm.Work? && !LinkAllows(s.links[sm.w], sm.act) {
      var m := WorkerCanMove(u, s, sm.w);
    } else {
      assert Enabled(u, s, Scan(sm));
    }
  }

  /** The pool introduces no deadlock and no endless run. */
  lemma {:induction false} EveryPooledScanEnds(u: Setup, moves: seq<Move>)
    requires ValidSetup(u) && Run(u, moves).0
    ensures |moves| + Measure(u, Run(u, moves).1) <= Measure(u, Init(u))
    ensures !Run(u, moves).1.scan.done ==> exists m :: m != Scan(Cancel) && Enabled(u, Run(u, moves).1, m)
  {
    RunKeepsInv(u, moves);
    if !Run(u, moves).1.scan.done { SomePooledMoveIsPossible(u, Run(u, moves).1); }
    if moves != [] {
      var before := moves[..|moves| - 1];
      EveryPooledScanEnds(u, before);
      RunKeepsInv(u, before);
      MeasureDrops(u, Run(u, before).1, moves[|moves| - 1]);
    }
  }
}
