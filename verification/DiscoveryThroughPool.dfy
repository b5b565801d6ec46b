/** Host discovery whose TCP dials go through the proxy pool, before the scan uses the same pool:
    the moves of Discover interleaved with what Pool.DialContext and the Close of its connections
    do to the pool. */
module DiscoveryThroughPool {
  import opened FanOut
  import opened PoolLinks
  import Discovery
  import Pool = ProxyPool
  import ScanThroughPool

  datatype System = System(discovery: Discovery.State, pool: Pool.State, links: seq<Link>)

  /** An attempt of checkTCP acquires a proxy and fails, or connects and closes at once; the worker
      may then make the next one, or end its check. */
  datatype Move =
    | Discover(m: Discovery.Move)
    | Acquire(w: nat, proxy: nat)
    | DialFails(w: nat)
    | DialConnects(w: nat)
    | CloseSocket(w: nat)
    | Release(w: nat)

  datatype Setup = Setup(targets: seq<string>, limit: nat, strategy: Pool.Strategy, proxies: nat, next: nat)

  ghost predicate ValidSetup(u: Setup) {
    u.targets != [] && u.limit > 0 && u.next < u.proxies
  }

  function Init(u: Setup): System {
    System(Discovery.Init(u.targets, u.limit), IdlePool(u.proxies, u.next),
           NoLinks(WorkerCount(|u.targets|, u.limit)))
  }

  ghost predicate Enabled(u: Setup, s: System, m: Move) {
    match m
    case Discover(dm) =>
      Discovery.Enabled(u.targets, s.discovery, dm) &&
      (dm.Write? ==> dm.w < |s.links| && s.links[dm.w].Absent?)
    case Acquire(w, proxy) =>
      w < |s.links| == |s.discovery.workers| && s.links[w].Absent? && s.discovery.workers[w].Working? &&
      Pool.WellFormed(s.pool) && Pool.MayAcquire(u.strategy, s.pool, proxy)
    case DialFails(w) => w < |s.links| && s.links[w].Tunnelling? && s.links[w].proxy < |s.pool.active|
    case DialConnects(w) => w < |s.links| && s.links[w].Tunnelling?
    case CloseSocket(w) => w < |s.links| && s.links[w].Live?
    case Release(w) => w < |s.links| && s.links[w].Draining? && s.links[w].proxy < |s.pool.active|
  }

  ghost function Step(u: Setup, s: System, m: Move): System
    requires Enabled(u, s, m)
  {
    match m
    case Discover(dm) => s.(discovery := Discovery.Step(u.targets, s.discovery, dm))
    case Acquire(w, proxy) =>
      s.(pool := Pool.Acquired(u.strategy, s.pool, proxy), links := s.links[w := Tunnelling(proxy)])
    case DialFails(w) => s.(pool := Pool.Released(s.pool, s.links[w].proxy), links := s.links[w := Absent])
    case DialConnects(w) => s.(links := s.links[w := Live(s.links[w].proxy)])
    case CloseSocket(w) => s.(links := s.links[w := Draining(s.links[w].proxy)])
    case Release(w) => s.(pool := Pool.Released(s.pool, s.links[w].proxy), links := s.links[w := Absent])
  }

  /** The state after the moves, and whether each of them was possible in turn. */
  ghost function Run(u: Setup, moves: seq<Move>): (r: (bool, System)) {
    if moves == [] then (true, Init(u))
    else
      var (ok, s) := Run(u, moves[..|moves| - 1]);
      var m := moves[|moves| - 1];
      if ok && Enabled(u, s, m) then (true, Step(u, s, m)) else (false, s)
  }

  function DiscoveryMoves(moves: seq<Move>): seq<Discovery.Move> {
    if moves == [] then []
    else
      var before, m := DiscoveryMoves(moves[..|moves| - 1]), moves[|moves| - 1];
      if m.Discover? then before + [m.m] else before
  }

  /** Every run contains a run of Discover that reaches the same state, so everything guaranteed of
      Discover holds here. */
  lemma {:induction false} PooledDiscoveryIsADiscovery(u: Setup, moves: seq<Move>)
    requires Run(u, moves).0
    ensures Discovery.Run(u.targets, u.limit, DiscoveryMoves(moves)) == (true, Run(u, moves).1.discovery)
  {
    if moves != [] {
      var before, m := moves[..|moves| - 1], moves[|moves| - 1];
      PooledDiscoveryIsADiscovery(u, before);
      if m.Discover? {
        var ms := DiscoveryMoves(before);
        assert (ms + [m.m])[..|ms|] == ms;
      }
    }
  }

  // Only a worker in the middle of a check has something with the pool.
  ghost predicate Linked(u: Setup, s: System) {
    && |s.links| == |s.discovery.workers|
    && forall w :: 0 <= w < |s.links| ==>
         && (s.links[w].Absent? || s.discovery.workers[w].Working?)
         && (HoldsSome(s.links[w]) ==> s.links[w].proxy < u.proxies)
  }

  lemma LinkedStep(u: Setup, s: System, m: Move)
    requires Linked(u, s) && Counted(u.proxies, s.pool, s.links) && Enabled(u, s, m)
    ensures Linked(u, Step(u, s, m))
  {
  }

  lemma CountedStep(u: Setup, s: System, m: Move)
    requires Linked(u, s) && Counted(u.proxies, s.pool, s.links) && Enabled(u, s, m)
    ensures Counted(u.proxies, Step(u, s, m).pool, Step(u, s, m).links)
  {
    match m {
      case Discover(_) =>
      case Acquire(w, proxy) => AcquireStep(u.strategy, u.proxies, s.pool, s.links, w, proxy);
      case DialFails(w) => ReleaseStep(u.proxies, s.pool, s.links, w, Absent);
      case Release(w) => ReleaseStep(u.proxies, s.pool, s.links, w, Absent);
      case DialConnects(w) => SameSlot(u.proxies, s.pool, s.links, w, Live(s.links[w].proxy));
      case CloseSocket(w) => SameSlot(u.proxies, s.pool, s.links, w, Draining(s.links[w].proxy));
    }
  }

  lemma {:induction false} RunKeepsInv(u: Setup, moves: seq<Move>)
    requires ValidSetup(u) && Run(u, moves).0
    ensures Linked(u, Run(u, moves).1) && Counted(u.proxies, Run(u, moves).1.pool, Run(u, moves).1.links)
  {
    if moves == [] {
      IdleIsCounted(u.proxies, u.next, WorkerCount(|u.targets|, u.limit));
    } else {
      var s, m := Run(u, moves[..|moves| - 1]).1, moves[|moves| - 1];
      RunKeepsInv(u, moves[..|moves| - 1]);
      LinkedStep(u, s, m);
      CountedStep(u, s, m);
    }
  }

  /** Once Discover has returned, with results or an error, the pool is idle: a scan through the same
      pool starts in the initial state of ScanThroughPool. */
  lemma PoolIsLeftIdle(u: Setup, moves: seq<Move>, scan: ScanThroughPool.Setup)
    requires ValidSetup(u) && Run(u, moves).0 && Run(u, moves).1.discovery.returned.Some?
    requires scan.config.workers >= 0 && scan.proxies == u.proxies && scan.next == Run(u, moves).1.pool.next
    ensures Run(u, moves).1.pool == ScanThroughPool.Init(scan).pool && scan.next < scan.proxies
  {
    var s := Run(u, moves).1;
    RunKeepsInv(u, moves);
    PooledDiscoveryIsADiscovery(u, moves);
    Discovery.RunKeepsInv(u.targets, u.limit, DiscoveryMoves(moves));
    forall w | 0 <= w < |s.links| ensures !HoldsSome(s.links[w]) {
      assert s.discovery.workers[w].Exited?;
    }
    NobodyHolds(u.proxies, s.pool, s.links);
  }
}
