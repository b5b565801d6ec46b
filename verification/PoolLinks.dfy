/** The slots of the proxy pool that the workers of a scan, or of host discovery, hold: what each
    worker has with the pool, and that the pool's counters agree with it. */
module PoolLinks {
  import Pool = ProxyPool

  /** What one worker has with the pool. */
  datatype Link =
    | Absent
    | Tunnelling(proxy: nat)  // acquired, the endpoint's dial is running
    | Failed                  // the dial failed and the slot was released
    | Live(proxy: nat)        // a tracked connection is open
    | Draining(proxy: nat)    // its socket was closed, its release is still to run
    | Shut                    // the once has run; closing again does nothing more to the pool

  predicate Holds(link: Link, proxy: nat) {
    link == Tunnelling(proxy) || link == Live(proxy) || link == Draining(proxy)
  }

  predicate HoldsSome(link: Link) {
    link.Tunnelling? || link.Live? || link.Draining?
  }

  /** The dials in progress through `proxy` and its connections that are not yet released. */
  function Holders(links: seq<Link>, proxy: nat): nat {
    if links == [] then 0
    else Holders(links[..|links| - 1], proxy) + if Holds(links[|links| - 1], proxy) then 1 else 0
  }

  function AllHolders(links: seq<Link>): nat {
    if links == [] then 0
    else AllHolders(links[..|links| - 1]) + if HoldsSome(links[|links| - 1]) then 1 else 0
  }

  lemma {:induction false} HoldersUpdate(links: seq<Link>, w: nat, link: Link, proxy: nat)
    requires w < |links|
    ensures Holders(links[w := link], proxy) == Holders(links, proxy)
            - (if Holds(links[w], proxy) then 1 else 0) + (if Holds(link, proxy) then 1 else 0)
    ensures AllHolders(links[w := link]) == AllHolders(links)
            - (if HoldsSome(links[w]) then 1 else 0) + (if HoldsSome(link) then 1 else 0)
  {
    var last := |links| - 1;
    if w == last {
      assert links[w := link][..last] == links[..last];
    } else {
      assert links[w := link][..last] == links[..last][w := link];
      HoldersUpdate(links[..last], w, link, proxy);
    }
  }

  lemma {:induction false} HoldersBounds(links: seq<Link>, proxy: nat)
    ensures AllHolders(links) <= |links|
    ensures (forall w :: 0 <= w < |links| ==> !HoldsSome(links[w])) ==> Holders(links, proxy) == 0
  {
    if links != [] { HoldersBounds(links[..|links| - 1], proxy); }
  }

  /** active[i] counts the holders of proxy i. */
  ghost predicate Counted(n: nat, pool: Pool.State, links: seq<Link>) {
    && |pool.active| == n && pool.next < n
    && (forall i :: 0 <= i < n ==> pool.active[i] == Holders(links, i))
    && Pool.Sum(pool.active) == AllHolders(links)
  }

  /** A pool that nobody uses: round robin and least_connections may have moved `next` on. */
  function IdlePool(n: nat, next: nat): Pool.State {
    Pool.State(next, Pool.Fresh(n).active)
  }

  function NoLinks(workers: nat): seq<Link> {
    seq(workers, k => Absent)
  }

  lemma IdleIsCounted(n: nat, next: nat, workers: nat)
    requires next < n
    ensures Counted(n, IdlePool(n, next), NoLinks(workers))
  {
    Pool.SumZero(n);
    forall i: nat ensures Holders(NoLinks(workers), i) == 0 && AllHolders(NoLinks(workers)) == 0 {
      NobodyLinked(workers, i);
    }
  }

  lemma {:induction false} NobodyLinked(workers: nat, i: nat)
    ensures Holders(NoLinks(workers), i) == 0 && AllHolders(NoLinks(workers)) == 0
  {
    if workers > 0 {
      assert NoLinks(workers)[..workers - 1] == NoLinks(workers - 1);
      NobodyLinked(workers - 1, i);
    }
  }

  // Replacing link w: what happens to the counts of holders.
  lemma LinkChange(links: seq<Link>, w: nat, link: Link)
    requires w < |links|
    ensures forall i :: Holders(links[w := link], i) == Holders(links, i)
              - (if Holds(links[w], i) then 1 else 0) + (if Holds(link, i) then 1 else 0)
    ensures AllHolders(links[w := link]) == AllHolders(links)
            - (if HoldsSome(links[w]) then 1 else 0) + (if HoldsSome(link) then 1 else 0)
  {
    forall i: nat ensures Holders(links[w := link], i) == Holders(links, i)
              - (if Holds(links[w], i) then 1 else 0) + (if Holds(link, i) then 1 else 0) {
      HoldersUpdate(links, w, link, i);
    }
    HoldersUpdate(links, w, link, 0);
  }

  // A held slot is counted, so a release always finds a positive count.
  lemma HeldIsCounted(links: seq<Link>, w: nat)
    requires w < |links| && HoldsSome(links[w])
    ensures Holders(links, links[w].proxy) > 0
  {
    LinkChange(links, w, Absent);
  }

  lemma AcquireStep(strategy: Pool.Strategy, n: nat, pool: Pool.State, links: seq<Link>, w: nat, proxy: nat)
    requires Counted(n, pool, links) && Pool.MayAcquire(strategy, pool, proxy)
    requires w < |links| && !HoldsSome(links[w])
    ensures Counted(n, Pool.Acquired(strategy, pool, proxy), links[w := Tunnelling(proxy)])
  {
    var active := pool.active;
    LinkChange(links, w, Tunnelling(proxy));
    Pool.SumUpdate(active, proxy, active[proxy] + 1);
    assert Pool.Acquired(strategy, pool, proxy).active == active[proxy := active[proxy] + 1];
  }

  lemma ReleaseStep(n: nat, pool: Pool.State, links: seq<Link>, w: nat, link: Link)
    requires Counted(n, pool, links) && w < |links| && HoldsSome(links[w]) && links[w].proxy < n && !HoldsSome(link)
    ensures Counted(n, Pool.Released(pool, links[w].proxy), links[w := link])
  {
    var proxy := links[w].proxy;
    LinkChange(links, w, link);
    HeldIsCounted(links, w);
    Pool.SumUpdate(pool.active, proxy, pool.active[proxy] - 1);
    assert Pool.Released(pool, proxy).active == pool.active[proxy := pool.active[proxy] - 1];
  }

  // A worker goes on with the slot it holds, or without any.
  lemma SameSlot(n: nat, pool: Pool.State, links: seq<Link>, w: nat, link: Link)
    requires Counted(n, pool, links) && w < |links| && HoldsSome(link) == HoldsSome(links[w])
    requires forall i :: Holds(link, i) == Holds(links[w], i)
    ensures Counted(n, pool, links[w := link])
  {
    LinkChange(links, w, link);
  }

  /** With no slot held, the pool is idle. */
  lemma NobodyHolds(n: nat, pool: Pool.State, links: seq<Link>)
    requires Counted(n, pool, links) && forall w :: 0 <= w < |links| ==> !HoldsSome(links[w])
    ensures pool == IdlePool(n, pool.next)
  {
    forall i: nat | i < n ensures pool.active[i] == 0 { HoldersBounds(links, i); }
  }
}
