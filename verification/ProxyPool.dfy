/** The load-balancing allocator of internal/proxypool/pool.go: which proxy each dial takes,
    how a finished connection gives it back, and what that does to the load over whole runs. */
module ProxyPool {

  datatype Strategy = RoundRobin | Random | LeastConnections

  /** The fields that the pool's mutex guards. */
  datatype State = State(next: nat, active: seq<nat>)

  function Fresh(n: nat): State {
    State(0, seq(n, i => 0))
  }

  ghost predicate WellFormed(s: State) {
    s.next < |s.active|
  }

  // How many steps after `start` a cyclic scan over n proxies meets `index`.
  ghost function CyclicDistance(start: nat, index: nat, n: nat): nat
    requires start < n && index < n
  {
    if index >= start then index - start else index + n - start
  }

  /** `index` is the first proxy, scanning cyclically from `start`, with the least load. */
  ghost predicate FirstMinimum(active: seq<nat>, start: nat, index: nat)
    requires start < |active|
  {
    && index < |active|
    && (forall j :: 0 <= j < |active| ==> active[index] <= active[j])
    && (forall j :: 0 <= j < |active| && active[j] == active[index] ==>
          CyclicDistance(start, index, |active|) <= CyclicDistance(start, j, |active|))
  }

  /** Proxy `index` may be taken in state s. */
  ghost predicate MayAcquire(strategy: Strategy, s: State, index: nat)
    requires WellFormed(s)
  {
    match strategy
    case RoundRobin => index == s.next
    case Random => index < |s.active|
    case LeastConnections => FirstMinimum(s.active, s.next, index)
  }

  /** The proxy after this one, cyclically. */
  function Following(index: nat, n: nat): nat {
    if index + 1 == n then 0 else index + 1
  }

  lemma FollowingIsModulo(index: nat, n: nat)
    requires index < n
    ensures (index + 1) % n == Following(index, n)
  {
    if index + 1 == n { DivModUnique(n, n, 1, 0); } else { DivModUnique(index + 1, n, 0, index + 1); }
  }

  ghost function Acquired(strategy: Strategy, s: State, index: nat): State
    requires WellFormed(s) && MayAcquire(strategy, s, index)
  {
    State(if strategy.Random? then s.next else Following(index, |s.active|),
          s.active[index := s.active[index] + 1])
  }

  ghost function Released(s: State, index: nat): State
    requires index < |s.active|
  {
    if s.active[index] > 0 then s.(active := s.active[index := s.active[index] - 1]) else s
  }

  lemma CyclicStep(start: nat, offset: nat, n: nat)
    requires start < n && offset < n
    ensures (start + offset) % n < n
    ensures CyclicDistance(start, (start + offset) % n, n) == offset
    ensures forall j :: 0 <= j < n && CyclicDistance(start, j, n) == offset ==> j == (start + offset) % n
  {
    if start + offset >= n { DivModUnique(start + offset, n, 1, start + offset - n); }
  }

  class Pool {
    const strategy: Strategy
    const active: array<nat>
    var next: nat

    ghost predicate Valid()
      reads this
    {
      next < active.Length
    }

    ghost function View(): State
      reads this, active
    {
      State(next, active[..])
    }

    constructor (strategy: Strategy, n: nat)
      requires n > 0
      ensures Valid() && fresh(active) && this.strategy == strategy
      ensures View() == Fresh(n)
    {
      this.strategy := strategy;
      active := new nat[n](i => 0);
      next := 0;
    }

    method Acquire() returns (index: nat)
      requires Valid()
      modifies this`next, active
      ensures Valid()
      ensures MayAcquire(strategy, old(View()), index)
      ensures View() == Acquired(strategy, old(View()), index)
      ensures active[..] == old(active[..])[index := old(active[index]) + 1]
      ensures next == if strategy.Random? then old(next) else (index + 1) % active.Length
    {
      match strategy {
        case Random =>
          index :| index < active.Length;
        case LeastConnections =>
          index := LeastLoaded();
          FollowingIsModulo(index, active.Length);
          next := (index + 1) % active.Length;
        case RoundRobin =>
          index := next;
          FollowingIsModulo(next, active.Length);
          next := (next + 1) % active.Length;
      }
      active[index] := active[index] + 1;
    }

    // The candidate loop of the least_connections branch.
    method LeastLoaded() returns (index: nat)
      requires Valid()
      ensures FirstMinimum(active[..], next, index)
    {
      index := next;
      var offset := 1;
      while offset < active.Length
        invariant 1 <= offset <= active.Length && index < active.Length
        invariant CyclicDistance(next, index, active.Length) < offset
        invariant forall j :: 0 <= j < active.Length && CyclicDistance(next, j, active.Length) < offset ==>
                    && active[index] <= active[j]
                    && (active[j] == active[index] ==>
                          CyclicDistance(next, index, active.Length) <= CyclicDistance(next, j, active.Length))
      {
        var candidate := (next + offset) % active.Length;
        CyclicStep(next, offset, active.Length);
        if active[candidate] < active[index] {
          index := candidate;
        }
        offset := offset + 1;
      }
    }

    method Release(index: nat)
      requires Valid() && index < active.Length
      modifies active
      ensures Valid() && View() == Released(old(View()), index)
    {
      if active[index] > 0 {
        active[index] := active[index] - 1;
      }
    }
  }

  /** A pooled connection: closing it again closes the socket again but releases nothing. */
  class TrackedConn {
    const pool: Pool
    const index: nat
    var released: bool   // the state of the sync.Once
    var socketCloses: nat

    constructor (pool: Pool, index: nat)
      ensures this.pool == pool && this.index == index && !released && socketCloses == 0
    {
      this.pool, this.index, released, socketCloses := pool, index, false, 0;
    }

    method Close()
      requires pool.Valid() && index < pool.active.Length
      modifies this, pool.active
      ensures released && socketCloses == old(socketCloses) + 1 && pool.Valid()
      ensures pool.View() == if old(released) then old(pool.View()) else Released(old(pool.View()), index)
    {
      socketCloses := socketCloses + 1;
      if !released {
        released := true;
        pool.Release(index);
      }
    }
  }

  // ---------------------------------------------------------------- runs

  datatype Op = Acquire(index: nat) | Release(index: nat)

  /** Op is possible in s: an acquire picks what the strategy says, a release gives back a
      connection that is still held. */
  ghost predicate Permitted(strategy: Strategy, s: State, op: Op)
    requires WellFormed(s)
  {
    match op
    case Acquire(i) => MayAcquire(strategy, s, i)
    case Release(i) => i < |s.active| && s.active[i] > 0
  }

  ghost function Apply(strategy: Strategy, s: State, op: Op): State
    requires WellFormed(s) && Permitted(strategy, s, op)
  {
    match op
    case Acquire(i) => Acquired(strategy, s, i)
    case Release(i) => Released(s, i)
  }

  /** The state after the operations, and whether each of them was possible in turn. */
  ghost function Run(strategy: Strategy, n: nat, ops: seq<Op>): (r: (bool, State))
    requires n > 0
    ensures r.0 ==> WellFormed(r.1) && |r.1.active| == n
  {
    if ops == [] then (true, Fresh(n))
    else
      var (ok, s) := Run(strategy, n, ops[..|ops| - 1]);
      if ok && Permitted(strategy, s, ops[|ops| - 1]) then
        (true, Apply(strategy, s, ops[|ops| - 1]))
      else (false, s)
  }

  function Sum(a: seq<nat>): nat {
    if a == [] then 0 else Sum(a[..|a| - 1]) + a[|a| - 1]
  }

  function Max(x: nat, y: nat): nat {
    if x > y then x else y
  }

  function Highest(a: seq<nat>): nat {
    if a == [] then 0 else Max(Highest(a[..|a| - 1]), a[|a| - 1])
  }

  /** x / n, rounded up. */
  function CeilDiv(x: nat, n: nat): nat
    requires n > 0
  {
    if x == 0 then 0 else 1 + CeilDiv(if x > n then x - n else 0, n)
  }

  /** The largest number of connections that were live at once. */
  ghost function PeakTotal(strategy: Strategy, n: nat, ops: seq<Op>): nat
    requires n > 0
  {
    if ops == [] then 0
    else Max(PeakTotal(strategy, n, ops[..|ops| - 1]), Sum(Run(strategy, n, ops).1.active))
  }

  /** The largest load that any one proxy ever carried. */
  ghost function PeakLoad(strategy: Strategy, n: nat, ops: seq<Op>): nat
    requires n > 0
  {
    if ops == [] then 0
    else Max(PeakLoad(strategy, n, ops[..|ops| - 1]), Highest(Run(strategy, n, ops).1.active))
  }

  lemma {:induction false} SumUpdate(a: seq<nat>, i: nat, v: nat)
    requires i < |a|
    ensures Sum(a[i := v]) == Sum(a) - a[i] + v
  {
    var last := |a| - 1;
    if i == last {
      assert a[i := v][..last] == a[..last];
    } else {
      assert a[i := v][..last] == a[..last][i := v];
      SumUpdate(a[..last], i, v);
    }
  }

  lemma {:induction false} HighestBounds(a: seq<nat>)
    ensures forall i :: 0 <= i < |a| ==> a[i] <= Highest(a)
    ensures a != [] ==> Highest(a) in a
  {
    if a != [] {
      var init := a[..|a| - 1];
      HighestBounds(init);
      forall i | 0 <= i < |a| ensures a[i] <= Highest(a) {
        if i < |a| - 1 { assert a[i] == init[i]; }
      }
    }
  }

  lemma OneMore(n: nat, k: nat)
    ensures (n + 1) * k == n * k + k
  {
  }

  lemma {:induction false} SumBounds(a: seq<nat>, low: nat, high: nat)
    requires forall i :: 0 <= i < |a| ==> low <= a[i] <= high
    ensures |a| * low <= Sum(a) <= |a| * high
  {
    if a != [] {
      var n := |a| - 1;
      SumBounds(a[..n], low, high);
      OneMore(n, low);
      OneMore(n, high);
    }
  }

  lemma SumZero(n: nat)
    ensures Sum(Fresh(n).active) == 0 && Highest(Fresh(n).active) == 0
  {
    if n > 0 {
      assert Fresh(n).active[..n - 1] == Fresh(n - 1).active;
      SumZero(n - 1);
    }
  }

  lemma {:induction false} CeilDivLeast(x: nat, n: nat, q: nat)
    requires n > 0
    ensures CeilDiv(x, n) <= q <==> x <= n * q
  {
    if x > 0 && q > 0 {
      CeilDivLeast(if x > n then x - n else 0, n, q - 1);
      OneMore(q - 1, n);
    }
  }

  // No distribution of a load over n proxies keeps every proxy below the ceiling.
  lemma CeilingIsUnavoidable(a: seq<nat>)
    requires a != []
    ensures CeilDiv(Sum(a), |a|) <= Highest(a)
  {
    HighestBounds(a);
    SumBounds(a, 0, Highest(a));
    CeilDivLeast(Sum(a), |a|, Highest(a));
  }

  // Taking a least-loaded proxy lifts it no higher than the new total makes unavoidable.
  lemma MinimumStaysBelowCeiling(a: seq<nat>, i: nat)
    requires i < |a| && forall j :: 0 <= j < |a| ==> a[i] <= a[j]
    ensures a[i] + 1 <= CeilDiv(Sum(a) + 1, |a|)
  {
    SumBounds(a, a[i], Highest(a)) by { HighestBounds(a); }
    CeilDivLeast(Sum(a) + 1, |a|, a[i]);
  }

  lemma CeilDivMonotone(x: nat, y: nat, n: nat)
    requires n > 0 && x <= y
    ensures CeilDiv(x, n) <= CeilDiv(y, n)
  {
    CeilDivLeast(y, n, CeilDiv(y, n));
    CeilDivLeast(x, n, CeilDiv(y, n));
  }

  /** Over every run from a fresh pool, least_connections never loads any proxy more than the
      busiest moment of the run makes unavoidable, and reaches exactly that. */
  lemma {:induction false} LeastConnectionsIsOptimal(n: nat, ops: seq<Op>)
    requires n > 0 && Run(LeastConnections, n, ops).0
    ensures PeakLoad(LeastConnections, n, ops) == CeilDiv(PeakTotal(LeastConnections, n, ops), n)
  {
    if ops != [] {
      var before := ops[..|ops| - 1];
      var s, s' := Run(LeastConnections, n, before).1, Run(LeastConnections, n, ops).1;
      var peak, peak' := PeakTotal(LeastConnections, n, before), PeakTotal(LeastConnections, n, ops);
      LeastConnectionsIsOptimal(n, before);
      assert Highest(s.active) <= CeilDiv(peak, n) by { LoadSoFar(LeastConnections, n, before); }
      OneStep(s, ops[|ops| - 1]);
      CeilingIsUnavoidable(s'.active);
      CeilDivMonotone(peak, peak', n);
      CeilDivMonotone(Sum(s'.active), peak', n);
    }
  }

  // One operation lifts the highest load only to what the new total makes unavoidable.
  lemma OneStep(s: State, op: Op)
    requires WellFormed(s) && Permitted(LeastConnections, s, op)
    ensures var s' := Apply(LeastConnections, s, op);
            Highest(s'.active) <= Max(Highest(s.active), CeilDiv(Sum(s'.active), |s.active|))
  {
    var s' := Apply(LeastConnections, s, op);
    HighestBounds(s.active);
    HighestBounds(s'.active);
    if op.Acquire? {
      MinimumStaysBelowCeiling(s.active, op.index);
      SumUpdate(s.active, op.index, s.active[op.index] + 1);
    }
  }

  // The peaks cover the present moment.
  lemma {:induction false} LoadSoFar(strategy: Strategy, n: nat, ops: seq<Op>)
    requires n > 0 && Run(strategy, n, ops).0
    ensures Highest(Run(strategy, n, ops).1.active) <= PeakLoad(strategy, n, ops)
    ensures Sum(Run(strategy, n, ops).1.active) <= PeakTotal(strategy, n, ops)
  {
    if ops == [] { SumZero(n); }
  }

  ghost function Acquires(ops: seq<Op>): nat {
    if ops == [] then 0 else Acquires(ops[..|ops| - 1]) + (if ops[|ops| - 1].Acquire? then 1 else 0)
  }

  ghost function CountOp(ops: seq<Op>, op: Op): nat {
    if ops == [] then 0 else CountOp(ops[..|ops| - 1], op) + (if ops[|ops| - 1] == op then 1 else 0)
  }

  /** Whatever the strategy, `active` counts the connections taken and not yet given back. */
  lemma {:induction false} ActiveCountsHeld(strategy: Strategy, n: nat, ops: seq<Op>, i: nat)
    requires n > 0 && i < n && Run(strategy, n, ops).0
    ensures Run(strategy, n, ops).1.active[i] == CountOp(ops, Acquire(i)) - CountOp(ops, Release(i))
  {
    if ops != [] {
      ActiveCountsHeld(strategy, n, ops[..|ops| - 1], i);
    }
  }

  lemma NextModulo(k: nat, n: nat)
    requires n > 0
    ensures (k % n + 1) % n == (k + 1) % n
    ensures k % n + 1 < n ==> (k + 1) % n == k % n + 1 && (k + 1) / n == k / n
    ensures k % n + 1 == n ==> (k + 1) % n == 0 && (k + 1) / n == k / n + 1
  {
    var q, r := k / n, k % n;
    if r + 1 < n {
      DivModUnique(k + 1, n, q, r + 1);
      DivModUnique(r + 1, n, 0, r + 1);
    } else {
      OneMore(q, n);
      DivModUnique(k + 1, n, q + 1, 0);
      DivModUnique(n, n, 1, 0);
    }
  }

  lemma DivModUnique(x: nat, n: nat, q: nat, r: nat)
    requires n > 0 && r < n && x == n * q + r
    ensures x / n == q && x % n == r
  {
    var q', r' := x / n, x % n;
    assert n * q + r == n * q' + r';
    if q < q' { ProductMonotone(n, q + 1, q'); }
    if q' < q { ProductMonotone(n, q' + 1, q); }
  }

  lemma ProductMonotone(n: nat, a: nat, b: nat)
    requires a <= b
    ensures n * a <= n * b
  {
  }

  /** Round robin: the k-th acquire takes proxy k mod n, whatever was released in between. */
  lemma {:induction false} RoundRobinRotates(n: nat, ops: seq<Op>)
    requires n > 0 && Run(RoundRobin, n, ops).0
    ensures Run(RoundRobin, n, ops).1.next == Acquires(ops) % n
    ensures ops != [] && ops[|ops| - 1].Acquire? ==>
              ops[|ops| - 1].index == (Acquires(ops) - 1) % n
  {
    if ops != [] {
      RoundRobinRotates(n, ops[..|ops| - 1]);
      NextModulo(Acquires(ops[..|ops| - 1]), n);
    }
  }

  /** k connections dealt out to n proxies in turn. */
  function Dealt(k: nat, n: nat): State
    requires n > 0
  {
    State(k % n, seq(n, j requires 0 <= j < n => Share(k, n, j)))
  }

  function Share(k: nat, n: nat, j: nat): nat
    requires n > 0
  {
    if j < k % n then k / n + 1 else k / n
  }

  lemma ShareStep(k: nat, n: nat, j: nat)
    requires n > 0 && j < n
    ensures Share(k + 1, n, j) == Share(k, n, j) + if j == k % n then 1 else 0
  {
    NextModulo(k, n);
  }

  lemma DealtStep(k: nat, n: nat)
    requires n > 0
    ensures var s := Dealt(k, n);
            && FirstMinimum(s.active, s.next, s.next)
            && (forall index :: FirstMinimum(s.active, s.next, index) ==> index == k % n)
            && Acquired(LeastConnections, s, k % n) == Dealt(k + 1, n)
  {
    var s := Dealt(k, n);
    assert CyclicDistance(s.next, s.next, n) == 0;
    NextModulo(k, n);
    FollowingIsModulo(k % n, n);
    forall j: nat | j < n ensures Share(k + 1, n, j) == Share(k, n, j) + if j == k % n then 1 else 0 {
      ShareStep(k, n, j);
    }
  }

  lemma DealtNothing(n: nat)
    requires n > 0
    ensures Fresh(n) == Dealt(0, n)
  {
    DivModUnique(0, n, 0, 0);
  }

  /** With nothing released, least_connections makes round robin's choices and deals the
      connections out evenly. */
  lemma {:induction false} LeastConnectionsRotates(n: nat, ops: seq<Op>)
    requires n > 0 && Run(LeastConnections, n, ops).0
    requires forall k :: 0 <= k < |ops| ==> ops[k].Acquire?
    ensures forall k :: 0 <= k < |ops| ==> ops[k].index == k % n
    ensures Run(LeastConnections, n, ops).1 == Dealt(|ops|, n)
  {
    if ops == [] {
      DealtNothing(n);
    } else {
      var before, k := ops[..|ops| - 1], |ops| - 1;
      assert forall j :: 0 <= j < k ==> ops[j] == before[j];
      LeastConnectionsRotates(n, before);
      DealtStep(k, n);
      assert ops[k].index == k % n;
    }
  }
}
