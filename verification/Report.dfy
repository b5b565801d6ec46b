/** The report of internal/report/report.go and filter.go: what makes its order of open ports
    canonical, and how the only-working filter fits with it. */
module Report {
  import opened Common

  datatype ProbeReport = ProbeReport(protocol: string, status: string, duration: int, detail: string, error: string)

  datatype OpenPort = OpenPort(target: string, hostname: string, port: int, duration: int, probes: seq<ProbeReport>)

  datatype DiscoveryReport = DiscoveryReport(target: string, hostname: string, available: bool, how: string, error: string)

  datatype Summary = Summary(total: int, completed: int, open: int, closed: int,
                             timeouts: int, refused: int, unreachable: int, otherErrors: int)

  datatype Document = Document(
    schemaVersion: int, status: string, startedAt: int, finishedAt: int, duration: int,
    requestedTargets: seq<string>, scannedTargets: seq<string>, portCount: int,
    discovery: seq<DiscoveryReport>, openPorts: seq<OpenPort>, summary: Summary, error: string)

  // ---------------------------------------------------------------- the comparator of normalize

  // The order of strings, by their first difference.
  predicate StringLess(a: string, b: string) {
    b != [] && (a == [] || a[0] < b[0] || (a[0] == b[0] && StringLess(a[1..], b[1..])))
  }

  lemma {:induction false} StringLessTotal(a: string, b: string)
    ensures StringLess(a, b) || StringLess(b, a) || a == b
    ensures !(StringLess(a, b) && StringLess(b, a))
    ensures a == b ==> !StringLess(a, b)
  {
    if a != [] && b != [] {
      StringLessTotal(a[1..], b[1..]);
      assert a == [a[0]] + a[1..] && b == [b[0]] + b[1..];
    }
  }

  lemma {:induction false} StringLessTransitive(a: string, b: string, c: string)
    requires StringLess(a, b) && StringLess(b, c)
    ensures StringLess(a, c)
  {
    if a != [] && a[0] == b[0] && b[0] == c[0] { StringLessTransitive(a[1..], b[1..], c[1..]); }
  }

  /** That order: a is before b when it ends where b goes on, or has the smaller character at the
      first place where they differ. */
  lemma {:induction false} StringLessMeans(a: string, b: string)
    ensures StringLess(a, b) <==>
            exists k :: 0 <= k <= |a| && k < |b| && a[..k] == b[..k] && (k == |a| || a[k] < b[k])
  {
    if a != [] && b != [] && a[0] == b[0] {
      var a', b' := a[1..], b[1..];
      StringLessMeans(a', b');
      if k :| 0 <= k <= |a'| && k < |b'| && a'[..k] == b'[..k] && (k == |a'| || a'[k] < b'[k]) {
        assert a[..k + 1] == [a[0]] + a'[..k] && b[..k + 1] == [b[0]] + b'[..k];
      }
      if k :| 0 <= k <= |a| && k < |b| && a[..k] == b[..k] && (k == |a| || a[k] < b[k]) {
        assert k > 0;
        assert a'[..k - 1] == a[..k][1..] && b'[..k - 1] == b[..k][1..];
      }
    } else if b != [] {
      assert a[..0] == b[..0];
      forall k | 0 < k <= |a| && k < |b| ensures a[..k] != b[..k] {
        assert a[..k][0] == a[0] && b[..k][0] == b[0];
      }
    }
  }

  /** Where each target stands in a list: its last position, if it occurs at all. */
  function LastIndex(targets: seq<string>, t: string): Option<nat> {
    if targets == [] then None
    else if targets[|targets| - 1] == t then Some(|targets| - 1)
    else LastIndex(targets[..|targets| - 1], t)
  }

  ghost predicate IsOrder(order: map<string, nat>, targets: seq<string>) {
    && (forall t :: t in order <==> LastIndex(targets, t).Some?)
    && (forall t :: t in order ==> LastIndex(targets, t) == Some(order[t]))
  }

  lemma {:induction false} LastIndexFacts(targets: seq<string>, t: string)
    ensures LastIndex(targets, t).Some? <==> t in targets
    ensures LastIndex(targets, t).Some? ==>
              LastIndex(targets, t).value < |targets| && targets[LastIndex(targets, t).value] == t
    ensures forall i :: 0 <= i < |targets| && targets[i] == t ==>
              LastIndex(targets, t).Some? && i <= LastIndex(targets, t).value
  {
    if targets != [] {
      var init := targets[..|targets| - 1];
      LastIndexFacts(init, t);
      assert forall i :: 0 <= i < |init| ==> init[i] == targets[i];
    }
  }

  /** The less function that normalize hands to the sort. */
  predicate Before(order: map<string, nat>, a: OpenPort, b: OpenPort) {
    if a.target in order && b.target in order && order[a.target] != order[b.target] then
      order[a.target] < order[b.target]
    else if (a.target in order) != (b.target in order) then a.target in order
    else if a.target != b.target then StringLess(a.target, b.target)
    else a.port < b.port
  }

  ghost predicate Injective(order: map<string, nat>) {
    forall t, u :: t in order && u in order && order[t] == order[u] ==> t == u
  }

  predicate SameKey(a: OpenPort, b: OpenPort) {
    a.target == b.target && a.port == b.port
  }

  /** The comparator is a strict weak order whose ties are exactly the entries with the same target
      and port. */
  lemma BeforeIsStrictWeakOrder(order: map<string, nat>, a: OpenPort, b: OpenPort, c: OpenPort)
    requires Injective(order)
    ensures !Before(order, a, a)
    ensures !(Before(order, a, b) && Before(order, b, a))
    ensures !Before(order, a, b) && !Before(order, b, a) <==> SameKey(a, b)
    ensures Before(order, a, b) && Before(order, b, c) ==> Before(order, a, c)
  {
    StringLessTotal(a.target, b.target);
    StringLessTotal(a.target, c.target);
    if StringLess(a.target, b.target) && StringLess(b.target, c.target) {
      StringLessTransitive(a.target, b.target, c.target);
    }
  }

  // ---------------------------------------------------------------- the stable sort

  ghost predicate Sorted(order: map<string, nat>, ports: seq<OpenPort>) {
    forall i, j :: 0 <= i < j < |ports| ==> !Before(order, ports[j], ports[i])
  }

  /** The entries with one target and port, in the order in which they stand. */
  function WithKey(ports: seq<OpenPort>, target: string, port: int): seq<OpenPort> {
    if ports == [] then []
    else WithKey(ports[..|ports| - 1], target, port) +
         (if ports[|ports| - 1].target == target && ports[|ports| - 1].port == port then [ports[|ports| - 1]] else [])
  }

  /** r rearranges s, keeping the order of entries that compare equal. */
  ghost predicate StableRearrangement(s: seq<OpenPort>, r: seq<OpenPort>) {
    forall target, port :: WithKey(r, target, port) == WithKey(s, target, port)
  }

  function Insert(order: map<string, nat>, ports: seq<OpenPort>, x: OpenPort): seq<OpenPort> {
    if ports != [] && Before(order, x, ports[|ports| - 1]) then
      Insert(order, ports[..|ports| - 1], x) + [ports[|ports| - 1]]
    else ports + [x]
  }

  function SortPorts(order: map<string, nat>, ports: seq<OpenPort>): seq<OpenPort> {
    if ports == [] then [] else Insert(order, SortPorts(order, ports[..|ports| - 1]), ports[|ports| - 1])
  }

  lemma {:induction false} WithKeyAppend(a: seq<OpenPort>, b: seq<OpenPort>, target: string, port: int)
    ensures WithKey(a + b, target, port) == WithKey(a, target, port) + WithKey(b, target, port)
  {
    if b == [] {
      assert a + b == a;
    } else {
      assert (a + b)[..|a + b| - 1] == a + b[..|b| - 1];
      WithKeyAppend(a, b[..|b| - 1], target, port);
    }
  }

  lemma OneWithKey(x: OpenPort, target: string, port: int)
    ensures WithKey([x], target, port) == if x.target == target && x.port == port then [x] else []
  {
    assert [x][..0] == [];
  }

  lemma {:induction false} InsertIsStable(order: map<string, nat>, ports: seq<OpenPort>, x: OpenPort, target: string, port: int)
    requires Injective(order)
    ensures WithKey(Insert(order, ports, x), target, port) == WithKey(ports, target, port) + WithKey([x], target, port)
  {
    if ports != [] && Before(order, x, ports[|ports| - 1]) {
      var init, y := ports[..|ports| - 1], ports[|ports| - 1];
      var wx, wy := WithKey([x], target, port), WithKey([y], target, port);
      InsertIsStable(order, init, x, target, port);
      WithKeyAppend(Insert(order, init, x), [y], target, port);
      assert ports == init + [y];
      WithKeyAppend(init, [y], target, port);
      OneWithKey(x, target, port);
      OneWithKey(y, target, port);
      BeforeIsStrictWeakOrder(order, x, y, y);
      assert wx == [] || wy == [];
      Swap(WithKey(init, target, port), wx, wy);
    } else {
      WithKeyAppend(ports, [x], target, port);
    }
  }

  lemma Swap(w: seq<OpenPort>, a: seq<OpenPort>, b: seq<OpenPort>)
    requires a == [] || b == []
    ensures w + a + b == w + b + a
  {
  }

  lemma {:induction false} InsertKeepsSorted(order: map<string, nat>, ports: seq<OpenPort>, x: OpenPort)
    requires Injective(order) && Sorted(order, ports)
    ensures Sorted(order, Insert(order, ports, x))
    ensures forall e :: e in Insert(order, ports, x) <==> e in ports || e == x
  {
    if ports != [] {
      var init, y := ports[..|ports| - 1], ports[|ports| - 1];
      if Before(order, x, y) {
        InsertKeepsSorted(order, init, x);
        BeforeIsStrictWeakOrder(order, x, y, y);
        var r := Insert(order, init, x);
        forall e | e in r ensures !Before(order, y, e) {
          if e != x { assert exists i :: 0 <= i < |init| && ports[i] == e; }
        }
      } else {
        forall i | 0 <= i < |ports| ensures !Before(order, x, ports[i]) {
          NotBeforeTransitive(order, x, y, ports[i]);
        }
      }
    }
  }

  lemma NotBeforeTransitive(order: map<string, nat>, a: OpenPort, b: OpenPort, c: OpenPort)
    requires Injective(order)
    ensures !Before(order, a, b) && !Before(order, b, c) ==> !Before(order, a, c)
    ensures SameKey(b, c) ==> Before(order, a, b) == Before(order, a, c)
  {
    BeforeIsStrictWeakOrder(order, a, b, c);
    BeforeIsStrictWeakOrder(order, a, c, b);
    BeforeIsStrictWeakOrder(order, c, a, b);
    BeforeIsStrictWeakOrder(order, b, a, c);
    BeforeIsStrictWeakOrder(order, b, c, a);
  }

  /** The sort's contract, met by SortPorts. */
  lemma {:induction false} SortIsSortedAndStable(order: map<string, nat>, ports: seq<OpenPort>)
    requires Injective(order)
    ensures Sorted(order, SortPorts(order, ports)) && StableRearrangement(ports, SortPorts(order, ports))
  {
    if ports != [] {
      var init, x := ports[..|ports| - 1], ports[|ports| - 1];
      SortIsSortedAndStable(order, init);
      InsertKeepsSorted(order, SortPorts(order, init), x);
      forall target, port ensures WithKey(SortPorts(order, ports), target, port) == WithKey(ports, target, port) {
        InsertIsStable(order, SortPorts(order, init), x, target, port);
        WithKeyAppend(init, [x], target, port);
        assert init + [x] == ports;
      }
    }
  }

  lemma {:induction false} WithKeyElements(ports: seq<OpenPort>, target: string, port: int)
    ensures forall e :: e in WithKey(ports, target, port) <==> e in ports && e.target == target && e.port == port
  {
    if ports != [] {
      WithKeyElements(ports[..|ports| - 1], target, port);
      assert ports == ports[..|ports| - 1] + [ports[|ports| - 1]];
    }
  }

  // Two sorted rearrangements end in the same entry.
  lemma SameLast(order: map<string, nat>, a: seq<OpenPort>, b: seq<OpenPort>)
    requires Injective(order) && Sorted(order, a) && Sorted(order, b) && StableRearrangement(a, b) && a != []
    ensures b != [] && a[|a| - 1] == b[|b| - 1]
  {
    var x := a[|a| - 1];
    WithKeyElements(a, x.target, x.port);
    WithKeyElements(b, x.target, x.port);
    assert x in b;
    var y := b[|b| - 1];
    WithKeyElements(a, y.target, y.port);
    WithKeyElements(b, y.target, y.port);
    assert y in a;
    assert !Before(order, x, y) && !Before(order, y, x) by {
      BeforeIsStrictWeakOrder(order, x, y, x);
      var i :| 0 <= i < |a| && a[i] == y;
      var j :| 0 <= j < |b| && b[j] == x;
    }
    BeforeIsStrictWeakOrder(order, x, y, y);
    var w := WithKey(a, x.target, x.port);
    assert w == WithKey(b, x.target, x.port);
    assert w == WithKey(a[..|a| - 1], x.target, x.port) + [x];
    assert w == WithKey(b[..|b| - 1], x.target, x.port) + [y];
    assert w[|w| - 1] == x;
  }

  /** Any stable sort gives the same list, so the library's algorithm does not matter. */
  lemma {:induction false} StableSortIsUnique(order: map<string, nat>, a: seq<OpenPort>, b: seq<OpenPort>)
    requires Injective(order) && Sorted(order, a) && Sorted(order, b) && StableRearrangement(a, b)
    ensures a == b
  {
    if a == [] {
      if b != [] {
        var y := b[|b| - 1];
        assert y in b;
        WithKeyElements(b, y.target, y.port);
      }
    } else {
      SameLast(order, a, b);
      var a', b' := a[..|a| - 1], b[..|b| - 1];
      forall target, port ensures WithKey(a', target, port) == WithKey(b', target, port) {
        var tail := WithKey([a[|a| - 1]], target, port);
        assert a == a' + [a[|a| - 1]] && b == b' + [a[|a| - 1]];
        WithKeyAppend(a', [a[|a| - 1]], target, port);
        WithKeyAppend(b', [a[|a| - 1]], target, port);
        SuffixCancels(WithKey(a', target, port), WithKey(b', target, port), tail);
      }
      StableSortIsUnique(order, a', b');
    }
  }

  lemma SuffixCancels(a: seq<OpenPort>, b: seq<OpenPort>, tail: seq<OpenPort>)
    requires a + tail == b + tail
    ensures a == b
  {
    assert |a| == |b|;
    assert a == (a + tail)[..|a|] && b == (b + tail)[..|b|];
  }

  ghost predicate DistinctKeys(ports: seq<OpenPort>) {
    forall i, j :: 0 <= i < j < |ports| ==> !SameKey(ports[i], ports[j])
  }

  lemma {:induction false} NoneWithKey(ports: seq<OpenPort>, target: string, port: int)
    requires forall i :: 0 <= i < |ports| ==> !(ports[i].target == target && ports[i].port == port)
    ensures WithKey(ports, target, port) == []
  {
    if ports != [] { NoneWithKey(ports[..|ports| - 1], target, port); }
  }

  lemma {:induction false} DistinctKeysGiveOne(ports: seq<OpenPort>, target: string, port: int)
    requires DistinctKeys(ports)
    ensures |WithKey(ports, target, port)| <= 1
  {
    if ports != [] {
      var init, x := ports[..|ports| - 1], ports[|ports| - 1];
      DistinctKeysGiveOne(init, target, port);
      if x.target == target && x.port == port { NoneWithKey(init, target, port); }
    }
  }

  lemma SameEntriesSameWithKey(a: seq<OpenPort>, b: seq<OpenPort>, target: string, port: int)
    requires DistinctKeys(a) && DistinctKeys(b) && forall e :: e in a <==> e in b
    ensures WithKey(a, target, port) == WithKey(b, target, port)
  {
    var wa, wb := WithKey(a, target, port), WithKey(b, target, port);
    assert |wa| <= 1 && |wb| <= 1 by {
      DistinctKeysGiveOne(a, target, port);
      DistinctKeysGiveOne(b, target, port);
    }
    assert forall e :: e in wa <==> e in wb by {
      WithKeyElements(a, target, port);
      WithKeyElements(b, target, port);
    }
    if wa != [] { assert wa[0] in wb; }
    if wb != [] { assert wb[0] in wa; }
  }

  lemma SameSort(order: map<string, nat>, a: seq<OpenPort>, b: seq<OpenPort>)
    requires Injective(order) && StableRearrangement(a, b)
    ensures SortPorts(order, a) == SortPorts(order, b)
  {
    SortIsSortedAndStable(order, a);
    SortIsSortedAndStable(order, b);
    StableSortIsUnique(order, SortPorts(order, a), SortPorts(order, b));
  }

  /** The report hides scheduling: two orders of the same open ports, no two with the same target
      and port, sort to the same list. */
  lemma SortHidesArrivalOrder(order: map<string, nat>, a: seq<OpenPort>, b: seq<OpenPort>)
    requires Injective(order) && DistinctKeys(a) && DistinctKeys(b)
    requires forall e :: e in a <==> e in b
    ensures SortPorts(order, a) == SortPorts(order, b)
  {
    forall target, port ensures WithKey(b, target, port) == WithKey(a, target, port) {
      SameEntriesSameWithKey(a, b, target, port);
    }
    SameSort(order, a, b);
  }

  // ---------------------------------------------------------------- normalize

  /** sort.SliceStable on the copied slice: an insertion sort in place. */
  method SliceStable(order: map<string, nat>, a: array<OpenPort>)
    modifies a
    ensures a[..] == SortPorts(order, old(a[..]))
  {
    ghost var was := a[..];
    for i := 0 to a.Length
      invariant a[..i] == SortPorts(order, was[..i]) && a[i..] == was[i..]
    {
      assert a[i] == a[i..][0] && a[i + 1..] == a[i..][1..];
      InsertLast(order, a, i);
      SortOneMore(order, was, i);
    }
    assert was[..a.Length] == was && a[..a.Length] == a[..];
  }

  lemma SortOneMore(order: map<string, nat>, ports: seq<OpenPort>, i: nat)
    requires i < |ports|
    ensures SortPorts(order, ports[..i + 1]) == Insert(order, SortPorts(order, ports[..i]), ports[i..][0])
    ensures ports[i..][1..] == ports[i + 1..]
  {
    assert ports[..i + 1][..i] == ports[..i];
  }

  method InsertLast(order: map<string, nat>, a: array<OpenPort>, i: nat)
    requires i < a.Length
    modifies a
    ensures a[..i + 1] == Insert(order, old(a[..i]), old(a[i]))
    ensures a[i + 1..] == old(a[i + 1..])
  {
    ghost var sorted, x := a[..i], a[i];
    var j := i;
    assert a[..i + 1] == Placed(sorted, x, i);
    while j > 0 && Before(order, a[j], a[j - 1])
      invariant 0 <= j <= i && a[..i + 1] == Placed(sorted, x, j)
      invariant forall k :: j <= k < i ==> Before(order, x, sorted[k])
      invariant a[i + 1..] == old(a[i + 1..])
    {
      ghost var before := a[..i + 1];
      PlacedAt(sorted, x, j, j);
      PlacedAt(sorted, x, j, j - 1);
      assert a[j] == before[j] && a[j - 1] == before[j - 1];
      a[j], a[j - 1] := a[j - 1], a[j];
      assert a[..i + 1] == before[j := before[j - 1]][j - 1 := before[j]];
      SwapPlaced(sorted, x, j);
      j := j - 1;
    }
    ghost var after := a[..i + 1];
    PlacedAt(sorted, x, j, j);
    assert a[j] == after[j];
    if j > 0 {
      PlacedAt(sorted, x, j, j - 1);
      assert a[j - 1] == after[j - 1];
    }
    InsertAt(order, sorted, x, j);
  }

  function Placed(ports: seq<OpenPort>, x: OpenPort, j: nat): (r: seq<OpenPort>)
    requires j <= |ports|
    ensures |r| == |ports| + 1
  {
    ports[..j] + [x] + ports[j..]
  }

  lemma PlacedAt(ports: seq<OpenPort>, x: OpenPort, j: nat, k: nat)
    requires j <= |ports| && k <= |ports|
    ensures Placed(ports, x, j)[k] == if k < j then ports[k] else if k == j then x else ports[k - 1]
  {
  }

  lemma SwapPlaced(ports: seq<OpenPort>, x: OpenPort, j: nat)
    requires 0 < j <= |ports|
    ensures Placed(ports, x, j)[j := ports[j - 1]][j - 1 := x] == Placed(ports, x, j - 1)
  {
    var r := Placed(ports, x, j)[j := ports[j - 1]][j - 1 := x];
    forall k | 0 <= k < |r| ensures r[k] == Placed(ports, x, j - 1)[k] {
      PlacedAt(ports, x, j, k);
      PlacedAt(ports, x, j - 1, k);
    }
  }

  lemma {:induction false} InsertAt(order: map<string, nat>, ports: seq<OpenPort>, x: OpenPort, j: nat)
    requires j <= |ports| && (j > 0 ==> !Before(order, x, ports[j - 1]))
    requires forall k :: j <= k < |ports| ==> Before(order, x, ports[k])
    ensures Insert(order, ports, x) == Placed(ports, x, j)
  {
    if j < |ports| {
      var init, y := ports[..|ports| - 1], ports[|ports| - 1];
      assert Before(order, x, y);
      InsertAt(order, init, x, j);
      PlacedBeforeLast(ports, x, j);
    } else {
      assert Placed(ports, x, j) == ports + [x];
    }
  }

  lemma PlacedBeforeLast(ports: seq<OpenPort>, x: OpenPort, j: nat)
    requires j < |ports|
    ensures Placed(ports[..|ports| - 1], x, j) + [ports[|ports| - 1]] == Placed(ports, x, j)
  {
  }

  /** The map that normalize fills: every target's last position. */
  function Order(targets: seq<string>): map<string, nat> {
    if targets == [] then map[] else Order(targets[..|targets| - 1])[targets[|targets| - 1] := |targets| - 1]
  }

  lemma {:induction false} OrderGivesLastIndex(targets: seq<string>)
    ensures IsOrder(Order(targets), targets)
  {
    if targets != [] { OrderGivesLastIndex(targets[..|targets| - 1]); }
  }

  lemma OrderIsInjective(targets: seq<string>)
    ensures Injective(Order(targets))
  {
    var order := Order(targets);
    OrderGivesLastIndex(targets);
    forall t, u | t in order && u in order && order[t] == order[u] ensures t == u {
      LastIndexFacts(targets, t);
      LastIndexFacts(targets, u);
    }
  }

  /** How the open ports of a report follow each other, a before b: targets that were scanned come
      first, by their last place in the list of scanned targets; the others follow by name; the ports
      of one target ascend. */
  predicate InReportOrder(targets: seq<string>, a: OpenPort, b: OpenPort) {
    if a.target == b.target then a.port <= b.port
    else match (LastIndex(targets, a.target), LastIndex(targets, b.target))
      case (Some(i), Some(j)) => i < j
      case (Some(_), None) => true
      case (None, Some(_)) => false
      case (None, None) => StringLess(a.target, b.target)
  }

  lemma BeforeMeans(targets: seq<string>, a: OpenPort, b: OpenPort)
    ensures !Before(Order(targets), b, a) <==> InReportOrder(targets, a, b)
  {
    OrderGivesLastIndex(targets);
    LastIndexFacts(targets, a.target);
    LastIndexFacts(targets, b.target);
    StringLessTotal(a.target, b.target);
  }

  lemma {:induction false} InsertMultiset(order: map<string, nat>, ports: seq<OpenPort>, x: OpenPort)
    ensures multiset(Insert(order, ports, x)) == multiset(ports) + multiset{x}
  {
    if ports != [] && Before(order, x, ports[|ports| - 1]) {
      InsertMultiset(order, ports[..|ports| - 1], x);
      assert ports == ports[..|ports| - 1] + [ports[|ports| - 1]];
    }
  }

  lemma {:induction false} SortMultiset(order: map<string, nat>, ports: seq<OpenPort>)
    ensures multiset(SortPorts(order, ports)) == multiset(ports)
  {
    if ports != [] {
      var init, x := ports[..|ports| - 1], ports[|ports| - 1];
      var sorted := SortPorts(order, init);
      assert multiset(sorted) == multiset(init) by { SortMultiset(order, init); }
      assert multiset(Insert(order, sorted, x)) == multiset(init) + multiset{x} by { InsertMultiset(order, sorted, x); }
      assert multiset(ports) == multiset(init) + multiset{x} by { assert ports == init + [x]; }
    }
  }

  /** The open ports of a normalized report stand in that order, each as often as before, and entries
      with the same target and port as they stood. */
  lemma NormalizedIsInOrder(d: Document)
    ensures var ports := Normalized(d).openPorts;
            && (forall i, j :: 0 <= i < j < |ports| ==> InReportOrder(d.scannedTargets, ports[i], ports[j]))
            && multiset(ports) == multiset(d.openPorts) && StableRearrangement(d.openPorts, ports)
  {
    var ports, order := Normalized(d).openPorts, Order(d.scannedTargets);
    OrderIsInjective(d.scannedTargets);
    SortIsSortedAndStable(order, d.openPorts);
    SortMultiset(order, d.openPorts);
    forall i, j | 0 <= i < j < |ports| ensures InReportOrder(d.scannedTargets, ports[i], ports[j]) {
      BeforeMeans(d.scannedTargets, ports[i], ports[j]);
    }
  }

  ghost function Normalized(d: Document): Document {
    d.(openPorts := SortPorts(Order(d.scannedTargets), d.openPorts))
  }

  method Normalize(document: Document) returns (normalized: Document)
    ensures normalized == Normalized(document)
    ensures normalized == document.(openPorts := normalized.openPorts)
    ensures forall i, j :: 0 <= i < j < |normalized.openPorts| ==>
              InReportOrder(document.scannedTargets, normalized.openPorts[i], normalized.openPorts[j])
    ensures multiset(normalized.openPorts) == multiset(document.openPorts)
    ensures StableRearrangement(document.openPorts, normalized.openPorts)
  {
    NormalizedIsInOrder(document);
    var targetOrder: map<string, nat> := map[];
    for index := 0 to |document.scannedTargets|
      invariant targetOrder == Order(document.scannedTargets[..index])
    {
      assert document.scannedTargets[..index + 1][..index] == document.scannedTargets[..index];
      targetOrder := targetOrder[document.scannedTargets[index] := index];
    }
    assert document.scannedTargets[..|document.scannedTargets|] == document.scannedTargets;
    var openPorts := new OpenPort[|document.openPorts|](i requires 0 <= i < |document.openPorts| => document.openPorts[i]);
    assert openPorts[..] == document.openPorts;
    SliceStable(targetOrder, openPorts);
    normalized := document.(openPorts := openPorts[..]);
  }

  /** Normalizing again changes nothing. */
  lemma NormalizeIsIdempotent(d: Document)
    ensures Normalized(Normalized(d)) == Normalized(d)
  {
    var order := Order(d.scannedTargets);
    OrderIsInjective(d.scannedTargets);
    SortIsSortedAndStable(order, d.openPorts);
    SameSort(order, SortPorts(order, d.openPorts), d.openPorts);
  }

  lemma SortElements(order: map<string, nat>, ports: seq<OpenPort>)
    ensures forall e :: e in SortPorts(order, ports) <==> e in ports
    ensures |SortPorts(order, ports)| == |ports|
  {
    SortMultiset(order, ports);
    assert |multiset(SortPorts(order, ports))| == |multiset(ports)|;
    forall e ensures e in SortPorts(order, ports) <==> e in ports {
      assert e in multiset(SortPorts(order, ports)) <==> e in multiset(ports);
    }
  }
}
