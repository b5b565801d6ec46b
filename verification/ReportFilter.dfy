/** The only-working filter of internal/report/filter.go, and how it fits with normalize. */
module ReportFilter {
  import opened Common
  import opened Report

  function KeepAvailable(results: seq<DiscoveryReport>): seq<DiscoveryReport> {
    if results == [] then []
    else
      var kept, last := KeepAvailable(results[..|results| - 1]), results[|results| - 1];
      if last.available then kept + [last.(error := "")] else kept
  }

  function KeepOk(probes: seq<ProbeReport>): seq<ProbeReport> {
    if probes == [] then []
    else
      var kept, last := KeepOk(probes[..|probes| - 1]), probes[|probes| - 1];
      if last.status == "ok" then kept + [last.(error := "")] else kept
  }

  function Kept(targets: seq<string>, working: set<string>): seq<string> {
    if targets == [] then []
    else
      var kept, last := Kept(targets[..|targets| - 1], working), targets[|targets| - 1];
      if last in working then kept + [last] else kept
  }

  function Clean(p: OpenPort): OpenPort {
    p.(probes := KeepOk(p.probes))
  }

  function CleanAll(ports: seq<OpenPort>): seq<OpenPort> {
    if ports == [] then [] else CleanAll(ports[..|ports| - 1]) + [Clean(ports[|ports| - 1])]
  }

  function Available(results: seq<DiscoveryReport>): set<string> {
    if results == [] then {}
    else
      var last := results[|results| - 1];
      Available(results[..|results| - 1]) + if last.available then {last.target} else {}
  }

  function OpenTargets(ports: seq<OpenPort>): set<string> {
    if ports == [] then {} else OpenTargets(ports[..|ports| - 1]) + {ports[|ports| - 1].target}
  }

  /** The targets that discovery found available or that have an open port. */
  function Working(d: Document): set<string> {
    Available(d.discovery) + OpenTargets(d.openPorts)
  }

  function Filtered(d: Document): Document {
    d.(discovery := KeepAvailable(d.discovery),
       openPorts := CleanAll(d.openPorts),
       requestedTargets := Kept(d.requestedTargets, Working(d)),
       scannedTargets := Kept(d.scannedTargets, Working(d)),
       summary := Summary(|d.openPorts|, |d.openPorts|, |d.openPorts|, 0, 0, 0, 0, 0))
  }

  // ---------------------------------------------------------------- the loops

  method FilterWorkingTargets(targets: seq<string>, working: set<string>) returns (filtered: seq<string>)
    ensures filtered == Kept(targets, working)
  {
    filtered := [];
    for i := 0 to |targets|
      invariant filtered == Kept(targets[..i], working)
    {
      assert targets[..i + 1][..i] == targets[..i];
      if targets[i] in working { filtered := filtered + [targets[i]]; }
    }
    assert targets[..|targets|] == targets;
  }

  method KeepOkProbes(probes: seq<ProbeReport>) returns (filtered: seq<ProbeReport>)
    ensures filtered == KeepOk(probes)
  {
    filtered := [];
    for i := 0 to |probes|
      invariant filtered == KeepOk(probes[..i])
    {
      assert probes[..i + 1][..i] == probes[..i];
      if probes[i].status != "ok" { continue; }
      filtered := filtered + [probes[i].(error := "")];
    }
    assert probes[..|probes|] == probes;
  }

  method FilterWorking(document: Document) returns (filtered: Document)
    ensures filtered == Filtered(document)
    ensures filtered.schemaVersion == document.schemaVersion && filtered.status == document.status
            && filtered.error == document.error && filtered.portCount == document.portCount
            && filtered.startedAt == document.startedAt && filtered.finishedAt == document.finishedAt
            && filtered.duration == document.duration
    ensures var n := |document.openPorts|;
            filtered.summary.total == n && filtered.summary.completed == n && filtered.summary.open == n
            && filtered.summary.closed == 0 && filtered.summary.timeouts == 0 && filtered.summary.refused == 0
            && filtered.summary.unreachable == 0 && filtered.summary.otherErrors == 0
  {
    var workingTargets: set<string> := {};
    var discovery: seq<DiscoveryReport> := [];
    for i := 0 to |document.discovery|
      invariant discovery == KeepAvailable(document.discovery[..i])
      invariant workingTargets == Available(document.discovery[..i])
    {
      assert document.discovery[..i + 1][..i] == document.discovery[..i];
      var result := document.discovery[i];
      if !result.available { continue; }
      discovery := discovery + [result.(error := "")];
      workingTargets := workingTargets + {result.target};
    }
    assert document.discovery[..|document.discovery|] == document.discovery;
    var openPorts: seq<OpenPort> := [];
    for i := 0 to |document.openPorts|
      invariant openPorts == CleanAll(document.openPorts[..i]) && |openPorts| == i
      invariant workingTargets == Available(document.discovery) + OpenTargets(document.openPorts[..i])
    {
      assert document.openPorts[..i + 1][..i] == document.openPorts[..i];
      var openPort := document.openPorts[i];
      workingTargets := workingTargets + {openPort.target};
      var probes := KeepOkProbes(openPort.probes);
      openPorts := openPorts + [openPort.(probes := probes)];
    }
    assert document.openPorts[..|document.openPorts|] == document.openPorts;
    var requested := FilterWorkingTargets(document.requestedTargets, workingTargets);
    var scanned := FilterWorkingTargets(document.scannedTargets, workingTargets);
    var workingChecks := |openPorts|;
    filtered := document.(
      discovery := discovery, openPorts := openPorts, requestedTargets := requested, scannedTargets := scanned,
      summary := Summary(workingChecks, workingChecks, workingChecks, 0, 0, 0, 0, 0));
  }

  // ---------------------------------------------------------------- filtering twice

  lemma {:induction false} KeepAvailableTwice(results: seq<DiscoveryReport>)
    ensures KeepAvailable(KeepAvailable(results)) == KeepAvailable(results)
    ensures Available(KeepAvailable(results)) == Available(results)
  {
    if results != [] {
      KeepAvailableTwice(results[..|results| - 1]);
      var kept, all := KeepAvailable(results[..|results| - 1]), KeepAvailable(results);
      if results[|results| - 1].available { assert all[..|all| - 1] == kept; }
    }
  }

  lemma {:induction false} KeepOkTwice(probes: seq<ProbeReport>)
    ensures KeepOk(KeepOk(probes)) == KeepOk(probes)
  {
    if probes != [] {
      KeepOkTwice(probes[..|probes| - 1]);
      var kept, all := KeepOk(probes[..|probes| - 1]), KeepOk(probes);
      if probes[|probes| - 1].status == "ok" { assert all[..|all| - 1] == kept; }
    }
  }

  lemma {:induction false} KeptTwice(targets: seq<string>, working: set<string>)
    ensures Kept(Kept(targets, working), working) == Kept(targets, working)
  {
    if targets != [] {
      KeptTwice(targets[..|targets| - 1], working);
      var kept, all := Kept(targets[..|targets| - 1], working), Kept(targets, working);
      if targets[|targets| - 1] in working { assert all[..|all| - 1] == kept; }
    }
  }

  lemma {:induction false} CleanTwice(ports: seq<OpenPort>)
    ensures CleanAll(CleanAll(ports)) == CleanAll(ports)
    ensures OpenTargets(CleanAll(ports)) == OpenTargets(ports) && |CleanAll(ports)| == |ports|
  {
    if ports != [] {
      CleanTwice(ports[..|ports| - 1]);
      KeepOkTwice(ports[|ports| - 1].probes);
      assert CleanAll(ports)[..|ports| - 1] == CleanAll(ports[..|ports| - 1]);
    }
  }

  /** Filtering again changes nothing. */
  lemma FilterIsIdempotent(d: Document)
    ensures Filtered(Filtered(d)) == Filtered(d)
  {
    KeepAvailableTwice(d.discovery);
    CleanTwice(d.openPorts);
    KeptTwice(d.requestedTargets, Working(d));
    KeptTwice(d.scannedTargets, Working(d));
  }

  /** A working target is kept as often as it was listed, any other not at all. */
  lemma {:induction false} KeptMeans(targets: seq<string>, working: set<string>, t: string)
    ensures multiset(Kept(targets, working))[t] == if t in working then multiset(targets)[t] else 0
  {
    if targets != [] {
      var init := targets[..|targets| - 1];
      KeptMeans(init, working, t);
      assert targets == init + [targets[|targets| - 1]];
    }
  }

  function AvailableFlags(results: seq<DiscoveryReport>): seq<bool> {
    seq(|results|, i requires 0 <= i < |results| => results[i].available)
  }

  function OkFlags(probes: seq<ProbeReport>): seq<bool> {
    seq(|probes|, i requires 0 <= i < |probes| => probes[i].status == "ok")
  }

  lemma {:induction false} KeptAvailable(results: seq<DiscoveryReport>)
    ensures var at, kept := TrueAt(AvailableFlags(results)), KeepAvailable(results);
            |kept| == |at| && forall k :: 0 <= k < |kept| ==> at[k] < |results| && kept[k] == results[at[k]].(error := "")
  {
    if results != [] {
      KeptAvailable(results[..|results| - 1]);
      assert AvailableFlags(results)[..|results| - 1] == AvailableFlags(results[..|results| - 1]);
    }
  }

  lemma {:induction false} KeptOk(probes: seq<ProbeReport>)
    ensures var at, kept := TrueAt(OkFlags(probes)), KeepOk(probes);
            |kept| == |at| && forall k :: 0 <= k < |kept| ==> at[k] < |probes| && kept[k] == probes[at[k]].(error := "")
  {
    if probes != [] {
      KeptOk(probes[..|probes| - 1]);
      assert OkFlags(probes)[..|probes| - 1] == OkFlags(probes[..|probes| - 1]);
    }
  }

  /** The hosts kept are those at exactly the available positions, in order and once each, without
      their errors. */
  lemma AvailableHostsAreKept(results: seq<DiscoveryReport>)
    ensures var at, kept := TrueAt(AvailableFlags(results)), KeepAvailable(results);
            && Selects(at, AvailableFlags(results)) && |kept| == |at|
            && forall k :: 0 <= k < |kept| ==> kept[k] == results[at[k]].(error := "")
  {
    TrueAtSelects(AvailableFlags(results));
    KeptAvailable(results);
  }

  /** No open port is dropped or moved, and of its probes those at exactly the successful positions
      are kept, in order and once each. */
  lemma {:induction false} SuccessfulProbesAreKept(ports: seq<OpenPort>, i: nat)
    requires i < |ports|
    ensures |CleanAll(ports)| == |ports|
    ensures var before, kept := ports[i].probes, CleanAll(ports)[i].probes;
            var at := TrueAt(OkFlags(before));
            && CleanAll(ports)[i] == ports[i].(probes := kept)
            && Selects(at, OkFlags(before)) && |kept| == |at|
            && forall k :: 0 <= k < |kept| ==> kept[k] == before[at[k]].(error := "")
  {
    var init := ports[..|ports| - 1];
    CleanTwice(init);
    TrueAtSelects(OkFlags(ports[i].probes));
    KeptOk(ports[i].probes);
    if i < |init| { SuccessfulProbesAreKept(init, i); }
  }

  lemma {:induction false} AvailableMeans(results: seq<DiscoveryReport>, t: string)
    ensures t in Available(results) <==> exists i :: 0 <= i < |results| && results[i].available && results[i].target == t
  {
    if results != [] {
      var init := results[..|results| - 1];
      AvailableMeans(init, t);
      if i :| 0 <= i < |init| && init[i].available && init[i].target == t { assert results[i] == init[i]; }
      if i :| 0 <= i < |results| && results[i].available && results[i].target == t && i < |init| { assert init[i] == results[i]; }
    }
  }

  lemma {:induction false} OpenTargetsMean(ports: seq<OpenPort>, t: string)
    ensures t in OpenTargets(ports) <==> exists i :: 0 <= i < |ports| && ports[i].target == t
  {
    if ports != [] {
      var init := ports[..|ports| - 1];
      OpenTargetsMean(init, t);
      if i :| 0 <= i < |init| && init[i].target == t { assert ports[i] == init[i]; }
      if i :| 0 <= i < |ports| && ports[i].target == t && i < |init| { assert init[i] == ports[i]; }
    }
  }

  /** A target stays listed, as often as it was, exactly when discovery found it available or it has
      an open port. */
  lemma WorkingTargetsAreKept(d: Document, t: string)
    ensures var works := (exists i :: 0 <= i < |d.discovery| && d.discovery[i].available && d.discovery[i].target == t)
                         || (exists i :: 0 <= i < |d.openPorts| && d.openPorts[i].target == t);
            && multiset(Filtered(d).scannedTargets)[t] == (if works then multiset(d.scannedTargets)[t] else 0)
            && multiset(Filtered(d).requestedTargets)[t] == (if works then multiset(d.requestedTargets)[t] else 0)
  {
    AvailableMeans(d.discovery, t);
    OpenTargetsMean(d.openPorts, t);
    KeptMeans(d.scannedTargets, Working(d), t);
    KeptMeans(d.requestedTargets, Working(d), t);
  }

  // ---------------------------------------------------------------- filtering and sorting

  // Two targets that are kept stand in the same relative order before and after.
  ghost predicate SameRanks(order: map<string, nat>, kept: map<string, nat>, t: string, u: string) {
    && (t in order <==> t in kept) && (u in order <==> u in kept)
    && (t in order && u in order ==> && (order[t] < order[u] <==> kept[t] < kept[u])
                                     && (order[t] == order[u] <==> kept[t] == kept[u]))
  }

  lemma {:induction false} RanksAreIndices(targets: seq<string>)
    ensures forall v :: v in Order(targets) ==> Order(targets)[v] < |targets|
  {
    if targets != [] { RanksAreIndices(targets[..|targets| - 1]); }
  }

  lemma {:induction false} KeptOrder(targets: seq<string>, working: set<string>, t: string, u: string)
    requires t in working && u in working
    ensures SameRanks(Order(targets), Order(Kept(targets, working)), t, u)
  {
    if targets != [] {
      var init, last := targets[..|targets| - 1], targets[|targets| - 1];
      var kept, all := Kept(init, working), Kept(targets, working);
      KeptOrder(init, working, t, u);
      RanksAreIndices(init);
      RanksAreIndices(kept);
      if last in working {
        assert all[..|all| - 1] == kept && all[|all| - 1] == last;
        assert Order(all) == Order(kept)[last := |kept|];
      }
      assert Order(targets) == Order(init)[last := |init|];
    }
  }

  lemma CleanKeepsBefore(targets: seq<string>, working: set<string>, a: OpenPort, b: OpenPort)
    requires a.target in working && b.target in working
    ensures Before(Order(Kept(targets, working)), Clean(a), Clean(b)) == Before(Order(targets), a, b)
  {
    KeptOrder(targets, working, a.target, b.target);
  }

  lemma {:induction false} InsertCleaned(targets: seq<string>, working: set<string>, ports: seq<OpenPort>, x: OpenPort)
    requires x.target in working && OpenTargets(ports) <= working
    ensures Insert(Order(Kept(targets, working)), CleanAll(ports), Clean(x)) == CleanAll(Insert(Order(targets), ports, x))
  {
    var order, kept := Order(targets), Order(Kept(targets, working));
    if ports == [] {
      CleanAppend([], x);
    } else {
      var init, y := ports[..|ports| - 1], ports[|ports| - 1];
      assert ports == init + [y];
      CleanAppend(init, y);
      CleanKeepsBefore(targets, working, x, y);
      if Before(order, x, y) {
        InsertCleaned(targets, working, init, x);
        CleanAppend(Insert(order, init, x), y);
        InsertBefore(kept, CleanAll(init), Clean(y), Clean(x));
      } else {
        CleanAppend(ports, x);
      }
    }
  }

  lemma CleanAppend(ports: seq<OpenPort>, x: OpenPort)
    ensures CleanAll(ports + [x]) == CleanAll(ports) + [Clean(x)]
  {
    assert (ports + [x])[..|ports|] == ports;
  }

  lemma InsertBefore(order: map<string, nat>, ports: seq<OpenPort>, y: OpenPort, x: OpenPort)
    requires Before(order, x, y)
    ensures Insert(order, ports + [y], x) == Insert(order, ports, x) + [y]
  {
    assert (ports + [y])[..|ports|] == ports;
  }

  lemma {:induction false} InsertTargets(order: map<string, nat>, ports: seq<OpenPort>, x: OpenPort)
    ensures OpenTargets(Insert(order, ports, x)) == OpenTargets(ports) + {x.target}
  {
    if ports != [] && Before(order, x, ports[|ports| - 1]) {
      var init := ports[..|ports| - 1];
      InsertTargets(order, init, x);
      assert (Insert(order, init, x) + [ports[|ports| - 1]])[..|Insert(order, init, x)|] == Insert(order, init, x);
    } else {
      assert (ports + [x])[..|ports|] == ports;
    }
  }

  lemma {:induction false} SortTargets(order: map<string, nat>, ports: seq<OpenPort>)
    ensures OpenTargets(SortPorts(order, ports)) == OpenTargets(ports)
  {
    if ports != [] {
      SortTargets(order, ports[..|ports| - 1]);
      InsertTargets(order, SortPorts(order, ports[..|ports| - 1]), ports[|ports| - 1]);
    }
  }

  lemma {:induction false} SortCleaned(targets: seq<string>, working: set<string>, ports: seq<OpenPort>)
    requires OpenTargets(ports) <= working
    ensures SortPorts(Order(Kept(targets, working)), CleanAll(ports)) == CleanAll(SortPorts(Order(targets), ports))
  {
    if ports != [] {
      var init, x := ports[..|ports| - 1], ports[|ports| - 1];
      SortCleaned(targets, working, init);
      SortTargets(Order(targets), init);
      InsertCleaned(targets, working, SortPorts(Order(targets), init), x);
      CleanTwice(init);
      assert CleanAll(ports)[..|ports| - 1] == CleanAll(init);
    }
  }

  /** Filtering and normalizing commute, repeated scanned targets included. */
  lemma FilterAndNormalizeCommute(d: Document)
    ensures Normalized(Filtered(d)) == Filtered(Normalized(d))
  {
    var order := Order(d.scannedTargets);
    SortElements(order, d.openPorts);
    SortTargets(order, d.openPorts);
    SortCleaned(d.scannedTargets, Working(d), d.openPorts);
  }
}
