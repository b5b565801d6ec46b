/** From events to the report: scanStats.observe (cmd/go-port-scanner/stats.go), the event loop of
    run (main.go) and buildReportDocument (reporting.go), composed with the scan itself. */
module Reporting {
  import opened Common
  import opened Dedupe
  import opened Scanner
  import opened Report
  import Discovery
  import ScanGuarantees
  import ScanHistory

  // ---------------------------------------------------------------- statistics

  function Observed(s: Summary, e: Event): Summary {
    match e
    case Checking(_) => s
    case Open(_, _, _, _) => s.(completed := s.completed + 1, open := s.open + 1)
    case Closed(_, failure) =>
      var t := s.(completed := s.completed + 1, closed := s.closed + 1);
      match failure
      case Timeout => t.(timeouts := t.timeouts + 1)
      case Refused => t.(refused := t.refused + 1)
      case Unreachable => t.(unreachable := t.unreachable + 1)
      case Other => t.(otherErrors := t.otherErrors + 1)
  }

  /** The statistics after these events. */
  function Tally(total: int, es: seq<Event>): Summary {
    if es == [] then Summary(total, 0, 0, 0, 0, 0, 0, 0)
    else Observed(Tally(total, es[..|es| - 1]), es[|es| - 1])
  }

  class ScanStats {
    var total: int
    var completed: int
    var open: int
    var closed: int
    var timeouts: int
    var refused: int
    var unreachable: int
    var otherErrors: int

    function View(): Summary
      reads this
    {
      Summary(total, completed, open, closed, timeouts, refused, unreachable, otherErrors)
    }

    constructor (total: int)
      ensures View() == Tally(total, [])
    {
      this.total := total;
      completed, open, closed, timeouts, refused, unreachable, otherErrors := 0, 0, 0, 0, 0, 0, 0;
    }

    method Observe(event: Event)
      modifies this
      ensures View() == Observed(old(View()), event)
    {
      match event {
        case Open(_, _, _, _) =>
          completed := completed + 1;
          open := open + 1;
        case Closed(_, failure) =>
          completed := completed + 1;
          closed := closed + 1;
          match failure {
            case Timeout => timeouts := timeouts + 1;
            case Refused => refused := refused + 1;
            case Unreachable => unreachable := unreachable + 1;
            case Other => otherErrors := otherErrors + 1;
          }
        case Checking(_) =>
      }
    }
  }

  function OpenEvents(es: seq<Event>): seq<Event> {
    if es == [] then []
    else
      var before, last := OpenEvents(es[..|es| - 1]), es[|es| - 1];
      if last.Open? then before + [last] else before
  }

  /** The event loop of run: every event received until the channel is closed. */
  method DrainEvents(total: int, events: seq<Event>) returns (statistics: ScanStats, openEvents: seq<Event>)
    ensures statistics.View() == Tally(total, events) && openEvents == OpenEvents(events)
  {
    statistics := new ScanStats(total);
    openEvents := [];
    for i := 0 to |events|
      invariant statistics.View() == Tally(total, events[..i]) && openEvents == OpenEvents(events[..i])
      invariant fresh(statistics)
    {
      assert events[..i + 1][..i] == events[..i];
      statistics.Observe(events[i]);
      if events[i].Open? { openEvents := openEvents + [events[i]]; }
    }
    assert events[..|events|] == events;
  }

  /** How many events are Closed with this failure. */
  function ClosedWith(es: seq<Event>, failure: Failure): nat {
    if es == [] then 0
    else
      var last := es[|es| - 1];
      ClosedWith(es[..|es| - 1], failure) + if last.Closed? && last.failure == failure then 1 else 0
  }

  /** After any events: what is completed is open or closed, and what is closed falls in one class
      of errors; the counts are those of the terminal and the open events and of each failure. */
  lemma {:induction false} TallyAddsUp(total: int, es: seq<Event>)
    ensures var s := Tally(total, es);
            && s.total == total
            && s.completed == s.open + s.closed
            && s.closed == s.timeouts + s.refused + s.unreachable + s.otherErrors
            && s.completed == |Reported(es)| && s.open == |OpenEvents(es)|
            && s.timeouts == ClosedWith(es, Timeout) && s.refused == ClosedWith(es, Refused)
            && s.unreachable == ClosedWith(es, Unreachable) && s.otherErrors == ClosedWith(es, Other)
  {
    if es != [] { TallyAddsUp(total, es[..|es| - 1]); }
  }

  function OpenFlags(es: seq<Event>): seq<bool> {
    seq(|es|, i requires 0 <= i < |es| => es[i].Open?)
  }

  /** The events kept for the report are those at exactly the positions of Open events, in order. */
  lemma {:induction false} OpenEventsAreKept(es: seq<Event>)
    ensures var at, open := TrueAt(OpenFlags(es)), OpenEvents(es);
            && Selects(at, OpenFlags(es)) && |open| == |at|
            && forall k :: 0 <= k < |open| ==> open[k] == es[at[k]]
  {
    TrueAtSelects(OpenFlags(es));
    if es != [] {
      OpenEventsAreKept(es[..|es| - 1]);
      assert OpenFlags(es)[..|es| - 1] == OpenFlags(es[..|es| - 1]);
    }
  }

  // ---------------------------------------------------------------- the document

  function NameOf(hostnames: map<string, string>, target: string): string {
    if target in hostnames then hostnames[target] else ""
  }

  function ErrorText(error: Option<string>): string {
    if error.Some? then error.value else ""
  }

  function DiscoveryReportOf(hostnames: map<string, string>, r: Discovery.HostResult): DiscoveryReport {
    DiscoveryReport(r.target, NameOf(hostnames, r.target), r.alive, r.how, ErrorText(r.error))
  }

  function ProbeReportOf(r: ProbeResult): ProbeReport {
    ProbeReport(r.protocol, if r.failure.Some? then "failed" else "ok", r.duration, r.detail, ErrorText(r.failure))
  }

  function OpenPortOf(hostnames: map<string, string>, e: Event): OpenPort
    requires e.Open?
  {
    OpenPort(e.pair.host, NameOf(hostnames, e.pair.host), e.pair.port, e.duration,
             seq(|e.probes|, i requires 0 <= i < |e.probes| => ProbeReportOf(e.probes[i])))
  }

  function OpenPortsOf(hostnames: map<string, string>, es: seq<Event>): seq<OpenPort>
    requires forall i :: 0 <= i < |es| ==> es[i].Open?
  {
    seq(|es|, i requires 0 <= i < |es| => OpenPortOf(hostnames, es[i]))
  }

  /** What buildReportDocument is told besides the outcome of the scan. */
  datatype Context = Context(startedAt: int, finishedAt: int, requestedTargets: seq<string>,
                             results: seq<Discovery.HostResult>, hostnames: map<string, string>)

  function Built(x: Context, scannedTargets: seq<string>, portCount: int, openEvents: seq<Event>,
                 statistics: Summary, scanError: Option<string>): Document
    requires forall i :: 0 <= i < |openEvents| ==> openEvents[i].Open?
  {
    Document(2, if scanError.Some? then "interrupted" else "completed", x.startedAt, x.finishedAt,
             x.finishedAt - x.startedAt, x.requestedTargets, scannedTargets, portCount,
             seq(|x.results|, i requires 0 <= i < |x.results| => DiscoveryReportOf(x.hostnames, x.results[i])),
             OpenPortsOf(x.hostnames, openEvents), statistics, ErrorText(scanError))
  }

  ghost predicate Names(hostnames: map<string, string>, target: string, name: string) {
    (target in hostnames ==> name == hostnames[target]) && (target !in hostnames ==> name == "")
  }

  ghost predicate Explains(error: Option<string>, text: string) {
    (error == None ==> text == "") && (error.Some? ==> text == error.value)
  }

  // What a discovery result and its entry in the report have to do with each other.
  ghost predicate ReportsHost(hostnames: map<string, string>, r: Discovery.HostResult, d: DiscoveryReport) {
    && d.target == r.target && d.available == r.alive && d.how == r.how
    && Names(hostnames, r.target, d.hostname) && Explains(r.error, d.error)
  }

  ghost predicate ReportsProbe(r: ProbeResult, p: ProbeReport) {
    && p.protocol == r.protocol && p.duration == r.duration && p.detail == r.detail
    && (r.failure == None ==> p.status == "ok") && (r.failure.Some? ==> p.status == "failed")
    && Explains(r.failure, p.error)
  }

  ghost predicate ReportsPort(hostnames: map<string, string>, e: Event, p: OpenPort)
    requires e.Open?
  {
    && p.target == e.pair.host && p.port == e.pair.port && p.duration == e.duration
    && Names(hostnames, e.pair.host, p.hostname)
    && |p.probes| == |e.probes| && forall i :: 0 <= i < |e.probes| ==> ReportsProbe(e.probes[i], p.probes[i])
  }

  lemma BuiltReports(x: Context, openEvents: seq<Event>)
    requires forall i :: 0 <= i < |openEvents| ==> openEvents[i].Open?
    ensures forall k :: 0 <= k < |x.results| ==>
              ReportsHost(x.hostnames, x.results[k], DiscoveryReportOf(x.hostnames, x.results[k]))
    ensures forall k :: 0 <= k < |openEvents| ==>
              ReportsPort(x.hostnames, openEvents[k], OpenPortOf(x.hostnames, openEvents[k]))
  {
  }

  method BuildReportDocument(x: Context, scannedTargets: seq<string>, portCount: int, openEvents: seq<Event>,
                             statistics: Summary, scanError: Option<string>) returns (document: Document)
    requires forall i :: 0 <= i < |openEvents| ==> openEvents[i].Open?
    ensures document == Built(x, scannedTargets, portCount, openEvents, statistics, scanError)
    ensures scanError == None ==> document.status == "completed" && document.error == ""
    ensures scanError.Some? ==> document.status == "interrupted" && document.error == scanError.value
    ensures document.schemaVersion == 2 && document.startedAt == x.startedAt && document.finishedAt == x.finishedAt
            && document.duration == x.finishedAt - x.startedAt && document.requestedTargets == x.requestedTargets
            && document.scannedTargets == scannedTargets && document.portCount == portCount
            && document.summary == statistics
    ensures |document.discovery| == |x.results|
    ensures forall k :: 0 <= k < |x.results| ==> ReportsHost(x.hostnames, x.results[k], document.discovery[k])
    ensures |document.openPorts| == |openEvents|
    ensures forall k :: 0 <= k < |openEvents| ==> ReportsPort(x.hostnames, openEvents[k], document.openPorts[k])
  {
    var status, errorMessage := "completed", "";
    if scanError.Some? {
      status, errorMessage := "interrupted", scanError.value;
    }
    document := Document(2, status, x.startedAt, x.finishedAt, x.finishedAt - x.startedAt,
                         x.requestedTargets, scannedTargets, portCount, [], [], statistics, errorMessage);
    var discovery: seq<DiscoveryReport> := [];
    for i := 0 to |x.results|
      invariant |discovery| == i && forall k :: 0 <= k < i ==> discovery[k] == DiscoveryReportOf(x.hostnames, x.results[k])
    {
      discovery := discovery + [DiscoveryReportOf(x.hostnames, x.results[i])];
    }
    var openPorts: seq<OpenPort> := [];
    for i := 0 to |openEvents|
      invariant |openPorts| == i && forall k :: 0 <= k < i ==> openPorts[k] == OpenPortOf(x.hostnames, openEvents[k])
    {
      var event := openEvents[i];
      var probes: seq<ProbeReport> := [];
      for j := 0 to |event.probes|
        invariant |probes| == j && forall k :: 0 <= k < j ==> probes[k] == ProbeReportOf(event.probes[k])
      {
        var result := event.probes[j];
        var report := ProbeReport(result.protocol, "ok", result.duration, result.detail, "");
        if result.failure.Some? {
          report := report.(status := "failed", error := result.failure.value);
        }
        probes := probes + [report];
      }
      openPorts := openPorts + [OpenPort(event.pair.host, NameOf(x.hostnames, event.pair.host), event.pair.port,
                                         event.duration, probes)];
    }
    document := document.(discovery := discovery, openPorts := openPorts);
    BuiltReports(x, openEvents);
  }

  lemma {:induction false} OpenEventsAre(es: seq<Event>)
    ensures forall i :: 0 <= i < |OpenEvents(es)| ==> OpenEvents(es)[i].Open?
    ensures forall e :: e in OpenEvents(es) <==> e in es && e.Open?
  {
    if es != [] {
      OpenEventsAre(es[..|es| - 1]);
      assert es == es[..|es| - 1] + [es[|es| - 1]];
    }
  }

  // ---------------------------------------------------------------- the whole run

  /** The document of a run: the consumer has seen the channel close, and the context is looked at
      after that. */
  function DocumentOf(x: Context, c: Config, s: State, reason: string): Document {
    OpenEventsAre(s.received);
    Built(x, c.targets, |c.ports|, OpenEvents(s.received), Tally(Checks(c), s.received),
          if s.cancelled then Some(reason) else None)
  }

  ghost predicate Finished(c: Config, moves: seq<Move>) {
    Valid(c) && Run(c, moves).0 && Run(c, moves).1.done
  }

  /** A report is marked completed exactly when nothing was cancelled, and then accounts for every
      check: all of them completed, as many open as there are entries, the others closed. Otherwise
      it is marked interrupted, with the reason, and still adds up. */
  lemma CompletedReportAccountsForEverything(x: Context, c: Config, moves: seq<Move>, reason: string)
    requires Finished(c, moves)
    ensures var d := DocumentOf(x, c, Run(c, moves).1, reason);
            && (Cancel !in moves ==> d.status == "completed" && d.error == "" && d.summary.completed == d.summary.total)
            && (Cancel in moves ==> d.status == "interrupted" && d.error == reason)
            && d.scannedTargets == c.targets && d.portCount == |c.ports|
            && d.summary.total == |d.scannedTargets| * d.portCount
            && d.summary.open == |d.openPorts|
            && d.summary.completed == d.summary.open + d.summary.closed
            && d.summary.closed == d.summary.timeouts + d.summary.refused + d.summary.unreachable + d.summary.otherErrors
  {
    var s := Run(c, moves).1;
    RunKeepsInv(c, moves);
    ScanHistory.CancelledMeansCancel(c, moves);
    assert Sent(s) == s.received;
    TallyAddsUp(Checks(c), s.received);
    OpenEventsAre(s.received);
    if !s.cancelled { ScanGuarantees.LiveScanIsComplete(c, moves); }
  }

  // ---------------------------------------------------------------- scheduling is invisible

  // Every terminal event is the answer to its check.
  ghost predicate Answers(es: seq<Event>, answer: map<Pair, Event>) {
    forall i :: 0 <= i < |es| && !es[i].Checking? ==> es[i].pair in answer && es[i] == answer[es[i].pair]
  }

  lemma {:induction false} ReportedAre(es: seq<Event>)
    ensures forall p :: p in Reported(es) <==> exists i :: 0 <= i < |es| && !es[i].Checking? && es[i].pair == p
  {
    if es != [] {
      var init, last := es[..|es| - 1], es[|es| - 1];
      ReportedAre(init);
      forall p ensures p in Reported(es) <==> exists i :: 0 <= i < |es| && !es[i].Checking? && es[i].pair == p {
        if p in Reported(init) {
          var i :| 0 <= i < |init| && !init[i].Checking? && init[i].pair == p;
          assert es[i] == init[i];
        }
        if i :| 0 <= i < |es| && !es[i].Checking? && es[i].pair == p && i < |init| { assert init[i] == es[i]; }
      }
    }
  }

  function PairsOf(es: seq<Event>): seq<Pair> {
    if es == [] then [] else PairsOf(es[..|es| - 1]) + [es[|es| - 1].pair]
  }

  lemma {:induction false} OpenPairsAreReported(es: seq<Event>)
    ensures multiset(PairsOf(OpenEvents(es))) <= multiset(Reported(es))
  {
    if es != [] {
      var init, last := es[..|es| - 1], es[|es| - 1];
      OpenPairsAreReported(init);
      if last.Open? { assert OpenEvents(es)[..|OpenEvents(init)|] == OpenEvents(init); }
    }
  }

  lemma {:induction false} PairsOfAt(es: seq<Event>)
    ensures |PairsOf(es)| == |es| && forall i :: 0 <= i < |es| ==> PairsOf(es)[i] == es[i].pair
  {
    if es != [] { PairsOfAt(es[..|es| - 1]); }
  }

  lemma TwiceMeansTwo(ps: seq<Pair>, i: nat, j: nat)
    requires i < j < |ps| && ps[i] == ps[j]
    ensures multiset(ps)[ps[i]] >= 2
  {
    assert ps == ps[..j] + [ps[j]] + ps[j + 1..];
    assert ps[i] in ps[..j] by { assert ps[..j][i] == ps[i]; }
  }

  // When no check is configured twice, no two open ports share target and port.
  lemma OpenPortsHaveDistinctKeys(hostnames: map<string, string>, es: seq<Event>)
    requires forall p :: multiset(Reported(es))[p] <= 1
    requires forall i :: 0 <= i < |OpenEvents(es)| ==> OpenEvents(es)[i].Open?
    ensures DistinctKeys(OpenPortsOf(hostnames, OpenEvents(es)))
  {
    var open := OpenEvents(es);
    OpenPairsAreReported(es);
    PairsOfAt(open);
    forall i, j | 0 <= i < j < |open| ensures open[i].pair != open[j].pair {
      if open[i].pair == open[j].pair { TwiceMeansTwo(PairsOf(open), i, j); }
    }
  }

  // The open events are the answers that are open.
  lemma OpenEventsOfAnswers(es: seq<Event>, answer: map<Pair, Event>, e: Event)
    requires Answers(es, answer)
    ensures e in OpenEvents(es) <==> e.Open? && e.pair in Reported(es) && e.pair in answer && answer[e.pair] == e
  {
    OpenEventsAre(es);
    ReportedAre(es);
  }

  function Count(ps: seq<Pair>, answer: map<Pair, Event>, failure: Option<Failure>): nat {
    if ps == [] then 0
    else Count(ps[..|ps| - 1], answer, failure) + if Falls(ps[|ps| - 1], answer, failure) then 1 else 0
  }

  // The check is answered Closed with this failure, or Open when there is none.
  predicate Falls(p: Pair, answer: map<Pair, Event>, failure: Option<Failure>) {
    p in answer && if failure.None? then answer[p].Open? else answer[p].Closed? && answer[p].failure == failure.value
  }

  lemma {:induction false} CountAppend(ps: seq<Pair>, qs: seq<Pair>, answer: map<Pair, Event>, failure: Option<Failure>)
    ensures Count(ps + qs, answer, failure) == Count(ps, answer, failure) + Count(qs, answer, failure)
  {
    if qs == [] {
      assert ps + qs == ps;
    } else {
      assert (ps + qs)[..|ps + qs| - 1] == ps + qs[..|qs| - 1];
      CountAppend(ps, qs[..|qs| - 1], answer, failure);
    }
  }

  lemma RemoveOne(ps: seq<Pair>, qs: seq<Pair>) returns (i: nat)
    requires multiset(ps) == multiset(qs) && ps != []
    ensures i < |qs| && qs[i] == ps[|ps| - 1]
    ensures multiset(ps[..|ps| - 1]) == multiset(qs[..i] + qs[i + 1..])
  {
    var init, x := ps[..|ps| - 1], ps[|ps| - 1];
    assert ps == init + [x];
    assert x in multiset(ps);
    assert x in multiset(qs);
    i :| 0 <= i < |qs| && qs[i] == x;
    WithoutOne(qs, i);
    forall p ensures multiset(init)[p] == multiset(qs[..i] + qs[i + 1..])[p] {
      assert multiset(ps)[p] == multiset(init)[p] + if p == x then 1 else 0;
    }
  }

  lemma WithoutOne(qs: seq<Pair>, i: nat)
    requires i < |qs|
    ensures forall p :: multiset(qs)[p] == multiset(qs[..i] + qs[i + 1..])[p] + if p == qs[i] then 1 else 0
  {
    assert qs == qs[..i] + [qs[i]] + qs[i + 1..];
  }

  lemma CountRemoveOne(qs: seq<Pair>, i: nat, answer: map<Pair, Event>, failure: Option<Failure>)
    requires i < |qs|
    ensures Count(qs, answer, failure) ==
            Count(qs[..i] + qs[i + 1..], answer, failure) + if Falls(qs[i], answer, failure) then 1 else 0
  {
    assert qs == qs[..i + 1] + qs[i + 1..] && qs[..i + 1][..i] == qs[..i];
    CountAppend(qs[..i + 1], qs[i + 1..], answer, failure);
    CountAppend(qs[..i], qs[i + 1..], answer, failure);
  }

  lemma {:induction false} CountIgnoresOrder(ps: seq<Pair>, qs: seq<Pair>, answer: map<Pair, Event>, failure: Option<Failure>)
    requires multiset(ps) == multiset(qs)
    ensures Count(ps, answer, failure) == Count(qs, answer, failure)
  {
    if ps == [] {
      assert |multiset(ps)| == 0;
    } else {
      var i := RemoveOne(ps, qs);
      CountRemoveOne(qs, i, answer, failure);
      CountIgnoresOrder(ps[..|ps| - 1], qs[..i] + qs[i + 1..], answer, failure);
    }
  }

  lemma {:induction false} TallyCounts(total: int, es: seq<Event>, answer: map<Pair, Event>)
    requires Answers(es, answer)
    ensures var s, ps := Tally(total, es), Reported(es);
            && s.open == Count(ps, answer, None) && s.timeouts == Count(ps, answer, Some(Timeout))
            && s.refused == Count(ps, answer, Some(Refused)) && s.unreachable == Count(ps, answer, Some(Unreachable))
            && s.otherErrors == Count(ps, answer, Some(Other))
  {
    if es != [] {
      var init, last := es[..|es| - 1], es[|es| - 1];
      TallyCounts(total, init, answer);
      if !last.Checking? {
        assert Reported(es)[..|Reported(init)|] == Reported(init);
      }
    }
  }

  lemma SameTally(total: int, a: seq<Event>, b: seq<Event>, answer: map<Pair, Event>)
    requires Answers(a, answer) && Answers(b, answer) && multiset(Reported(a)) == multiset(Reported(b))
    ensures Tally(total, a) == Tally(total, b)
  {
    TallyCounts(total, a, answer);
    TallyCounts(total, b, answer);
    CountIgnoresOrder(Reported(a), Reported(b), answer, None);
    CountIgnoresOrder(Reported(a), Reported(b), answer, Some(Timeout));
    CountIgnoresOrder(Reported(a), Reported(b), answer, Some(Refused));
    CountIgnoresOrder(Reported(a), Reported(b), answer, Some(Unreachable));
    CountIgnoresOrder(Reported(a), Reported(b), answer, Some(Other));
    TallyAddsUp(total, a);
    TallyAddsUp(total, b);
  }

  /** The normalized report does not show how the scan was scheduled: two completed scans of the
      same targets and ports, none listed twice (their expansion sees to that), with any numbers of
      workers and any interleavings, in which every check was answered alike, give the same report. */
  lemma SchedulingIsInvisible(x: Context, c: Config, d: Config, cMoves: seq<Move>, dMoves: seq<Move>,
                              answer: map<Pair, Event>, reason: string)
    requires Finished(c, cMoves) && !Run(c, cMoves).1.cancelled && Answers(Run(c, cMoves).1.received, answer)
    requires Finished(d, dMoves) && !Run(d, dMoves).1.cancelled && Answers(Run(d, dMoves).1.received, answer)
    requires c.targets == d.targets && c.ports == d.ports
    requires Distinct(c.targets) && Distinct(c.ports)
    ensures Normalized(DocumentOf(x, c, Run(c, cMoves).1, reason)) == Normalized(DocumentOf(x, d, Run(d, dMoves).1, reason))
  {
    var s, t := Run(c, cMoves).1, Run(d, dMoves).1;
    EveryCheckOnce(c, cMoves);
    EveryCheckOnce(d, dMoves);
    SameTally(Checks(c), s.received, t.received, answer);
    OpenEventsAre(s.received);
    OpenEventsAre(t.received);
    SameOpenPorts(x.hostnames, c.targets, s.received, t.received, answer);
    SameDocument(x, c, d, s, t, reason);
  }

  lemma SameDocument(x: Context, c: Config, d: Config, s: State, t: State, reason: string)
    requires c.targets == d.targets && c.ports == d.ports && !s.cancelled && !t.cancelled
    requires Tally(Checks(c), s.received) == Tally(Checks(c), t.received)
    requires (forall i :: 0 <= i < |OpenEvents(s.received)| ==> OpenEvents(s.received)[i].Open?)
    requires (forall i :: 0 <= i < |OpenEvents(t.received)| ==> OpenEvents(t.received)[i].Open?)
    requires SortPorts(Order(c.targets), OpenPortsOf(x.hostnames, OpenEvents(s.received))) ==
             SortPorts(Order(c.targets), OpenPortsOf(x.hostnames, OpenEvents(t.received)))
    ensures Normalized(DocumentOf(x, c, s, reason)) == Normalized(DocumentOf(x, d, t, reason))
  {
  }

  lemma EveryCheckOnce(c: Config, moves: seq<Move>)
    requires Finished(c, moves) && !Run(c, moves).1.cancelled
    requires Distinct(c.targets) && Distinct(c.ports)
    ensures multiset(Reported(Run(c, moves).1.received)) == multiset(AllPairs(c.targets, c.ports))
    ensures forall p :: multiset(Reported(Run(c, moves).1.received))[p] <= 1
  {
    var s := Run(c, moves).1;
    RunKeepsInv(c, moves);
    assert Sent(s) == s.received;
    ScanGuarantees.LiveScanIsComplete(c, moves);
    forall p ensures multiset(AllPairs(c.targets, c.ports))[p] <= 1 {
      ScanGuarantees.AllPairsIsProduct(c.targets, c.ports, p.host, p.port);
      DistinctMeansOnce(c.targets, p.host);
      DistinctMeansOnce(c.ports, p.port);
      AtMostOne(multiset(c.targets)[p.host], multiset(c.ports)[p.port]);
    }
  }

  lemma {:induction false} DistinctMeansOnce<T>(s: seq<T>, x: T)
    requires Distinct(s)
    ensures multiset(s)[x] <= 1
  {
    if s != [] {
      var init, last := s[..|s| - 1], s[|s| - 1];
      assert s == init + [last];
      DistinctMeansOnce(init, x);
      assert last !in init by { assert forall i :: 0 <= i < |init| ==> init[i] == s[i]; }
    }
  }

  lemma AtMostOne(a: nat, b: nat)
    requires a <= 1 && b <= 1
    ensures a * b <= 1
  {
  }

  lemma SameOpenPorts(hostnames: map<string, string>, targets: seq<string>, a: seq<Event>, b: seq<Event>,
                      answer: map<Pair, Event>)
    requires Answers(a, answer) && Answers(b, answer) && multiset(Reported(a)) == multiset(Reported(b))
    requires forall p :: multiset(Reported(a))[p] <= 1
    requires (forall i :: 0 <= i < |OpenEvents(a)| ==> OpenEvents(a)[i].Open?)
    requires (forall i :: 0 <= i < |OpenEvents(b)| ==> OpenEvents(b)[i].Open?)
    ensures SortPorts(Order(targets), OpenPortsOf(hostnames, OpenEvents(a))) ==
            SortPorts(Order(targets), OpenPortsOf(hostnames, OpenEvents(b)))
  {
    OrderIsInjective(targets);
    OpenPortsHaveDistinctKeys(hostnames, a);
    OpenPortsHaveDistinctKeys(hostnames, b);
    SameReportedSameOpen(a, b, answer);
    SameReportedSameOpen(b, a, answer);
    SameEntries(hostnames, OpenEvents(a), OpenEvents(b));
    SameEntries(hostnames, OpenEvents(b), OpenEvents(a));
    SortHidesArrivalOrder(Order(targets), OpenPortsOf(hostnames, OpenEvents(a)), OpenPortsOf(hostnames, OpenEvents(b)));
  }

  lemma SameReportedSameOpen(a: seq<Event>, b: seq<Event>, answer: map<Pair, Event>)
    requires Answers(a, answer) && Answers(b, answer) && multiset(Reported(a)) == multiset(Reported(b))
    ensures forall e :: e in OpenEvents(a) ==> e in OpenEvents(b)
  {
    forall e | e in OpenEvents(a) ensures e in OpenEvents(b) {
      OpenEventsOfAnswers(a, answer, e);
      OpenEventsOfAnswers(b, answer, e);
      assert e.pair in multiset(Reported(a));
    }
  }

  lemma SameEntries(hostnames: map<string, string>, a: seq<Event>, b: seq<Event>)
    requires (forall i :: 0 <= i < |a| ==> a[i].Open?) && (forall i :: 0 <= i < |b| ==> b[i].Open?)
    requires forall e :: e in a ==> e in b
    ensures forall p :: p in OpenPortsOf(hostnames, a) ==> p in OpenPortsOf(hostnames, b)
  {
    forall p | p in OpenPortsOf(hostnames, a) ensures p in OpenPortsOf(hostnames, b) {
      var i :| 0 <= i < |a| && OpenPortsOf(hostnames, a)[i] == p;
      assert a[i] in b;
      var j :| 0 <= j < |b| && b[j] == a[i];
      assert OpenPortsOf(hostnames, b)[j] == p;
    }
  }
}
