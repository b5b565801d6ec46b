/** The concurrent scan of internal/scanner/scanner.go: a producer, a pool of workers, a bounded
    queue of targets, a bounded channel of events and a consumer that drains it. Each goroutine's
    next communication or call is one move; every interleaving is some sequence of moves. */
module Scanner {
  import opened Common

  datatype Pair = Pair(host: string, port: int)

  datatype ProbeResult = ProbeResult(protocol: string, detail: string, duration: int, failure: Option<string>)

  /** The classes of dial error that the statistics tell apart. */
  datatype Failure = Timeout | Refused | Unreachable | Other

  datatype Event =
    | Checking(pair: Pair)
    | Open(pair: Pair, duration: int, probes: seq<ProbeResult>, closeFailed: bool)
    | Closed(pair: Pair, failure: Failure)

  datatype Config = Config(targets: seq<string>, ports: seq<int>, workers: int, protocols: map<int, seq<string>>)

  datatype ConfigError = NoTargets | EmptyTarget(index: nat) | NoPorts | BadPort(index: nat) | NoWorkers | NoTimeout

  function Checks(c: Config): nat {
    |c.targets| * |c.ports|
  }

  ghost predicate Valid(c: Config) {
    && c.targets != [] && "" !in c.targets
    && c.ports != [] && (forall i :: 0 <= i < |c.ports| ==> 1 <= c.ports[i] <= 65535)
    && 1 <= c.workers <= Checks(c)
  }

  /** New: what it rejects, and that it never starts more workers than there are checks. */
  function New(config: Config, dialTimeout: int): (r: Result<Config, ConfigError>)
    ensures r.Ok? <==>
            && config.targets != [] && "" !in config.targets
            && config.ports != [] && (forall i :: 0 <= i < |config.ports| ==> 1 <= config.ports[i] <= 65535)
            && config.workers >= 1 && dialTimeout > 0
    ensures r.Ok? ==> Valid(r.value) && r.value.workers <= config.workers
                      && r.value == config.(workers := r.value.workers)
                      && (r.value.workers == config.workers || r.value.workers == Checks(config))
    ensures r.Err? ==>
              match r.error
              case NoTargets => config.targets == []
              case EmptyTarget(i) => i < |config.targets| && config.targets[i] == "" && "" !in config.targets[..i]
              case NoPorts => config.ports == []
              case BadPort(i) => i < |config.ports| && !(1 <= config.ports[i] <= 65535)
                                 && forall k :: 0 <= k < i ==> 1 <= config.ports[k] <= 65535
              case NoWorkers => config.workers < 1
              case NoTimeout => dialTimeout <= 0
  {
    var badHost := FirstIndex(config.targets, (host: string) => host == "", 0);
    var badPort := FirstIndex(config.ports, port => port < 1 || port > 65535, 0);
    if config.targets == [] then Err(NoTargets)
    else if badHost < |config.targets| then Err(EmptyTarget(badHost))
    else if config.ports == [] then Err(NoPorts)
    else if badPort < |config.ports| then Err(BadPort(badPort))
    else if config.workers < 1 then Err(NoWorkers)
    else if dialTimeout <= 0 then Err(NoTimeout)
    else
      assert |config.targets| * |config.ports| >= 1;
      if config.workers > Checks(config) then Ok(config.(workers := Checks(config)))
      else Ok(config)
  }

  function PairsOfHost(host: string, ports: seq<int>): seq<Pair> {
    if ports == [] then [] else [Pair(host, ports[0])] + PairsOfHost(host, ports[1..])
  }

  /** The checks in the order in which sendTargets sends them. */
  function AllPairs(targets: seq<string>, ports: seq<int>): (pairs: seq<Pair>)
  {
    if targets == [] then [] else PairsOfHost(targets[0], ports) + AllPairs(targets[1..], ports)
  }

  function Protocols(c: Config, port: int): seq<string> {
    if port in c.protocols then c.protocols[port] else []
  }

  datatype Phase =
    | Idle                                    // at the select on ctx.Done and the target queue
    | Announcing(pair: Pair)                  // emitting Checking
    | Dialing(pair: Pair)
    | ClosingPlain(pair: Pair, duration: int) // open, but no protocol is configured for the port
    | Redialing(pair: Pair, duration: int, results: seq<ProbeResult>, closeFailed: bool)
    | Probing(pair: Pair, duration: int, results: seq<ProbeResult>, closeFailed: bool)
    | ClosingProbe(pair: Pair, duration: int, results: seq<ProbeResult>, closeFailed: bool)
    | Probed(pair: Pair, duration: int, results: seq<ProbeResult>, closeFailed: bool)
    | Reporting(event: Event)                 // emitting Open or Closed
    | Exited(lost: Option<Pair>, checked: bool)

  datatype State = State(
    unsent: seq<Pair>, sending: bool, queue: seq<Pair>, workers: seq<Phase>, cancelled: bool,
    events: seq<Event>, eventsClosed: bool, received: seq<Event>, done: bool)

  function Init(c: Config): State
    requires c.workers >= 0
  {
    State(AllPairs(c.targets, c.ports), true, [], seq(c.workers, i => Idle), false, [], false, [], false)
  }

  datatype Act =
    | Quit                      // the ctx.Done arm of a select
    | Take | Drained            // the target arm: a pair, or the closed and empty queue
    | Emit
    | DialOk(duration: int) | DialError(failure: Failure)
    | RedialOk | RedialError(result: ProbeResult)
    | RunProbe(result: ProbeResult)
    | CloseConnection(failed: bool)
    | Decide                    // ctx.Err after the probes

  datatype Move =
    | Cancel
    | Send | GiveUpSending | FinishSending
    | Work(w: nat, act: Act)
    | CloseEvents
    | Receive | SeeClosed

  function EventOf(p: Phase): Event
    requires p.Announcing? || p.Reporting?
  {
    if p.Announcing? then Checking(p.pair) else p.event
  }

  predicate CanAct(c: Config, s: State, p: Phase, act: Act) {
    match act
    case Quit => (p.Idle? || p.Announcing? || p.Reporting?) && s.cancelled
    case Take => p.Idle? && s.queue != []
    case Drained => p.Idle? && s.queue == [] && !s.sending
    case Emit => (p.Announcing? || p.Reporting?) && |s.events| < c.workers
    case DialOk(_) => p.Dialing?
    case DialError(_) => p.Dialing?
    case RedialOk => p.Redialing?
    case RedialError(result) =>
      p.Redialing? && |p.results| < |Protocols(c, p.pair.port)| &&
      result.protocol == Protocols(c, p.pair.port)[|p.results|] && result.failure.Some?
    case RunProbe(result) =>
      p.Probing? && |p.results| < |Protocols(c, p.pair.port)| &&
      result.protocol == Protocols(c, p.pair.port)[|p.results|]
    case CloseConnection(_) => p.ClosingPlain? || p.ClosingProbe?
    case Decide => p.Probed?
  }

  // The loop head of runProbes: the next protocol needs a new connection.
  function NextProbe(c: Config, pair: Pair, duration: int, results: seq<ProbeResult>, closeFailed: bool): Phase {
    if |results| < |Protocols(c, pair.port)| then Redialing(pair, duration, results, closeFailed)
    else Probed(pair, duration, results, closeFailed)
  }

  function Acted(c: Config, s: State, p: Phase, act: Act): Phase
    requires CanAct(c, s, p, act)
  {
    match act
    case Quit =>
      if p.Idle? then Exited(None, false)
      else if p.Announcing? then Exited(Some(p.pair), false)
      else Exited(Some(p.event.pair), true)
    case Take => Announcing(s.queue[0])
    case Drained => Exited(None, false)
    case Emit => if p.Announcing? then Dialing(p.pair) else Idle
    case DialOk(duration) =>
      if Protocols(c, p.pair.port) == [] then ClosingPlain(p.pair, duration)
      else Probing(p.pair, duration, [], false)
    case DialError(failure) =>
      if s.cancelled then Exited(Some(p.pair), true) else Reporting(Closed(p.pair, failure))
    case RedialOk => Probing(p.pair, p.duration, p.results, p.closeFailed)
    case RedialError(result) =>
      if s.cancelled then Probed(p.pair, p.duration, p.results, p.closeFailed)
      else NextProbe(c, p.pair, p.duration, p.results + [result], p.closeFailed)
    case RunProbe(result) => ClosingProbe(p.pair, p.duration, p.results + [result], p.closeFailed)
    case CloseConnection(failed) =>
      if p.ClosingPlain? then Reporting(Open(p.pair, p.duration, [], failed))
      else NextProbe(c, p.pair, p.duration, p.results, p.closeFailed || failed)
    case Decide =>
      if s.cancelled then Exited(Some(p.pair), true)
      else Reporting(Open(p.pair, p.duration, p.results, p.closeFailed))
  }

  predicate AllExited(workers: seq<Phase>) {
    forall w :: 0 <= w < |workers| ==> workers[w].Exited?
  }

  predicate Enabled(c: Config, s: State, m: Move) {
    match m
    case Cancel => !s.cancelled
    case Send => s.sending && s.unsent != [] && |s.queue| < c.workers
    case GiveUpSending => s.sending && s.unsent != [] && s.cancelled
    case FinishSending => s.sending && s.unsent == []
    case Work(w, act) => w < |s.workers| && CanAct(c, s, s.workers[w], act)
    case CloseEvents => !s.sending && AllExited(s.workers) && !s.eventsClosed
    case Receive => !s.done && s.events != []
    case SeeClosed => !s.done && s.events == [] && s.eventsClosed
  }

  function Step(c: Config, s: State, m: Move): State
    requires Enabled(c, s, m)
  {
    match m
    case Cancel => s.(cancelled := true)
    case Send => s.(unsent := s.unsent[1..], queue := s.queue + [s.unsent[0]])
    case GiveUpSending => s.(sending := false)
    case FinishSending => s.(sending := false)
    case Work(w, act) =>
      var p := s.workers[w];
      s.(workers := s.workers[w := Acted(c, s, p, act)],
         queue := if act.Take? then s.queue[1..] else s.queue,
         events := if act.Emit? then s.events + [EventOf(p)] else s.events)
    case CloseEvents => s.(eventsClosed := true)
    case Receive => s.(received := s.received + [s.events[0]], events := s.events[1..])
    case SeeClosed => s.(done := true)
  }

  /** The state after the moves, and whether each of them was possible in turn. */
  function Run(c: Config, moves: seq<Move>): (r: (bool, State))
    requires c.workers >= 0
  {
    if moves == [] then (true, Init(c))
    else
      var (ok, s) := Run(c, moves[..|moves| - 1]);
      var m := moves[|moves| - 1];
      if ok && Enabled(c, s, m) then (true, Step(c, s, m)) else (false, s)
  }

  /** Every event ever put on the channel, in order. */
  function Sent(s: State): seq<Event> {
    s.received + s.events
  }

  /** The pairs of the terminal (Open or Closed) events, or of the Checking events, in order. */
  function Pairs(es: seq<Event>, checking: bool): seq<Pair> {
    if es == [] then []
    else
      var before, last := Pairs(es[..|es| - 1], checking), es[|es| - 1];
      if last.Checking? == checking then before + [last.pair] else before
  }

  function Reported(es: seq<Event>): seq<Pair> {
    Pairs(es, false)
  }

  function Announced(es: seq<Event>): seq<Pair> {
    Pairs(es, true)
  }

  // ---------------------------------------------------------------- invariants

  // Occurrences of one pair, or of any pair when x is None.
  function Occurs(ps: seq<Pair>, x: Option<Pair>): nat {
    if x.None? then |ps| else multiset(ps)[x.value]
  }

  /** The pair a worker answers for; with `checked`, only once its Checking event was sent. */
  function Holds(p: Phase, checked: bool): seq<Pair> {
    match p
    case Idle => []
    case Announcing(pair) => if checked then [] else [pair]
    case Reporting(event) => [event.pair]
    case Exited(lost, wasChecked) => if lost.Some? && (checked ==> wasChecked) then [lost.value] else []
    case _ => [p.pair]
  }

  function HeldBy(workers: seq<Phase>, checked: bool, x: Option<Pair>): nat {
    if workers == [] then 0
    else HeldBy(workers[..|workers| - 1], checked, x) + Occurs(Holds(workers[|workers| - 1], checked), x)
  }

  lemma HeldAppend(workers: seq<Phase>, p: Phase, checked: bool, x: Option<Pair>)
    ensures HeldBy(workers + [p], checked, x) == HeldBy(workers, checked, x) + Occurs(Holds(p, checked), x)
  {
    assert (workers + [p])[..|workers|] == workers;
  }

  lemma {:induction false} HeldUpdate(workers: seq<Phase>, w: nat, p: Phase, checked: bool, x: Option<Pair>)
    requires w < |workers|
    ensures HeldBy(workers[w := p], checked, x) ==
            HeldBy(workers, checked, x) - Occurs(Holds(workers[w], checked), x) + Occurs(Holds(p, checked), x)
  {
    var init, last := workers[..|workers| - 1], workers[|workers| - 1];
    HeldAppend(init, last, checked, x);
    assert workers == init + [last];
    if w == |init| {
      assert workers[w := p] == init + [p];
      HeldAppend(init, p, checked, x);
    } else {
      assert workers[w := p] == init[w := p] + [last];
      HeldAppend(init[w := p], last, checked, x);
      HeldUpdate(init, w, p, checked, x);
    }
  }

  lemma {:induction false} HeldAtMostOneEach(workers: seq<Phase>, checked: bool)
    ensures HeldBy(workers, checked, None) <= |workers|
  {
    if workers != [] { HeldAtMostOneEach(workers[..|workers| - 1], checked); }
  }

  lemma {:induction false} NothingHeld(workers: seq<Phase>, checked: bool, x: Option<Pair>)
    requires forall w :: 0 <= w < |workers| ==> Holds(workers[w], checked) == []
    ensures HeldBy(workers, checked, x) == 0
  {
    if workers != [] { NothingHeld(workers[..|workers| - 1], checked, x); }
  }

  // The results name the first configured protocols of the port, in order.
  ghost predicate Follows(c: Config, pair: Pair, results: seq<ProbeResult>) {
    && |results| <= |Protocols(c, pair.port)|
    && forall k :: 0 <= k < |results| ==> results[k].protocol == Protocols(c, pair.port)[k]
  }

  ghost predicate EventOk(c: Config, e: Event) {
    e.Open? ==> Follows(c, e.pair, e.probes) && |e.probes| == |Protocols(c, e.pair.port)|
  }

  ghost predicate PhaseOk(c: Config, cancelled: bool, p: Phase) {
    match p
    case ClosingPlain(pair, _) => Protocols(c, pair.port) == []
    case Redialing(pair, _, results, _) =>
      Follows(c, pair, results) && |results| < |Protocols(c, pair.port)|
    case Probing(pair, _, results, _) =>
      Follows(c, pair, results) && |results| < |Protocols(c, pair.port)|
    case ClosingProbe(pair, _, results, _) => Follows(c, pair, results)
    case Probed(pair, _, results, _) =>
      Follows(c, pair, results) && (|results| == |Protocols(c, pair.port)| || cancelled)
    case Reporting(event) => !event.Checking? && EventOk(c, event)
    case Exited(lost, _) => lost.Some? ==> cancelled
    case _ => true
  }

  ghost predicate Shape(c: Config, s: State) {
    && |s.workers| == c.workers && |s.queue| <= c.workers && |s.events| <= c.workers
    && (forall w :: 0 <= w < |s.workers| ==> PhaseOk(c, s.cancelled, s.workers[w]))
    && (forall k :: 0 <= k < |Sent(s)| ==> EventOk(c, Sent(s)[k]))
  }

  ghost predicate Flow(c: Config, s: State) {
    && (!s.cancelled && !s.sending ==> s.unsent == [])
    && (!s.cancelled && (exists w :: 0 <= w < |s.workers| && s.workers[w].Exited?) ==> !s.sending && s.queue == [])
    && (s.eventsClosed ==> !s.sending && AllExited(s.workers))
    && (s.done ==> s.eventsClosed && s.events == [])
  }

  // Every configured check is unsent, queued, held by a worker or reported.
  ghost predicate Conserved(c: Config, s: State) {
    forall x :: Occurs(AllPairs(c.targets, c.ports), x) ==
      Occurs(s.unsent, x) + Occurs(s.queue, x) + HeldBy(s.workers, false, x) + Occurs(Reported(Sent(s)), x)
  }

  ghost predicate Paired(s: State) {
    forall x :: Occurs(Announced(Sent(s)), x) == Occurs(Reported(Sent(s)), x) + HeldBy(s.workers, true, x)
  }

  ghost predicate CheckedFirst(es: seq<Event>) {
    forall k, x :: 0 <= k <= |es| ==> Occurs(Reported(es[..k]), x) <= Occurs(Announced(es[..k]), x)
  }

  ghost predicate Inv(c: Config, s: State) {
    Shape(c, s) && Flow(c, s) && Conserved(c, s) && Paired(s) && CheckedFirst(Sent(s))
  }

  lemma InitInv(c: Config)
    requires Valid(c)
    ensures Inv(c, Init(c))
  {
    forall x ensures HeldBy(Init(c).workers, false, x) == HeldBy(Init(c).workers, true, x) == 0 {
      NothingHeld(Init(c).workers, false, x);
      NothingHeld(Init(c).workers, true, x);
    }
  }

  // How one move changes the trace: it appends the emitted event or leaves it alone.
  lemma SentStep(c: Config, s: State, m: Move)
    requires Enabled(c, s, m)
    ensures Sent(Step(c, s, m)) ==
            if m.Work? && m.act.Emit? then Sent(s) + [EventOf(s.workers[m.w])] else Sent(s)
  {
    if m.Receive? {
      assert s.events == [s.events[0]] + s.events[1..];
    }
  }

  lemma PhaseStep(c: Config, s: State, p: Phase, act: Act)
    requires PhaseOk(c, s.cancelled, p) && CanAct(c, s, p, act)
    ensures PhaseOk(c, s.cancelled, Acted(c, s, p, act))
    ensures act.Emit? ==> EventOk(c, EventOf(p))
  {
  }

  lemma ShapeStep(c: Config, s: State, m: Move)
    requires Shape(c, s) && Enabled(c, s, m)
    ensures Shape(c, Step(c, s, m))
  {
    SentStep(c, s, m);
    var s' := Step(c, s, m);
    if m.Work? {
      PhaseStep(c, s, s.workers[m.w], m.act);
    } else {
      assert s'.workers == s.workers;
    }
  }

  lemma FlowStep(c: Config, s: State, m: Move)
    requires Flow(c, s) && Enabled(c, s, m)
    ensures Flow(c, Step(c, s, m))
  {
    var s' := Step(c, s, m);
    if m.Work? {
      assert forall w :: 0 <= w < |s.workers| && w != m.w ==> s'.workers[w] == s.workers[w];
    }
  }

  lemma PopFront(q: seq<Pair>, x: Option<Pair>)
    requires q != []
    ensures Occurs(q, x) == Occurs([q[0]], x) + Occurs(q[1..], x)
  {
    assert q == [q[0]] + q[1..];
  }

  lemma OccursAppend(ps: seq<Pair>, qs: seq<Pair>, x: Option<Pair>)
    ensures Occurs(ps + qs, x) == Occurs(ps, x) + Occurs(qs, x)
  {
  }

  lemma TraceAppend(es: seq<Event>, e: Event, checking: bool, x: Option<Pair>)
    ensures Occurs(Pairs(es + [e], checking), x) ==
            Occurs(Pairs(es, checking), x) + (if e.Checking? == checking then Occurs([e.pair], x) else 0)
  {
    assert (es + [e])[..|es|] == es;
    OccursAppend(Pairs(es, checking), [e.pair], x);
  }

  function Taken(s: State, act: Act, x: Option<Pair>): nat {
    if act.Take? && s.queue != [] then Occurs([s.queue[0]], x) else 0
  }

  function Emitted(p: Phase, act: Act, checking: bool, x: Option<Pair>): nat {
    if act.Emit? && (p.Announcing? || p.Reporting?) && EventOf(p).Checking? == checking
    then Occurs([EventOf(p).pair], x) else 0
  }

  lemma HoldsCases(c: Config, s: State, p: Phase, act: Act, checked: bool)
    requires PhaseOk(c, s.cancelled, p) && CanAct(c, s, p, act)
    ensures var before, after := Holds(p, checked), Holds(Acted(c, s, p, act), checked);
            if act.Take? then before == [] && after == if checked then [] else [s.queue[0]]
            else if act.Emit? && p.Announcing? then before == (if checked then [] else [p.pair]) && after == [p.pair]
            else if act.Emit? then before == [p.event.pair] && after == []
            else after == before
  {
  }

  // A worker answers for exactly what it takes from the queue until it reports it.
  lemma HoldsStep(c: Config, s: State, p: Phase, act: Act, checked: bool, x: Option<Pair>)
    requires PhaseOk(c, s.cancelled, p) && CanAct(c, s, p, act)
    ensures Occurs(Holds(Acted(c, s, p, act), checked), x) + Emitted(p, act, false, x) ==
            Occurs(Holds(p, checked), x) + if checked then Emitted(p, act, true, x) else Taken(s, act, x)
  {
    var before, after := Holds(p, checked), Holds(Acted(c, s, p, act), checked);
    HoldsCases(c, s, p, act, checked);
    assert Occurs([], x) == 0;
    if act.Emit? {
      assert EventOf(p).Checking? == p.Announcing?;
    }
  }

  lemma TraceBalance(c: Config, s: State, w: nat, act: Act, checking: bool, x: Option<Pair>)
    requires Enabled(c, s, Work(w, act))
    ensures Occurs(Pairs(Sent(Step(c, s, Work(w, act))), checking), x) ==
            Occurs(Pairs(Sent(s), checking), x) + Emitted(s.workers[w], act, checking, x)
  {
    SentStep(c, s, Work(w, act));
    if act.Emit? { TraceAppend(Sent(s), EventOf(s.workers[w]), checking, x); }
  }

  lemma HeldBalance(c: Config, s: State, w: nat, act: Act, checked: bool, x: Option<Pair>)
    requires Shape(c, s) && Enabled(c, s, Work(w, act))
    ensures HeldBy(Step(c, s, Work(w, act)).workers, checked, x) + Emitted(s.workers[w], act, false, x) ==
            HeldBy(s.workers, checked, x)
            + if checked then Emitted(s.workers[w], act, true, x) else Taken(s, act, x)
  {
    HeldUpdate(s.workers, w, Acted(c, s, s.workers[w], act), checked, x);
    HoldsStep(c, s, s.workers[w], act, checked, x);
  }

  lemma BalanceStep(c: Config, s: State, m: Move)
    requires Shape(c, s) && Conserved(c, s) && Paired(s) && Enabled(c, s, m)
    ensures Conserved(c, Step(c, s, m)) && Paired(Step(c, s, m))
  {
    var s' := Step(c, s, m);
    SentStep(c, s, m);
    forall x
      ensures Occurs(AllPairs(c.targets, c.ports), x) ==
              Occurs(s'.unsent, x) + Occurs(s'.queue, x) + HeldBy(s'.workers, false, x) + Occurs(Reported(Sent(s')), x)
      ensures Occurs(Announced(Sent(s')), x) == Occurs(Reported(Sent(s')), x) + HeldBy(s'.workers, true, x)
    {
      if m.Work? {
        TraceBalance(c, s, m.w, m.act, false, x);
        TraceBalance(c, s, m.w, m.act, true, x);
        HeldBalance(c, s, m.w, m.act, false, x);
        HeldBalance(c, s, m.w, m.act, true, x);
        if m.act.Take? { PopFront(s.queue, x); }
      }
      if m.Send? {
        PopFront(s.unsent, x);
        OccursAppend(s.queue, [s.unsent[0]], x);
      }
    }
  }

  lemma CheckedFirstStep(c: Config, s: State, m: Move)
    requires CheckedFirst(Sent(s)) && Enabled(c, s, m) && Paired(Step(c, s, m))
    ensures CheckedFirst(Sent(Step(c, s, m)))
  {
    SentStep(c, s, m);
    var es, es' := Sent(s), Sent(Step(c, s, m));
    forall k, x | 0 <= k <= |es'| ensures Occurs(Reported(es'[..k]), x) <= Occurs(Announced(es'[..k]), x) {
      assert es'[..k] == if k <= |es| then es[..k] else es';
    }
  }

  lemma {:induction false} RunKeepsInv(c: Config, moves: seq<Move>)
    requires Valid(c) && Run(c, moves).0
    ensures Inv(c, Run(c, moves).1)
  {
    if moves == [] {
      InitInv(c);
    } else {
      var s, m := Run(c, moves[..|moves| - 1]).1, moves[|moves| - 1];
      RunKeepsInv(c, moves[..|moves| - 1]);
      ShapeStep(c, s, m);
      FlowStep(c, s, m);
      BalanceStep(c, s, m);
      CheckedFirstStep(c, s, m);
    }
  }
}
