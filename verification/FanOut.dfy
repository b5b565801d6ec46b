/** What the worker pools of host discovery and of reverse DNS share: workers that take numbered
    jobs from a queue, and counts of where each job is. */
module FanOut {
  import opened Common

  datatype Phase<+R> =
    | Idle
    | Working(index: nat)
    | Delivering(index: nat, result: R)   // sending the result to a channel
    | Exited

  function WorkerCount(jobs: nat, limit: nat): nat {
    if limit < jobs then limit else jobs
  }

  predicate AllExited<R>(workers: seq<Phase<R>>) {
    forall w :: 0 <= w < |workers| ==> workers[w].Exited?
  }

  /** How often i occurs, or how many numbers there are when i is None. */
  function Count(s: seq<nat>, i: Option<nat>): nat {
    if s == [] then 0
    else Count(s[..|s| - 1], i) + if i.None? || i.value == s[|s| - 1] then 1 else 0
  }

  lemma CountOne(j: nat, i: Option<nat>)
    ensures Count([j], i) == if i.None? || i.value == j then 1 else 0
  {
    assert [j][..0] == [];
  }

  lemma {:induction false} CountAppend(s: seq<nat>, t: seq<nat>, i: Option<nat>)
    ensures Count(s + t, i) == Count(s, i) + Count(t, i)
  {
    if t == [] {
      assert s + t == s;
    } else {
      assert (s + t)[..|s + t| - 1] == s + t[..|t| - 1];
      CountAppend(s, t[..|t| - 1], i);
    }
  }

  lemma CountPop(s: seq<nat>, i: Option<nat>)
    requires s != []
    ensures Count(s, i) == Count([s[0]], i) + Count(s[1..], i)
  {
    assert s == [s[0]] + s[1..];
    CountAppend([s[0]], s[1..], i);
  }

  lemma {:induction false} CountAll(s: seq<nat>)
    ensures Count(s, None) == |s|
  {
    if s != [] { CountAll(s[..|s| - 1]); }
  }

  lemma {:induction false} CountMember(s: seq<nat>, i: nat)
    ensures i in s <==> Count(s, Some(i)) > 0
  {
    if s != [] {
      CountMember(s[..|s| - 1], i);
      assert s == s[..|s| - 1] + [s[|s| - 1]];
    }
  }

  function UpTo(n: nat): seq<nat> {
    seq(n, i requires 0 <= i < n => i)
  }

  lemma {:induction false} UpToCounts(n: nat, i: nat)
    ensures Count(UpTo(n), Some(i)) == if i < n then 1 else 0
  {
    if n > 0 {
      UpToCounts(n - 1, i);
      assert UpTo(n)[..n - 1] == UpTo(n - 1);
    }
  }

  /** The job in a worker's hands. */
  function Job<R>(p: Phase<R>): seq<nat> {
    match p
    case Working(index) => [index]
    case Delivering(index, _) => [index]
    case _ => []
  }

  function Held<R>(workers: seq<Phase<R>>, i: Option<nat>): nat {
    if workers == [] then 0
    else Held(workers[..|workers| - 1], i) + Count(Job(workers[|workers| - 1]), i)
  }

  lemma {:induction false} HeldUpdate<R>(workers: seq<Phase<R>>, w: nat, p: Phase<R>, i: Option<nat>)
    requires w < |workers|
    ensures Held(workers[w := p], i) == Held(workers, i) - Count(Job(workers[w]), i) + Count(Job(p), i)
  {
    var last := |workers| - 1;
    if w == last {
      assert workers[w := p][..last] == workers[..last];
    } else {
      assert workers[w := p][..last] == workers[..last][w := p];
      HeldUpdate(workers[..last], w, p, i);
    }
  }

  lemma {:induction false} HeldByOne<R>(workers: seq<Phase<R>>, w: nat, i: Option<nat>)
    requires w < |workers|
    ensures Held(workers, i) >= Count(Job(workers[w]), i)
  {
    if w < |workers| - 1 { HeldByOne(workers[..|workers| - 1], w, i); }
  }

  lemma {:induction false} NothingHeld<R>(workers: seq<Phase<R>>, i: Option<nat>)
    requires forall w :: 0 <= w < |workers| ==> Job(workers[w]) == []
    ensures Held(workers, i) == 0
  {
    if workers != [] { NothingHeld(workers[..|workers| - 1], i); }
  }

  // How many more moves a worker can make without another job.
  function Rank<R>(p: Phase<R>): nat {
    match p
    case Exited => 0
    case Idle => 1
    case Delivering(_, _) => 2
    case Working(_) => 3
  }

  function Ranks<R>(workers: seq<Phase<R>>): nat {
    if workers == [] then 0 else Ranks(workers[..|workers| - 1]) + Rank(workers[|workers| - 1])
  }

  lemma {:induction false} RanksUpdate<R>(workers: seq<Phase<R>>, w: nat, p: Phase<R>)
    requires w < |workers|
    ensures Ranks(workers[w := p]) == Ranks(workers) - Rank(workers[w]) + Rank(p)
  {
    var last := |workers| - 1;
    if w == last {
      assert workers[w := p][..last] == workers[..last];
    } else {
      assert workers[w := p][..last] == workers[..last][w := p];
      RanksUpdate(workers[..last], w, p);
    }
  }
}
