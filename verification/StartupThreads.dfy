/** `InitPgCaches`: every cache's init query runs on one shared io_context served by a pool of
    threads, and a completion handler may block its thread until other caches are initialised. */
module StartupThreads {

  /** The caches are 0, 1, ...; `waits[c]` lists, in order, the caches whose `WaitForInit` the
      completion handler of `c` calls, and `io[c]` counts the non-blocking handlers that its query
      needs before the completion is ready. */
  datatype Setup = Setup(waits: seq<seq<nat>>, io: seq<nat>)
  {
    ghost predicate Valid() {
      |io| == |waits| && forall c | 0 <= c < |waits| :: forall d <- waits[c] :: d < |waits|
    }

    /** The waits form an acyclic relation: `rank` decreases along every one. */
    ghost predicate Acyclic(rank: nat -> nat) {
      forall c | 0 <= c < |waits| :: forall d <- waits[c] :: rank(d) < rank(c)
    }

    /** The caches whose completion handler waits for another cache. */
    function Waiting(): set<nat> {
      set c | 0 <= c < |waits| && waits[c] != []
    }
  }

  /** `Handling(pos)` occupies a thread; `pos` waits have been passed. */
  datatype Cache = Querying(left: nat) | Handling(pos: nat) | Initialised

  datatype State = State(caches: seq<Cache>, exited: nat)

  datatype Event = Io(c: nat) | Dispatch(c: nat) | PassWait(c: nat) | Finish(c: nat) | ThreadExits

  function Busy(s: State): set<nat> {
    set c | 0 <= c < |s.caches| && s.caches[c].Handling?
  }

  predicate HasFreeThread(threads: nat, s: State) {
    |Busy(s)| + s.exited < threads
  }

  predicate AllInitialised(s: State) {
    forall c <- s.caches :: c.Initialised?
  }

  predicate Enabled(setup: Setup, threads: nat, s: State, e: Event)
    requires |setup.waits| == |s.caches|
  {
    match e
    case Io(c) => c < |s.caches| && s.caches[c].Querying? && s.caches[c].left > 0 && HasFreeThread(threads, s)
    case Dispatch(c) => c < |s.caches| && s.caches[c] == Querying(0) && HasFreeThread(threads, s)
    case PassWait(c) =>
      c < |s.caches| && s.caches[c].Handling? && s.caches[c].pos < |setup.waits[c]|
      && (var d := setup.waits[c][s.caches[c].pos]; d < |s.caches| && s.caches[d].Initialised?)
    case Finish(c) => c < |s.caches| && s.caches[c].Handling? && s.caches[c].pos == |setup.waits[c]|
    case ThreadExits => AllInitialised(s) && s.exited < threads
  }

  function Step(s: State, e: Event): (t: State)
    requires !e.ThreadExits? ==> e.c < |s.caches|
    requires e.Io? ==> s.caches[e.c].Querying? && s.caches[e.c].left > 0
    requires e.PassWait? ==> s.caches[e.c].Handling?
    ensures |t.caches| == |s.caches|
  {
    match e
    case Io(c) => s.(caches := s.caches[c := Querying(s.caches[c].left - 1)])
    case Dispatch(c) => s.(caches := s.caches[c := Handling(0)])
    case PassWait(c) => s.(caches := s.caches[c := Handling(s.caches[c].pos + 1)])
    case Finish(c) => s.(caches := s.caches[c := Initialised])
    case ThreadExits => s.(exited := s.exited + 1)
  }

  function Initial(setup: Setup): State
    requires setup.Valid()
  {
    State(seq(|setup.io|, c requires 0 <= c < |setup.io| => Querying(setup.io[c])), 0)
  }

  ghost predicate CanRun(setup: Setup, threads: nat, s: State, es: seq<Event>)
    requires |setup.waits| == |s.caches|
    decreases |es|
  {
    es != [] ==> Enabled(setup, threads, s, es[0]) && CanRun(setup, threads, Step(s, es[0]), es[1..])
  }

  ghost function Run(setup: Setup, threads: nat, s: State, es: seq<Event>): (t: State)
    requires |setup.waits| == |s.caches| && CanRun(setup, threads, s, es)
    ensures |t.caches| == |s.caches|
    decreases |es|
  {
    if es == [] then s else Run(setup, threads, Step(s, es[0]), es[1..])
  }

  /** Nothing can move although some thread has not left `io_context.run()`: `JoinAll` hangs. */
  ghost predicate Deadlocked(setup: Setup, threads: nat, s: State)
    requires |setup.waits| == |s.caches|
  {
    s.exited < threads && forall e :: !Enabled(setup, threads, s, e)
  }

  /** The run `es` from the start ends in a deadlock. */
  ghost predicate Hangs(setup: Setup, threads: nat, es: seq<Event>)
    requires setup.Valid()
  {
    CanRun(setup, threads, Initial(setup), es) && Deadlocked(setup, threads, Run(setup, threads, Initial(setup), es))
  }

  ghost predicate Inv(setup: Setup, threads: nat, s: State) {
    && setup.Valid() && |s.caches| == |setup.waits|
    && (forall c | 0 <= c < |s.caches| && s.caches[c].Handling? :: s.caches[c].pos <= |setup.waits[c]|)
    && (s.exited > 0 ==> AllInitialised(s))
    && |Busy(s)| + s.exited <= threads
  }

  lemma BusyOf(s: State, c: nat, x: Cache)
    requires c < |s.caches|
    ensures Busy(s.(caches := s.caches[c := x])) == if x.Handling? then Busy(s) + {c} else Busy(s) - {c}
  {
  }

  lemma StepKeepsInv(setup: Setup, threads: nat, s: State, e: Event)
    requires Inv(setup, threads, s) && Enabled(setup, threads, s, e)
    ensures Inv(setup, threads, Step(s, e))
  {
    if e.ThreadExits? {
      assert Busy(s) == {} by {
        forall c | 0 <= c < |s.caches| ensures s.caches[c].Initialised? { assert s.caches[c] in s.caches; }
      }
      assert Busy(Step(s, e)) == Busy(s);
    } else {
      assert s.caches[e.c] in s.caches;
      BusyOf(s, e.c, Step(s, e).caches[e.c]);
      assert s.exited == 0;
    }
  }

  lemma {:induction false} RunKeepsInv(setup: Setup, threads: nat, s: State, es: seq<Event>)
    requires Inv(setup, threads, s) && CanRun(setup, threads, s, es)
    ensures Inv(setup, threads, Run(setup, threads, s, es))
    decreases |es|
  {
    if es != [] {
      StepKeepsInv(setup, threads, s, es[0]);
      RunKeepsInv(setup, threads, Step(s, es[0]), es[1..]);
    }
  }

  lemma InitialInv(setup: Setup, threads: nat)
    requires setup.Valid()
    ensures Inv(setup, threads, Initial(setup))
  {
    assert Busy(Initial(setup)) == {};
  }

  // ---------------------------------------------------------------- no deadlock

  lemma SubsetSize<T>(a: set<T>, b: set<T>)
    requires a <= b
    ensures |a| <= |b|
  {
    assert b == a + (b - a);
  }

  /** Among the busy caches, one of least rank. */
  lemma {:induction false} LeastRanked(rank: nat -> nat, xs: set<nat>) returns (c: nat)
    requires xs != {}
    ensures c in xs && forall x <- xs :: rank(c) <= rank(x)
    decreases |xs|
  {
    c :| c in xs;
    var rest := xs - {c};
    if rest != {} {
      var d := LeastRanked(rank, rest);
      assert forall x <- xs :: x == c || x in rest;
      if rank(d) < rank(c) { c := d; }
    }
  }

  /** If some cache is not initialised and there are more threads than caches that wait, something
      can move. */
  lemma UnfinishedCanMove(setup: Setup, threads: nat, s: State, rank: nat -> nat) returns (e: Event)
    requires Inv(setup, threads, s) && setup.Acyclic(rank)
    requires threads > |setup.Waiting()| && !AllInitialised(s)
    ensures Enabled(setup, threads, s, e)
  {
    var c :| 0 <= c < |s.caches| && !s.caches[c].Initialised?;
    assert s.caches[c] in s.caches;
    if x :| x in Busy(s) && setup.waits[x] == [] {
      return Finish(x);
    }
    assert Busy(s) <= setup.Waiting();
    SubsetSize(Busy(s), setup.Waiting());
    assert HasFreeThread(threads, s);
    if q :| 0 <= q < |s.caches| && s.caches[q].Querying? {
      return if s.caches[q].left > 0 then Io(q) else Dispatch(q);
    }
    assert c in Busy(s);
    var least := LeastRanked(rank, Busy(s));
    if s.caches[least].pos == |setup.waits[least]| {
      return Finish(least);
    }
    var d := setup.waits[least][s.caches[least].pos];
    assert d in setup.waits[least] && rank(d) < rank(least);
    assert d !in Busy(s);
    return PassWait(least);
  }

  lemma EnoughThreadsNeverDeadlock(setup: Setup, threads: nat, rank: nat -> nat, es: seq<Event>)
    requires setup.Valid() && setup.Acyclic(rank) && threads > |setup.Waiting()|
    requires CanRun(setup, threads, Initial(setup), es)
    ensures !Deadlocked(setup, threads, Run(setup, threads, Initial(setup), es))
  {
    InitialInv(setup, threads);
    RunKeepsInv(setup, threads, Initial(setup), es);
    var s := Run(setup, threads, Initial(setup), es);
    if s.exited < threads {
      if AllInitialised(s) {
        assert Enabled(setup, threads, s, ThreadExits);
      } else {
        var e := UnfinishedCanMove(setup, threads, s, rank);
      }
    }
  }

  /** With no more threads than waiting caches, dispatching waiting caches first blocks them all. */
  lemma {:induction false} TooFewThreadsDeadlock(setup: Setup, threads: nat) returns (es: seq<Event>)
    requires setup.Valid() && 0 < threads <= |setup.Waiting()|
    ensures CanRun(setup, threads, Initial(setup), es)
    ensures Deadlocked(setup, threads, Run(setup, threads, Initial(setup), es))
  {
    InitialInv(setup, threads);
    assert Busy(Initial(setup)) == {};
    es := FillThreads(setup, threads, Initial(setup));
    var s := Run(setup, threads, Initial(setup), es);
    var c :| c in Busy(s);
    assert s.caches[c] in s.caches;
    forall e ensures !Enabled(setup, threads, s, e) {
      match e
      case Finish(c) => assert c < |s.caches| && s.caches[c].Handling? ==> c in Busy(s);
      case _ =>
    }
  }

  lemma {:induction false} FillThreads(setup: Setup, threads: nat, s: State) returns (es: seq<Event>)
    requires Inv(setup, threads, s) && Busy(s) <= setup.Waiting() && threads <= |setup.Waiting()|
    requires s.exited == 0 && forall c | 0 <= c < |s.caches| :: s.caches[c].Querying? || s.caches[c] == Handling(0)
    ensures CanRun(setup, threads, s, es)
    ensures var t := Run(setup, threads, s, es);
      && |Busy(t)| == threads && Busy(t) <= setup.Waiting() && t.exited == 0
      && forall c | 0 <= c < |t.caches| :: t.caches[c].Querying? || t.caches[c] == Handling(0)
    decreases threads - |Busy(s)|, QueryWork(setup, s)
  {
    if |Busy(s)| == threads {
      return [];
    }
    assert Busy(s) != setup.Waiting();
    var c :| c in setup.Waiting() && c !in Busy(s);
    var e := if s.caches[c].left > 0 then Io(c) else Dispatch(c);
    StepKeepsInv(setup, threads, s, e);
    BusyOf(s, c, Step(s, e).caches[c]);
    WorkUpdate(setup.waits, s.caches, c, Step(s, e).caches[c]);
    var rest := FillThreads(setup, threads, Step(s, e));
    es := [e] + rest;
  }

  /** Exactly when startup can hang.  For any acyclic waits and any pool, some dispatch order
      deadlocks if and only if the pool is not larger than the number of caches that wait. */
  lemma DeadlockIff(setup: Setup, threads: nat, rank: nat -> nat)
    requires setup.Valid() && setup.Acyclic(rank) && threads > 0
    ensures (exists es :: Hangs(setup, threads, es)) <==> threads <= |setup.Waiting()|
  {
    if threads <= |setup.Waiting()| {
      var es := TooFewThreadsDeadlock(setup, threads);
      assert Hangs(setup, threads, es);
    } else {
      forall es | CanRun(setup, threads, Initial(setup), es)
        ensures !Hangs(setup, threads, es)
      {
        EnoughThreadsNeverDeadlock(setup, threads, rank, es);
      }
    }
  }

  ghost function Indices(n: nat): (xs: set<nat>)
    ensures |xs| == n && forall c: nat :: c in xs <==> c < n
  {
    if n == 0 then {} else Indices(n - 1) + {n - 1}
  }

  /** Following first waits from any cache ends at one that waits for none. */
  lemma {:induction false} Sink(setup: Setup, rank: nat -> nat, c: nat) returns (sink: nat)
    requires setup.Valid() && setup.Acyclic(rank) && c < |setup.waits|
    ensures sink < |setup.waits| && setup.waits[sink] == []
    decreases rank(c)
  {
    if setup.waits[c] == [] {
      return c;
    }
    assert setup.waits[c][0] in setup.waits[c];
    sink := Sink(setup, rank, setup.waits[c][0]);
  }

  /** As many threads as caches, the choice made by `InitPgCaches`, is always enough. */
  lemma AsManyThreadsAsCaches(setup: Setup, rank: nat -> nat)
    requires setup.Valid() && setup.Acyclic(rank) && |setup.waits| > 0
    ensures |setup.Waiting()| < |setup.waits|
  {
    var all := Indices(|setup.waits|);
    var sink := Sink(setup, rank, 0);
    assert sink in all && sink !in setup.Waiting();
    SubsetSize(setup.Waiting(), all - {sink});
  }

  // ---------------------------------------------------------------- termination

  function CacheWork(waits: seq<nat>, c: Cache): nat {
    match c
    case Querying(left) => left + |waits| + 2
    case Handling(pos) => if pos <= |waits| then |waits| - pos + 1 else 0
    case Initialised => 0
  }

  function CachesWork(waits: seq<seq<nat>>, cs: seq<Cache>): nat
    requires |waits| == |cs|
  {
    if cs == [] then 0 else CacheWork(waits[0], cs[0]) + CachesWork(waits[1..], cs[1..])
  }

  lemma {:induction false} WorkUpdate(waits: seq<seq<nat>>, cs: seq<Cache>, c: nat, x: Cache)
    requires |waits| == |cs| && c < |cs|
    ensures CachesWork(waits, cs[c := x]) == CachesWork(waits, cs) - CacheWork(waits[c], cs[c]) + CacheWork(waits[c], x)
  {
    if c == 0 {
      assert cs[c := x][1..] == cs[1..];
    } else {
      assert cs[c := x][1..] == cs[1..][c - 1 := x];
      WorkUpdate(waits[1..], cs[1..], c - 1, x);
    }
  }

  function QueryWork(setup: Setup, s: State): nat {
    if |setup.waits| == |s.caches| then CachesWork(setup.waits, s.caches) else 0
  }

  function Work(setup: Setup, threads: nat, s: State): int {
    QueryWork(setup, s) + threads - s.exited
  }

  /** Every step uses up one unit of work: runs are bounded, so `JoinAll` is reached. */
  lemma {:induction false} RunUsesWork(setup: Setup, threads: nat, s: State, es: seq<Event>)
    requires Inv(setup, threads, s) && CanRun(setup, threads, s, es)
    ensures |es| == Work(setup, threads, s) - Work(setup, threads, Run(setup, threads, s, es))
    decreases |es|
  {
    if es != [] {
      var e := es[0];
      if !e.ThreadExits? {
        WorkUpdate(setup.waits, s.caches, e.c, Step(s, e).caches[e.c]);
      }
      StepKeepsInv(setup, threads, s, e);
      RunUsesWork(setup, threads, Step(s, e), es[1..]);
    }
  }

  /** Startup completes.  With as many threads as caches, every run from the start is no longer
      than the initial work, and one that cannot be extended has every cache initialised and every
      thread returned from `io_context.run()`, so `JoinAll` returns. */
  lemma StartupCompletes(setup: Setup, rank: nat -> nat, es: seq<Event>)
    requires setup.Valid() && setup.Acyclic(rank) && |setup.waits| > 0
    requires CanRun(setup, |setup.waits|, Initial(setup), es)
    ensures |es| <= Work(setup, |setup.waits|, Initial(setup))
    ensures var s := Run(setup, |setup.waits|, Initial(setup), es);
      (forall e :: !Enabled(setup, |setup.waits|, s, e)) ==> AllInitialised(s) && s.exited == |setup.waits|
  {
    var n := |setup.waits|;
    InitialInv(setup, n);
    RunKeepsInv(setup, n, Initial(setup), es);
    RunUsesWork(setup, n, Initial(setup), es);
    AsManyThreadsAsCaches(setup, rank);
    EnoughThreadsNeverDeadlock(setup, n, rank, es);
  }

  /** A cache's own `UpdateCache` runs to its end only after the caches it waits for. */
  ghost predicate WaitsRespected(setup: Setup, s: State)
    requires |setup.waits| == |s.caches|
  {
    forall c | 0 <= c < |s.caches| ::
      var passed := Passed(s.caches[c], |setup.waits[c]|);
      && passed <= |setup.waits[c]|
      && forall i | 0 <= i < passed :: setup.waits[c][i] < |s.caches| && s.caches[setup.waits[c][i]].Initialised?
  }

  /** How many of its waits a cache has passed. */
  function Passed(c: Cache, waits: nat): nat {
    match c
    case Querying(_) => 0
    case Handling(pos) => pos
    case Initialised => waits
  }

  lemma {:induction false} RunRespectsWaits(setup: Setup, threads: nat, s: State, es: seq<Event>)
    requires Inv(setup, threads, s) && WaitsRespected(setup, s) && CanRun(setup, threads, s, es)
    ensures WaitsRespected(setup, Run(setup, threads, s, es))
    decreases |es|
  {
    if es != [] {
      StepKeepsInv(setup, threads, s, es[0]);
      RunRespectsWaits(setup, threads, Step(s, es[0]), es[1..]);
    }
  }

  /** In every reachable state, a cache has passed only waits for initialised caches; so an
      initialised cache had every cache it waits for initialised before it. */
  lemma InitialisedAfterItsWaits(setup: Setup, threads: nat, es: seq<Event>)
    requires setup.Valid() && CanRun(setup, threads, Initial(setup), es)
    ensures WaitsRespected(setup, Run(setup, threads, Initial(setup), es))
  {
    InitialInv(setup, threads);
    RunRespectsWaits(setup, threads, Initial(setup), es);
  }
}
