/** The `WaitForInit` / `NotifyAboutInitCompletion` handshake of one cache: any number of waiting
    threads and one initialising thread, stepping in any interleaving, with spurious wakeups. */
module InitHandshake {

  /** Where a waiter stands.  It holds the mutex while `Checking`, `SawFalse` and `Leaving`. */
  datatype Waiter =
    | Start      // about to read the flag without the mutex
    | WantLock   // blocked on the mutex, on entry or after a wakeup
    | Checking   // holds the mutex, about to evaluate the predicate
    | SawFalse   // holds the mutex, the predicate was false
    | Asleep     // on the condition variable, mutex released
    | Leaving    // holds the mutex, the predicate was true
    | Returned

  /** Where the initialising thread stands.  It holds the mutex while `Locked` and `FlagSet`. */
  datatype Notifier =
    | Updating   // inside the cache's first UpdateCache
    | Updated    // UpdateCache has finished, about to lock
    | Locked
    | FlagSet
    | Unlocked   // notify_all is still to come
    | Notified

  datatype Owner = Nobody | TheNotifier | TheWaiter(i: nat)

  datatype State = State(waiters: seq<Waiter>, notifier: Notifier, mutex: Owner, isInit: bool)

  datatype Event = WaiterSteps(i: nat) | SpuriousWakeup(i: nat) | NotifierSteps

  predicate Enabled(s: State, e: Event) {
    match e
    case WaiterSteps(i) =>
      i < |s.waiters| && !s.waiters[i].Asleep? && !s.waiters[i].Returned?
      && (s.waiters[i].WantLock? ==> s.mutex.Nobody?)
    case SpuriousWakeup(i) => i < |s.waiters| && s.waiters[i].Asleep?
    case NotifierSteps => !s.notifier.Notified? && (s.notifier.Updated? ==> s.mutex.Nobody?)
  }

  function WakeAll(ws: seq<Waiter>): (woken: seq<Waiter>)
    ensures |woken| == |ws|
    ensures forall i | 0 <= i < |ws| :: woken[i] == if ws[i].Asleep? then WantLock else ws[i]
  {
    seq(|ws|, i requires 0 <= i < |ws| => if ws[i].Asleep? then WantLock else ws[i])
  }

  function StepWaiter(s: State, i: nat): State
    requires Enabled(s, WaiterSteps(i))
  {
    match s.waiters[i]
    case Start => s.(waiters := s.waiters[i := if s.isInit then Returned else WantLock])
    case WantLock => s.(waiters := s.waiters[i := Checking], mutex := TheWaiter(i))
    case Checking => s.(waiters := s.waiters[i := if s.isInit then Leaving else SawFalse])
    case SawFalse => s.(waiters := s.waiters[i := Asleep], mutex := Nobody)
    case Leaving => s.(waiters := s.waiters[i := Returned], mutex := Nobody)
  }

  function StepNotifier(s: State): State
    requires Enabled(s, NotifierSteps)
  {
    match s.notifier
    case Updating => s.(notifier := Updated)
    case Updated => s.(notifier := Locked, mutex := TheNotifier)
    case Locked => s.(notifier := FlagSet, isInit := true)
    case FlagSet => s.(notifier := Unlocked, mutex := Nobody)
    case Unlocked => s.(notifier := Notified, waiters := WakeAll(s.waiters))
  }

  function Step(s: State, e: Event): State
    requires Enabled(s, e)
  {
    match e
    case WaiterSteps(i) => StepWaiter(s, i)
    case SpuriousWakeup(i) => s.(waiters := s.waiters[i := WantLock])
    case NotifierSteps => StepNotifier(s)
  }

  function Initial(n: nat): State {
    State(seq(n, _ => Start), Updating, Nobody, false)
  }

  ghost predicate CanRun(s: State, es: seq<Event>)
    decreases |es|
  {
    es != [] ==> Enabled(s, es[0]) && CanRun(Step(s, es[0]), es[1..])
  }

  ghost function Run(s: State, es: seq<Event>): State
    requires CanRun(s, es)
    decreases |es|
  {
    if es == [] then s else Run(Step(s, es[0]), es[1..])
  }

  function Spurious(es: seq<Event>): nat {
    if es == [] then 0 else (if es[0].SpuriousWakeup? then 1 else 0) + Spurious(es[1..])
  }

  predicate Holds(w: Waiter) {
    w.Checking? || w.SawFalse? || w.Leaving?
  }

  ghost predicate Inv(s: State) {
    && (s.isInit <==> s.notifier.FlagSet? || s.notifier.Unlocked? || s.notifier.Notified?)
    && (s.mutex.TheNotifier? <==> s.notifier.Locked? || s.notifier.FlagSet?)
    && (forall i | 0 <= i < |s.waiters| :: Holds(s.waiters[i]) <==> s.mutex == TheWaiter(i))
    && (s.mutex.TheWaiter? ==> s.mutex.i < |s.waiters|)
    && (forall w <- s.waiters | w.SawFalse? :: !s.isInit)
    && (forall w <- s.waiters | w.Asleep? && s.isInit :: s.notifier.FlagSet? || s.notifier.Unlocked?)
    && (forall w <- s.waiters | w.Leaving? || w.Returned? :: s.isInit)
  }

  lemma StepKeepsInv(s: State, e: Event)
    requires Inv(s) && Enabled(s, e)
    ensures Inv(Step(s, e)) && |Step(s, e).waiters| == |s.waiters|
  {
    match e
    case WaiterSteps(i) => WaiterKeepsInv(s, i);
    case SpuriousWakeup(i) => assert s.waiters[i] in s.waiters;
    case NotifierSteps => NotifierKeepsInv(s);
  }

  lemma WaiterKeepsInv(s: State, i: nat)
    requires Inv(s) && Enabled(s, WaiterSteps(i))
    ensures Inv(StepWaiter(s, i)) && |StepWaiter(s, i).waiters| == |s.waiters|
  {
    var t := StepWaiter(s, i);
    assert s.waiters[i] in s.waiters;
    assert t.waiters == s.waiters[i := t.waiters[i]];
    forall w <- t.waiters ensures w == t.waiters[i] || w in s.waiters {}
  }

  lemma NotifierKeepsInv(s: State)
    requires Inv(s) && Enabled(s, NotifierSteps)
    ensures Inv(StepNotifier(s)) && |StepNotifier(s).waiters| == |s.waiters|
  {
    if s.notifier.Unlocked? {
      forall i | 0 <= i < |s.waiters| ensures !WakeAll(s.waiters)[i].Asleep? {
        assert s.waiters[i] in s.waiters;
      }
    }
  }

  lemma {:induction false} RunKeepsInv(s: State, es: seq<Event>)
    requires Inv(s) && CanRun(s, es)
    ensures Inv(Run(s, es)) && |Run(s, es).waiters| == |s.waiters|
    decreases |es|
  {
    if es != [] {
      StepKeepsInv(s, es[0]);
      RunKeepsInv(Step(s, es[0]), es[1..]);
    }
  }

  /** No lost wakeup, and no early return: in every reachable state a waiter asleep under a set
      flag still has the `notify_all` ahead, and a waiter has returned only if the cache's first
      UpdateCache finished.  At most one thread is inside the mutex. */
  lemma NoLostWakeup(n: nat, es: seq<Event>)
    requires CanRun(Initial(n), es)
    ensures var s := Run(Initial(n), es);
      && (forall w <- s.waiters | w.Asleep? && s.isInit :: s.notifier.FlagSet? || s.notifier.Unlocked?)
      && (forall w <- s.waiters | w.Returned? :: s.isInit && !s.notifier.Updating?)
      && (forall i, j | 0 <= i < j < |s.waiters| :: !(Holds(s.waiters[i]) && Holds(s.waiters[j])))
  {
    RunKeepsInv(Initial(n), es);
  }

  // ---------------------------------------------------------------- progress

  function Weight(isInit: bool, w: Waiter): (k: nat)
    ensures k <= 5
  {
    if isInit then
      match w
      case Returned => 0 case Leaving => 1 case Checking => 2
      case WantLock => 3 case Asleep => 4 case SawFalse => 5 case Start => 1
    else
      match w
      case Returned => 0 case Leaving => 0 case Asleep => 0
      case SawFalse => 1 case Checking => 2 case WantLock => 3 case Start => 4
  }

  function Total(isInit: bool, ws: seq<Waiter>): (k: nat)
    ensures k <= 5 * |ws|
  {
    if ws == [] then 0 else Weight(isInit, ws[0]) + Total(isInit, ws[1..])
  }

  /** Steps the notifier still has, plus room for the weights that the set flag brings. */
  function NotifierWork(s: State): nat {
    match s.notifier
    case Updating => 6 + 5 * |s.waiters|
    case Updated => 5 + 5 * |s.waiters|
    case Locked => 4 + 5 * |s.waiters|
    case FlagSet => 2
    case Unlocked => 1
    case Notified => 0
  }

  function Work(s: State): nat {
    NotifierWork(s) + Total(s.isInit, s.waiters)
  }

  lemma {:induction false} TotalUpdate(isInit: bool, ws: seq<Waiter>, i: nat, w: Waiter)
    requires i < |ws|
    ensures Total(isInit, ws[i := w]) == Total(isInit, ws) - Weight(isInit, ws[i]) + Weight(isInit, w)
  {
    if i == 0 {
      assert ws[i := w][1..] == ws[1..];
    } else {
      assert ws[i := w][1..] == ws[1..][i - 1 := w];
      TotalUpdate(isInit, ws[1..], i - 1, w);
    }
  }

  lemma {:induction false} TotalWoken(ws: seq<Waiter>)
    ensures Total(true, WakeAll(ws)) <= Total(true, ws)
  {
    if ws != [] {
      assert WakeAll(ws)[1..] == WakeAll(ws[1..]);
      TotalWoken(ws[1..]);
    }
  }

  /** Every step but a spurious wakeup before the flag is set uses up work; such a wakeup adds 3. */
  lemma StepUsesWork(s: State, e: Event)
    requires Inv(s) && Enabled(s, e)
    ensures Work(Step(s, e)) <= if e.SpuriousWakeup? && !s.isInit then Work(s) + 3 else Work(s) - 1
  {
    match e
    case WaiterSteps(i) => WaiterUsesWork(s, i);
    case SpuriousWakeup(i) =>
      hide Total;
      TotalUpdate(s.isInit, s.waiters, i, WantLock);
    case NotifierSteps => NotifierUsesWork(s);
  }

  lemma WaiterUsesWork(s: State, i: nat)
    requires Inv(s) && Enabled(s, WaiterSteps(i))
    ensures Work(StepWaiter(s, i)) < Work(s)
  {
    hide Total;
    assert s.waiters[i] in s.waiters;
    var w := StepWaiter(s, i).waiters[i];
    assert StepWaiter(s, i).waiters == s.waiters[i := w];
    assert Weight(s.isInit, w) < Weight(s.isInit, s.waiters[i]) by {
      hide Work, Enabled;
    }
    TotalUpdate(s.isInit, s.waiters, i, w);
  }

  lemma NotifierUsesWork(s: State)
    requires Inv(s) && Enabled(s, NotifierSteps)
    ensures Work(StepNotifier(s)) < Work(s)
  {
    hide Total, Weight;
    TotalWoken(s.waiters);
    assert |WakeAll(s.waiters)| == |s.waiters|;
  }

  /** Unless every waiter has returned and the notifier is done, some thread can take a step that
      is not a spurious wakeup. */
  lemma NoDeadlock(s: State) returns (e: Event)
    requires Inv(s)
    requires !s.notifier.Notified? || exists i | 0 <= i < |s.waiters| :: !s.waiters[i].Returned?
    ensures Enabled(s, e) && !e.SpuriousWakeup?
  {
    if s.mutex.TheWaiter? {
      e := WaiterSteps(s.mutex.i);
    } else if !s.notifier.Notified? {
      e := NotifierSteps;
    } else {
      var i :| 0 <= i < |s.waiters| && !s.waiters[i].Returned?;
      assert s.waiters[i] in s.waiters;
      e := WaiterSteps(i);
    }
  }

  lemma {:induction false} RunLengthBound(s: State, es: seq<Event>)
    requires Inv(s) && CanRun(s, es)
    ensures |es| + Work(Run(s, es)) <= Work(s) + 4 * Spurious(es)
    decreases |es|
  {
    if es != [] {
      StepUsesWork(s, es[0]);
      StepKeepsInv(s, es[0]);
      RunLengthBound(Step(s, es[0]), es[1..]);
    }
  }

  /** Total progress.  For any number of waiters, a run is no longer than a bound linear in the
      waiters and the spurious wakeups, and where it can go no further every `WaitForInit` has
      returned. */
  lemma EveryWaiterReturns(n: nat, es: seq<Event>)
    requires CanRun(Initial(n), es)
    ensures |es| <= 6 + 10 * n + 4 * Spurious(es)
    ensures var s := Run(Initial(n), es);
      (forall e | Enabled(s, e) :: e.SpuriousWakeup?) ==>
        s.notifier.Notified? && |s.waiters| == n && forall w <- s.waiters :: w.Returned?
  {
    RunLengthBound(Initial(n), es);
    RunKeepsInv(Initial(n), es);
    var s := Run(Initial(n), es);
    if !(s.notifier.Notified? && forall w <- s.waiters :: w.Returned?) {
      var e := NoDeadlock(s);
    }
  }

  /** Once the flag is set spurious wakeups are harmless too: at most `2 + 5n` further steps of
      any kind remain. */
  lemma BoundAfterFlag(s: State, es: seq<Event>)
    requires Inv(s) && s.isInit && CanRun(s, es)
    ensures |es| <= 2 + 5 * |s.waiters|
  {
    BoundAfterFlagWork(s, es);
  }

  lemma {:induction false} BoundAfterFlagWork(s: State, es: seq<Event>)
    requires Inv(s) && s.isInit && CanRun(s, es)
    ensures |es| <= Work(s)
    decreases |es|
  {
    if es != [] {
      StepUsesWork(s, es[0]);
      StepKeepsInv(s, es[0]);
      BoundAfterFlagWork(Step(s, es[0]), es[1..]);
    }
  }
}
