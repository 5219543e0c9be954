/** What a failed update timer does to the refresh protocol.  The timer is armed again and the query is
    sent all the same, so two rounds overlap; three of the protocol's properties hold of all runs
    exactly when that does not happen. */
module TimerFailures {
  import opened RefreshProtocol

  // ---------------------------------------------------------------- a row that is never fetched again

  /** A row that the loop will never fetch again: it is stamped no later than the watermark, the
      captured time and every outstanding query's watermark, and no outstanding rows hold it. */
  ghost predicate Lost(s: State, id: Id) {
    && s.boot.Running? && id in s.db.Current() && id !in s.up.cache
    && var stamp := s.db.Current()[id].stamp;
    && stamp <= s.db.clock
    && s.up.lastUpdateTime.At? && stamp <= s.up.lastUpdateTime.time
    && s.up.updateTime.At? && stamp <= s.up.updateTime.time
    && (forall q <- s.up.queries :: q.since.At? && stamp <= q.since.time && (q.Answered? ==> id !in q.rows))
    && (forall rows <- s.up.posts :: id !in rows)
  }

  /** A lost row stays out of the cache until it is written again, whatever else happens. */
  lemma {:induction false} LostStaysLost(emptyIsValid: bool, s: State, es: seq<Event>, id: Id)
    requires Lost(s, id) && CanRun(emptyIsValid, s, es)
    requires forall e <- es :: !(e.Write? && e.id == id)
    ensures Lost(Run(emptyIsValid, s, es), id) && id !in Run(emptyIsValid, s, es).up.cache
    decreases |es|
  {
    if es != [] {
      assert es[0] in es;
      LostStep(emptyIsValid, s, es[0], id);
      LostStaysLost(emptyIsValid, Step(emptyIsValid, s, es[0]), es[1..], id);
    }
  }

  lemma LostStep(emptyIsValid: bool, s: State, e: Event, id: Id)
    requires Lost(s, id) && Enabled(emptyIsValid, s, e) && !(e.Write? && e.id == id)
    ensures Lost(Step(emptyIsValid, s, e), id)
  {
    match e
    case Snapshot(q) => assert s.up.queries[q] in s.up.queries;
    case QueryCompletes(q) => assert s.up.queries[q] in s.up.queries;
    case UpdateCache(p) => assert s.up.posts[p] in s.up.posts;
    case _ =>
  }

  // ---------------------------------------------------------------- concrete runs

  /** Each event leads from its state to the next. */
  ghost predicate Leads(emptyIsValid: bool, states: seq<State>, events: seq<Event>) {
    && |states| == |events| + 1
    && forall i | 0 <= i < |events| ::
         Enabled(emptyIsValid, states[i], events[i]) && Step(emptyIsValid, states[i], events[i]) == states[i + 1]
  }

  lemma {:induction false} LeadsRun(emptyIsValid: bool, states: seq<State>, events: seq<Event>)
    requires Leads(emptyIsValid, states, events)
    ensures CanRun(emptyIsValid, states[0], events) && Trace(emptyIsValid, states[0], events) == states
    ensures Run(emptyIsValid, states[0], events) == states[|events|]
    decreases |events|
  {
    if events != [] {
      hide Step, Enabled;
      assert Leads(emptyIsValid, states[1..], events[1..]);
      LeadsRun(emptyIsValid, states[1..], events[1..]);
      assert states == [states[0]] + states[1..];
    } else {
      assert states == [states[0]];
    }
  }

  lemma {:induction false} TraceConcat(emptyIsValid: bool, s: State, es: seq<Event>, fs: seq<Event>, i: nat)
    requires CanRun(emptyIsValid, s, es) && CanRun(emptyIsValid, Run(emptyIsValid, s, es), fs) && i <= |fs|
    ensures CanRun(emptyIsValid, s, es + fs)
    ensures Trace(emptyIsValid, s, es + fs)[|es| + i] == Trace(emptyIsValid, Run(emptyIsValid, s, es), fs)[i]
    decreases |es|
  {
    hide Step, Trace;
    RunConcat(emptyIsValid, s, es, fs);
    if es == [] {
      assert es + fs == fs;
    } else {
      assert (es + fs)[1..] == es[1..] + fs;
      TraceConcat(emptyIsValid, Step(emptyIsValid, s, es[0]), es[1..], fs, i);
      TraceTail(emptyIsValid, s, es + fs, |es| + i);
    }
  }

  /** Start-up over an empty table, up to the armed timer. */
  lemma StartOnEmptyTable(emptyIsValid: bool, s: State)
    requires s == State(Db(0, [map[]]), Updater(map[], NoText, NoText, 0, [], []), Idle)
    ensures var es := [DoInitQuery, InitSnapshot, OnInitQueryCompletion, AsyncRunUpdate(At(0))];
      && IsInitial(s) && CanRun(emptyIsValid, s, es) && TimerErrors(es) == 0
      && Run(emptyIsValid, s, es) == State(s.db, Updater(map[], NoText, At(0), 1, [], []), Running)
  {
    assert Select(map[], NoText) == map[] + map[] == map[];
    var t1 := Step(emptyIsValid, s, DoInitQuery);
    var t2 := Step(emptyIsValid, t1, InitSnapshot);
    var t3 := Step(emptyIsValid, t2, OnInitQueryCompletion);
    var t4 := Step(emptyIsValid, t3, AsyncRunUpdate(At(0)));
    assert CanRun(emptyIsValid, t3, [AsyncRunUpdate(At(0))]);
    assert Run(emptyIsValid, t3, [AsyncRunUpdate(At(0))]) == Run(emptyIsValid, t4, []);
    assert [OnInitQueryCompletion, AsyncRunUpdate(At(0))][1..] == [AsyncRunUpdate(At(0))];
    assert [InitSnapshot, OnInitQueryCompletion, AsyncRunUpdate(At(0))][1..]
        == [OnInitQueryCompletion, AsyncRunUpdate(At(0))];
    assert [DoInitQuery, InitSnapshot, OnInitQueryCompletion, AsyncRunUpdate(At(0))][1..]
        == [InitSnapshot, OnInitQueryCompletion, AsyncRunUpdate(At(0))];
  }

  /** A run over an empty table that continues with the given states. */
  lemma ContinueStart(emptyIsValid: bool, states: seq<State>, events: seq<Event>) returns (s: State, es: seq<Event>)
    requires Leads(emptyIsValid, states, events)
    requires states[0] == State(Db(0, [map[]]), Updater(map[], NoText, At(0), 1, [], []), Running)
    ensures IsInitial(s) && CanRun(emptyIsValid, s, es) && TimerErrors(es) == TimerErrors(events)
    ensures |es| == 4 + |events| && Run(emptyIsValid, s, es) == states[|events|]
    ensures forall i | 0 <= i <= |events| :: Trace(emptyIsValid, s, es)[4 + i] == states[i]
  {
    s := State(Db(0, [map[]]), Updater(map[], NoText, NoText, 0, [], []), Idle);
    var start := [DoInitQuery, InitSnapshot, OnInitQueryCompletion, AsyncRunUpdate(At(0))];
    StartOnEmptyTable(emptyIsValid, s);
    hide Run, CanRun, Trace, TimerErrors, Leads;
    LeadsRun(emptyIsValid, states, events);
    RunConcat(emptyIsValid, s, start, events);
    es := start + events;
    forall i | 0 <= i <= |events| ensures Trace(emptyIsValid, s, es)[4 + i] == states[i] {
      TraceConcat(emptyIsValid, s, start, events, i);
    }
  }

  // ---------------------------------------------------------------- a lost row

  /** The states passed by the losing run, `n` events after the timer was first armed. */
  function Losing(n: nat, columns: seq<string>): State
    requires n <= 7
  {
    var before, written := Db(0, [map[]]), Db(1, [map[], map[7 := Version(columns, 1)]]);
    match n
    case 0 => State(before, Updater(map[], NoText, At(0), 1, [], []), Running)
    case 1 => State(before, Updater(map[], At(0), At(0), 1, [Sent(At(0))], []), Running)
    case 2 => State(before, Updater(map[], At(0), At(0), 1, [Answered(At(0), map[])], []), Running)
    case 3 => State(written, Updater(map[], At(0), At(0), 1, [Answered(At(0), map[])], []), Running)
    case 4 => State(written, Updater(map[], At(1), At(0), 0, [Answered(At(0), map[]), Sent(At(0))], []), Running)
    case 5 => State(written, Updater(map[], At(1), At(0), 0, [Sent(At(0))], [map[]]), Running)
    case 6 => State(written, Updater(map[], At(1), At(1), 1, [Sent(At(0))], []), Running)
    case 7 => State(written, Updater(map[], At(1), At(1), 2, [], []), Running)
  }

  function LosingEvents(columns: seq<string>): (es: seq<Event>)
    ensures |es| == 7 && es[0] == Timer(true) && forall i | 0 < i < 7 :: es[i] != Timer(true)
  {
    [Timer(true), Snapshot(0), Write(7, columns), Timer(false), QueryCompletes(0), UpdateCache(0), QueryFails(0)]
  }

  lemma LosingStep(emptyIsValid: bool, n: nat, columns: seq<string>)
    requires n < 7
    ensures Enabled(emptyIsValid, Losing(n, columns), LosingEvents(columns)[n])
    ensures Step(emptyIsValid, Losing(n, columns), LosingEvents(columns)[n]) == Losing(n + 1, columns)
  {
    var s := Losing(n, columns);
    if n == 1 {
      assert Select(s.db.Current(), At(0)) == map[];
    } else if n == 2 {
      assert s.db.Write(7, columns) == Losing(3, columns).db;
    } else if n == 5 {
      assert s.up.cache + s.up.posts[0] == map[];
    } else {
      assert n == 0 || n == 3 || n == 4 || n == 6;
    }
  }

  /** A failed timer starts a second round beside the armed timer.  One write and one query error
      later the written row is covered by the watermark, missing from the cache, and lost. */
  lemma TimerErrorLosesRow(emptyIsValid: bool, columns: seq<string>) returns (s: State, es: seq<Event>)
    ensures IsInitial(s) && CanRun(emptyIsValid, s, es) && TimerErrors(es) == 1
    ensures Lost(Run(emptyIsValid, s, es), 7)
    ensures Run(emptyIsValid, s, es).up.queries == [] && Run(emptyIsValid, s, es).up.posts == []
    ensures Run(emptyIsValid, s, es).up.timers == 2
  {
    hide Step, Enabled, Run, CanRun, Trace, TimerErrors;
    var states, events := seq(8, n requires 0 <= n < 8 => Losing(n, columns)), LosingEvents(columns);
    forall n | 0 <= n < 7
      ensures Enabled(emptyIsValid, states[n], events[n]) && Step(emptyIsValid, states[n], events[n]) == states[n + 1]
    {
      LosingStep(emptyIsValid, n, columns);
    }
    OneTimerError(events, 0);
    s, es := ContinueStart(emptyIsValid, states, events);
  }

  lemma {:induction false} OneTimerError(events: seq<Event>, at: nat)
    requires at < |events| && forall i | 0 <= i < |events| :: events[i] == Timer(true) <==> i == at
    ensures TimerErrors(events) == 1
    decreases |events|
  {
    if at == 0 {
      NoTimerErrors(events[1..]);
    } else {
      OneTimerError(events[1..], at - 1);
    }
  }

  lemma {:induction false} NoTimerErrors(events: seq<Event>)
    requires forall e <- events :: e != Timer(true)
    ensures TimerErrors(events) == 0
  {
    if events != [] {
      assert events[0] in events && forall e <- events[1..] :: e in events;
      NoTimerErrors(events[1..]);
    }
  }

  /** Coverage is a property of all runs exactly when timers do not fail. */
  lemma CoverageIff(emptyIsValid: bool, timersMayFail: bool)
    ensures (forall s, es | IsInitial(s) && CanRun(emptyIsValid, s, es) && (timersMayFail || TimerErrors(es) == 0) ::
               Covered(Run(emptyIsValid, s, es)))
            <==> !timersMayFail
  {
    if timersMayFail {
      var s, es := TimerErrorLosesRow(emptyIsValid, []);
      assert 7 in Run(emptyIsValid, s, es).db.Current();
      assert !Covered(Run(emptyIsValid, s, es));
    } else {
      forall s, es | Reaches(emptyIsValid, s, es) ensures Covered(Run(emptyIsValid, s, es)) {
        WatermarkCovers(emptyIsValid, s, es);
      }
    }
  }

  /** What must hold for a quiet round to be judged: it follows some run, and ends with its apply. */
  ghost predicate QuietRoundAfter(emptyIsValid: bool, s: State, es: seq<Event>, round: seq<Event>) {
    && IsInitial(s) && CanRun(emptyIsValid, s, es) && Run(emptyIsValid, s, es).boot.Running? && IsQuiet(round)
    && CanRun(emptyIsValid, Run(emptyIsValid, s, es), [Timer(false)] + round + [UpdateCache(0)])
  }

  ghost predicate Synchronised(emptyIsValid: bool, s: State, es: seq<Event>, round: seq<Event>)
    requires QuietRoundAfter(emptyIsValid, s, es, round)
  {
    var t := Run(emptyIsValid, Run(emptyIsValid, s, es), [Timer(false)] + round + [UpdateCache(0)]);
    t.up.cache == t.db.Current()
  }

  /** A quiet round makes the cache equal the table, whatever came before it, exactly when timers do
      not fail. */
  lemma QuietRoundIff(emptyIsValid: bool, timersMayFail: bool)
    ensures (forall s, es, round | QuietRoundAfter(emptyIsValid, s, es, round)
                                   && (timersMayFail || TimerErrors(es) == 0) ::
               Synchronised(emptyIsValid, s, es, round))
            <==> !timersMayFail
  {
    if timersMayFail {
      var s, es := TimerErrorLosesRow(emptyIsValid, []);
      var t := Run(emptyIsValid, s, es);
      var round := RoundCanRun(emptyIsValid, t);
      var whole := [Timer(false)] + round + [UpdateCache(0)];
      assert QuietRoundAfter(emptyIsValid, s, es, round);
      LostStaysLost(emptyIsValid, t, whole, 7);
      assert !Synchronised(emptyIsValid, s, es, round);
    } else {
      forall s, es, round | QuietRoundAfter(emptyIsValid, s, es, round) && TimerErrors(es) == 0
        ensures Synchronised(emptyIsValid, s, es, round)
      {
        QuietRoundSynchronises(emptyIsValid, s, es, round);
      }
    }
  }

  // ---------------------------------------------------------------- an older version comes back

  /** The states of a run in which the answer of the earlier of two overlapping rounds is applied
      last, `n` events after the timer was first armed. */
  function Stale(n: nat, c1: seq<string>, c2: seq<string>): State
    requires n <= 10
  {
    var v1, v2: Table := map[7 := Version(c1, 1)], map[7 := Version(c2, 2)];
    var db0, db1, db2 := Db(0, [map[]]), Db(1, [map[], v1]), Db(2, [map[], v1, v2]);
    var q0, q1, q2 := Sent(At(0)), Answered(At(0), v1), Answered(At(0), v2);
    match n
    case 0 => State(db0, Updater(map[], NoText, At(0), 1, [], []), Running)
    case 1 => State(db1, Updater(map[], NoText, At(0), 1, [], []), Running)
    case 2 => State(db1, Updater(map[], At(1), At(0), 1, [q0], []), Running)
    case 3 => State(db1, Updater(map[], At(1), At(0), 1, [q1], []), Running)
    case 4 => State(db2, Updater(map[], At(1), At(0), 1, [q1], []), Running)
    case 5 => State(db2, Updater(map[], At(2), At(0), 0, [q1, q0], []), Running)
    case 6 => State(db2, Updater(map[], At(2), At(0), 0, [q1, q2], []), Running)
    case 7 => State(db2, Updater(map[], At(2), At(0), 0, [q1], [v2]), Running)
    case 8 => State(db2, Updater(v2, At(2), At(2), 1, [q1], []), Running)
    case 9 => State(db2, Updater(v2, At(2), At(2), 1, [], [v1]), Running)
    case 10 => State(db2, Updater(v1, At(2), At(2), 2, [], []), Running)
  }

  function StaleEvents(c1: seq<string>, c2: seq<string>): (es: seq<Event>)
    ensures |es| == 10 && forall i | 0 <= i < 10 :: es[i] == Timer(true) <==> i == 1
  {
    [Write(7, c1), Timer(true), Snapshot(0), Write(7, c2), Timer(false), Snapshot(1), QueryCompletes(1),
     UpdateCache(0), QueryCompletes(0), UpdateCache(0)]
  }

  lemma StaleStep(emptyIsValid: bool, n: nat, c1: seq<string>, c2: seq<string>)
    requires n < 10
    ensures Enabled(emptyIsValid, Stale(n, c1, c2), StaleEvents(c1, c2)[n])
    ensures Step(emptyIsValid, Stale(n, c1, c2), StaleEvents(c1, c2)[n]) == Stale(n + 1, c1, c2)
  {
    var s, t := Stale(n, c1, c2), Stale(n + 1, c1, c2);
    if n == 0 {
      assert s.db.Write(7, c1) == t.db;
    } else if n == 3 {
      assert s.db.Current()[7 := Version(c2, 2)] == t.db.Current();
      assert s.db.Write(7, c2).history == t.db.history;
    } else if n == 2 || n == 5 {
      assert Select(s.db.Current(), At(0)) == s.db.Current();
    } else if n == 7 || n == 9 {
      assert s.up.cache + s.up.posts[0] == t.up.cache;
    } else {
      assert n == 1 || n == 4 || n == 6 || n == 8;
    }
  }

  /** With one failed timer the cached version of a row goes back to an older one, with the watermark
      already past the newer. */
  lemma TimerErrorBringsBackOldRow(emptyIsValid: bool, c1: seq<string>, c2: seq<string>)
    returns (s: State, es: seq<Event>, a: nat, b: nat)
    ensures IsInitial(s) && CanRun(emptyIsValid, s, es) && TimerErrors(es) == 1
    ensures a < b == |es| && HasCache(Trace(emptyIsValid, s, es)[a])
    ensures Trace(emptyIsValid, s, es)[a].up.cache == map[7 := Version(c2, 2)]
    ensures var t := Run(emptyIsValid, s, es);
      && t.up.cache == map[7 := Version(c1, 1)] && t.db.Current() == map[7 := Version(c2, 2)]
      && t.up.lastUpdateTime == At(2) && t.up.queries == [] && t.up.posts == []
  {
    hide Step, Enabled, Run, CanRun, Trace, TimerErrors;
    var states, events := seq(11, n requires 0 <= n < 11 => Stale(n, c1, c2)), StaleEvents(c1, c2);
    forall n | 0 <= n < 10
      ensures Enabled(emptyIsValid, states[n], events[n]) && Step(emptyIsValid, states[n], events[n]) == states[n + 1]
    {
      StaleStep(emptyIsValid, n, c1, c2);
    }
    OneTimerError(events, 1);
    s, es := ContinueStart(emptyIsValid, states, events);
    a, b := 12, 14;
    assert Trace(emptyIsValid, s, es)[4 + 8] == states[8];
  }

  /** Between two moments of a run with a cache at the first. */
  ghost predicate Moments(emptyIsValid: bool, s: State, es: seq<Event>, a: nat, b: nat) {
    IsInitial(s) && CanRun(emptyIsValid, s, es) && a < b <= |es| && HasCache(Trace(emptyIsValid, s, es)[a])
  }

  ghost predicate NothingGoesBack(emptyIsValid: bool, s: State, es: seq<Event>, a: nat, b: nat)
    requires Moments(emptyIsValid, s, es, a, b)
  {
    Later(Trace(emptyIsValid, s, es)[a].up.cache, Trace(emptyIsValid, s, es)[b].up.cache)
  }

  /** That no cached version ever goes back is a property of all runs exactly when timers do not fail. */
  lemma FreshnessIff(emptyIsValid: bool, timersMayFail: bool)
    ensures (forall s, es, a, b | Moments(emptyIsValid, s, es, a, b) && (timersMayFail || TimerErrors(es) == 0) ::
               NothingGoesBack(emptyIsValid, s, es, a, b))
            <==> !timersMayFail
  {
    if timersMayFail {
      var s, es, a, b := TimerErrorBringsBackOldRow(emptyIsValid, [], []);
      assert Moments(emptyIsValid, s, es, a, b);
      assert 7 in Trace(emptyIsValid, s, es)[a].up.cache;
      assert !NothingGoesBack(emptyIsValid, s, es, a, b);
    } else {
      forall s, es, a, b | Moments(emptyIsValid, s, es, a, b) && TimerErrors(es) == 0
        ensures NothingGoesBack(emptyIsValid, s, es, a, b)
      {
        FreshnessNeverGoesBack(emptyIsValid, s, es, a, b);
      }
    }
  }
}
