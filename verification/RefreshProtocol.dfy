/** The refresh loop of one Postgres-backed cache, as a state machine over its callbacks.

    A run interleaves, in any order: single-statement writes to the table, the initial full
    query, the update timer, the database answering a query, a query failing or completing,
    and the posted apply.  Time is a logical clock.  A write is stamped one past the clock, so
    strictly later than every time captured before it, and becomes visible in the same step. */
module RefreshProtocol {

  type Id = int

  /** One version of a row: its columns and its `updated_at`. */
  datatype Version = Version(columns: seq<string>, stamp: nat)

  type Table = map<Id, Version>

  /** The text bound to the query's parameter; `NoText` is the empty string. */
  datatype Watermark = NoText | At(time: nat)

  /** `WHERE updated_at > $1`. */
  function Select(table: Table, since: Watermark): (rows: Table)
  {
    map id | id in table && (since.At? ==> table[id].stamp > since.time) :: table[id]
  }

  type History = h: seq<Table> | h != [] witness [map[]]

  /** The database: `history` holds every state of the table, the current one last. */
  datatype Db = Db(clock: nat, history: History)
  {
    ghost predicate Valid() {
      forall id <- Current() :: Current()[id].stamp <= clock
    }

    function Current(): Table {
      history[|history| - 1]
    }

    function Write(id: Id, columns: seq<string>): Db {
      Db(clock + 1, history + [Current()[id := Version(columns, clock + 1)]])
    }
  }

  datatype Query = Sent(since: Watermark) | Answered(since: Watermark, rows: Table)

  /** The updater's fields, the cached map it maintains, and its outstanding asynchronous
      operations: armed timers, queries in flight and applies posted to the strand. */
  datatype Updater = Updater(
    cache: Table, updateTime: Watermark, lastUpdateTime: Watermark,
    timers: nat, queries: seq<Query>, posts: seq<Table>)
  {
    function Activities(): nat {
      timers + |queries| + |posts|
    }

    /** `AsyncRunUpdate` after `SetLastUpdateTime`. */
    function Start(watermark: Watermark): Updater {
      this.(lastUpdateTime := watermark, timers := timers + 1)
    }

    function DoQuery(now: nat): Updater {
      this.(updateTime := At(now), queries := queries + [Sent(lastUpdateTime)])
    }

    /** A failed timer re-arms and then queries all the same. */
    function OnUpdateTimer(failed: bool, now: nat): Updater
      requires timers > 0
    {
      var fired := this.(timers := timers - 1);
      (if failed then fired.(timers := timers) else fired).DoQuery(now)
    }

    function Answer(q: nat, table: Table): Updater
      requires q < |queries|
    {
      this.(queries := queries[q := Answered(queries[q].since, Select(table, queries[q].since))])
    }

    function OnQueryError(q: nat): Updater
      requires q < |queries|
    {
      this.(queries := Remove(queries, q), timers := timers + 1)
    }

    function OnQueryRows(q: nat): Updater
      requires q < |queries| && queries[q].Answered?
    {
      this.(queries := Remove(queries, q), posts := posts + [queries[q].rows])
    }

    function Apply(p: nat): Updater
      requires p < |posts|
    {
      this.(lastUpdateTime := updateTime, cache := cache + posts[p],
            posts := Remove(posts, p), timers := timers + 1)
    }
  }

  function Remove<T>(s: seq<T>, i: nat): seq<T>
    requires i < |s|
  {
    s[..i] + s[i + 1..]
  }

  /** Progress of the start-up: the full query with the time captured before it, its answer,
      and then the incremental loop. */
  datatype Boot =
    | Idle
    | InitSent(capture: nat)
    | InitAnswered(capture: nat, rows: Table)
    | Initialised(capture: nat)
    | Running

  datatype State = State(db: Db, up: Updater, boot: Boot)

  datatype Event =
    | Write(id: Id, columns: seq<string>)
    | DoInitQuery
    | InitSnapshot
    | OnInitQueryCompletion
    | AsyncRunUpdate(watermark: Watermark)
    | Timer(failed: bool)
    | Snapshot(q: nat)
    | QueryFails(q: nat)
    | QueryCompletes(q: nat)
    | UpdateCache(p: nat)

  /** `emptyIsValid` says whether the database accepts the empty text as a timestamp. */
  predicate Enabled(emptyIsValid: bool, s: State, e: Event) {
    match e
    case Write(_, _) => true
    case DoInitQuery => s.boot.Idle?
    case InitSnapshot => s.boot.InitSent?
    case OnInitQueryCompletion => s.boot.InitAnswered?
    case AsyncRunUpdate(w) => s.boot.Initialised? && (w.At? ==> w.time <= s.boot.capture)
    case Timer(_) => s.up.timers > 0
    case Snapshot(q) => q < |s.up.queries| && s.up.queries[q].Sent? && (s.up.queries[q].since.At? || emptyIsValid)
    case QueryFails(q) => q < |s.up.queries|
    case QueryCompletes(q) => q < |s.up.queries| && s.up.queries[q].Answered?
    case UpdateCache(p) => p < |s.up.posts|
  }

  function Step(emptyIsValid: bool, s: State, e: Event): State
    requires Enabled(emptyIsValid, s, e)
  {
    match e
    case Write(id, columns) => s.(db := s.db.Write(id, columns))
    case DoInitQuery => s.(boot := InitSent(s.db.clock))
    case InitSnapshot => s.(boot := InitAnswered(s.boot.capture, Select(s.db.Current(), NoText)))
    case OnInitQueryCompletion =>
      s.(up := s.up.(cache := s.up.cache + s.boot.rows), boot := Initialised(s.boot.capture))
    case AsyncRunUpdate(w) => s.(up := s.up.Start(w), boot := Running)
    case Timer(failed) => s.(up := s.up.OnUpdateTimer(failed, s.db.clock))
    case Snapshot(q) => s.(up := s.up.Answer(q, s.db.Current()))
    case QueryFails(q) => s.(up := s.up.OnQueryError(q))
    case QueryCompletes(q) => s.(up := s.up.OnQueryRows(q))
    case UpdateCache(p) => s.(up := s.up.Apply(p))
  }

  ghost predicate IsInitial(s: State) {
    && s.db.Valid() && |s.db.history| == 1
    && s.up == Updater(map[], NoText, NoText, 0, [], [])
    && s.boot == Idle
  }

  /** Every event of the run is enabled where it occurs. */
  ghost predicate CanRun(emptyIsValid: bool, s: State, es: seq<Event>)
    decreases |es|
  {
    es != [] ==> Enabled(emptyIsValid, s, es[0]) && CanRun(emptyIsValid, Step(emptyIsValid, s, es[0]), es[1..])
  }

  ghost function Run(emptyIsValid: bool, s: State, es: seq<Event>): State
    requires CanRun(emptyIsValid, s, es)
    decreases |es|
  {
    if es == [] then s else Run(emptyIsValid, Step(emptyIsValid, s, es[0]), es[1..])
  }

  /** All states of a run, the starting one first. */
  ghost function Trace(emptyIsValid: bool, s: State, es: seq<Event>): (states: seq<State>)
    requires CanRun(emptyIsValid, s, es)
    ensures |states| == |es| + 1 && states[0] == s && states[|es|] == Run(emptyIsValid, s, es)
    decreases |es|
  {
    [s] + if es == [] then [] else Trace(emptyIsValid, Step(emptyIsValid, s, es[0]), es[1..])
  }

  lemma TraceTail(emptyIsValid: bool, s: State, es: seq<Event>, i: nat)
    requires CanRun(emptyIsValid, s, es) && 0 < i <= |es|
    ensures CanRun(emptyIsValid, Step(emptyIsValid, s, es[0]), es[1..])
    ensures Trace(emptyIsValid, s, es)[i] == Trace(emptyIsValid, Step(emptyIsValid, s, es[0]), es[1..])[i - 1]
  {
    hide Step;
  }

  function TimerErrors(es: seq<Event>): nat {
    if es == [] then 0 else (if es[0] == Timer(true) then 1 else 0) + TimerErrors(es[1..])
  }

  ghost predicate HasCache(s: State) {
    s.boot.Initialised? || s.boot.Running?
  }

  // ---------------------------------------------------------------- outstanding activities

  /** Exactly one activity is outstanding in a running loop, plus one for every failed timer:
      the single-activity property holds precisely on the runs without timer errors. */
  lemma {:induction false} ActivityCount(emptyIsValid: bool, s: State, es: seq<Event>)
    requires CanRun(emptyIsValid, s, es)
    requires s.boot.Running? || s.up.Activities() == 0
    ensures var t := Run(emptyIsValid, s, es);
      && (s.boot.Running? ==> t.boot.Running? && t.up.Activities() == s.up.Activities() + TimerErrors(es))
      && (!s.boot.Running? && t.boot.Running? ==> t.up.Activities() == 1 + TimerErrors(es))
      && (!t.boot.Running? ==> t.up.Activities() == 0 && TimerErrors(es) == 0)
    decreases |es|
  {
    if es != [] {
      ActivityCount(emptyIsValid, Step(emptyIsValid, s, es[0]), es[1..]);
    }
  }

  /** From the initial state: one activity, or none before the loop is started, if and only if
      no timer failed. */
  lemma SingleActivity(emptyIsValid: bool, s: State, es: seq<Event>)
    requires IsInitial(s) && CanRun(emptyIsValid, s, es)
    ensures Run(emptyIsValid, s, es).up.Activities() <= 1 <==> TimerErrors(es) == 0
    ensures Run(emptyIsValid, s, es).boot.Running? ==> Run(emptyIsValid, s, es).up.Activities() == 1 + TimerErrors(es)
  {
    ActivityCount(emptyIsValid, s, es);
  }

  /** Setting the timer cancels a wait that is still pending.  Until a timer has failed, none ever is:
      whenever an event arms the timer, the first failed wait included, the only wait outstanding is
      the one, if any, whose end the event is. */
  lemma ArmingNeverCancels(emptyIsValid: bool, s: State, es: seq<Event>, e: Event)
    requires IsInitial(s) && CanRun(emptyIsValid, s, es) && TimerErrors(es) == 0
    requires Enabled(emptyIsValid, Run(emptyIsValid, s, es), e)
    requires var t := Run(emptyIsValid, s, es);
      e == Timer(true) || Step(emptyIsValid, t, e).up.timers > t.up.timers
    ensures Run(emptyIsValid, s, es).up.timers == if e.Timer? then 1 else 0
  {
    ActivityCount(emptyIsValid, s, es);
  }

  // ---------------------------------------------------------------- the cache is a past table

  /** `newer` is a later state of the table than `older`: no row is gone, no stamp went back. */
  ghost predicate Later(older: Table, newer: Table) {
    older.Keys <= newer.Keys && forall id <- older :: older[id].stamp <= newer[id].stamp
  }

  /** The rows of `newer` stamped no later than `time` are those of `older`. */
  ghost predicate UnchangedSince(older: Table, time: nat, newer: Table) {
    forall id <- newer :: newer[id].stamp <= time ==> id in older && older[id] == newer[id]
  }

  /** History entry `j` is where the outstanding rows bring the cache, and nothing stamped by
      the captured time has been written since. */
  ghost predicate Pending(s: State, k: nat, j: nat, rows: Table) {
    && k <= j < |s.db.history| && s.up.cache + rows == s.db.history[j]
    && s.up.updateTime.At? && UnchangedSince(s.db.history[j], s.up.updateTime.time, s.db.Current())
  }

  ghost predicate Ordered(db: Db) {
    forall i, j | 0 <= i <= j < |db.history| :: Later(db.history[i], db.history[j])
  }

  /** The cache equals entry `k` of the table's history; `j` is the entry the outstanding round,
      if it has rows, is about to install. */
  ghost predicate Inv(s: State, k: nat, j: nat) {
    && s.db.Valid() && Ordered(s.db)
    && s.up.Activities() == (if s.boot.Running? then 1 else 0)
    && (!s.boot.Running? ==> s.up.updateTime == NoText)
    && (s.boot.Idle? || s.boot.InitSent? || s.boot.InitAnswered? ==> s.up.cache == map[])
    && (s.boot.InitSent? ==> s.boot.capture <= s.db.clock)
    && (s.boot.InitAnswered? ==>
          j < |s.db.history| && s.boot.rows == s.db.history[j]
          && s.boot.capture <= s.db.clock && UnchangedSince(s.boot.rows, s.boot.capture, s.db.Current()))
    && (HasCache(s) ==> k < |s.db.history| && s.up.cache == s.db.history[k])
    && (s.boot.Initialised? ==>
          s.boot.capture <= s.db.clock && UnchangedSince(s.up.cache, s.boot.capture, s.db.Current()))
    && (s.boot.Running? ==> InvRunning(s, k, j))
  }

  ghost predicate InvRunning(s: State, k: nat, j: nat)
    requires k < |s.db.history|
  {
    && (s.up.lastUpdateTime.At? ==> UnchangedSince(s.up.cache, s.up.lastUpdateTime.time, s.db.Current()))
    && (s.up.updateTime.At? ==> s.up.updateTime.time <= s.db.clock)
    && (s.up.lastUpdateTime.At? ==> s.up.lastUpdateTime.time <= s.db.clock)
    && (forall q <- s.up.queries :: q.since == s.up.lastUpdateTime && s.up.updateTime.At?)
    && (forall q <- s.up.queries | q.Answered? ::
          Pending(s, k, j, q.rows) && q.rows == Select(s.db.history[j], q.since))
    && (forall rows <- s.up.posts :: Pending(s, k, j, rows))
  }

  lemma InitialInv(s: State)
    requires IsInitial(s)
    ensures Inv(s, 0, 0)
  {
  }

  lemma WriteKeepsInv(emptyIsValid: bool, s: State, e: Event, k: nat, j: nat)
    requires Inv(s, k, j) && e.Write?
    ensures Inv(Step(emptyIsValid, s, e), k, j)
  {
    var t := Step(emptyIsValid, s, e);
    var n := |s.db.history|;
    assert t.db.history[n] == t.db.Current();
    assert forall i | 0 <= i < n :: t.db.history[i] == s.db.history[i];
    assert Later(s.db.Current(), t.db.Current());
    forall i, m | 0 <= i <= m < |t.db.history| ensures Later(t.db.history[i], t.db.history[m]) {
      if m == n && i < n {
        assert Later(s.db.history[i], s.db.Current());
      } else if m < n {
        assert Later(s.db.history[i], s.db.history[m]);
      }
    }
    forall past: Table, time: nat | time <= s.db.clock && UnchangedSince(past, time, s.db.Current())
      ensures UnchangedSince(past, time, t.db.Current())
    {
    }
  }

  /** The rows selected by the watermark, laid over the cache, give the snapshot exactly. */
  lemma SelectionCompletesCache(s: State, k: nat, j: nat)
    requires Inv(s, k, j) && s.boot.Running?
    ensures s.up.cache + Select(s.db.Current(), s.up.lastUpdateTime) == s.db.Current()
  {
    var table, since := s.db.Current(), s.up.lastUpdateTime;
    assert Later(s.db.history[k], table);
    forall id <- table ensures id in s.up.cache + Select(table, since) {
      if id !in Select(table, since) {
        assert table[id].stamp <= since.time;
      }
    }
    assert (s.up.cache + Select(table, since)).Keys == table.Keys;
    forall id <- table
      ensures (s.up.cache + Select(table, since))[id] == table[id]
    {
      if id !in Select(table, since) {
        assert table[id].stamp <= since.time;
      }
    }
  }

  lemma BootStepInv(emptyIsValid: bool, s: State, e: Event, k: nat, j: nat) returns (k': nat, j': nat)
    requires Inv(s, k, j) && Enabled(emptyIsValid, s, e)
    requires e.DoInitQuery? || e.InitSnapshot? || e.OnInitQueryCompletion? || e.AsyncRunUpdate?
    ensures Inv(Step(emptyIsValid, s, e), k', j') && Step(emptyIsValid, s, e).db == s.db
    ensures HasCache(s) ==> HasCache(Step(emptyIsValid, s, e)) && k == k'
  {
    hide Later;
    k', j' := k, j;
    if e.InitSnapshot? {
      j' := |s.db.history| - 1;
    } else if e.OnInitQueryCompletion? {
      k' := j;
    }
  }

  lemma SnapshotKeepsInv(emptyIsValid: bool, s: State, q: nat, k: nat, j: nat)
    requires Inv(s, k, j) && Enabled(emptyIsValid, s, Snapshot(q))
    ensures Inv(Step(emptyIsValid, s, Snapshot(q)), k, |s.db.history| - 1)
  {
    assert s.boot.Running? && |s.up.queries| == 1 && s.up.queries[q] in s.up.queries;
    SelectionCompletesCache(s, k, j);
    assert UnchangedSince(s.db.Current(), s.up.updateTime.time, s.db.Current());
    hide Later, UnchangedSince, Select;
  }

  lemma RoundEndsKeepsInv(emptyIsValid: bool, s: State, q: nat, k: nat, j: nat)
    requires Inv(s, k, j) && Enabled(emptyIsValid, s, QueryCompletes(q))
    ensures Inv(Step(emptyIsValid, s, QueryCompletes(q)), k, j)
  {
    hide Later, UnchangedSince, Select;
    assert s.boot.Running? && |s.up.queries| == 1 && s.up.queries[q] in s.up.queries;
    assert Remove(s.up.queries, q) == [];
  }

  lemma ApplyKeepsInv(emptyIsValid: bool, s: State, p: nat, k: nat, j: nat)
    requires Inv(s, k, j) && Enabled(emptyIsValid, s, UpdateCache(p))
    ensures Inv(Step(emptyIsValid, s, UpdateCache(p)), j, j) && s.boot.Running? && k <= j
  {
    hide Later, UnchangedSince, Select;
    assert s.boot.Running? && |s.up.posts| == 1 && s.up.posts[p] in s.up.posts;
    assert Remove(s.up.posts, p) == [];
  }

  lemma TimerOrFailureKeepsInv(emptyIsValid: bool, s: State, e: Event, k: nat, j: nat)
    requires Inv(s, k, j) && Enabled(emptyIsValid, s, e) && (e == Timer(false) || e.QueryFails?)
    ensures Inv(Step(emptyIsValid, s, e), k, j) && s.boot.Running?
  {
    hide Later, UnchangedSince, Select;
  }

  /** One event keeps the invariant, and the index of the cached state never decreases. */
  lemma StepInv(emptyIsValid: bool, s: State, e: Event, k: nat, j: nat) returns (k': nat, j': nat)
    requires Inv(s, k, j) && Enabled(emptyIsValid, s, e) && e != Timer(true)
    ensures Inv(Step(emptyIsValid, s, e), k', j')
    ensures HasCache(s) ==>
      HasCache(Step(emptyIsValid, s, e)) && k <= k' && k < |s.db.history| && s.up.cache == s.db.history[k]
    ensures s.db.history <= Step(emptyIsValid, s, e).db.history
  {
    assert HasCache(s) ==> k < |s.db.history| && s.up.cache == s.db.history[k];
    hide Inv;
    match e
    case Write(_, _) =>
      WriteKeepsInv(emptyIsValid, s, e, k, j);
      k', j' := k, j;
    case DoInitQuery => k', j' := BootStepInv(emptyIsValid, s, e, k, j);
    case InitSnapshot => k', j' := BootStepInv(emptyIsValid, s, e, k, j);
    case OnInitQueryCompletion => k', j' := BootStepInv(emptyIsValid, s, e, k, j);
    case AsyncRunUpdate(_) => k', j' := BootStepInv(emptyIsValid, s, e, k, j);
    case Snapshot(q) =>
      SnapshotKeepsInv(emptyIsValid, s, q, k, j);
      k', j' := k, |s.db.history| - 1;
    case QueryCompletes(q) =>
      RoundEndsKeepsInv(emptyIsValid, s, q, k, j);
      k', j' := k, j;
    case UpdateCache(p) =>
      ApplyKeepsInv(emptyIsValid, s, p, k, j);
      k', j' := j, j;
    case _ =>
      TimerOrFailureKeepsInv(emptyIsValid, s, e, k, j);
      k', j' := k, j;
  }

  /** In every state the cache equals the history entry named by `ks`. */
  ghost predicate Tracks(states: seq<State>, ks: seq<nat>) {
    && |states| == |ks|
    && forall i | 0 <= i < |ks| && HasCache(states[i]) ::
         ks[i] < |states[i].db.history| && states[i].up.cache == states[i].db.history[ks[i]]
  }

  /** The entries never go back, and the table's history only grows. */
  ghost predicate Advances(states: seq<State>, ks: seq<nat>) {
    && |states| == |ks|
    && forall a, b | 0 <= a < b < |ks| :: GoesOn(states[a], ks[a], states[b], ks[b])
  }

  ghost predicate GoesOn(s: State, k: nat, t: State, m: nat) {
    && s.db.history <= t.db.history
    && (HasCache(s) ==> HasCache(t) && k <= m)
  }

  /** Along the states, the cache walks through the table's history. */
  ghost predicate Follows(states: seq<State>, ks: seq<nat>) {
    Tracks(states, ks) && Advances(states, ks)
  }

  lemma FollowsCons(s: State, k: nat, states: seq<State>, ks: seq<nat>)
    requires Follows(states, ks) && |ks| > 0
    requires HasCache(s) ==> k < |s.db.history| && s.up.cache == s.db.history[k]
    requires GoesOn(s, k, states[0], ks[0])
    ensures Follows([s] + states, [k] + ks)
  {
    hide HasCache;
    var ss, kk := [s] + states, [k] + ks;
    forall a, b | 0 <= a < b < |kk|
      ensures GoesOn(ss[a], kk[a], ss[b], kk[b])
    {
      hide GoesOn;
      GoesOnFirst(s, k, states, ks, b - 1);
      assert ss[b] == states[b - 1] && kk[b] == ks[b - 1];
      assert a > 0 ==> ss[a] == states[a - 1] && kk[a] == ks[a - 1];
    }
  }

  lemma GoesOnFirst(s: State, k: nat, states: seq<State>, ks: seq<nat>, b: nat)
    requires Advances(states, ks) && b < |ks| && GoesOn(s, k, states[0], ks[0])
    ensures GoesOn(s, k, states[b], ks[b])
  {
    if b > 0 {
      assert GoesOn(states[0], ks[0], states[b], ks[b]);
    }
  }

  lemma {:induction false} InvFollows(emptyIsValid: bool, s: State, es: seq<Event>, k: nat, j: nat)
    returns (ks: seq<nat>, jEnd: nat)
    requires Inv(s, k, j) && CanRun(emptyIsValid, s, es) && TimerErrors(es) == 0
    ensures |ks| == |es| + 1 && ks[0] == k && Follows(Trace(emptyIsValid, s, es), ks)
    ensures Inv(Run(emptyIsValid, s, es), ks[|es|], jEnd)
    decreases |es|
  {
    hide Inv, Follows, Step;
    if es == [] {
      ks, jEnd := [k], j;
      assert Trace(emptyIsValid, s, es) == [s];
      FollowsOne(s, k, j);
    } else {
      var k', j' := StepInv(emptyIsValid, s, es[0], k, j);
      var rest, j'' := InvFollows(emptyIsValid, Step(emptyIsValid, s, es[0]), es[1..], k', j');
      ks, jEnd := [k] + rest, j'';
      assert Trace(emptyIsValid, s, es) == [s] + Trace(emptyIsValid, Step(emptyIsValid, s, es[0]), es[1..]);
      FollowsCons(s, k, Trace(emptyIsValid, Step(emptyIsValid, s, es[0]), es[1..]), rest);
    }
  }

  lemma FollowsOne(s: State, k: nat, j: nat)
    requires Inv(s, k, j)
    ensures Follows([s], [k])
  {
  }

  /** Refinement.  Over any run without timer errors, with writes and failed rounds anywhere, the
      cache is at every moment some whole past state of the table, and it moves through those
      states in order. */
  lemma CacheFollowsHistory(emptyIsValid: bool, s: State, es: seq<Event>) returns (ks: seq<nat>)
    requires IsInitial(s) && CanRun(emptyIsValid, s, es) && TimerErrors(es) == 0
    ensures Follows(Trace(emptyIsValid, s, es), ks)
  {
    var found, j := InvFollows(emptyIsValid, s, es, 0, 0);
    ks := found;
  }

  // ---------------------------------------------------------------- coverage and freshness

  /** The reachable states of runs without timer errors. */
  ghost predicate Reaches(emptyIsValid: bool, s: State, es: seq<Event>) {
    IsInitial(s) && CanRun(emptyIsValid, s, es) && TimerErrors(es) == 0
  }

  /** In a running loop, every row stamped no later than the watermark is cached as it stands. */
  ghost predicate Covered(t: State) {
    t.boot.Running? && t.up.lastUpdateTime.At? ==>
      UnchangedSince(t.up.cache, t.up.lastUpdateTime.time, t.db.Current())
  }

  /** Every row stamped no later than the watermark is cached with exactly its current value, and
      every cached row is a row of the table whose stamp is no newer than the table's. */
  lemma WatermarkCovers(emptyIsValid: bool, s: State, es: seq<Event>)
    requires Reaches(emptyIsValid, s, es)
    ensures var t := Run(emptyIsValid, s, es);
      Covered(t) && Later(t.up.cache, t.db.Current())
  {
    var ks, j := InvFollows(emptyIsValid, s, es, 0, 0);
    var t := Run(emptyIsValid, s, es);
    if HasCache(t) {
      assert Later(t.db.history[ks[|es|]], t.db.Current());
    }
  }

  /** The cached version of a row never goes back to an older stamp, and no row leaves the cache. */
  lemma FreshnessNeverGoesBack(emptyIsValid: bool, s: State, es: seq<Event>, a: nat, b: nat)
    requires Reaches(emptyIsValid, s, es) && a < b <= |es| && HasCache(Trace(emptyIsValid, s, es)[a])
    ensures HasCache(Trace(emptyIsValid, s, es)[b])
    ensures Later(Trace(emptyIsValid, s, es)[a].up.cache, Trace(emptyIsValid, s, es)[b].up.cache)
  {
    InitialInv(s);
    hide CanRun, Trace, Run, TimerErrors, Later;
    var ks, j := InvFollows(emptyIsValid, s, es, 0, 0);
    var states := Trace(emptyIsValid, s, es);
    var t := states[|es|];
    assert GoesOn(states[a], ks[a], states[b], ks[b]);
    assert b < |es| ==> GoesOn(states[b], ks[b], t, ks[|es|]);
    assert Ordered(t.db);
    assert Later(t.db.history[ks[a]], t.db.history[ks[b]]);
  }

  lemma {:induction false} RunConcat(emptyIsValid: bool, s: State, es: seq<Event>, fs: seq<Event>)
    requires CanRun(emptyIsValid, s, es) && CanRun(emptyIsValid, Run(emptyIsValid, s, es), fs)
    ensures CanRun(emptyIsValid, s, es + fs)
    ensures Run(emptyIsValid, s, es + fs) == Run(emptyIsValid, Run(emptyIsValid, s, es), fs)
    ensures TimerErrors(es + fs) == TimerErrors(es) + TimerErrors(fs)
    decreases |es|
  {
    if es == [] {
      assert es + fs == fs;
    } else {
      assert (es + fs)[1..] == es[1..] + fs;
      RunConcat(emptyIsValid, Step(emptyIsValid, s, es[0]), es[1..], fs);
    }
  }

  /** A stretch of a running loop in which no round succeeds keeps the cache and the watermark;
      without writes it keeps the database, and without timers the captured time. */
  lemma {:induction false} KeptWithout(emptyIsValid: bool, s: State, es: seq<Event>)
    requires CanRun(emptyIsValid, s, es) && s.boot.Running?
    requires forall e <- es :: !e.UpdateCache?
    ensures var t := Run(emptyIsValid, s, es);
      && t.boot.Running? && t.up.cache == s.up.cache && t.up.lastUpdateTime == s.up.lastUpdateTime
      && ((forall e <- es :: !e.Write?) ==> t.db == s.db)
      && ((forall e <- es :: !e.Timer?) ==> t.up.updateTime == s.up.updateTime && TimerErrors(es) == 0)
    decreases |es|
  {
    if es != [] {
      var rest := es[1..];
      assert forall e <- rest :: e in es;
      assert es[0] in es;
      KeptWithout(emptyIsValid, Step(emptyIsValid, s, es[0]), rest);
    }
  }

  lemma {:induction false} CanRunSplit(emptyIsValid: bool, s: State, es: seq<Event>, fs: seq<Event>)
    requires CanRun(emptyIsValid, s, es + fs)
    ensures CanRun(emptyIsValid, s, es) && CanRun(emptyIsValid, Run(emptyIsValid, s, es), fs)
    decreases |es|
  {
    if es == [] {
      assert es + fs == fs;
    } else {
      assert (es + fs)[1..] == es[1..] + fs;
      CanRunSplit(emptyIsValid, Step(emptyIsValid, s, es[0]), es[1..], fs);
    }
  }

  lemma FullyCoveredCacheIsTable(s: State, k: nat, j: nat)
    requires Inv(s, k, j) && s.boot.Running? && s.up.lastUpdateTime == At(s.db.clock)
    ensures s.up.cache == s.db.Current()
  {
    var table := s.db.Current();
    assert Later(s.db.history[k], table);
    forall id <- table
      ensures id in s.up.cache && s.up.cache[id] == table[id]
    {
      assert table[id].stamp <= s.db.clock;
    }
    assert s.up.cache.Keys == table.Keys;
  }

  /** Nothing is written, no timer fires and nothing is applied meanwhile. */
  ghost predicate IsQuiet(round: seq<Event>) {
    forall e <- round :: !e.Timer? && !e.UpdateCache? && !e.Write?
  }

  /** If nothing is written between the time a round captures and its apply, the cache equals the
      table as soon as that round is applied. */
  lemma QuietRoundSynchronises(emptyIsValid: bool, s: State, es: seq<Event>, round: seq<Event>)
    requires Reaches(emptyIsValid, s, es) && Run(emptyIsValid, s, es).boot.Running?
    requires CanRun(emptyIsValid, Run(emptyIsValid, s, es), [Timer(false)] + round + [UpdateCache(0)])
    requires IsQuiet(round)
    ensures var t := Run(emptyIsValid, Run(emptyIsValid, s, es), [Timer(false)] + round + [UpdateCache(0)]);
      t.up.cache == t.db.Current()
  {
    var ks, j := InvFollows(emptyIsValid, s, es, 0, 0);
    hide Inv, Follows, Step;
    var t, k := Run(emptyIsValid, s, es), ks[|es|];
    var t2 := RoundSplit(emptyIsValid, t, round);
    RoundCovers(emptyIsValid, t, round);
    var k1, j1 := StepInv(emptyIsValid, t, Timer(false), k, j);
    var t1 := Step(emptyIsValid, t, Timer(false));
    var ks2, j2 := InvFollows(emptyIsValid, t1, round, k1, j1);
    var k3, j3 := StepInv(emptyIsValid, t2, UpdateCache(0), ks2[|round|], j2);
    FullyCoveredCacheIsTable(Step(emptyIsValid, t2, UpdateCache(0)), k3, j3);
  }

  /** A round from its timer to its apply, step by step. */
  lemma RoundSplit(emptyIsValid: bool, t: State, round: seq<Event>) returns (t2: State)
    requires CanRun(emptyIsValid, t, [Timer(false)] + round + [UpdateCache(0)])
    ensures Enabled(emptyIsValid, t, Timer(false)) && CanRun(emptyIsValid, Step(emptyIsValid, t, Timer(false)), round)
    ensures t2 == Run(emptyIsValid, Step(emptyIsValid, t, Timer(false)), round)
    ensures Enabled(emptyIsValid, t2, UpdateCache(0))
    ensures Run(emptyIsValid, t, [Timer(false)] + round + [UpdateCache(0)]) == Step(emptyIsValid, t2, UpdateCache(0))
  {
    hide Step;
    var whole := [Timer(false)] + round + [UpdateCache(0)];
    assert whole[0] == Timer(false) && whole[1..] == round + [UpdateCache(0)];
    var t1 := Step(emptyIsValid, t, Timer(false));
    t2 := SplitLast(emptyIsValid, t1, round, UpdateCache(0));
  }

  /** A quiet round ends with the watermark at the clock. */
  lemma RoundCovers(emptyIsValid: bool, t: State, round: seq<Event>)
    requires t.boot.Running? && CanRun(emptyIsValid, t, [Timer(false)])
    requires CanRun(emptyIsValid, Step(emptyIsValid, t, Timer(false)), round)
    requires Enabled(emptyIsValid, Run(emptyIsValid, Step(emptyIsValid, t, Timer(false)), round), UpdateCache(0))
    requires IsQuiet(round)
    ensures TimerErrors(round) == 0
    ensures var t3 := Step(emptyIsValid, Run(emptyIsValid, Step(emptyIsValid, t, Timer(false)), round), UpdateCache(0));
      t3.boot.Running? && t3.up.lastUpdateTime == At(t3.db.clock)
  {
    var t1 := Step(emptyIsValid, t, Timer(false));
    hide Run, CanRun, TimerErrors;
    KeptWithout(emptyIsValid, t1, round);
  }

  // ---------------------------------------------------------------- the watermark's capture

  /** No timer fires and nothing is applied meanwhile. */
  ghost predicate IsRound(round: seq<Event>) {
    forall e <- round :: !e.Timer? && !e.UpdateCache?
  }

  /** What a round that starts in `t` and ends in `u` must do: the watermark becomes the time at the
      timer, and the rows applied are those that the previous watermark selects from some state the
      table was in at the timer or later. */
  ghost predicate UsesItsCapture(t: State, u: State) {
    && u.boot.Running? && u.up.lastUpdateTime == At(t.db.clock)
    && t.db.history <= u.db.history
    && exists i :: |t.db.history| - 1 <= i < |u.db.history| && SelectedAt(t, u, i)
  }

  ghost predicate SelectedAt(t: State, u: State, i: nat)
    requires i < |u.db.history|
  {
    u.up.cache == t.up.cache + Select(u.db.history[i], t.up.lastUpdateTime)
  }

  /** While a round is under way, the rows its query was answered with, or that are posted, are a
      selection from a state of the table no earlier than `from`. */
  ghost predicate RoundRows(s: State, from: nat) {
    && (forall q <- s.up.queries | q.Answered? :: SelectedFrom(s, from, q.rows))
    && (forall rows <- s.up.posts :: SelectedFrom(s, from, rows))
    && (forall q <- s.up.queries :: q.since == s.up.lastUpdateTime)
  }

  ghost predicate SelectedFrom(s: State, from: nat, rows: Table) {
    exists i :: from <= i < |s.db.history| && rows == Select(s.db.history[i], s.up.lastUpdateTime)
  }

  lemma SelectedFromGrows(s: State, t: State, from: nat, rows: Table)
    requires SelectedFrom(s, from, rows) && s.db.history <= t.db.history
    requires t.up.lastUpdateTime == s.up.lastUpdateTime
    ensures SelectedFrom(t, from, rows)
  {
    var i :| from <= i < |s.db.history| && rows == Select(s.db.history[i], s.up.lastUpdateTime);
    assert t.db.history[i] == s.db.history[i];
  }

  lemma SnapshotIsSelected(emptyIsValid: bool, s: State, q: nat, from: nat)
    requires Enabled(emptyIsValid, s, Snapshot(q)) && from < |s.db.history|
    ensures SelectedFrom(Step(emptyIsValid, s, Snapshot(q)), from, Select(s.db.Current(), s.up.lastUpdateTime))
  {
    assert s.db.history[|s.db.history| - 1] == s.db.Current();
  }

  lemma RoundRowsStep(emptyIsValid: bool, s: State, e: Event, from: nat)
    requires RoundRows(s, from) && s.boot.Running? && Enabled(emptyIsValid, s, e) && !e.Timer? && !e.UpdateCache?
    requires from < |s.db.history|
    ensures RoundRows(Step(emptyIsValid, s, e), from)
  {
    var t := Step(emptyIsValid, s, e);
    forall rows | SelectedFrom(s, from, rows) ensures SelectedFrom(t, from, rows) {
      SelectedFromGrows(s, t, from, rows);
    }
    hide SelectedFrom;
    match e
    case Snapshot(q) =>
      assert s.up.queries[q] in s.up.queries;
      SnapshotIsSelected(emptyIsValid, s, q, from);
    case QueryCompletes(q) => assert s.up.queries[q] in s.up.queries;
    case _ =>
  }

  lemma {:induction false} RoundRowsRun(emptyIsValid: bool, s: State, round: seq<Event>, from: nat)
    requires CanRun(emptyIsValid, s, round) && IsRound(round) && RoundRows(s, from) && s.boot.Running?
    requires from < |s.db.history|
    ensures RoundRows(Run(emptyIsValid, s, round), from)
    decreases |round|
  {
    if round != [] {
      assert round[0] in round && forall e <- round[1..] :: e in round;
      RoundRowsStep(emptyIsValid, s, round[0], from);
      hide RoundRows;
      RoundRowsRun(emptyIsValid, Step(emptyIsValid, s, round[0]), round[1..], from);
    }
  }

  /** One round, from its timer to its apply, with any writes in between. */
  lemma RoundUsesItsCapture(emptyIsValid: bool, t: State, round: seq<Event>)
    requires t.boot.Running? && t.up.queries == [] && t.up.posts == [] && IsRound(round)
    requires CanRun(emptyIsValid, t, [Timer(false)] + round + [UpdateCache(0)])
    ensures UsesItsCapture(t, Run(emptyIsValid, t, [Timer(false)] + round + [UpdateCache(0)]))
  {
    hide Run, CanRun, Step, Select, RoundRows, UsesItsCapture;
    var t2 := RoundSplit(emptyIsValid, t, round);
    var t1, from := Step(emptyIsValid, t, Timer(false)), |t.db.history| - 1;
    TimerStartsRound(emptyIsValid, t);
    KeptWithout(emptyIsValid, t1, round);
    RoundRowsRun(emptyIsValid, t1, round, from);
    HistoryGrows(emptyIsValid, t1, round);
    ApplyEndsRound(emptyIsValid, t, t2);
  }

  lemma TimerStartsRound(emptyIsValid: bool, t: State)
    requires Enabled(emptyIsValid, t, Timer(false)) && t.boot.Running? && t.up.queries == [] && t.up.posts == []
    ensures var t1 := Step(emptyIsValid, t, Timer(false));
      && RoundRows(t1, |t.db.history| - 1) && t1.boot.Running? && t1.db == t.db && t1.up.cache == t.up.cache
      && t1.up.lastUpdateTime == t.up.lastUpdateTime && t1.up.updateTime == At(t.db.clock)
  {
  }

  lemma ApplyEndsRound(emptyIsValid: bool, t: State, t2: State)
    requires Enabled(emptyIsValid, t2, UpdateCache(0)) && t2.boot.Running? && RoundRows(t2, |t.db.history| - 1)
    requires t.db.history <= t2.db.history && t2.up.cache == t.up.cache
    requires t2.up.lastUpdateTime == t.up.lastUpdateTime && t2.up.updateTime == At(t.db.clock)
    ensures UsesItsCapture(t, Step(emptyIsValid, t2, UpdateCache(0)))
  {
    hide Select;
    var rows, from := t2.up.posts[0], |t.db.history| - 1;
    assert rows in t2.up.posts;
    var i :| from <= i < |t2.db.history| && rows == Select(t2.db.history[i], t2.up.lastUpdateTime);
    assert SelectedAt(t, Step(emptyIsValid, t2, UpdateCache(0)), i);
  }

  lemma InFlightStep(emptyIsValid: bool, s: State, e: Event, k: nat, j: nat)
    requires Inv(s, k, j) && Enabled(emptyIsValid, s, e) && !e.Timer?
    requires |Step(emptyIsValid, s, e).up.queries| + |Step(emptyIsValid, s, e).up.posts| > 0
    ensures |s.up.queries| + |s.up.posts| > 0 && !e.UpdateCache?
  {
    hide Later, UnchangedSince, Select;
  }

  /** Where a query is in flight or rows are posted, a timer fired last, and a round followed. */
  lemma {:induction false} InFlight(emptyIsValid: bool, s: State, es: seq<Event>)
    returns (before: seq<Event>, round: seq<Event>)
    requires Reaches(emptyIsValid, s, es)
    requires |Run(emptyIsValid, s, es).up.queries| + |Run(emptyIsValid, s, es).up.posts| > 0
    ensures es == before + [Timer(false)] + round && IsRound(round)
    decreases |es|
  {
    assert es != [];
    var front, last := es[..|es| - 1], es[|es| - 1];
    assert es == front + [last];
    var t := SplitLast(emptyIsValid, s, front, last);
    TimersSplit(front, last);
    if last.Timer? {
      before, round := front, [];
    } else {
      InitialInv(s);
      hide Inv, Follows, Step, TimerErrors;
      var ks, j := InvFollows(emptyIsValid, s, front, 0, 0);
      InFlightStep(emptyIsValid, t, last, ks[|front|], j);
      var r;
      before, r := InFlight(emptyIsValid, s, front);
      round := r + [last];
      assert es == before + [Timer(false)] + round;
    }
  }

  lemma {:induction false} TimersSplit(es: seq<Event>, e: Event)
    ensures TimerErrors(es + [e]) == TimerErrors(es) + if e == Timer(true) then 1 else 0
  {
    if es == [] {
      assert [] + [e] == [e];
    } else {
      assert (es + [e])[1..] == es[1..] + [e];
      TimersSplit(es[1..], e);
    }
  }

  /** The watermark is always the capture of the round applied.  Every apply in every run without
      timer errors, with writes and failed rounds anywhere, ends a round that some timer started: no
      timer fired and nothing was applied in between, the watermark becomes the time captured at
      that timer, before the query was sent, and the rows applied are what the query's watermark
      selects from a state of the table from then on. */
  lemma ApplyUsesItsCapture(emptyIsValid: bool, s: State, es: seq<Event>, p: nat)
    returns (before: seq<Event>, round: seq<Event>)
    requires Reaches(emptyIsValid, s, es + [UpdateCache(p)])
    ensures es == before + [Timer(false)] + round && IsRound(round) && CanRun(emptyIsValid, s, before)
    ensures UsesItsCapture(Run(emptyIsValid, s, before), Run(emptyIsValid, s, es + [UpdateCache(p)]))
  {
    var t2 := SplitLast(emptyIsValid, s, es, UpdateCache(p));
    TimersSplit(es, UpdateCache(p));
    before, round := InFlight(emptyIsValid, s, es);
    var tail := [Timer(false)] + round + [UpdateCache(p)];
    assert es + [UpdateCache(p)] == before + tail;
    CanRunSplit(emptyIsValid, s, before, tail);
    RunConcat(emptyIsValid, s, before, tail);
    var t := Run(emptyIsValid, s, before);
    InitialInv(s);
    hide Follows, Step, TimerErrors, Later, UnchangedSince, Select, UsesItsCapture;
    var ks, j := InvFollows(emptyIsValid, s, before, 0, 0);
    var ks2, j2 := InvFollows(emptyIsValid, s, es, 0, 0);
    assert p == 0;
    assert tail[0] == Timer(false) && Enabled(emptyIsValid, t, Timer(false));
    RoundUsesItsCapture(emptyIsValid, t, round);
  }

  lemma LaterSelects(older: Table, newer: Table, since: Watermark)
    requires Later(older, newer)
    ensures Later(Select(older, since), Select(newer, since))
  {
    forall id <- Select(older, since) ensures id in Select(newer, since) {
      assert older[id].stamp <= newer[id].stamp;
    }
  }

  /** Just after a database answer, the answered rows are the selection from the current table. */
  lemma SnapshotSelects(emptyIsValid: bool, s: State, k: nat, j: nat)
    requires Inv(s, k, j) && Enabled(emptyIsValid, s, Snapshot(0))
    ensures s.boot.Running? && |s.up.queries| == 1
    ensures Step(emptyIsValid, s, Snapshot(0)).up.queries
         == [Answered(s.up.lastUpdateTime, Select(s.db.Current(), s.up.lastUpdateTime))]
  {
    assert s.up.queries[0] in s.up.queries;
  }

  lemma AnsweredIsPastSelection(s: State, k: nat, j: nat)
    requires Inv(s, k, j) && s.boot.Running? && |s.up.queries| == 1
    ensures s.up.queries[0].since == s.up.lastUpdateTime
    ensures s.up.queries[0].Answered? ==>
      j < |s.db.history| && s.up.queries[0].rows == Select(s.db.history[j], s.up.lastUpdateTime)
  {
    assert s.up.queries[0] in s.up.queries;
  }

  /** A failed round loses nothing, whether the database had answered its query or not: it changes
      neither cache nor watermark, and however many writes and further failures follow, the next
      answered query is bound to the same watermark and returns every row that the failed one would
      have returned up to its failure, and every row it had returned, at the same stamp or a newer
      one. */
  lemma FailedRoundIsRetried(emptyIsValid: bool, s: State, es: seq<Event>, between: seq<Event>)
    requires Reaches(emptyIsValid, s, es)
    requires Run(emptyIsValid, s, es).boot.Running? && |Run(emptyIsValid, s, es).up.queries| == 1
    requires TimerErrors(between) == 0 && forall e <- between :: !e.UpdateCache?
    requires CanRun(emptyIsValid, Run(emptyIsValid, s, es), [QueryFails(0)] + between + [Snapshot(0)])
    ensures var t := Run(emptyIsValid, s, es);
      var u := Run(emptyIsValid, t, [QueryFails(0)] + between + [Snapshot(0)]);
      && u.up.cache == t.up.cache && u.up.lastUpdateTime == t.up.lastUpdateTime
      && |u.up.queries| == 1 && u.up.queries[0].Answered? && u.up.queries[0].since == t.up.queries[0].since
      && Later(Select(t.db.Current(), t.up.queries[0].since), u.up.queries[0].rows)
      && (t.up.queries[0].Answered? ==> Later(t.up.queries[0].rows, u.up.queries[0].rows))
  {
    InitialInv(s);
    hide Inv, Follows, Step, Select, Later;
    var ks, j := InvFollows(emptyIsValid, s, es, 0, 0);
    RetryAfter(emptyIsValid, Run(emptyIsValid, s, es), between, ks[|es|], j);
  }

  lemma RetryAfter(emptyIsValid: bool, t: State, between: seq<Event>, k: nat, j: nat)
    requires Inv(t, k, j) && t.boot.Running? && |t.up.queries| == 1
    requires TimerErrors(between) == 0 && forall e <- between :: !e.UpdateCache?
    requires CanRun(emptyIsValid, t, [QueryFails(0)] + between + [Snapshot(0)])
    ensures var u := Run(emptyIsValid, t, [QueryFails(0)] + between + [Snapshot(0)]);
      && u.up.cache == t.up.cache && u.up.lastUpdateTime == t.up.lastUpdateTime
      && |u.up.queries| == 1 && u.up.queries[0].Answered? && u.up.queries[0].since == t.up.queries[0].since
      && Later(Select(t.db.Current(), t.up.queries[0].since), u.up.queries[0].rows)
      && (t.up.queries[0].Answered? ==> Later(t.up.queries[0].rows, u.up.queries[0].rows))
  {
    AnsweredIsPastSelection(t, k, j);
    var answered := t.up.queries[0].Answered?;
    var first := [QueryFails(0)] + between;
    assert TimerErrors(first) == 0 by { assert first[1..] == between; }
    hide Inv, Follows, Step, Select, Later, Tracks, Advances, TimerErrors;
    var t1 := SplitLast(emptyIsValid, t, first, Snapshot(0));
    KeptWithout(emptyIsValid, t, first);
    var ks, j1 := InvFollows(emptyIsValid, t, first, k, j);
    SnapshotSelects(emptyIsValid, t1, ks[|first|], j1);
    PastIsEarlier(emptyIsValid, t, first, |t.db.history| - 1, t1, ks[|first|], j1);
    LaterSelects(t.db.Current(), t1.db.Current(), t.up.lastUpdateTime);
    if answered {
      PastIsEarlier(emptyIsValid, t, first, j, t1, ks[|first|], j1);
      LaterSelects(t.db.history[j], t1.db.Current(), t.up.lastUpdateTime);
    }
  }

  lemma SplitLast(emptyIsValid: bool, s: State, es: seq<Event>, e: Event) returns (t: State)
    requires CanRun(emptyIsValid, s, es + [e])
    ensures CanRun(emptyIsValid, s, es) && t == Run(emptyIsValid, s, es) && Enabled(emptyIsValid, t, e)
    ensures Run(emptyIsValid, s, es + [e]) == Step(emptyIsValid, t, e)
  {
    hide Step;
    CanRunSplit(emptyIsValid, s, es, [e]);
    RunConcat(emptyIsValid, s, es, [e]);
    t := Run(emptyIsValid, s, es);
    assert Run(emptyIsValid, t, [e]) == Run(emptyIsValid, Step(emptyIsValid, t, e), []);
  }

  lemma PastIsEarlier(emptyIsValid: bool, s: State, es: seq<Event>, i: nat, t: State, k: nat, j: nat)
    requires CanRun(emptyIsValid, s, es) && t == Run(emptyIsValid, s, es) && i < |s.db.history| && Inv(t, k, j)
    ensures Later(s.db.history[i], t.db.Current())
  {
    HistoryGrows(emptyIsValid, s, es);
    assert Later(t.db.history[i], t.db.history[|t.db.history| - 1]);
  }

  lemma {:induction false} HistoryGrows(emptyIsValid: bool, s: State, es: seq<Event>)
    requires CanRun(emptyIsValid, s, es)
    ensures s.db.history <= Run(emptyIsValid, s, es).db.history
    decreases |es|
  {
    if es != [] {
      HistoryGrows(emptyIsValid, Step(emptyIsValid, s, es[0]), es[1..]);
    }
  }

  // ---------------------------------------------------------------- the empty watermark

  lemma RunSnoc(emptyIsValid: bool, s: State, es: seq<Event>, e: Event)
    requires CanRun(emptyIsValid, s, es) && Enabled(emptyIsValid, Run(emptyIsValid, s, es), e)
    ensures CanRun(emptyIsValid, s, es + [e])
    ensures Run(emptyIsValid, s, es + [e]) == Step(emptyIsValid, Run(emptyIsValid, s, es), e)
    ensures TimerErrors(es + [e]) == TimerErrors(es) + TimerErrors([e])
  {
    var t := Run(emptyIsValid, s, es);
    assert Run(emptyIsValid, t, [e]) == Run(emptyIsValid, Step(emptyIsValid, t, e), []);
    RunConcat(emptyIsValid, s, es, [e]);
  }

  /** While no query can be answered, nothing reaches the cache. */
  ghost predicate Starved(s: State, cache: Table) {
    && s.boot.Running? && s.up.cache == cache && s.up.lastUpdateTime == NoText && s.up.posts == []
    && forall q <- s.up.queries :: q == Sent(NoText)
  }

  lemma StarvedStep(s: State, e: Event, cache: Table)
    requires Starved(s, cache) && Enabled(false, s, e)
    ensures Starved(Step(false, s, e), cache)
  {
    forall i | 0 <= i < |s.up.queries| ensures s.up.queries[i] == Sent(NoText) {
      assert s.up.queries[i] in s.up.queries;
    }
    match e
    case QueryFails(q) =>
      forall r <- Remove(s.up.queries, q) ensures r in s.up.queries {}
    case _ =>
  }

  /** `SetLastUpdateTime` copies the updater's own, still empty `update_time_`.  If the database
      rejects the empty text as a timestamp, every later run, whatever it contains, leaves the
      cache at the initial snapshot and the watermark empty. */
  lemma {:induction false} EmptyWatermarkFreezesCache(s: State, es: seq<Event>, cache: Table)
    requires Starved(s, cache) && CanRun(false, s, es)
    ensures Starved(Run(false, s, es), cache)
    decreases |es|
  {
    if es != [] {
      StarvedStep(s, es[0], cache);
      EmptyWatermarkFreezesCache(Step(false, s, es[0]), es[1..], cache);
    }
  }

  /** The loop just started by `AsyncRunUpdate(w)` after an init query that left `s`. */
  ghost predicate JustStarted(emptyIsValid: bool, s: State, w: Watermark) {
    && s.boot.Initialised? && s.up.Activities() == 0 && Enabled(emptyIsValid, s, AsyncRunUpdate(w))
    && s.db.Valid() && (w.At? ==> w.time <= s.db.clock)
  }

  /** Exactly when the loop can ever bring in a write: the starting watermark is a time, or the
      database accepts the empty text. */
  lemma CacheCanChangeIff(emptyIsValid: bool, s: State, w: Watermark, id: Id, columns: seq<string>)
    requires JustStarted(emptyIsValid, s, w)
    requires id !in s.up.cache
    ensures (exists es :: CanRun(emptyIsValid, Step(emptyIsValid, s, AsyncRunUpdate(w)), es)
                          && id in Run(emptyIsValid, Step(emptyIsValid, s, AsyncRunUpdate(w)), es).up.cache)
            <==> (w.At? || emptyIsValid)
  {
    var t := Step(emptyIsValid, s, AsyncRunUpdate(w));
    if w.At? || emptyIsValid {
      var es := OneRound(emptyIsValid, t, id, columns);
      assert id in Run(emptyIsValid, t, es).up.cache;
    } else {
      forall es | CanRun(emptyIsValid, t, es) ensures id !in Run(emptyIsValid, t, es).up.cache {
        EmptyWatermarkFreezesCache(t, es, s.up.cache);
      }
    }
  }

  /** A loop with its timer armed can go through a whole quiet round. */
  lemma RoundCanRun(emptyIsValid: bool, t: State) returns (round: seq<Event>)
    requires t.boot.Running? && t.up.timers > 0 && t.up.queries == [] && t.up.posts == []
    requires t.up.lastUpdateTime.At? || emptyIsValid
    ensures IsQuiet(round) && CanRun(emptyIsValid, t, [Timer(false)] + round + [UpdateCache(0)])
    ensures var u := Run(emptyIsValid, t, [Timer(false)] + round + [UpdateCache(0)]);
      u.db == t.db && u.up.cache == t.up.cache + Select(t.db.Current(), t.up.lastUpdateTime)
    ensures TimerErrors([Timer(false)] + round + [UpdateCache(0)]) == 0
  {
    round := [Snapshot(0), QueryCompletes(0)];
    var es: seq<Event> := [];
    RunSnoc(emptyIsValid, t, es, Timer(false));
    es := es + [Timer(false)];
    RunSnoc(emptyIsValid, t, es, Snapshot(0));
    es := es + [Snapshot(0)];
    RunSnoc(emptyIsValid, t, es, QueryCompletes(0));
    es := es + [QueryCompletes(0)];
    RunSnoc(emptyIsValid, t, es, UpdateCache(0));
    es := es + [UpdateCache(0)];
    assert es == [Timer(false)] + round + [UpdateCache(0)];
  }

  lemma OneRound(emptyIsValid: bool, t: State, id: Id, columns: seq<string>) returns (es: seq<Event>)
    requires t.boot.Running? && t.up.timers == 1 && t.up.queries == [] && t.up.posts == []
    requires t.up.lastUpdateTime.At? || emptyIsValid
    requires t.up.lastUpdateTime.At? ==> t.up.lastUpdateTime.time <= t.db.clock
    ensures CanRun(emptyIsValid, t, es) && id in Run(emptyIsValid, t, es).up.cache
  {
    var write := [Write(id, columns)];
    assert Run(emptyIsValid, t, write) == Run(emptyIsValid, Step(emptyIsValid, t, write[0]), []);
    var written := Step(emptyIsValid, t, write[0]);
    var round := RoundCanRun(emptyIsValid, written);
    var rest := [Timer(false)] + round + [UpdateCache(0)];
    RunConcat(emptyIsValid, t, write, rest);
    assert id in Select(written.db.Current(), t.up.lastUpdateTime);
    es := write + rest;
  }

  // ---------------------------------------------------------------- recovery

  /** The loop can always catch up.  From every state of every run without timer errors, if the
      watermark is a time or the database accepts the empty text, some continuation without writes
      and without timer errors makes the cache equal the table. */
  lemma CanAlwaysRecover(emptyIsValid: bool, s: State, es: seq<Event>) returns (more: seq<Event>)
    requires Reaches(emptyIsValid, s, es) && Run(emptyIsValid, s, es).boot.Running?
    requires Run(emptyIsValid, s, es).up.lastUpdateTime.At? || emptyIsValid
    ensures CanRun(emptyIsValid, Run(emptyIsValid, s, es), more)
    ensures TimerErrors(more) == 0 && forall e <- more :: !e.Write?
    ensures var t, u := Run(emptyIsValid, s, es), Run(emptyIsValid, Run(emptyIsValid, s, es), more);
      u.db == t.db && u.up.cache == t.db.Current()
  {
    InitialInv(s);
    hide Inv, Follows, Step;
    var ks, j := InvFollows(emptyIsValid, s, es, 0, 0);
    more := RecoverFrom(emptyIsValid, Run(emptyIsValid, s, es), ks[|es|], j);
  }

  lemma RecoverFrom(emptyIsValid: bool, t: State, k: nat, j: nat) returns (more: seq<Event>)
    requires Inv(t, k, j) && t.boot.Running? && (t.up.lastUpdateTime.At? || emptyIsValid)
    ensures CanRun(emptyIsValid, t, more) && TimerErrors(more) == 0 && forall e <- more :: !e.Write?
    ensures Run(emptyIsValid, t, more).db == t.db && Run(emptyIsValid, t, more).up.cache == t.db.Current()
  {
    hide Inv, Follows, Step, Run, CanRun, TimerErrors, Select;
    var first := BackToTimer(emptyIsValid, t, k, j);
    var t1 := Run(emptyIsValid, t, first);
    var round := RoundCanRun(emptyIsValid, t1);
    var rest := [Timer(false)] + round + [UpdateCache(0)];
    RunConcat(emptyIsValid, t, first, rest);
    more := first + rest;
    var ks, j1 := InvFollows(emptyIsValid, t, first, k, j);
    SelectionCompletesCache(t1, ks[|first|], j1);
  }

  /** Whatever is under way can end with only the timer armed. */
  lemma BackToTimer(emptyIsValid: bool, t: State, k: nat, j: nat) returns (first: seq<Event>)
    requires Inv(t, k, j) && t.boot.Running?
    ensures CanRun(emptyIsValid, t, first) && TimerErrors(first) == 0 && forall e <- first :: !e.Write?
    ensures var t1 := Run(emptyIsValid, t, first);
      && t1.boot.Running? && t1.db == t.db
      && t1.up.timers == 1 && t1.up.queries == [] && t1.up.posts == []
      && (t.up.lastUpdateTime.At? ==> t1.up.lastUpdateTime.At?)
  {
    hide Later, UnchangedSince, Select;
    if t.up.queries != [] {
      first := [QueryFails(0)];
      assert Run(emptyIsValid, t, first) == Run(emptyIsValid, Step(emptyIsValid, t, QueryFails(0)), []);
    } else if t.up.posts != [] {
      first := [UpdateCache(0)];
      assert t.up.posts[0] in t.up.posts;
      assert Run(emptyIsValid, t, first) == Run(emptyIsValid, Step(emptyIsValid, t, UpdateCache(0)), []);
    } else {
      first := [];
    }
  }
}
