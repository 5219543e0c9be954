/** What a run of the refresh protocol hands to the cache's update function, where those rows come
    from, and what follows over any run at all, failed timers and overlapping rounds included. */
module AppliedRows {
  import opened RefreshProtocol
  import opened Containers

  // ---------------------------------------------------------------- what a run applies

  /** The batch that an event hands to the cache's update function, if any. */
  function AppliedBy(s: State, e: Event): seq<Table> {
    match e
    case OnInitQueryCompletion => if s.boot.InitAnswered? then [s.boot.rows] else []
    case UpdateCache(p) => if p < |s.up.posts| then [s.up.posts[p]] else []
    case _ => []
  }

  ghost function Applied(emptyIsValid: bool, s: State, es: seq<Event>): seq<Table>
    requires CanRun(emptyIsValid, s, es)
    decreases |es|
  {
    if es == [] then [] else AppliedBy(s, es[0]) + Applied(emptyIsValid, Step(emptyIsValid, s, es[0]), es[1..])
  }

  function Overlay(cache: Table, batches: seq<Table>): Table
    decreases |batches|
  {
    if batches == [] then cache else Overlay(cache + batches[0], batches[1..])
  }

  /** The protocol's cache is what the applied batches leave, laid one over the other. */
  lemma {:induction false} CacheIsOverlay(emptyIsValid: bool, s: State, es: seq<Event>)
    requires CanRun(emptyIsValid, s, es)
    ensures Run(emptyIsValid, s, es).up.cache == Overlay(s.up.cache, Applied(emptyIsValid, s, es))
    decreases |es|
  {
    if es != [] {
      hide Step;
      var t := Step(emptyIsValid, s, es[0]);
      CacheIsOverlay(emptyIsValid, t, es[1..]);
      StepOverlays(emptyIsValid, s, es[0]);
      hide Overlay, AppliedBy;
      OverlayConcat(s.up.cache, AppliedBy(s, es[0]), Applied(emptyIsValid, t, es[1..]));
    }
  }

  lemma StepOverlays(emptyIsValid: bool, s: State, e: Event)
    requires Enabled(emptyIsValid, s, e)
    ensures Step(emptyIsValid, s, e).up.cache == Overlay(s.up.cache, AppliedBy(s, e))
  {
    if AppliedBy(s, e) != [] {
      assert AppliedBy(s, e)[1..] == [];
    }
  }

  lemma {:induction false} OverlayConcat(cache: Table, a: seq<Table>, b: seq<Table>)
    ensures Overlay(cache, a + b) == Overlay(Overlay(cache, a), b)
    decreases |a|
  {
    if a == [] {
      assert a + b == b;
    } else {
      assert (a + b)[1..] == a[1..] + b;
      OverlayConcat(cache + a[0], a[1..], b);
    }
  }

  /** `rows` were all read from one state of the table. */
  ghost predicate FromHistory(db: Db, rows: Table) {
    exists i :: 0 <= i < |db.history| && Submap(rows, db.history[i])
  }

  ghost predicate Sourced(s: State) {
    && (s.boot.InitAnswered? ==> FromHistory(s.db, s.boot.rows))
    && (forall q <- s.up.queries | q.Answered? :: FromHistory(s.db, q.rows))
    && (forall rows <- s.up.posts :: FromHistory(s.db, rows))
  }

  lemma FromHistoryGrows(db: Db, later: Db, rows: Table)
    requires FromHistory(db, rows) && db.history <= later.history
    ensures FromHistory(later, rows)
  {
    var i :| 0 <= i < |db.history| && Submap(rows, db.history[i]);
    assert later.history[i] == db.history[i];
  }

  lemma SelectFromHistory(db: Db, since: Watermark)
    ensures FromHistory(db, Select(db.Current(), since))
  {
    assert Submap(Select(db.Current(), since), db.history[|db.history| - 1]);
  }

  lemma SourcedStep(emptyIsValid: bool, s: State, e: Event)
    requires Sourced(s) && Enabled(emptyIsValid, s, e)
    ensures Sourced(Step(emptyIsValid, s, e)) && s.db.history <= Step(emptyIsValid, s, e).db.history
    ensures forall rows <- AppliedBy(s, e) :: FromHistory(s.db, rows)
  {
    var t := Step(emptyIsValid, s, e);
    forall rows | FromHistory(s.db, rows) ensures FromHistory(t.db, rows) {
      FromHistoryGrows(s.db, t.db, rows);
    }
    hide FromHistory, Select;
    match e
    case InitSnapshot => SelectFromHistory(s.db, NoText);
    case Snapshot(q) =>
      assert s.up.queries[q] in s.up.queries;
      SelectFromHistory(s.db, s.up.queries[q].since);
    case QueryCompletes(q) => assert s.up.queries[q] in s.up.queries;
    case UpdateCache(p) => assert s.up.posts[p] in s.up.posts;
    case _ =>
  }

  /** Whatever a run applies was read from some state of its table, timer errors or not. */
  lemma {:induction false} AppliedFromHistory(emptyIsValid: bool, s: State, es: seq<Event>)
    requires CanRun(emptyIsValid, s, es) && Sourced(s)
    ensures s.db.history <= Run(emptyIsValid, s, es).db.history
    ensures forall rows <- Applied(emptyIsValid, s, es) :: FromHistory(Run(emptyIsValid, s, es).db, rows)
    decreases |es|
  {
    if es != [] {
      var t, end := Step(emptyIsValid, s, es[0]), Run(emptyIsValid, s, es);
      SourcedStep(emptyIsValid, s, es[0]);
      AppliedFromHistory(emptyIsValid, t, es[1..]);
      hide Step, CanRun, Sourced;
      forall rows <- AppliedBy(s, es[0]) ensures FromHistory(end.db, rows) {
        FromHistoryGrows(s.db, end.db, rows);
      }
    }
  }

  // ---------------------------------------------------------------- tables that only get new rows

  ghost predicate Nested(db: Db) {
    forall i, j | 0 <= i <= j < |db.history| :: Submap(db.history[i], db.history[j])
  }

  /** Every write of the run is of a new row, as with the currencies table. */
  ghost predicate InsertsOnly(emptyIsValid: bool, s: State, es: seq<Event>)
    requires CanRun(emptyIsValid, s, es)
    decreases |es|
  {
    es != [] ==>
      (es[0].Write? ==> es[0].id !in s.db.Current()) && InsertsOnly(emptyIsValid, Step(emptyIsValid, s, es[0]), es[1..])
  }

  lemma InsertKeepsNested(db: Db, id: Id, columns: seq<string>)
    requires Nested(db) && id !in db.Current()
    ensures Nested(db.Write(id, columns))
  {
    var next := db.Write(id, columns);
    forall i, j | 0 <= i <= j < |next.history| ensures Submap(next.history[i], next.history[j]) {
      if j == |db.history| && i < j {
        assert Submap(db.history[i], db.Current());
      } else if j < |db.history| {
        assert Submap(db.history[i], db.history[j]);
      }
    }
  }

  lemma {:induction false} InsertsNest(emptyIsValid: bool, s: State, es: seq<Event>)
    requires CanRun(emptyIsValid, s, es) && InsertsOnly(emptyIsValid, s, es) && Nested(s.db)
    ensures Nested(Run(emptyIsValid, s, es).db)
    decreases |es|
  {
    if es != [] {
      hide Nested;
      if es[0].Write? {
        InsertKeepsNested(s.db, es[0].id, es[0].columns);
      }
      InsertsNest(emptyIsValid, Step(emptyIsValid, s, es[0]), es[1..]);
    }
  }

  /** Where rows are only inserted, everything cached or under way is as the table has it now. */
  ghost predicate UpToDate(s: State) {
    Sourced(s) && Nested(s.db) && Submap(s.up.cache, s.db.Current())
  }

  lemma FromHistoryIsCurrent(db: Db, rows: Table)
    requires Nested(db) && FromHistory(db, rows)
    ensures Submap(rows, db.Current())
  {
    var i :| 0 <= i < |db.history| && Submap(rows, db.history[i]);
    assert Submap(db.history[i], db.history[|db.history| - 1]);
  }

  /** Rows that the table still has leave every cached row as it was. */
  lemma OverlayOfCurrent(cache: Table, batches: seq<Table>, table: Table)
    requires |batches| <= 1 && Submap(cache, table) && forall rows <- batches :: Submap(rows, table)
    ensures Submap(cache, Overlay(cache, batches)) && Submap(Overlay(cache, batches), table)
  {
    if batches != [] {
      assert batches[0] in batches && batches[1..] == [];
      assert Overlay(cache, batches) == cache + batches[0];
    }
  }

  lemma UpToDateStep(emptyIsValid: bool, s: State, e: Event)
    requires UpToDate(s) && Enabled(emptyIsValid, s, e) && (e.Write? ==> e.id !in s.db.Current())
    ensures UpToDate(Step(emptyIsValid, s, e))
    ensures Submap(s.up.cache, Step(emptyIsValid, s, e).up.cache)
  {
    SourcedStep(emptyIsValid, s, e);
    StepOverlays(emptyIsValid, s, e);
    forall rows <- AppliedBy(s, e) ensures Submap(rows, s.db.Current()) {
      FromHistoryIsCurrent(s.db, rows);
    }
    OverlayOfCurrent(s.up.cache, AppliedBy(s, e), s.db.Current());
    if e.Write? {
      InsertKeepsNested(s.db, e.id, e.columns);
      assert Step(emptyIsValid, s, e).db == s.db.Write(e.id, e.columns);
    } else {
      hide Nested, Sourced, Overlay;
      assert Step(emptyIsValid, s, e).db == s.db;
    }
  }

  lemma SubmapTrans(a: Table, b: Table, c: Table)
    requires Submap(a, b) && Submap(b, c)
    ensures Submap(a, c)
  {
  }

  lemma {:induction false} UpToDateRun(emptyIsValid: bool, s: State, es: seq<Event>, b: nat)
    requires CanRun(emptyIsValid, s, es) && InsertsOnly(emptyIsValid, s, es) && UpToDate(s) && b <= |es|
    ensures Submap(s.up.cache, Trace(emptyIsValid, s, es)[b].up.cache)
    decreases |es|
  {
    if b > 0 {
      UpToDateStep(emptyIsValid, s, es[0]);
      hide UpToDate, Step, Submap, Trace;
      var t := Step(emptyIsValid, s, es[0]);
      UpToDateRun(emptyIsValid, t, es[1..], b - 1);
      TraceTail(emptyIsValid, s, es, b);
      SubmapTrans(s.up.cache, t.up.cache, Trace(emptyIsValid, s, es)[b].up.cache);
    } else {
      assert Submap(s.up.cache, s.up.cache);
    }
  }

  lemma {:induction false} GrowsAlong(emptyIsValid: bool, s: State, es: seq<Event>, a: nat, b: nat)
    requires CanRun(emptyIsValid, s, es) && InsertsOnly(emptyIsValid, s, es) && UpToDate(s) && a <= b <= |es|
    ensures Submap(Trace(emptyIsValid, s, es)[a].up.cache, Trace(emptyIsValid, s, es)[b].up.cache)
    decreases |es|
  {
    hide UpToDate, Step, Submap, Trace;
    if a == 0 {
      UpToDateRun(emptyIsValid, s, es, b);
    } else {
      UpToDateStep(emptyIsValid, s, es[0]);
      GrowsAlong(emptyIsValid, Step(emptyIsValid, s, es[0]), es[1..], a - 1, b - 1);
      TraceTail(emptyIsValid, s, es, a);
      TraceTail(emptyIsValid, s, es, b);
    }
  }

  /** If rows are only ever inserted, then over any run whatever, failed timers and overlapping rounds
      included, a cached row never changes and never leaves: a reader of the cache sees it grow. */
  lemma InsertOnlyCacheGrows(emptyIsValid: bool, s: State, es: seq<Event>, a: nat, b: nat)
    requires IsInitial(s) && CanRun(emptyIsValid, s, es) && InsertsOnly(emptyIsValid, s, es)
    requires a <= b <= |es|
    ensures Submap(Trace(emptyIsValid, s, es)[a].up.cache, Trace(emptyIsValid, s, es)[b].up.cache)
  {
    assert UpToDate(s);
    GrowsAlong(emptyIsValid, s, es, a, b);
  }

  /** And everything a run applies is still so in the table at its end. */
  lemma AppliedIsCurrent(emptyIsValid: bool, s: State, es: seq<Event>)
    requires IsInitial(s) && CanRun(emptyIsValid, s, es) && InsertsOnly(emptyIsValid, s, es)
    ensures forall rows <- Applied(emptyIsValid, s, es) :: Submap(rows, Run(emptyIsValid, s, es).db.Current())
  {
    AppliedFromHistory(emptyIsValid, s, es);
    InsertsNest(emptyIsValid, s, es);
    forall rows <- Applied(emptyIsValid, s, es) ensures Submap(rows, Run(emptyIsValid, s, es).db.Current()) {
      FromHistoryIsCurrent(Run(emptyIsValid, s, es).db, rows);
    }
  }
}
