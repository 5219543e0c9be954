/** The concrete caches driven by the refresh protocol: the rows that a run applies, in whatever order
    each query delivers them, loaded into the containers, against the table. */
module CacheRuns {
  import opened AppliedRows
  import opened RefreshProtocol
  import opened Containers
  import opened Models
  import opened Options
  import opened UniqueIndexes
  import CodeIndex
  import C = CurrenciesCaches
  import R = ExchangeRatesCaches

  // ---------------------------------------------------------------- rows in place of versions

  /** What a version's columns say, as a row. */
  type Decoder<!Row> = (Id, seq<string>) -> Row

  function RowsOf<Row>(table: Table, decode: Decoder<Row>): map<Id, Row> {
    map id | id in table :: decode(id, table[id].columns)
  }

  ghost predicate OwnIds<Row(!new)>(decode: Decoder<Row>, id: Row -> Id) {
    forall i, columns :: id(decode(i, columns)) == i
  }

  /** `rows` are the batch's rows, in any order and with repeats. */
  ghost predicate Lists<Row>(rows: seq<Row>, batch: Table, decode: Decoder<Row>, id: Row -> Id) {
    && (forall r <- rows :: id(r) in batch && r == decode(id(r), batch[id(r)].columns))
    && (forall i <- batch :: decode(i, batch[i].columns) in rows)
  }

  ghost predicate ListAll<Row>(lists: seq<seq<Row>>, batches: seq<Table>, decode: Decoder<Row>, id: Row -> Id) {
    |lists| == |batches| && forall i | 0 <= i < |lists| :: Lists(lists[i], batches[i], decode, id)
  }

  lemma ListsAssign<Row(!new)>(m: map<Id, Row>, rows: seq<Row>, batch: Table, decode: Decoder<Row>, id: Row -> Id)
    requires OwnIds(decode, id) && Lists(rows, batch, decode, id)
    ensures AssignAll(m, rows, id) == m + RowsOf(batch, decode)
  {
    var a, b := AssignAll(m, rows, id), m + RowsOf(batch, decode);
    forall i: Id
      ensures i in a <==> i in b
      ensures i in a && i in b ==> a[i] == b[i]
    {
      AssignedValue(m, rows, id, i);
      var last := LastRow(rows, id, i);
      if i in batch {
        var r := decode(i, batch[i].columns);
        var j :| 0 <= j < |rows| && rows[j] == r;
        assert id(rows[j]) == i;
      }
      if last >= 0 {
        assert rows[last] in rows;
      }
    }
    assert a.Keys == b.Keys;
  }

  lemma {:induction false} ListAllAssign<Row(!new)>(
    cache: Table, lists: seq<seq<Row>>, batches: seq<Table>, decode: Decoder<Row>, id: Row -> Id)
    requires OwnIds(decode, id) && ListAll(lists, batches, decode, id)
    ensures AssignAll(RowsOf(cache, decode), Flatten(lists), id) == RowsOf(Overlay(cache, batches), decode)
    decreases |lists|
  {
    if lists != [] {
      var m := RowsOf(cache, decode);
      assert Lists(lists[0], batches[0], decode, id);
      ListsAssign(m, lists[0], batches[0], decode, id);
      assert RowsOf(cache + batches[0], decode) == m + RowsOf(batches[0], decode);
      AssignAllConcat(m, lists[0], Flatten(lists[1..]), id);
      assert ListAll(lists[1..], batches[1..], decode, id);
      hide AssignAll, RowsOf, Lists, ListAll, OwnIds;
      ListAllAssign(cache + batches[0], lists[1..], batches[1..], decode, id);
    }
  }

  // ---------------------------------------------------------------- a further unique key

  function KeysOf<K, Row>(table: Table, decode: Decoder<Row>, key: Row -> K): map<Id, K> {
    map id | id in table :: key(decode(id, table[id].columns))
  }

  /** A write that the service and the table's unique constraint allow: a row there keeps its key, and
      a new row has a key that no other row has. */
  ghost predicate KeepsKeys<K, Row>(
    table: Table, id: Id, columns: seq<string>, decode: Decoder<Row>, key: Row -> K)
  {
    var keys, k := KeysOf(table, decode, key), key(decode(id, columns));
    if id in table then keys[id] == k else forall i <- table :: keys[i] != k
  }

  ghost predicate KeyedWrites<K, Row>(emptyIsValid: bool, s: State, es: seq<Event>, decode: Decoder<Row>, key: Row -> K)
    requires CanRun(emptyIsValid, s, es)
    decreases |es|
  {
    es != [] ==>
      && (es[0].Write? ==> KeepsKeys(s.db.Current(), es[0].id, es[0].columns, decode, key))
      && KeyedWrites(emptyIsValid, Step(emptyIsValid, s, es[0]), es[1..], decode, key)
  }

  /** What `KeyedWrites` asks of a run, write by write. */
  lemma {:induction false} KeyedWritesSnoc<K, Row>(
    emptyIsValid: bool, s: State, es: seq<Event>, e: Event, decode: Decoder<Row>, key: Row -> K)
    requires CanRun(emptyIsValid, s, es) && CanRun(emptyIsValid, s, es + [e])
    ensures KeyedWrites(emptyIsValid, s, [], decode, key)
    ensures KeyedWrites(emptyIsValid, s, es + [e], decode, key) <==>
      && KeyedWrites(emptyIsValid, s, es, decode, key)
      && (e.Write? ==> KeepsKeys(Run(emptyIsValid, s, es).db.Current(), e.id, e.columns, decode, key))
    decreases |es|
  {
    hide Step, KeepsKeys;
    if es == [] {
      assert [] + [e] == [e];
    } else {
      assert (es + [e])[1..] == es[1..] + [e];
      KeyedWritesSnoc(emptyIsValid, Step(emptyIsValid, s, es[0]), es[1..], e, decode, key);
    }
  }

  /** Every state the table was in agrees with the current one on the keys. */
  ghost predicate KeysAreForGood<K, Row>(db: Db, decode: Decoder<Row>, key: Row -> K) {
    && Injective(KeysOf(db.Current(), decode, key))
    && forall i | 0 <= i < |db.history| ::
         MapConforms(RowsOf(db.history[i], decode), KeysOf(db.Current(), decode, key), key)
  }

  lemma WriteKeepsKeys<K, Row>(db: Db, id: Id, columns: seq<string>, decode: Decoder<Row>, key: Row -> K)
    requires KeysAreForGood(db, decode, key) && KeepsKeys(db.Current(), id, columns, decode, key)
    ensures KeysAreForGood(db.Write(id, columns), decode, key)
  {
    var next := db.Write(id, columns);
    var keys, keys' := KeysOf(db.Current(), decode, key), KeysOf(next.Current(), decode, key);
    assert keys' == keys[id := key(decode(id, columns))];
    forall i | 0 <= i < |next.history| ensures MapConforms(RowsOf(next.history[i], decode), keys', key) {
      if i < |db.history| {
        assert MapConforms(RowsOf(db.history[i], decode), keys, key);
      }
    }
  }

  lemma {:induction false} RunKeepsKeys<K, Row>(
    emptyIsValid: bool, s: State, es: seq<Event>, decode: Decoder<Row>, key: Row -> K)
    requires CanRun(emptyIsValid, s, es) && KeyedWrites(emptyIsValid, s, es, decode, key)
    requires KeysAreForGood(s.db, decode, key)
    ensures KeysAreForGood(Run(emptyIsValid, s, es).db, decode, key)
    decreases |es|
  {
    if es != [] {
      hide KeysAreForGood, KeepsKeys;
      if es[0].Write? {
        WriteKeepsKeys(s.db, es[0].id, es[0].columns, decode, key);
      }
      RunKeepsKeys(emptyIsValid, Step(emptyIsValid, s, es[0]), es[1..], decode, key);
    }
  }

  /** The run starts from a table with unique keys and writes only what the service writes; `lists`
      are the rows of the batches it applies. */
  ghost predicate Drives<K, Row(!new)>(
    emptyIsValid: bool, s: State, es: seq<Event>, lists: seq<seq<Row>>,
    decode: Decoder<Row>, id: Row -> Id, key: Row -> K)
  {
    && IsInitial(s) && CanRun(emptyIsValid, s, es) && OwnIds(decode, id)
    && Injective(KeysOf(s.db.Current(), decode, key)) && KeyedWrites(emptyIsValid, s, es, decode, key)
    && ListAll(lists, Applied(emptyIsValid, s, es), decode, id)
  }

  lemma ListsConform<K, Row(!new)>(
    rows: seq<Row>, batch: Table, table: Table, keys: map<Id, K>, decode: Decoder<Row>, id: Row -> Id, key: Row -> K)
    requires OwnIds(decode, id) && Lists(rows, batch, decode, id) && Submap(batch, table)
    requires MapConforms(RowsOf(table, decode), keys, key)
    ensures Conforms(rows, keys, id, key)
  {
    forall r <- rows ensures id(r) in keys && keys[id(r)] == key(r) {
      var i, version := id(r), batch[id(r)];
      assert i in batch && i in table && table[i] == version && r == decode(i, version.columns);
      assert RowsOf(table, decode)[i] == r;
    }
  }

  /** Every batch of the run agrees with the keys that the table ends with. */
  lemma DrivenConform<K, Row(!new)>(
    emptyIsValid: bool, s: State, es: seq<Event>, lists: seq<seq<Row>>,
    decode: Decoder<Row>, id: Row -> Id, key: Row -> K)
    requires Drives(emptyIsValid, s, es, lists, decode, id, key)
    ensures var keys := KeysOf(Run(emptyIsValid, s, es).db.Current(), decode, key);
      Injective(keys) && forall rows <- lists :: Conforms(rows, keys, id, key)
  {
    assert KeysAreForGood(s.db, decode, key);
    RunKeepsKeys(emptyIsValid, s, es, decode, key);
    AppliedFromHistory(emptyIsValid, s, es);
    var db, batches := Run(emptyIsValid, s, es).db, Applied(emptyIsValid, s, es);
    var keys := KeysOf(db.Current(), decode, key);
    hide Run, CanRun, Applied, KeyedWrites, KeysOf;
    forall rows <- lists ensures Conforms(rows, keys, id, key) {
      var i :| 0 <= i < |lists| && lists[i] == rows;
      assert Lists(rows, batches[i], decode, id) && batches[i] in batches;
      var j :| 0 <= j < |db.history| && Submap(batches[i], db.history[j]);
      ListsConform(rows, batches[i], db.history[j], keys, decode, id, key);
    }
  }

  lemma {:induction false} FlattenConforms<K, Row>(lists: seq<seq<Row>>, keys: map<Id, K>, id: Row -> Id, key: Row -> K)
    requires forall rows <- lists :: Conforms(rows, keys, id, key)
    ensures Conforms(Flatten(lists), keys, id, key)
  {
    if lists != [] {
      assert lists[0] in lists && forall rows <- lists[1..] :: rows in lists;
      FlattenConforms(lists[1..], keys, id, key);
    }
  }

  /** Over any run at all, with timer errors and failed rounds anywhere: the by-id container loaded
      with the applied rows holds exactly the rows of the protocol's cache, and the container under
      the further key is its inverse. */
  lemma ContainersFollowCache<K, Row(!new)>(
    emptyIsValid: bool, s: State, es: seq<Event>, lists: seq<seq<Row>>,
    decode: Decoder<Row>, id: Row -> Id, key: Row -> K)
    requires Drives(emptyIsValid, s, es, lists, decode, id, key)
    ensures var byId, byKey := AssignAll(map[], Flatten(lists), id), AssignAll(map[], Flatten(lists), key);
      byId == RowsOf(Run(emptyIsValid, s, es).up.cache, decode) && Inverse(byId, byKey, id, key)
  {
    CacheIsOverlay(emptyIsValid, s, es);
    assert RowsOf(map[], decode) == map[];
    ListAllAssign(map[], lists, Applied(emptyIsValid, s, es), decode, id);
    DrivenConform(emptyIsValid, s, es, lists, decode, id, key);
    var keys := KeysOf(Run(emptyIsValid, s, es).db.Current(), decode, key);
    FlattenConforms(lists, keys, id, key);
    var none: map<Id, Row> := map[];
    assert Inverse(none, map[], id, key) && MapConforms(none, keys, key);
    AssignKeepsInverse(map[], map[], Flatten(lists), keys, id, key);
  }

  // ---------------------------------------------------------------- the exchange-rates cache

  const NO_CURRENCIES: C.Currencies := C.Currencies(map[], map[], map[])

  function DriveRates(c: R.Rates, lists: seq<seq<ExchangeRate>>): R.Rates
    decreases |lists|
  {
    if lists == [] then c else DriveRates(R.Assign(c, lists[0]), lists[1..])
  }

  lemma {:induction false} DriveRatesIsAssign(c: R.Rates, lists: seq<seq<ExchangeRate>>)
    ensures DriveRates(c, lists) == R.Assign(c, Flatten(lists))
    decreases |lists|
  {
    if lists != [] {
      DriveRatesIsAssign(R.Assign(c, lists[0]), lists[1..]);
      AssignAllConcat(c.byId, lists[0], Flatten(lists[1..]), R.ID_KEY);
      AssignAllConcat(c.byPair, lists[0], Flatten(lists[1..]), R.PAIR_KEY);
      AssignAllConcat(c.byIdStd, lists[0], Flatten(lists[1..]), R.ID_KEY);
    }
  }

  /** The strand runs the posted updates of the cache one after the other; `pauses[i]` is the time
      from the end of one to the start of the next. */
  method RunOnStrand(
    cache: R.ExchangeRatesCache, lists: seq<seq<ExchangeRate>>, pauses: seq<nat>,
    view: nat -> R.CurrencyMap, now: nat, initialised: nat)
    returns (start: nat, after: nat)
    requires R.Growing(view) && cache.Valid(view(now)) && |pauses| == |lists|
    modifies cache
    ensures cache.View() == DriveRates(old(cache.View()), lists)
    ensures now <= start <= after && forall later | after <= later :: cache.Valid(view(later))
    ensures lists != [] ==>
      && initialised <= start && R.Published(cache.all, cache.hasSkipped, cache.byIdStd, view(start), view(after))
      && R.ShowsRates(cache.all, cache.hasSkipped, cache.byIdStd, view(start), view(after))
  {
    start, after := now, now;
    cache.ValidWhileGrowing(view, now);
    for i := 0 to |lists|
      invariant DriveRates(cache.View(), lists[i..]) == DriveRates(old(cache.View()), lists)
      invariant now <= start <= after && forall later | after <= later :: cache.Valid(view(later))
      invariant i > 0 ==> initialised <= start
      invariant i > 0 ==> R.Published(cache.all, cache.hasSkipped, cache.byIdStd, view(start), view(after))
      invariant i > 0 ==> R.ShowsRates(cache.all, cache.hasSkipped, cache.byIdStd, view(start), view(after))
    {
      hide R.Published, R.ShowsRates, R.Growing;
      assert lists[i..][0] == lists[i] && lists[i..][1..] == lists[i + 1..];
      start, after := cache.UpdateCache(lists[i], view, after + pauses[i], initialised);
    }
  }

  function ThenRound(es: seq<Event>, round: seq<Event>): seq<Event> {
    es + ([Timer(false)] + round + [UpdateCache(0)])
  }

  /** A run that ends in a quiet round, after any events without timer errors. */
  ghost predicate EndsQuietly(emptyIsValid: bool, s: State, es: seq<Event>, round: seq<Event>) {
    && Reaches(emptyIsValid, s, es) && Run(emptyIsValid, s, es).boot.Running? && IsQuiet(round)
    && CanRun(emptyIsValid, s, ThenRound(es, round))
  }

  lemma QuietEnd(emptyIsValid: bool, s: State, es: seq<Event>, round: seq<Event>)
    requires EndsQuietly(emptyIsValid, s, es, round)
    ensures var t := Run(emptyIsValid, s, ThenRound(es, round));
      t.up.cache == t.db.Current() && t.db == Run(emptyIsValid, s, es).db
  {
    var t, whole := Run(emptyIsValid, s, es), [Timer(false)] + round + [UpdateCache(0)];
    CanRunSplit(emptyIsValid, s, es, whole);
    RunConcat(emptyIsValid, s, es, whole);
    QuietRoundSynchronises(emptyIsValid, s, es, round);
    var t2 := RoundSplit(emptyIsValid, t, round);
    KeptWithout(emptyIsValid, Step(emptyIsValid, t, Timer(false)), round);
  }

  /** End to end for the containers of the exchange rates.  After a quiet round at the end of any run of
      POSTs and PATCHes without timer errors, failed rounds included, whatever the order in which
      queries deliver rows: the by-id containers hold exactly the table's rows, and the pair index is
      their inverse. */
  lemma RatesFollowTable(
    emptyIsValid: bool, s: State, es: seq<Event>, round: seq<Event>,
    lists: seq<seq<ExchangeRate>>, decode: Decoder<ExchangeRate>)
    requires EndsQuietly(emptyIsValid, s, es, round)
    requires Drives(emptyIsValid, s, ThenRound(es, round), lists, decode, R.ID_KEY, R.PAIR_KEY)
    ensures var c := DriveRates(R.NO_RATES, lists);
      var table := RowsOf(Run(emptyIsValid, s, ThenRound(es, round)).db.Current(), decode);
      c.byId == table && c.byIdStd == table && R.PairsInverse(c)
    ensures lists != []
  {
    QuietEnd(emptyIsValid, s, es, round);
    DriveRatesIsAssign(R.NO_RATES, lists);
    ContainersFollowCache(emptyIsValid, s, ThenRound(es, round), lists, decode, R.ID_KEY, R.PAIR_KEY);
    assert ThenRound(es, round) == (es + [Timer(false)] + round) + [UpdateCache(0)];
    SomethingApplied(emptyIsValid, s, es + [Timer(false)] + round, UpdateCache(0));
  }

  lemma {:induction false} SomethingApplied(emptyIsValid: bool, s: State, es: seq<Event>, e: Event)
    requires CanRun(emptyIsValid, s, es + [e]) && e.UpdateCache?
    ensures Applied(emptyIsValid, s, es + [e]) != []
    decreases |es|
  {
    if es == [] {
      assert [] + [e] == [e];
    } else {
      assert (es + [e])[1..] == es[1..] + [e];
      SomethingApplied(emptyIsValid, Step(emptyIsValid, s, es[0]), es[1..], e);
    }
  }

  lemma EntriesNameIds(
    json: Rendering<R.Entry>, skipped: bool, rates: R.RatesById, older: R.CurrencyMap, newer: R.CurrencyMap)
    requires R.ShowsRates(json, skipped, rates, older, newer) && Keyed(newer, C.ID_KEY)
    ensures json.Listed? ==> forall e <- json.entries ::
      e.id in rates && e.base.id == rates[e.id].base && e.target.id == rates[e.id].target
  {
    assert forall c: Currency :: C.ID_KEY(c) == c.id;
  }

  /** End to end for the exchange-rates cache object.  Built empty and handed, one after the other, the
      batches of such a run, with any pauses and with currencies arriving meanwhile: its by-id
      container is the table, the pair index its inverse, and what it publishes is a rendering of the
      table taken during the last update; if no currency arrived during that update, it is a fresh
      rendering of the table, flagged exactly when some rate does not resolve. */
  method ServeRun(
    ghost emptyIsValid: bool, ghost s: State, ghost es: seq<Event>, ghost round: seq<Event>,
    lists: seq<seq<ExchangeRate>>, ghost decode: Decoder<ExchangeRate>,
    pauses: seq<nat>, view: nat -> R.CurrencyMap, now: nat, initialised: nat)
    returns (cache: R.ExchangeRatesCache, start: nat, after: nat)
    requires EndsQuietly(emptyIsValid, s, es, round)
    requires Drives(emptyIsValid, s, ThenRound(es, round), lists, decode, R.ID_KEY, R.PAIR_KEY)
    requires |pauses| == |lists| && R.Growing(view)
    ensures fresh(cache) && initialised <= start <= after
    ensures var table := RowsOf(Run(emptyIsValid, s, ThenRound(es, round)).db.Current(), decode);
      && cache.byId == table && cache.byIdStd == table && R.PairsInverse(cache.View())
      && R.Published(cache.all, cache.hasSkipped, table, view(start), view(after))
      && R.ShowsRates(cache.all, cache.hasSkipped, table, view(start), view(after))
      && (Keyed(view(after), C.ID_KEY) && cache.all.Listed? ==>
            forall e <- cache.all.entries ::
              e.id in table && e.base.id == table[e.id].base && e.target.id == table[e.id].target)
      && (view(start) == view(after) ==>
            && R.FreshRendering(cache.all, table, view(after))
            && (table != map[] ==> (cache.hasSkipped <==> !R.AllResolve(table, view(after)))))
  {
    cache := new R.ExchangeRatesCache();
    start, after := RunOnStrand(cache, lists, pauses, view, now, initialised);
    RatesFollowTable(emptyIsValid, s, es, round, lists, decode);
    hide R.Published, R.ShowsRates, Keyed, Drives, EndsQuietly, RowsOf, Run, R.FreshRendering, R.AllResolve;
    if view(start) == view(after) {
      R.QuietPublished(cache.all, cache.hasSkipped, cache.byIdStd, view(after));
    }
    if Keyed(view(after), C.ID_KEY) {
      EntriesNameIds(cache.all, cache.hasSkipped, cache.byIdStd, view(start), view(after));
    }
  }

  // ---------------------------------------------------------------- the currencies cache

  function DriveCurrencies(c: C.Currencies, lists: seq<seq<Currency>>): C.Currencies
    decreases |lists|
  {
    if lists == [] then c else DriveCurrencies(C.Assign(c, lists[0]), lists[1..])
  }

  lemma {:induction false} DriveCurrenciesIsAssign(c: C.Currencies, lists: seq<seq<Currency>>)
    ensures DriveCurrencies(c, lists) == C.Assign(c, Flatten(lists))
    decreases |lists|
  {
    if lists != [] {
      DriveCurrenciesIsAssign(C.Assign(c, lists[0]), lists[1..]);
      C.BatchingDoesNotMatter(c, lists[0], Flatten(lists[1..]));
    }
  }

  /** End to end for the currencies: after a quiet round the containers hold exactly the table's rows,
      each found by id and under its code. */
  lemma CurrenciesFollowTable(
    emptyIsValid: bool, s: State, es: seq<Event>, round: seq<Event>,
    lists: seq<seq<Currency>>, decode: Decoder<Currency>)
    requires EndsQuietly(emptyIsValid, s, es, round)
    requires Drives(emptyIsValid, s, ThenRound(es, round), lists, decode, C.ID_KEY, C.CODE_KEY)
    ensures var c := DriveCurrencies(NO_CURRENCIES, lists);
      && c.byId == RowsOf(Run(emptyIsValid, s, ThenRound(es, round)).db.Current(), decode)
      && C.CodesInverse(c)
  {
    QuietEnd(emptyIsValid, s, es, round);
    DriveCurrenciesIsAssign(NO_CURRENCIES, lists);
    ContainersFollowCache(emptyIsValid, s, ThenRound(es, round), lists, decode, C.ID_KEY, C.CODE_KEY);
  }

  /** Readers at any moment of any run: before the first, between any two, or after any number of the
      container writes of any update, a currency found by code is found by id under that code, and
      each lookup gives the row from before the update or one of the update's. */
  lemma ReadersOfAnyRun(
    emptyIsValid: bool, s: State, es: seq<Event>, lists: seq<seq<Currency>>, decode: Decoder<Currency>, n: nat, k: nat)
    requires Drives(emptyIsValid, s, es, lists, decode, C.ID_KEY, C.CODE_KEY)
    requires n < |lists| && k <= 3 * |lists[n]|
    ensures var c := DriveCurrencies(NO_CURRENCIES, lists[..n]);
      C.CodesResolve(C.Partial(c, lists[n], k)) && C.OldOrNew(c, lists[n], C.Partial(c, lists[n], k))
  {
    DrivenConform(emptyIsValid, s, es, lists, decode, C.ID_KEY, C.CODE_KEY);
    var keys := KeysOf(Run(emptyIsValid, s, es).db.Current(), decode, C.CODE_KEY);
    hide Drives, KeysOf, Run;
    assert forall rows <- lists[..n] :: rows in lists;
    assert Conforms(lists[n], keys, C.ID_KEY, C.CODE_KEY);
    StableReaders(lists[..n], lists[n], keys);
    C.ReadersDuringUpdate(DriveCurrencies(NO_CURRENCIES, lists[..n]), lists[n], k);
  }

  lemma StableReaders(before: seq<seq<Currency>>, rows: seq<Currency>, keys: map<Id, CodeIndex.Code>)
    requires Injective(keys) && Conforms(rows, keys, C.ID_KEY, C.CODE_KEY)
    requires forall batch <- before :: Conforms(batch, keys, C.ID_KEY, C.CODE_KEY)
    ensures var c := DriveCurrencies(NO_CURRENCIES, before); C.CodesResolve(c) && C.StableCodes(c, rows)
  {
    FlattenConforms(before, keys, C.ID_KEY, C.CODE_KEY);
    DriveCurrenciesIsAssign(NO_CURRENCIES, before);
    var none: map<Id, Currency> := map[];
    assert Inverse(none, map[], C.ID_KEY, C.CODE_KEY) && MapConforms(none, keys, C.CODE_KEY);
    AssignKeepsInverse(map[], map[], Flatten(before), keys, C.ID_KEY, C.CODE_KEY);
    ConformingIsStable(C.Assign(NO_CURRENCIES, Flatten(before)), rows, keys);
  }

  lemma ConformingIsStable(c: C.Currencies, rows: seq<Currency>, keys: map<Id, CodeIndex.Code>)
    requires Conforms(rows, keys, C.ID_KEY, C.CODE_KEY)
    requires Inverse(c.byId, c.byCode, C.ID_KEY, C.CODE_KEY) && MapConforms(c.byId, keys, C.CODE_KEY)
    ensures C.CodesResolve(c) && C.StableCodes(c, rows)
  {
    hide CodeIndex.Upper;
    forall r <- rows ensures r.id in keys && keys[r.id] == CodeIndex.Upper(r.code) {
      assert C.ID_KEY(r) == r.id && C.CODE_KEY(r) == CodeIndex.Upper(r.code);
    }
    forall u <- c.byCode
      ensures c.byCode[u].id in c.byId && CodeIndex.Upper(c.byCode[u].code) == u
      ensures CodeIndex.Upper(c.byId[c.byCode[u].id].code) == u
    {
      assert C.ID_KEY(c.byCode[u]) == c.byCode[u].id;
    }
  }

  // ---------------------------------------------------------------- currencies as the rates cache sees them

  /** What a read of the currencies cache by id sees after the `t`-th container write, over all the
      updates that load `rows`. */
  ghost function CurrencyView(rows: seq<Currency>): nat -> R.CurrencyMap {
    (t: nat) => C.Partial(NO_CURRENCIES, rows, if t <= 3 * |rows| then t else 3 * |rows|).byId
  }

  lemma {:induction false} PartialWithin(rows: seq<Currency>, k: nat, table: R.CurrencyMap)
    requires k <= 3 * |rows| && forall r <- rows :: r.id in table && table[r.id] == r
    ensures Submap(C.Partial(NO_CURRENCIES, rows, k).byId, table)
  {
    if k > 0 {
      PartialWithin(rows, k - 1, table);
      assert rows[(k - 1) / 3] in rows;
    }
  }

  lemma {:induction false} InFlatten<V>(lists: seq<seq<V>>, x: V) returns (i: nat)
    requires x in Flatten(lists)
    ensures i < |lists| && x in lists[i]
  {
    if x in lists[0] {
      i := 0;
    } else {
      var j := InFlatten(lists[1..], x);
      i := j + 1;
    }
  }

  /** With inserts only, every row a run loads is the table's own. */
  lemma LoadedIsCurrent<K, Row(!new)>(
    emptyIsValid: bool, s: State, es: seq<Event>, lists: seq<seq<Row>>,
    decode: Decoder<Row>, id: Row -> Id, key: Row -> K)
    requires Drives(emptyIsValid, s, es, lists, decode, id, key) && InsertsOnly(emptyIsValid, s, es)
    ensures var table := RowsOf(Run(emptyIsValid, s, es).db.Current(), decode);
      forall r <- Flatten(lists) :: id(r) in table && table[id(r)] == r
  {
    AppliedIsCurrent(emptyIsValid, s, es);
    var current, batches := Run(emptyIsValid, s, es).db.Current(), Applied(emptyIsValid, s, es);
    hide Run, CanRun, Applied, KeyedWrites, InsertsOnly;
    forall r <- Flatten(lists) ensures id(r) in current && r == decode(id(r), current[id(r)].columns) {
      var i := InFlatten(lists, r);
      assert Lists(lists[i], batches[i], decode, id) && batches[i] in batches;
    }
  }

  /** The rates cache may rely on `Growing`: over any run at all of the currencies' updater in which the
      table only gets new rows, failed timers included, what its by-id container shows only grows,
      from each single container write to the next. */
  lemma CurrenciesOnlyGrow(
    emptyIsValid: bool, s: State, es: seq<Event>, lists: seq<seq<Currency>>, decode: Decoder<Currency>)
    requires Drives(emptyIsValid, s, es, lists, decode, C.ID_KEY, C.CODE_KEY) && InsertsOnly(emptyIsValid, s, es)
    ensures R.Growing(CurrencyView(Flatten(lists)))
  {
    var rows, table := Flatten(lists), RowsOf(Run(emptyIsValid, s, es).db.Current(), decode);
    LoadedIsCurrent(emptyIsValid, s, es, lists, decode, C.ID_KEY, C.CODE_KEY);
    assert forall r <- rows :: C.ID_KEY(r) == r.id;
    hide Drives, InsertsOnly, RowsOf, Run, Flatten, Submap;
    forall a: nat, b: nat | a <= b ensures Submap(CurrencyView(rows)(a), CurrencyView(rows)(b)) {
      var i := if a <= 3 * |rows| then a else 3 * |rows|;
      var j := if b <= 3 * |rows| then b else 3 * |rows|;
      PartialGrows(rows, i, j, table);
    }
  }

  lemma PartialGrows(rows: seq<Currency>, i: nat, j: nat, table: R.CurrencyMap)
    requires i <= j <= 3 * |rows| && forall r <- rows :: r.id in table && table[r.id] == r
    ensures Submap(C.Partial(NO_CURRENCIES, rows, i).byId, C.Partial(NO_CURRENCIES, rows, j).byId)
  {
    PartialWithin(rows, i, table);
    PartialWithin(rows, j, table);
    C.NothingDisappears(NO_CURRENCIES, rows, i, j);
  }

  /** The moments of `CurrencyView` are those that a concurrent reader can see: before, between and
      after the container writes of each update, and at the end of each the containers so far. */
  lemma ViewMoments(lists: seq<seq<Currency>>, n: nat, k: nat)
    requires n < |lists| && k <= 3 * |lists[n]|
    ensures CurrencyView(Flatten(lists))(3 * |Flatten(lists[..n])| + k)
         == C.Partial(DriveCurrencies(NO_CURRENCIES, lists[..n]), lists[n], k).byId
  {
    var before, after := Flatten(lists[..n]), Flatten(lists[n + 1..]);
    DriveCurrenciesIsAssign(NO_CURRENCIES, lists[..n]);
    FlattenAt(lists, n);
    assert Flatten(lists) == before + (lists[n] + after);
    hide Flatten;
    C.PartialThen(NO_CURRENCIES, before, lists[n] + after, k);
    C.PartialFirst(C.Assign(NO_CURRENCIES, before), lists[n], after, k);
  }

  lemma {:induction false} FlattenAt<V>(lists: seq<seq<V>>, n: nat)
    requires n < |lists|
    ensures Flatten(lists) == Flatten(lists[..n]) + (lists[n] + Flatten(lists[n + 1..]))
  {
    if n > 0 {
      FlattenAt(lists[1..], n - 1);
      assert lists[1..][..n - 1] == lists[..n][1..] && lists[1..][n..] == lists[n + 1..];
    }
  }

  // ---------------------------------------------------------------- POST and PATCH as writes of a run

  /** The columns that the service writes read back as the row. */
  ghost predicate ReadsBack<Row(!new)>(decode: Decoder<Row>, encode: Row -> seq<string>, id: Row -> Id) {
    forall row :: decode(id(row), encode(row)) == row
  }

  datatype Change = Nothing | Writes(id: Id, columns: seq<string>)

  function TableAfter(db: Db, change: Change): Table {
    match change
    case Nothing => db.Current()
    case Writes(id, columns) => db.Write(id, columns).Current()
  }

  lemma NewKey<K, Row>(table: Table, id: Id, columns: seq<string>, decode: Decoder<Row>, key: Row -> K)
    requires id !in table
    requires forall i <- RowsOf(table, decode) :: key(RowsOf(table, decode)[i]) != key(decode(id, columns))
    ensures KeepsKeys(table, id, columns, decode, key)
  {
    forall i <- table ensures KeysOf(table, decode, key)[i] != key(decode(id, columns)) {
      assert i in RowsOf(table, decode);
    }
  }

  /** What a POST of a rate does to the rows: nothing unless its id and its pair are both free, and then
      one write of a row with the four fields posted. */
  ghost predicate PostDoes(rows: R.RatesById, w: R.Write, change: Change, decode: Decoder<ExchangeRate>)
    requires w.PostRate?
  {
    && (change.Writes? <==>
          w.id !in rows && forall i <- rows :: rows[i].base != w.base || rows[i].target != w.target)
    && (change.Writes? ==>
          change.id == w.id && decode(change.id, change.columns) == ExchangeRate(w.id, w.base, w.target, w.rate))
  }

  /** What a PATCH does: nothing unless some row has the pair, and then one write of that row with the
      new rate. */
  ghost predicate PatchDoes(rows: R.RatesById, w: R.Write, change: Change, decode: Decoder<ExchangeRate>)
    requires w.PatchRate?
  {
    && (change.Writes? <==> exists i <- rows :: rows[i].base == w.base && rows[i].target == w.target)
    && (change.Writes? ==>
          && change.id in rows && rows[change.id].base == w.base && rows[change.id].target == w.target
          && decode(change.id, change.columns) == ExchangeRate(change.id, w.base, w.target, w.rate))
  }

  /** Every POST and PATCH of a rate is at most one write that the pair's unique constraint allows. */
  lemma RateWriteIsKeyed(
    db: Db, w: R.Write, decode: Decoder<ExchangeRate>, encode: ExchangeRate -> seq<string>) returns (change: Change)
    requires OwnIds(decode, R.ID_KEY) && ReadsBack(decode, encode, R.ID_KEY)
    requires R.UniquePairs(RowsOf(db.Current(), decode))
    ensures change.Writes? ==> KeepsKeys(db.Current(), change.id, change.columns, decode, R.PAIR_KEY)
    ensures RowsOf(TableAfter(db, change), decode) == R.WriteTable(RowsOf(db.Current(), decode), w)
    ensures w.PostRate? ==> PostDoes(RowsOf(db.Current(), decode), w, change, decode)
    ensures w.PatchRate? ==> PatchDoes(RowsOf(db.Current(), decode), w, change, decode)
  {
    hide KeepsKeys;
    if w.PostRate? {
      change := PostIsKeyed(db, w, decode, encode);
    } else {
      change := PatchIsKeyed(db, w, decode, encode);
    }
  }

  lemma PostIsKeyed(
    db: Db, w: R.Write, decode: Decoder<ExchangeRate>, encode: ExchangeRate -> seq<string>) returns (change: Change)
    requires OwnIds(decode, R.ID_KEY) && ReadsBack(decode, encode, R.ID_KEY) && w.PostRate?
    ensures change.Writes? ==> KeepsKeys(db.Current(), change.id, change.columns, decode, R.PAIR_KEY)
    ensures RowsOf(TableAfter(db, change), decode) == R.WriteTable(RowsOf(db.Current(), decode), w)
    ensures PostDoes(RowsOf(db.Current(), decode), w, change, decode)
  {
    hide KeepsKeys;
    var rows := RowsOf(db.Current(), decode);
    if w.id in rows || exists i <- rows :: rows[i].Pair() == (w.base, w.target) {
      return Nothing;
    }
    var row := ExchangeRate(w.id, w.base, w.target, w.rate);
    assert decode(R.ID_KEY(row), encode(row)) == row;
    NewKey(db.Current(), w.id, encode(row), decode, R.PAIR_KEY);
    change := Writes(w.id, encode(row));
  }

  lemma PatchIsKeyed(
    db: Db, w: R.Write, decode: Decoder<ExchangeRate>, encode: ExchangeRate -> seq<string>) returns (change: Change)
    requires OwnIds(decode, R.ID_KEY) && ReadsBack(decode, encode, R.ID_KEY) && w.PatchRate?
    requires R.UniquePairs(RowsOf(db.Current(), decode))
    ensures change.Writes? ==> KeepsKeys(db.Current(), change.id, change.columns, decode, R.PAIR_KEY)
    ensures RowsOf(TableAfter(db, change), decode) == R.WriteTable(RowsOf(db.Current(), decode), w)
    ensures PatchDoes(RowsOf(db.Current(), decode), w, change, decode)
  {
    var rows := RowsOf(db.Current(), decode);
    if id :| id in rows && rows[id].Pair() == (w.base, w.target) {
      var row := rows[id].(rate := w.rate);
      assert decode(R.ID_KEY(row), encode(row)) == row;
      assert forall i <- rows | i != id :: rows[i].Pair() != (w.base, w.target);
      return Writes(id, encode(row));
    }
    change := Nothing;
  }

  /** Every POST of a currency is at most one insert that the code's unique constraint allows, with the
      effect on the rows that the table of the currencies module has. */
  lemma CurrencyPostIsKeyedInsert(
    db: Db, posted: seq<Currency>, p: C.PostRequest, decode: Decoder<Currency>, encode: Currency -> seq<string>)
    returns (change: Change)
    requires OwnIds(decode, C.ID_KEY) && ReadsBack(decode, encode, C.ID_KEY) && C.UpperCased(posted)
    requires RowsOf(db.Current(), decode) == AssignAll(map[], posted, C.ID_KEY)
    ensures change.Writes? ==>
      change.id !in db.Current() && KeepsKeys(db.Current(), change.id, change.columns, decode, C.CODE_KEY)
    ensures RowsOf(TableAfter(db, change), decode) == AssignAll(map[], C.Post(posted, p), C.ID_KEY)
    ensures change.Writes? <==> forall c <- posted :: !CodeIndex.SameCode(c.code, p.code) && c.id != p.id
    ensures change.Writes? ==>
      var row := decode(change.id, change.columns);
      && change.id == p.id && row.id == p.id && row.fullName == p.fullName && row.sign == p.sign
      && CodeIndex.SameCode(row.code, p.code) && CodeIndex.IsUpperCase(row.code)
  {
    forall c <- posted ensures CodeIndex.SameCode(c.code, p.code) <==> c.code == CodeIndex.Upper(p.code) {
      CodeIndex.UpperIff(c.code, p.code);
    }
    CodeIndex.UpperIs(p.code, CodeIndex.Upper(p.code));
    if exists c <- posted :: c.code == CodeIndex.Upper(p.code) || c.id == p.id {
      return Nothing;
    }
    var row, rows := Currency(p.id, CodeIndex.Upper(p.code), p.fullName, p.sign), RowsOf(db.Current(), decode);
    assert decode(C.ID_KEY(row), encode(row)) == row;
    change := Writes(p.id, encode(row));
    AssignAllSnoc(map[], posted, row, C.ID_KEY);
    forall i <- rows ensures i != p.id && C.CODE_KEY(rows[i]) != C.CODE_KEY(row) {
      AssignedValue(map[], posted, C.ID_KEY, i);
      var last := posted[LastRow(posted, C.ID_KEY, i)];
      assert last in posted && rows[i] == last && C.ID_KEY(last) == last.id;
      C.UpperTwice(p.code);
    }
    assert p.id !in rows;
    NewKey(db.Current(), p.id, encode(row), decode, C.CODE_KEY);
  }

  // ---------------------------------------------------------------- a write seen through the caches

  /** The run `es`, and then the write of `columns` under `id`. */
  function ThenWrite(es: seq<Event>, id: Id, columns: seq<string>): seq<Event> {
    es + [Write(id, columns)]
  }

  /** After the write and a quiet round, the table is the one before with that row. */
  lemma WrittenTable<Row>(
    emptyIsValid: bool, s: State, es: seq<Event>, id: Id, columns: seq<string>, round: seq<Event>, decode: Decoder<Row>)
    requires EndsQuietly(emptyIsValid, s, ThenWrite(es, id, columns), round)
    ensures CanRun(emptyIsValid, s, es)
    ensures RowsOf(Run(emptyIsValid, s, ThenRound(ThenWrite(es, id, columns), round)).db.Current(), decode)
         == RowsOf(Run(emptyIsValid, s, es).db.Current(), decode)[id := decode(id, columns)]
  {
    QuietEnd(emptyIsValid, s, ThenWrite(es, id, columns), round);
    var t := SplitLast(emptyIsValid, s, es, Write(id, columns));
    assert t.db.Write(id, columns).Current() == t.db.Current()[id := Version(columns, t.db.clock + 1)];
  }

  /** A PATCH end to end.  After any run, a PATCH of a stored pair and a quiet round, whatever the order
      of the rows: the exchange-rates cache answers the pair with the patched rate, and every other
      pair as the table had it. */
  method ServePatch(
    ghost emptyIsValid: bool, ghost s: State, ghost es: seq<Event>, ghost patched: ExchangeRate,
    ghost columns: seq<string>, ghost round: seq<Event>,
    lists: seq<seq<ExchangeRate>>, ghost decode: Decoder<ExchangeRate>,
    pauses: seq<nat>, view: nat -> R.CurrencyMap, now: nat, initialised: nat,
    base: int, target: int, otherBase: int, otherTarget: int)
    returns (found: Option<ExchangeRate>, other: Option<ExchangeRate>)
    requires EndsQuietly(emptyIsValid, s, ThenWrite(es, patched.id, columns), round)
    requires Drives(
      emptyIsValid, s, ThenRound(ThenWrite(es, patched.id, columns), round), lists, decode, R.ID_KEY, R.PAIR_KEY)
    requires |pauses| == |lists| && R.Growing(view) && CanRun(emptyIsValid, s, es)
    requires var rows := RowsOf(Run(emptyIsValid, s, es).db.Current(), decode);
      && patched.id in rows && decode(patched.id, columns) == patched
      && patched.base == base == rows[patched.id].base && patched.target == target == rows[patched.id].target
    ensures found == Some(patched)
    ensures var rows := RowsOf(Run(emptyIsValid, s, es).db.Current(), decode);
      otherBase != base || otherTarget != target ==>
        && (other.None? <==> forall i <- rows :: rows[i].base != otherBase || rows[i].target != otherTarget)
        && (forall i <- rows | rows[i].base == otherBase && rows[i].target == otherTarget :: other == Some(rows[i]))
  {
    var cache, start, after := ServeRun(
      emptyIsValid, s, ThenWrite(es, patched.id, columns), round, lists, decode, pauses, view, now, initialised);
    found := cache.GetExchangeRateByCurrPair(base, target);
    other := cache.GetExchangeRateByCurrPair(otherBase, otherTarget);
    WrittenTable(emptyIsValid, s, es, patched.id, columns, round, decode);
    hide Drives, EndsQuietly, RowsOf, Run, Keyed, R.Published, R.ShowsRates, R.PairsInverse, R.FreshRendering;
    FoundAfterPatch(
      RowsOf(Run(emptyIsValid, s, es).db.Current(), decode), patched, cache.byId, otherBase, otherTarget, found, other);
  }

  lemma FoundAfterPatch(
    rows: R.RatesById, patched: ExchangeRate, byId: R.RatesById, otherBase: int, otherTarget: int,
    found: Option<ExchangeRate>, other: Option<ExchangeRate>)
    requires patched.id in rows && byId == rows[patched.id := patched]
    requires patched.base == rows[patched.id].base && patched.target == rows[patched.id].target
    requires forall i <- byId | byId[i].base == patched.base && byId[i].target == patched.target ::
      found == Some(byId[i])
    requires other.None? <==> forall i <- byId :: byId[i].base != otherBase || byId[i].target != otherTarget
    requires forall i <- byId | byId[i].base == otherBase && byId[i].target == otherTarget :: other == Some(byId[i])
    ensures found == Some(patched)
    ensures otherBase != patched.base || otherTarget != patched.target ==>
      && (other.None? <==> forall i <- rows :: rows[i].base != otherBase || rows[i].target != otherTarget)
      && (forall i <- rows | rows[i].base == otherBase && rows[i].target == otherTarget :: other == Some(rows[i]))
  {
    assert byId[patched.id] == patched;
    assert forall i <- rows | i != patched.id :: byId[i] == rows[i];
  }

  /** The currencies cache object, built empty and handed the batches of a run. */
  method RunCurrencies(lists: seq<seq<Currency>>) returns (cache: C.CurrenciesCache)
    ensures fresh(cache) && cache.Valid() && cache.View() == DriveCurrencies(NO_CURRENCIES, lists)
  {
    cache := new C.CurrenciesCache();
    for i := 0 to |lists|
      invariant cache.Valid() && DriveCurrencies(cache.View(), lists[i..]) == DriveCurrencies(NO_CURRENCIES, lists)
    {
      assert lists[i..][0] == lists[i] && lists[i..][1..] == lists[i + 1..];
      cache.UpdateCache(lists[i]);
    }
  }

  /** A POST of a currency end to end.  After any run, a POST of a free code and a quiet round, the
      currencies cache finds the posted row under every spelling of its code, and still finds every
      other row under every spelling of its own. */
  method ServePost(
    ghost emptyIsValid: bool, ghost s: State, ghost es: seq<Event>, ghost posted: Currency,
    ghost columns: seq<string>, ghost round: seq<Event>,
    lists: seq<seq<Currency>>, ghost decode: Decoder<Currency>, code: CodeIndex.Code)
    returns (found: Option<Currency>)
    requires EndsQuietly(emptyIsValid, s, ThenWrite(es, posted.id, columns), round)
    requires Drives(
      emptyIsValid, s, ThenRound(ThenWrite(es, posted.id, columns), round), lists, decode, C.ID_KEY, C.CODE_KEY)
    requires CanRun(emptyIsValid, s, es) && decode(posted.id, columns) == posted
    requires posted.id !in Run(emptyIsValid, s, es).db.Current()
    ensures CodeIndex.SameCode(posted.code, code) ==> found == Some(posted)
    ensures var rows := RowsOf(Run(emptyIsValid, s, es).db.Current(), decode);
      && (forall i <- rows | CodeIndex.SameCode(rows[i].code, code) :: found == Some(rows[i]))
      && (found.None? <==>
            !CodeIndex.SameCode(posted.code, code) && forall i <- rows :: !CodeIndex.SameCode(rows[i].code, code))
  {
    var cache := RunCurrencies(lists);
    found := cache.GetCurrencyByCode(code);
    CurrenciesFollowTable(emptyIsValid, s, ThenWrite(es, posted.id, columns), round, lists, decode);
    WrittenTable(emptyIsValid, s, es, posted.id, columns, round, decode);
    hide Drives, EndsQuietly, RowsOf, Run, C.CodesInverse, C.CodesResolve, CodeIndex.SameCode;
    InRows(Run(emptyIsValid, s, es).db.Current(), posted.id, decode);
    FoundAfterPost(RowsOf(Run(emptyIsValid, s, es).db.Current(), decode), posted, cache.byId, code, found);
  }

  lemma InRows<Row>(table: Table, id: Id, decode: Decoder<Row>)
    ensures id in RowsOf(table, decode) <==> id in table
  {
  }

  lemma FoundAfterPost(
    rows: map<Id, Currency>, posted: Currency, byId: map<Id, Currency>, code: CodeIndex.Code, found: Option<Currency>)
    requires byId == rows[posted.id := posted] && posted.id !in rows
    requires found.None? <==> forall id <- byId :: !CodeIndex.SameCode(byId[id].code, code)
    requires forall id <- byId | CodeIndex.SameCode(byId[id].code, code) :: found == Some(byId[id])
    ensures CodeIndex.SameCode(posted.code, code) ==> found == Some(posted)
    ensures forall i <- rows | CodeIndex.SameCode(rows[i].code, code) :: found == Some(rows[i])
    ensures found.None? <==>
      !CodeIndex.SameCode(posted.code, code) && forall i <- rows :: !CodeIndex.SameCode(rows[i].code, code)
  {
    hide CodeIndex.SameCode;
    assert byId[posted.id] == posted;
    assert forall i <- rows :: i in byId && byId[i] == rows[i];
  }
}
