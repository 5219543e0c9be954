/** The exchange-rates cache: two lookup containers, a private copy by id, the published list, and
    the flag that decides when the list may be published again without rendering it. */
module ExchangeRatesCaches {
  import opened Containers
  import opened Models
  import opened Options
  import opened UniqueIndexes

  /** One entry of the published list. */
  datatype Entry = Entry(id: int, base: Currency, target: Currency, rate: string)

  type RatesById = map<int, ExchangeRate>
  type RatesByPair = map<(int, int), ExchangeRate>
  type CurrencyMap = map<int, Currency>

  datatype Rates = Rates(byId: RatesById, byPair: RatesByPair, byIdStd: RatesById)

  const ID_KEY: ExchangeRate -> int := (r: ExchangeRate) => r.id
  const PAIR_KEY: ExchangeRate -> (int, int) := (r: ExchangeRate) => r.Pair()

  function Assign(c: Rates, rows: seq<ExchangeRate>): Rates {
    Rates(AssignAll(c.byId, rows, ID_KEY), AssignAll(c.byPair, rows, PAIR_KEY), AssignAll(c.byIdStd, rows, ID_KEY))
  }

  const NO_RATES: Rates := Rates(map[], map[], map[])

  function Insert(c: Rates, rows: seq<ExchangeRate>): Rates {
    Rates(InsertAll(c.byId, rows, ID_KEY), InsertAll(c.byPair, rows, PAIR_KEY), InsertAll(c.byIdStd, rows, ID_KEY))
  }

  lemma AssignNothing(c: Rates)
    ensures Assign(c, []) == c
  {
  }

  // ---------------------------------------------------------------- rendering

  predicate Resolves(r: ExchangeRate, currencies: CurrencyMap) {
    r.base in currencies && r.target in currencies
  }

  function MakeEntry(r: ExchangeRate, currencies: CurrencyMap): Entry
    requires Resolves(r, currencies)
  {
    Entry(r.id, currencies[r.base], currencies[r.target], r.rate)
  }

  predicate AllResolve(rates: RatesById, currencies: CurrencyMap) {
    forall id <- rates :: Resolves(rates[id], currencies)
  }

  /** `e` is the entry of one of the rates: its base and its target currency, in their places, and its
      rate. */
  ghost predicate IsEntry(e: Entry, rates: RatesById, currencies: CurrencyMap) {
    && e.id in rates
    && rates[e.id].base in currencies && e.base == currencies[rates[e.id].base]
    && rates[e.id].target in currencies && e.target == currencies[rates[e.id].target]
    && e.rate == rates[e.id].rate
  }

  /** `list` holds the entry of every rate that resolves, once each, and nothing else. */
  ghost predicate Enumerates(list: seq<Entry>, rates: RatesById, currencies: CurrencyMap) {
    && (forall i, j | 0 <= i < j < |list| :: list[i].id != list[j].id)
    && (forall e <- list :: IsEntry(e, rates, currencies))
    && (forall id <- rates | Resolves(rates[id], currencies) :: MakeEntry(rates[id], currencies) in list)
  }

  /** A rendering from scratch: empty text for no rates, `null` when none resolves. */
  ghost predicate FreshRendering(json: Rendering<Entry>, rates: RatesById, currencies: CurrencyMap) {
    if rates == map[] then json == EmptyText
    else if forall id <- rates :: !Resolves(rates[id], currencies) then json == NullText
    else json.Listed? && Enumerates(json.entries, rates, currencies)
  }

  /** Currencies are only ever added.  This is the currencies cache as the rates cache reads it:
      `view(t)` is what the read at moment `t` sees while the other cache may be updating. */
  ghost predicate Growing(view: nat -> CurrencyMap) {
    forall s: nat, t: nat | s <= t :: Submap(view(s), view(t))
  }

  /** Rendered while the currencies grew from `older` to `newer`: nothing that resolved at the
      start is missing, and everything listed is right at the end. */
  ghost predicate RenderedBetween(json: Rendering<Entry>, rates: RatesById, older: CurrencyMap, newer: CurrencyMap) {
    && (json.NullText? ==> rates != map[] && forall id <- rates :: !Resolves(rates[id], older))
    && (json.EmptyText? ==> rates == map[])
    && (json.Listed? ==>
          && json.entries != [] && rates != map[]
          && (forall i, j | 0 <= i < j < |json.entries| :: json.entries[i].id != json.entries[j].id)
          && (forall e <- json.entries :: IsEntry(e, rates, newer))
          && (forall id <- rates | Resolves(rates[id], older) :: MakeEntry(rates[id], older) in json.entries))
  }

  lemma GrowsTo(view: nat -> CurrencyMap, s: nat, t: nat)
    requires Growing(view) && s <= t
    ensures Submap(view(s), view(t))
  {
  }

  lemma QuietRenderingIsFresh(json: Rendering<Entry>, rates: RatesById, currencies: CurrencyMap)
    requires RenderedBetween(json, rates, currencies, currencies)
    ensures FreshRendering(json, rates, currencies)
  {
    if json.Listed? {
      assert json.entries[0] in json.entries;
    }
  }

  /** The rendering loop with the rates in `todo` still to come, the currencies having grown from
      `older` to `newer`. */
  ghost predicate InProgress(
    list: seq<Entry>, skipped: bool, todo: set<int>, rates: RatesById, older: CurrencyMap, newer: CurrencyMap)
  {
    && todo <= rates.Keys
    && (forall i, j | 0 <= i < j < |list| :: list[i].id != list[j].id)
    && (forall e <- list :: e.id !in todo && IsEntry(e, rates, newer))
    && (forall id <- rates | id !in todo && Resolves(rates[id], older) :: MakeEntry(rates[id], older) in list)
    && (!skipped ==> forall id <- rates | id !in todo ::
          Resolves(rates[id], newer) && MakeEntry(rates[id], newer) in list)
    && (skipped ==> !AllResolve(rates, older))
  }

  lemma InProgressIds(
    list: seq<Entry>, skipped: bool, todo: set<int>, rates: RatesById, older: CurrencyMap, newer: CurrencyMap)
    requires InProgress(list, skipped, todo, rates, older, newer)
    ensures todo <= rates.Keys
  {
  }

  /** What is done stays right while currencies are added. */
  lemma InProgressGrows(
    list: seq<Entry>, skipped: bool, todo: set<int>, rates: RatesById,
    older: CurrencyMap, mid: CurrencyMap, newer: CurrencyMap)
    requires InProgress(list, skipped, todo, rates, older, mid) && Submap(mid, newer)
    ensures InProgress(list, skipped, todo, rates, older, newer)
  {
    hide IsEntry, MakeEntry, Resolves, Submap;
    forall e <- list ensures IsEntry(e, rates, newer) {
      EntryStays(e, rates, mid, newer);
    }
    if !skipped {
      forall id <- rates | id !in todo ensures Resolves(rates[id], newer) && MakeEntry(rates[id], newer) in list {
        RateStays(rates[id], mid, newer);
      }
    }
  }

  lemma EntryStays(e: Entry, rates: RatesById, older: CurrencyMap, newer: CurrencyMap)
    requires IsEntry(e, rates, older) && Submap(older, newer)
    ensures IsEntry(e, rates, newer)
  {
  }

  lemma RateStays(r: ExchangeRate, older: CurrencyMap, newer: CurrencyMap)
    requires Resolves(r, older) && Submap(older, newer)
    ensures Resolves(r, newer) && MakeEntry(r, newer) == MakeEntry(r, older)
  {
  }

  lemma SkipRate(
    list: seq<Entry>, skipped: bool, todo: set<int>, id: int, rates: RatesById,
    older: CurrencyMap, mid: CurrencyMap, newer: CurrencyMap)
    requires InProgress(list, skipped, todo, rates, older, mid) && Submap(mid, newer)
    requires id in todo && !Resolves(rates[id], older)
    ensures InProgress(list, true, todo - {id}, rates, older, newer)
  {
    InProgressGrows(list, skipped, todo, rates, older, mid, newer);
  }

  lemma PushEntry(
    list: seq<Entry>, skipped: bool, todo: set<int>, id: int, entry: Entry, rates: RatesById,
    older: CurrencyMap, mid: CurrencyMap, newer: CurrencyMap)
    requires InProgress(list, skipped, todo, rates, older, mid) && Submap(mid, newer) && Submap(older, newer)
    requires id in todo && Resolves(rates[id], newer)
    requires entry == MakeEntry(rates[id], newer) && entry.id == id
    ensures InProgress(list + [entry], skipped, todo - {id}, rates, older, newer)
  {
    InProgressGrows(list, skipped, todo, rates, older, mid, newer);
    EntryOf(entry, id, rates, older, newer);
    hide IsEntry, MakeEntry, Resolves, Submap, AllResolve;
    var longer := list + [entry];
    assert entry in longer && forall e :: e in longer <==> e in list || e == entry;
    PushDistinct(list, entry, todo);
  }

  lemma EntryOf(entry: Entry, id: int, rates: RatesById, older: CurrencyMap, newer: CurrencyMap)
    requires id in rates && Resolves(rates[id], newer) && entry == MakeEntry(rates[id], newer) && entry.id == id
    requires Submap(older, newer)
    ensures IsEntry(entry, rates, newer)
    ensures Resolves(rates[id], older) ==> MakeEntry(rates[id], older) == entry
  {
  }

  lemma PushDistinct(list: seq<Entry>, entry: Entry, todo: set<int>)
    requires forall i, j | 0 <= i < j < |list| :: list[i].id != list[j].id
    requires entry.id in todo && forall e <- list :: e.id !in todo
    ensures var longer := list + [entry]; forall i, j | 0 <= i < j < |longer| :: longer[i].id != longer[j].id
  {
    var longer := list + [entry];
    forall i, j | 0 <= i < j < |longer| ensures longer[i].id != longer[j].id {
      assert list[i] in list;
    }
  }

  lemma FinishList(list: seq<Entry>, skipped: bool, rates: RatesById, older: CurrencyMap, newer: CurrencyMap)
    requires rates != map[] && InProgress(list, skipped, {}, rates, older, newer)
    ensures var json := if list == [] then NullText else Listed(list);
      && RenderedBetween(json, rates, older, newer)
      && (!skipped ==> AllResolve(rates, newer) && FreshRendering(json, rates, newer))
      && (skipped ==> !AllResolve(rates, older))
  {
    var id := Inhabited(rates.Keys);
  }

  /** What the published list and the flag are worth, against the currencies known so far: without
      the flag every rate resolves and the list is exact. */
  ghost predicate Exact(json: Rendering<Entry>, skipped: bool, rates: RatesById, currencies: CurrencyMap) {
    && (rates == map[] ==> json == EmptyText)
    && (rates != map[] && !skipped ==> AllResolve(rates, currencies) && FreshRendering(json, rates, currencies))
  }

  /** An exact list stays exact while currencies are added: that is why it may be reused. */
  lemma ExactSurvivesGrowth(
    json: Rendering<Entry>, skipped: bool, rates: RatesById, older: CurrencyMap, newer: CurrencyMap)
    requires Exact(json, skipped, rates, older) && Submap(older, newer)
    ensures Exact(json, skipped, rates, newer)
  {
    if rates != map[] && !skipped {
      var id := Inhabited(rates.Keys);
      assert Resolves(rates[id], older) && json.Listed?;
      forall id <- rates ensures Resolves(rates[id], newer) {
        assert Resolves(rates[id], older);
      }
      EnumeratesGrows(json.entries, rates, older, newer);
    }
  }

  lemma EnumeratesGrows(list: seq<Entry>, rates: RatesById, older: CurrencyMap, newer: CurrencyMap)
    requires Enumerates(list, rates, older) && AllResolve(rates, older) && Submap(older, newer)
    ensures Enumerates(list, rates, newer)
  {
    hide IsEntry, MakeEntry, Resolves, Submap;
    forall e <- list ensures IsEntry(e, rates, newer) {
      EntryStays(e, rates, older, newer);
    }
    forall id <- rates ensures Resolves(rates[id], newer) && MakeEntry(rates[id], newer) in list {
      RateStays(rates[id], older, newer);
    }
  }

  /** What every update leaves when the currencies grew from `older` to `newer` meanwhile: the list
      and the flag are exact as far as `Exact` says; with the flag, the list is a rendering taken in
      between; and if nothing changed meanwhile, the list is a fresh rendering and the flag is true
      exactly when some rate did not resolve. */
  ghost predicate Published(
    json: Rendering<Entry>, skipped: bool, rates: RatesById, older: CurrencyMap, newer: CurrencyMap)
  {
    && Exact(json, skipped, rates, newer)
    && (rates != map[] && skipped ==> RenderedBetween(json, rates, older, newer) && !AllResolve(rates, older))
    && (Submap(newer, older) ==>
          && FreshRendering(json, rates, newer)
          && (rates != map[] ==> (skipped <==> !AllResolve(rates, newer))))
  }

  /** What is published, field by field, when the currencies grew from `older` to `newer` meanwhile.
      Every entry shows one rate, under its id, with the currencies that the rate names, base as base
      and target as target; each rate whose two currencies were known at the start has one; and the
      flag tells whether some rate's currency was missing. */
  ghost predicate ShowsRates(
    json: Rendering<Entry>, skipped: bool, rates: RatesById, older: CurrencyMap, newer: CurrencyMap)
  {
    && (json.EmptyText? <==> rates == map[])
    && (json.NullText? ==> forall id <- rates :: rates[id].base !in older || rates[id].target !in older)
    && (json.Listed? ==>
          && (forall i, j | 0 <= i < j < |json.entries| :: json.entries[i].id != json.entries[j].id)
          && (forall e <- json.entries :: IsEntry(e, rates, newer))
          && (forall id <- rates | rates[id].base in older && rates[id].target in older :: HasEntry(json.entries, id)))
    && (rates != map[] && !skipped ==> forall id <- rates :: rates[id].base in newer && rates[id].target in newer)
    && (rates != map[] && skipped ==> exists id <- rates :: rates[id].base !in older || rates[id].target !in older)
  }

  ghost predicate HasEntry(list: seq<Entry>, id: int) {
    exists i | 0 <= i < |list| :: list[i].id == id
  }

  lemma RenderedShows(json: Rendering<Entry>, skipped: bool, rates: RatesById, older: CurrencyMap, newer: CurrencyMap)
    requires rates != map[] && Keyed(rates, ID_KEY) && RenderedBetween(json, rates, older, newer)
    requires if skipped then !AllResolve(rates, older) else AllResolve(rates, newer)
    ensures ShowsRates(json, skipped, rates, older, newer)
  {
    if json.Listed? {
      forall id <- rates | rates[id].base in older && rates[id].target in older ensures HasEntry(json.entries, id) {
        var e := MakeEntry(rates[id], older);
        assert Resolves(rates[id], older) && e in json.entries;
        var i :| 0 <= i < |json.entries| && json.entries[i] == e;
        assert ID_KEY(rates[id]) == id;
      }
    }
  }

  lemma PublishedShows(
    json: Rendering<Entry>, skipped: bool, rates: RatesById, older: CurrencyMap, newer: CurrencyMap)
    requires Keyed(rates, ID_KEY) && Submap(older, newer) && Published(json, skipped, rates, older, newer)
    ensures ShowsRates(json, skipped, rates, older, newer)
  {
    if rates != map[] {
      if !skipped {
        FreshIsBetween(json, rates, older, newer);
      }
      hide ShowsRates, RenderedBetween;
      RenderedShows(json, skipped, rates, older, newer);
    }
  }

  lemma QuietPublished(json: Rendering<Entry>, skipped: bool, rates: RatesById, currencies: CurrencyMap)
    requires Published(json, skipped, rates, currencies, currencies)
    ensures FreshRendering(json, rates, currencies)
    ensures rates != map[] ==> (skipped <==> !AllResolve(rates, currencies))
  {
    hide FreshRendering, RenderedBetween, Exact, AllResolve;
  }

  lemma FreshIsBetween(json: Rendering<Entry>, rates: RatesById, older: CurrencyMap, newer: CurrencyMap)
    requires rates != map[] && AllResolve(rates, newer) && FreshRendering(json, rates, newer) && Submap(older, newer)
    ensures RenderedBetween(json, rates, older, newer)
  {
    var id := Inhabited(rates.Keys);
    assert Resolves(rates[id], newer) && json.Listed?;
    forall id <- rates | Resolves(rates[id], older) ensures MakeEntry(rates[id], older) in json.entries {
      assert MakeEntry(rates[id], newer) in json.entries;
    }
  }

  lemma SubmapBoth(older: CurrencyMap, newer: CurrencyMap)
    requires Submap(older, newer) && Submap(newer, older)
    ensures older == newer
  {
    forall id: int
      ensures id in older.Keys <==> id in newer.Keys
      ensures id in older ==> older[id] == newer[id]
    {
    }
    assert older.Keys == newer.Keys;
  }

  lemma PublishedAgain(json: Rendering<Entry>, skipped: bool, rates: RatesById, older: CurrencyMap, newer: CurrencyMap)
    requires Submap(older, newer) && Exact(json, skipped, rates, older) && !skipped
    ensures Published(json, skipped, rates, older, newer)
  {
    ExactSurvivesGrowth(json, skipped, rates, older, newer);
  }

  lemma PublishedAnew(json: Rendering<Entry>, skipped: bool, rates: RatesById, older: CurrencyMap, newer: CurrencyMap)
    requires Submap(older, newer)
    requires rates == map[] ==> json == EmptyText
    requires rates != map[] ==>
      && RenderedBetween(json, rates, older, newer)
      && (!skipped ==> AllResolve(rates, newer) && FreshRendering(json, rates, newer))
      && (skipped ==> !AllResolve(rates, older))
    ensures Published(json, skipped, rates, older, newer)
  {
    if Submap(newer, older) {
      SubmapBoth(older, newer);
      if rates != map[] {
        QuietRenderingIsFresh(json, rates, newer);
      }
    }
  }

  class ExchangeRatesCache {
    var byId: RatesById
    var byPair: RatesByPair
    var byIdStd: RatesById
    var all: Rendering<Entry>
    var hasSkipped: bool

    ghost function View(): Rates
      reads this
    {
      Rates(byId, byPair, byIdStd)
    }

    /** The private copy agrees with the lookup container, and what is published is exact against
        the currencies known so far. */
    ghost predicate Valid(currencies: CurrencyMap)
      reads this
    {
      byId == byIdStd && Keyed(byIdStd, ID_KEY) && Exact(all, hasSkipped, byIdStd, currencies)
    }

    constructor ()
      ensures View() == NO_RATES && forall currencies :: Valid(currencies)
    {
      byId, byPair, byIdStd, all, hasSkipped := map[], map[], map[], EmptyText, false;
    }

    /** Renders unless the old list may be reused.  Two reads of the currencies cache per rate, at
        growing moments from `now` on; `after` is the moment after the last. */
    method AllExchangeRatesToJson(updated: bool, view: nat -> CurrencyMap, now: nat)
      returns (json: Rendering<Entry>, after: nat)
      requires Keyed(byIdStd, ID_KEY) && Growing(view)
      modifies this`hasSkipped
      ensures now <= after
      ensures byIdStd == map[] ==> json == EmptyText && hasSkipped == old(hasSkipped)
      ensures byIdStd != map[] && !old(hasSkipped) && !updated ==> json == all && hasSkipped == old(hasSkipped)
      ensures byIdStd != map[] && (old(hasSkipped) || updated) ==>
        && RenderedBetween(json, byIdStd, view(now), view(after))
        && ShowsRates(json, hasSkipped, byIdStd, view(now), view(after))
        && (!hasSkipped ==> AllResolve(byIdStd, view(after)) && FreshRendering(json, byIdStd, view(after)))
        && (hasSkipped ==> !AllResolve(byIdStd, view(now)))
    {
      after := now;
      if |byIdStd| == 0 {
        return EmptyText, now;
      }
      if !hasSkipped && !updated {
        return all, now;
      }
      hasSkipped := false;
      var list: seq<Entry>, todo: set<int> := [], byIdStd.Keys;
      while todo != {}
        invariant now <= after && InProgress(list, hasSkipped, todo, byIdStd, view(now), view(after))
        decreases todo
      {
        hide InProgress, Growing;
        ghost var some := Inhabited(todo);
        ghost var start := after;
        var id :| id in todo;
        InProgressIds(list, hasSkipped, todo, byIdStd, view(now), view(after));
        todo := todo - {id};
        var r := byIdStd[id];
        var base := view(after);
        after := after + 1;
        GrowsTo(view, now, start);
        GrowsTo(view, start, after);
        GrowsTo(view, now, after);
        if r.base !in base {
          SkipRate(list, hasSkipped, todo + {id}, id, byIdStd, view(now), view(start), view(after));
          hasSkipped := true;
          continue;
        }
        var target := view(after);
        if r.target !in target {
          SkipRate(list, hasSkipped, todo + {id}, id, byIdStd, view(now), view(start), view(after));
          hasSkipped := true;
          continue;
        }
        var entry := Entry(r.id, base[r.base], target[r.target], r.rate);
        PushEntry(list, hasSkipped, todo + {id}, id, entry, byIdStd, view(now), view(start), view(after));
        list := list + [entry];
      }
      FinishList(list, hasSkipped, byIdStd, view(now), view(after));
      json := if list == [] then NullText else Listed(list);
      RenderedShows(json, hasSkipped, byIdStd, view(now), view(after));
    }

    /** Waits first until the currencies cache is initialised, which it is from moment `initialised`
        on; everything published is as of then or later. */
    method UpdateCache(rows: seq<ExchangeRate>, view: nat -> CurrencyMap, now: nat, initialised: nat)
      returns (start: nat, after: nat)
      requires Growing(view) && Valid(view(now))
      modifies this
      ensures start == (if now < initialised then initialised else now)
      ensures start <= after && forall later | after <= later :: Valid(view(later))
      ensures View() == Assign(old(View()), rows)
      ensures Published(all, hasSkipped, byIdStd, view(start), view(after))
      ensures ShowsRates(all, hasSkipped, byIdStd, view(start), view(after))
    {
      hide Published, ShowsRates, Exact, FreshRendering, RenderedBetween, AllResolve, Growing, Submap, AssignAll, Keyed;
      start := WaitForInit(now, initialised);
      GrowsTo(view, now, start);
      ExactSurvivesGrowth(all, hasSkipped, byIdStd, view(now), view(start));
      AssignNothing(View());
      if rows == [] {
        all, after := AllExchangeRatesToJson(false, view, start);
        GrowsTo(view, start, after);
        if old(hasSkipped) {
          PublishedAnew(all, hasSkipped, byIdStd, view(start), view(after));
        } else {
          PublishedAgain(all, hasSkipped, byIdStd, view(start), view(after));
        }
        StaysValid(view, start, after);
        PublishedShows(all, hasSkipped, byIdStd, view(start), view(after));
        return;
      }
      assert rows[..0] == [];
      for i := 0 to |rows|
        invariant View() == Assign(old(View()), rows[..i])
        invariant all == old(all) && hasSkipped == old(hasSkipped)
      {
        assert rows[..i + 1] == rows[..i] + [rows[i]];
        AssignAllSnoc(old(byId), rows[..i], rows[i], ID_KEY);
        AssignAllSnoc(old(byPair), rows[..i], rows[i], PAIR_KEY);
        AssignAllSnoc(old(byIdStd), rows[..i], rows[i], ID_KEY);
        var row := rows[i];
        byId := byId[row.id := row];
        byPair := byPair[(row.base, row.target) := row];
        byIdStd := byIdStd[row.id := row];
      }
      assert rows[..|rows|] == rows;
      LoadsKeepKeyed(old(byIdStd), rows, ID_KEY);
      all, after := AllExchangeRatesToJson(true, view, start);
      GrowsTo(view, start, after);
      PublishedAnew(all, hasSkipped, byIdStd, view(start), view(after));
      StaysValid(view, start, after);
      PublishedShows(all, hasSkipped, byIdStd, view(start), view(after));
    }

    /** What `WaitForInit` of the currencies cache does to the time. */
    method WaitForInit(now: nat, initialised: nat) returns (later: nat)
      ensures later == if now < initialised then initialised else now
    {
      later := if now < initialised then initialised else now;
    }

    method FullUpdateCache(rows: seq<ExchangeRate>, view: nat -> CurrencyMap, now: nat) returns (after: nat)
      requires Growing(view)
      modifies this
      ensures now <= after && forall later | after <= later :: Valid(view(later))
      ensures View() == Insert(NO_RATES, rows)
      ensures Published(all, hasSkipped, byIdStd, view(now), view(after))
      ensures ShowsRates(all, hasSkipped, byIdStd, view(now), view(after))
    {
      hide Published, ShowsRates, Exact, FreshRendering, RenderedBetween, AllResolve, Growing, Submap;
      var newById: RatesById, newByPair: RatesByPair := map[], map[];
      byIdStd := map[];
      for i := 0 to |rows|
        invariant Rates(newById, newByPair, byIdStd) == Insert(NO_RATES, rows[..i])
      {
        assert rows[..i + 1] == rows[..i] + [rows[i]];
        InsertAllSnoc(map[], rows[..i], rows[i], ID_KEY);
        InsertAllSnoc(map[], rows[..i], rows[i], PAIR_KEY);
        var row := rows[i];
        if row.id !in newById { newById := newById[row.id := row]; }
        if (row.base, row.target) !in newByPair { newByPair := newByPair[(row.base, row.target) := row]; }
        if row.id !in byIdStd { byIdStd := byIdStd[row.id := row]; }
      }
      assert rows[..|rows|] == rows;
      LoadsKeepKeyed(map[], rows, ID_KEY);
      byId, byPair := newById, newByPair;
      all, after := AllExchangeRatesToJson(true, view, now);
      GrowsTo(view, now, after);
      PublishedAnew(all, hasSkipped, byIdStd, view(now), view(after));
      StaysValid(view, now, after);
      PublishedShows(all, hasSkipped, byIdStd, view(now), view(after));
    }

    lemma ValidWhileGrowing(view: nat -> CurrencyMap, now: nat)
      requires Growing(view) && Valid(view(now))
      ensures forall later | now <= later :: Valid(view(later))
    {
      forall later | now <= later ensures Valid(view(later)) {
        GrowsTo(view, now, later);
        ExactSurvivesGrowth(all, hasSkipped, byIdStd, view(now), view(later));
      }
    }

    /** Published now, exact whenever more currencies are known. */
    lemma StaysValid(view: nat -> CurrencyMap, now: nat, after: nat)
      requires Growing(view) && byId == byIdStd && Keyed(byIdStd, ID_KEY)
      requires Published(all, hasSkipped, byIdStd, view(now), view(after))
      ensures forall later | after <= later :: Valid(view(later))
    {
      forall later | after <= later ensures Valid(view(later)) {
        assert Submap(view(after), view(later));
        ExactSurvivesGrowth(all, hasSkipped, byIdStd, view(after), view(later));
      }
    }

    /** With the pair index inverse to the id index, this finds the one rate of the pair. */
    method GetExchangeRateByCurrPair(base: int, target: int) returns (found: Option<ExchangeRate>)
      ensures found == if (base, target) in byPair then Some(byPair[(base, target)]) else None
      ensures PairsInverse(View()) ==>
        && (found.None? <==> forall id <- byId :: byId[id].base != base || byId[id].target != target)
        && (forall id <- byId | byId[id].base == base && byId[id].target == target :: found == Some(byId[id]))
        && (found.Some? ==> found.value.id in byId && byId[found.value.id] == found.value)
    {
      found := if (base, target) in byPair then Some(byPair[(base, target)]) else None;
      if PairsInverse(View()) {
        assert forall id <- byId :: PAIR_KEY(byId[id]) == (byId[id].base, byId[id].target);
        assert found.Some? ==> ID_KEY(byPair[(base, target)]) == found.value.id;
      }
    }
  }

  // ---------------------------------------------------------------- the currency-pair index

  /** The two by-id containers agree, and the pair index is exactly the inverse of the id index. */
  ghost predicate PairsInverse(c: Rates) {
    c.byId == c.byIdStd && Inverse(c.byId, c.byPair, ID_KEY, PAIR_KEY)
  }

  /** Loading one row keeps the index inverse exactly when the row's id had this pair before, if any,
      and the row's pair had this id before, if any. */
  lemma AssignOneKeepsInverseIff(c: Rates, row: ExchangeRate)
    requires PairsInverse(c)
    ensures PairsInverse(Assign(c, [row])) <==>
      && (row.id in c.byId ==> c.byId[row.id].Pair() == row.Pair())
      && (row.Pair() in c.byPair ==> c.byPair[row.Pair()].id == row.id)
  {
    AssignAllSnoc(c.byId, [], row, ID_KEY);
    AssignAllSnoc(c.byPair, [], row, PAIR_KEY);
    assert [] + [row] == [row];
    PutKeepsInverseIff(c.byId, c.byPair, ID_KEY, PAIR_KEY, row);
  }

  // ---------------------------------------------------------------- reachable tables

  /** The service's writes to the table: POST adds a rate under a new id unless the pair is there,
      PATCH sets the rate of the row with the given pair. */
  datatype Write =
    | PostRate(id: int, base: int, target: int, rate: string)
    | PatchRate(base: int, target: int, rate: string)

  function WriteTable(table: RatesById, w: Write): RatesById {
    match w
    case PostRate(id, base, target, rate) =>
      if id in table || exists i <- table :: table[i].Pair() == (base, target) then table
      else table[id := ExchangeRate(id, base, target, rate)]
    case PatchRate(base, target, rate) =>
      map id <- table :: if table[id].Pair() == (base, target) then table[id].(rate := rate) else table[id]
  }

  /** What the writes do, field by field.  A POST whose id and pair are both free adds one row with the
      four fields posted, and any other POST changes nothing; a PATCH sets the rate of the rows with
      the pair, and nothing else. */
  lemma WriteTableMeans(table: RatesById, w: Write, i: int)
    ensures var after := WriteTable(table, w);
      && (w.PostRate? ==>
            var free := w.id !in table && forall j <- table :: table[j].base != w.base || table[j].target != w.target;
            && (i in after <==> i in table || (free && i == w.id))
            && (i in table ==> after[i] == table[i])
            && (free ==>
                  && after[w.id].id == w.id && after[w.id].base == w.base
                  && after[w.id].target == w.target && after[w.id].rate == w.rate))
      && (w.PatchRate? ==>
            && (i in after <==> i in table)
            && (i in table ==>
                  && after[i].id == table[i].id && after[i].base == table[i].base && after[i].target == table[i].target
                  && after[i].rate ==
                     if table[i].base == w.base && table[i].target == w.target then w.rate else table[i].rate))
  {
  }

  /** The tables passed through, the starting one first. */
  function Tables(table: RatesById, writes: seq<Write>): (tables: seq<RatesById>)
    ensures |tables| == |writes| + 1 && tables[0] == table
    decreases |writes|
  {
    [table] + if writes == [] then [] else Tables(WriteTable(table, writes[0]), writes[1..])
  }

  ghost predicate UniquePairs(table: RatesById) {
    Keyed(table, ID_KEY) && forall i, j | i in table && j in table && table[i].Pair() == table[j].Pair() :: i == j
  }

  function PairsOf(table: RatesById): map<int, (int, int)> {
    map id <- table :: table[id].Pair()
  }

  lemma WriteKeepsPairs(table: RatesById, w: Write)
    requires UniquePairs(table)
    ensures UniquePairs(WriteTable(table, w)) && Keyed(table, ID_KEY)
    ensures MapConforms(table, PairsOf(WriteTable(table, w)), PAIR_KEY)
  {
    var next := WriteTable(table, w);
    forall i, j | i in next && j in next && next[i].Pair() == next[j].Pair() ensures i == j {
      assert i in table ==> next[i].Pair() == table[i].Pair();
      assert j in table ==> next[j].Pair() == table[j].Pair();
    }
  }

  lemma PairsNow(table: RatesById)
    requires UniquePairs(table)
    ensures Injective(PairsOf(table)) && MapConforms(table, PairsOf(table), PAIR_KEY) && Keyed(table, ID_KEY)
  {
  }

  /** Every id ever in the table keeps its pair for good, and no two ids share one. */
  lemma {:induction false} PairsAreForGood(table: RatesById, writes: seq<Write>)
    requires UniquePairs(table)
    ensures var tables := Tables(table, writes); var pairs := PairsOf(tables[|writes|]);
      Injective(pairs) && forall t <- tables :: MapConforms(t, pairs, PAIR_KEY) && Keyed(t, ID_KEY)
    decreases |writes|
  {
    hide WriteTable, UniquePairs, Injective, PairsOf, MapConforms, Keyed;
    if writes == [] {
      PairsNow(table);
      assert Tables(table, writes) == [table];
    } else {
      var next := WriteTable(table, writes[0]);
      WriteKeepsPairs(table, writes[0]);
      PairsAreForGood(next, writes[1..]);
      var rest := Tables(next, writes[1..]);
      assert rest[0] in rest;
      ConformsThrough(table, next, PairsOf(rest[|writes| - 1]));
      assert Tables(table, writes) == [table] + rest;
    }
  }

  lemma ConformsThrough(table: RatesById, next: RatesById, pairs: map<int, (int, int)>)
    requires MapConforms(table, PairsOf(next), PAIR_KEY) && MapConforms(next, pairs, PAIR_KEY)
    ensures MapConforms(table, pairs, PAIR_KEY)
  {
  }

  /** A call on the cache with rows read from some state of the table. */
  datatype Call = Update(rows: seq<ExchangeRate>) | FullUpdate(rows: seq<ExchangeRate>)

  ghost predicate ReadFrom(rows: seq<ExchangeRate>, table: RatesById) {
    forall r <- rows :: r.id in table && table[r.id] == r
  }

  function RunCalls(c: Rates, calls: seq<Call>): Rates
    decreases |calls|
  {
    if calls == [] then c
    else
      var next := match calls[0] case Update(rows) => Assign(c, rows) case FullUpdate(rows) => Insert(NO_RATES, rows);
      RunCalls(next, calls[1..])
  }

  /** After any sequence of full and incremental updates, each on rows of any state the table passes
      through under the service's writes, the by-id containers agree and the pair index is exactly
      their inverse. */
  lemma PairIndexIsInverse(table: RatesById, writes: seq<Write>, calls: seq<Call>)
    requires UniquePairs(table)
    requires forall call <- calls :: exists t <- Tables(table, writes) :: ReadFrom(call.rows, t)
    ensures PairsInverse(RunCalls(NO_RATES, calls))
  {
    PairsAreForGood(table, writes);
    var pairs := PairsOf(Tables(table, writes)[|writes|]);
    forall call <- calls ensures Conforms(call.rows, pairs, ID_KEY, PAIR_KEY) {
      var t :| t in Tables(table, writes) && ReadFrom(call.rows, t);
    }
    CallsKeepInverse(NO_RATES, calls, pairs);
  }

  lemma {:induction false} CallsKeepInverse(c: Rates, calls: seq<Call>, pairs: map<int, (int, int)>)
    requires Injective(pairs) && PairsInverse(c) && MapConforms(c.byId, pairs, PAIR_KEY)
    requires forall call <- calls :: Conforms(call.rows, pairs, ID_KEY, PAIR_KEY)
    ensures PairsInverse(RunCalls(c, calls))
    decreases |calls|
  {
    if calls != [] {
      assert calls[0] in calls && forall call <- calls[1..] :: call in calls;
      hide Injective, Conforms, Inverse, AssignAll, InsertAll;
      match calls[0] {
        case Update(rows) =>
          AssignKeepsInverse(c.byId, c.byPair, rows, pairs, ID_KEY, PAIR_KEY);
          CallsKeepInverse(Assign(c, rows), calls[1..], pairs);
        case FullUpdate(rows) =>
          NothingIsInverse(pairs);
          InsertKeepsInverse(map[], map[], rows, pairs, ID_KEY, PAIR_KEY);
          CallsKeepInverse(Insert(NO_RATES, rows), calls[1..], pairs);
      }
    }
  }

  lemma NothingIsInverse(pairs: map<int, (int, int)>)
    ensures PairsInverse(NO_RATES) && MapConforms(NO_RATES.byId, pairs, PAIR_KEY)
  {
  }
}
