/** The currencies cache: two lookup containers, a private copy by id, and the rendered list. */
module CurrenciesCaches {
  import opened CodeIndex
  import opened Containers
  import opened Models
  import opened Options
  import opened UniqueIndexes

  /** The containers; the by-code index appears as the plain map it represents, keyed by
      upper-cased code. */
  datatype Currencies = Currencies(byId: map<int, Currency>, byCode: map<Code, Currency>, byIdStd: map<int, Currency>)

  const ID_KEY: Currency -> int := (c: Currency) => c.id
  const CODE_KEY: Currency -> Code := (c: Currency) => Upper(c.code)

  function Assign(c: Currencies, rows: seq<Currency>): Currencies {
    Currencies(AssignAll(c.byId, rows, ID_KEY), AssignAll(c.byCode, rows, CODE_KEY), AssignAll(c.byIdStd, rows, ID_KEY))
  }

  function Load(rows: seq<Currency>): Currencies {
    Currencies(InsertAll(map[], rows, ID_KEY), InsertAll(map[], rows, CODE_KEY), InsertAll(map[], rows, ID_KEY))
  }

  /** `list` holds every row of `m` once, in some order. */
  ghost predicate Enumerates(list: seq<Currency>, m: map<int, Currency>) {
    && (forall i, j | 0 <= i < j < |list| :: list[i].id != list[j].id)
    && (forall c <- list :: c.id in m && m[c.id] == c)
    && (forall id <- m :: m[id] in list)
  }

  /** The rendering is that of the whole map. */
  ghost predicate Renders(r: Rendering<Currency>, m: map<int, Currency>) {
    if m == map[] then r == EmptyText else r.Listed? && Enumerates(r.entries, m)
  }

  /** Between updates: the by-id containers agree, and the by-code one holds exactly their rows, each
      under its upper-cased code. */
  ghost predicate CodesInverse(c: Currencies) {
    c.byId == c.byIdStd && Inverse(c.byId, c.byCode, ID_KEY, CODE_KEY)
  }

  /** What is found by code is found by id as well, under the same code. */
  ghost predicate CodesResolve(c: Currencies) {
    forall u <- c.byCode ::
      c.byCode[u].id in c.byId && Upper(c.byCode[u].code) == u && Upper(c.byId[c.byCode[u].id].code) == u
  }

  /** A lookup by code, in terms of spellings. */
  lemma FoundIsSpelled(c: Currencies, code: Code)
    ensures CodesResolve(c) && Upper(code) in c.byCode ==>
      var found := c.byCode[Upper(code)];
      SameCode(found.code, code) && found.id in c.byId && SameCode(c.byId[found.id].code, code)
    ensures CodesInverse(c) ==>
      && (forall id <- c.byId :: SameCode(c.byId[id].code, code) <==> CODE_KEY(c.byId[id]) == Upper(code))
      && (Upper(code) in c.byCode ==>
            var found := c.byCode[Upper(code)];
            found.id in c.byId && c.byId[found.id] == found && SameCode(found.code, code))
  {
    if Upper(code) in c.byCode {
      var found := c.byCode[Upper(code)];
      UpperIff(found.code, code);
      if found.id in c.byId {
        UpperIff(c.byId[found.id].code, code);
      }
      assert ID_KEY(found) == found.id && CODE_KEY(found) == Upper(found.code);
    }
    forall id <- c.byId
      ensures SameCode(c.byId[id].code, code) <==> CODE_KEY(c.byId[id]) == Upper(code)
    {
      UpperIff(c.byId[id].code, code);
    }
  }

  class CurrenciesCache {
    var byId: map<int, Currency>
    var byCode: map<Code, Currency>
    var byIdStd: map<int, Currency>
    var allJson: Rendering<Currency>

    ghost function View(): Currencies
      reads this
    {
      Currencies(byId, byCode, byIdStd)
    }

    /** The private copy agrees with the by-id container, and the published list renders it.  How the
        by-code container relates to them is `CodesInverse`. */
    ghost predicate Valid()
      reads this
    {
      byId == byIdStd && Keyed(byIdStd, ID_KEY) && Renders(allJson, byIdStd)
    }

    constructor ()
      ensures Valid() && View() == Currencies(map[], map[], map[])
    {
      byId, byCode, byIdStd, allJson := map[], map[], map[], EmptyText;
    }

    /** The iteration order of the hash map is arbitrary. */
    method AllCurrenciesToJson() returns (json: Rendering<Currency>)
      requires Keyed(byIdStd, ID_KEY)
      ensures Renders(json, byIdStd)
    {
      if |byIdStd| == 0 {
        return EmptyText;
      }
      var list: seq<Currency>, todo: set<int> := [], byIdStd.Keys;
      while todo != {}
        invariant todo <= byIdStd.Keys
        invariant forall i, j | 0 <= i < j < |list| :: list[i].id != list[j].id
        invariant forall c <- list :: c.id in byIdStd && c.id !in todo && byIdStd[c.id] == c
        invariant forall id <- byIdStd :: id in todo || byIdStd[id] in list
        decreases todo
      {
        ghost var some := Inhabited(todo);
        var id :| id in todo;
        todo := todo - {id};
        list := list + [byIdStd[id]];
      }
      json := Listed(list);
    }

    method UpdateCache(rows: seq<Currency>)
      requires Valid()
      modifies this
      ensures Valid() && View() == Assign(old(View()), rows)
      ensures rows == [] ==> allJson == old(allJson)
    {
      if rows == [] {
        return;
      }
      for i := 0 to |rows|
        invariant View() == Assign(old(View()), rows[..i])
      {
        assert rows[..i + 1] == rows[..i] + [rows[i]];
        AssignAllSnoc(old(byId), rows[..i], rows[i], ID_KEY);
        AssignAllSnoc(old(byCode), rows[..i], rows[i], CODE_KEY);
        var row := rows[i];
        byId := byId[row.id := row];
        byCode := byCode[Upper(row.code) := row];
        byIdStd := byIdStd[row.id := row];
      }
      assert rows[..|rows|] == rows;
      LoadsKeepKeyed(old(byIdStd), rows, ID_KEY);
      allJson := AllCurrenciesToJson();
    }

    /** The list is pushed row by row, so it is `rows` itself. */
    method FullUpdateCache(rows: seq<Currency>)
      modifies this
      ensures View() == Load(rows)
      ensures allJson == if rows == [] then EmptyText else Listed(rows)
      ensures DistinctIds(rows) ==> Valid()
    {
      var newById: map<int, Currency>, newByCode: map<Code, Currency> := map[], map[];
      var list := [];
      byIdStd := map[];
      for i := 0 to |rows|
        invariant Currencies(newById, newByCode, byIdStd) == Load(rows[..i]) && list == rows[..i]
      {
        assert rows[..i + 1] == rows[..i] + [rows[i]];
        InsertAllSnoc(map[], rows[..i], rows[i], ID_KEY);
        InsertAllSnoc(map[], rows[..i], rows[i], CODE_KEY);
        var row := rows[i];
        if row.id !in newById { newById := newById[row.id := row]; }
        if Upper(row.code) !in newByCode { newByCode := newByCode[Upper(row.code) := row]; }
        if row.id !in byIdStd { byIdStd := byIdStd[row.id := row]; }
        list := list + [row];
      }
      assert rows[..|rows|] == rows;
      byId, byCode := newById, newByCode;
      allJson := if |list| == 0 then EmptyText else Listed(list);
      LoadsKeepKeyed(map[], rows, ID_KEY);
      if DistinctIds(rows) {
        LoadRenders(rows);
      }
    }

    method GetCurrencyById(id: int) returns (found: Option<Currency>)
      ensures found == if id in byId then Some(byId[id]) else None
    {
      found := if id in byId then Some(byId[id]) else None;
    }

    method GetCurrencyByCode(code: Code) returns (found: Option<Currency>)
      ensures found == if Upper(code) in byCode then Some(byCode[Upper(code)]) else None
      ensures CodesResolve(View()) && found.Some? ==>
        && SameCode(found.value.code, code)
        && found.value.id in byId && SameCode(byId[found.value.id].code, code)
      ensures CodesInverse(View()) ==>
        && (found.None? <==> forall id <- byId :: !SameCode(byId[id].code, code))
        && (forall id <- byId | SameCode(byId[id].code, code) :: found == Some(byId[id]))
        && (found.Some? ==> found.value.id in byId && byId[found.value.id] == found.value)
    {
      found := if Upper(code) in byCode then Some(byCode[Upper(code)]) else None;
      FoundIsSpelled(View(), code);
    }
  }

  // ---------------------------------------------------------------- batching

  /** Two batches one after the other leave what one combined batch leaves. */
  lemma BatchingDoesNotMatter(c: Currencies, a: seq<Currency>, b: seq<Currency>)
    ensures Assign(Assign(c, a), b) == Assign(c, a + b)
  {
    AssignAllConcat(c.byId, a, b, ID_KEY);
    AssignAllConcat(c.byCode, a, b, CODE_KEY);
    AssignAllConcat(c.byIdStd, a, b, ID_KEY);
  }

  ghost predicate DistinctIds(rows: seq<Currency>) {
    forall i, j | 0 <= i < j < |rows| :: rows[i].id != rows[j].id
  }

  ghost predicate DistinctCodes(rows: seq<Currency>) {
    forall i, j | 0 <= i < j < |rows| :: Upper(rows[i].code) != Upper(rows[j].code)
  }

  lemma AssignEnumerates(rows: seq<Currency>)
    requires DistinctIds(rows)
    ensures Enumerates(rows, AssignAll(map[], rows, ID_KEY))
    ensures rows != [] ==> AssignAll(map[], rows, ID_KEY) != map[]
  {
    var m := AssignAll(map[], rows, ID_KEY);
    forall i | 0 <= i < |rows| ensures rows[i].id in m && m[rows[i].id] == rows[i] {
      AssignedValue(map[], rows, ID_KEY, rows[i].id);
      assert ID_KEY(rows[i]) == rows[i].id;
    }
    forall id <- m ensures m[id] in rows {
      AssignedValue(map[], rows, ID_KEY, id);
    }
  }

  /** The list pushed by a full load of rows with unique ids renders what it loads. */
  lemma LoadRenders(rows: seq<Currency>)
    requires DistinctIds(rows)
    ensures Renders(if rows == [] then EmptyText else Listed(rows), Load(rows).byIdStd)
  {
    InsertIsAssign(rows, ID_KEY);
    AssignEnumerates(rows);
  }

  /** On rows with unique keys, a full load and an incremental update of an empty cache give the
      same lookups, and the pushed list is a rendering of the same map. */
  lemma FullLoadIsUpdate(rows: seq<Currency>)
    requires DistinctIds(rows) && DistinctCodes(rows)
    ensures Load(rows) == Assign(Currencies(map[], map[], map[]), rows)
    ensures Renders(if rows == [] then EmptyText else Listed(rows), Load(rows).byIdStd)
  {
    InsertIsAssign(rows, ID_KEY);
    InsertIsAssign(rows, CODE_KEY);
    LoadRenders(rows);
  }

  lemma SameEntries(a: seq<Currency>, b: seq<Currency>, m: map<int, Currency>)
    requires Enumerates(a, m) && Enumerates(b, m)
    ensures multiset(a) == multiset(b)
  {
    Occurrences(a, m);
    Occurrences(b, m);
  }

  lemma OccursOnce(list: seq<Currency>, i: nat)
    requires i < |list| && DistinctIds(list)
    ensures multiset(list)[list[i]] == 1
  {
    assert list == list[..i] + [list[i]] + list[i + 1..];
    assert list[i] !in list[..i] && list[i] !in list[i + 1..];
  }

  lemma {:induction false} Occurrences(list: seq<Currency>, m: map<int, Currency>)
    requires Enumerates(list, m)
    ensures multiset(list) == multiset(set id <- m :: m[id])
  {
    var rows := set id <- m :: m[id];
    forall c ensures multiset(list)[c] == multiset(rows)[c] {
      if c in list {
        assert c.id in m && m[c.id] == c;
        var i :| 0 <= i < |list| && list[i] == c;
        OccursOnce(list, i);
      } else {
        assert c !in rows;
      }
    }
  }

  /** Any two renderings of the same rows have the same multiset of entries. */
  lemma RenderingsAgree(r: Rendering<Currency>, s: Rendering<Currency>, m: map<int, Currency>)
    requires Renders(r, m) && Renders(s, m)
    ensures r.Listed? == s.Listed? && (r.Listed? ==> multiset(r.entries) == multiset(s.entries))
  {
    if m != map[] {
      SameEntries(r.entries, s.entries, m);
    }
  }

  // ---------------------------------------------------------------- lookup by code

  /** Looking a row up by its own code finds that row. */
  ghost predicate FindsOwnRow(m: map<Code, Currency>, row: Currency) {
    Upper(row.code) in m && m[Upper(row.code)] == row
  }

  /** After loading a table's rows, a lookup by each row's own code finds that row, for every row,
      if and only if no two rows have codes that differ in case only. */
  lemma EveryCodeFindsItsRowIff(rows: seq<Currency>)
    requires DistinctIds(rows)
    ensures (forall r <- rows :: FindsOwnRow(AssignAll(map[], rows, CODE_KEY), r)) <==> DistinctCodes(rows)
  {
    var m := AssignAll(map[], rows, CODE_KEY);
    forall i | 0 <= i < |rows|
      ensures var last := LastRow(rows, CODE_KEY, Upper(rows[i].code));
        last >= i && Upper(rows[i].code) in m && m[Upper(rows[i].code)] == rows[last]
    {
      AssignedValue(map[], rows, CODE_KEY, Upper(rows[i].code));
      assert CODE_KEY(rows[i]) == Upper(rows[i].code);
    }
    if DistinctCodes(rows) {
      forall r <- rows ensures FindsOwnRow(m, r) {
        var i :| 0 <= i < |rows| && rows[i] == r;
        assert CODE_KEY(rows[LastRow(rows, CODE_KEY, Upper(r.code))]) == Upper(r.code);
      }
    } else {
      var i, j :| 0 <= i < j < |rows| && Upper(rows[i].code) == Upper(rows[j].code);
      var a, b := rows[i], rows[j];
      assert a in rows && b in rows && a.id != b.id;
      assert !FindsOwnRow(m, a) || !FindsOwnRow(m, b);
    }
  }

  datatype PostRequest = PostRequest(id: int, code: Code, fullName: string, sign: string)

  /** The only write the service makes to the currencies table: the POST handler upper-cases the
      code and inserts, and the database refuses a code (or an id) that is already there. */
  function Post(table: seq<Currency>, p: PostRequest): seq<Currency> {
    if exists c <- table :: c.code == Upper(p.code) || c.id == p.id then table
    else table + [Currency(p.id, Upper(p.code), p.fullName, p.sign)]
  }

  /** A POST onto an upper-case table, field by field: refused where a row has the code in some
      spelling, or the id; otherwise one row is added, with the fields posted and the code in upper
      case, and no other row changes. */
  lemma PostAdds(table: seq<Currency>, p: PostRequest)
    requires UpperCased(table)
    ensures (exists c <- table :: SameCode(c.code, p.code) || c.id == p.id) ==> Post(table, p) == table
    ensures (forall c <- table :: !SameCode(c.code, p.code) && c.id != p.id) ==>
      exists row: Currency ::
        && Post(table, p) == table + [row]
        && row.id == p.id && row.fullName == p.fullName && row.sign == p.sign
        && SameCode(row.code, p.code) && IsUpperCase(row.code)
  {
    forall c <- table ensures SameCode(c.code, p.code) <==> c.code == Upper(p.code) {
      UpperIff(c.code, p.code);
    }
    if forall c <- table :: !SameCode(c.code, p.code) && c.id != p.id {
      UpperIs(p.code, Upper(p.code));
      assert Post(table, p) == table + [Currency(p.id, Upper(p.code), p.fullName, p.sign)];
    }
  }

  function PostAll(table: seq<Currency>, posts: seq<PostRequest>): seq<Currency>
    decreases |posts|
  {
    if posts == [] then table else PostAll(Post(table, posts[0]), posts[1..])
  }

  ghost predicate UpperCased(table: seq<Currency>) {
    forall c <- table :: Upper(c.code) == c.code
  }

  lemma UpperTwice(s: Code)
    ensures Upper(Upper(s)) == Upper(s)
  {
  }

  /** Over any run of POSTs onto an upper-case table, no two rows ever fall in one class of codes. */
  lemma {:induction false} PostsKeepCodesApart(table: seq<Currency>, posts: seq<PostRequest>)
    requires UpperCased(table) && DistinctCodes(table) && DistinctIds(table)
    ensures var after := PostAll(table, posts); UpperCased(after) && DistinctCodes(after) && DistinctIds(after)
    decreases |posts|
  {
    if posts != [] {
      UpperTwice(posts[0].code);
      var next := Post(table, posts[0]);
      forall i, j | 0 <= i < j < |next|
        ensures Upper(next[i].code) != Upper(next[j].code) && next[i].id != next[j].id
      {
        assert next[i] == table[i] && table[i] in table;
      }
      PostsKeepCodesApart(next, posts[1..]);
    }
  }

  /** The hash table filled row by row, as the containers' `insert_or_assign` fills it. */
  function FillIndex(combine: (nat, char) -> nat, index: Table<Currency>, rows: seq<Currency>): Table<Currency>
    decreases |rows|
  {
    if rows == [] then index
    else FillIndex(combine, InsertOrAssign(combine, index, rows[0].code, rows[0]), rows[1..])
  }

  /** The hash table is at all times the plain map that the cache's `byCode` stands for. */
  lemma {:induction false} IndexIsByCode(
    combine: (nat, char) -> nat, index: Table<Currency>, m: map<Code, Currency>, rows: seq<Currency>)
    requires Represents(combine, index, m)
    ensures Represents(combine, FillIndex(combine, index, rows), AssignAll(m, rows, CODE_KEY))
    decreases |rows|
  {
    if rows != [] {
      AssignRefines(combine, index, m, rows[0].code, rows[0]);
      var index' := InsertOrAssign(combine, index, rows[0].code, rows[0]);
      IndexIsByCode(combine, index', m[Upper(rows[0].code) := rows[0]], rows[1..]);
    }
  }

  /** The hash table after several batches. */
  function FillBatches(combine: (nat, char) -> nat, index: Table<Currency>, batches: seq<seq<Currency>>)
    : Table<Currency>
    decreases |batches|
  {
    if batches == [] then index else FillBatches(combine, FillIndex(combine, index, batches[0]), batches[1..])
  }

  lemma {:induction false} BatchesAreOneLoad(
    combine: (nat, char) -> nat, index: Table<Currency>, m: map<Code, Currency>, batches: seq<seq<Currency>>)
    requires Represents(combine, index, m)
    ensures Represents(combine, FillBatches(combine, index, batches), AssignAll(m, Flatten(batches), CODE_KEY))
    decreases |batches|
  {
    if batches != [] {
      IndexIsByCode(combine, index, m, batches[0]);
      AssignAllConcat(m, batches[0], Flatten(batches[1..]), CODE_KEY);
      hide Represents, FillIndex, AssignAll;
      var index', m' := FillIndex(combine, index, batches[0]), AssignAll(m, batches[0], CODE_KEY);
      BatchesAreOneLoad(combine, index', m', batches[1..]);
    }
  }

  /** End to end: after any run of POSTs onto an empty table, and any batches of rows read from it,
      in any order and with repeats, the hash table finds exactly the rows read, each under every
      spelling of its code, whatever the hash mixing function; and once every row has been read, a
      lookup fails if and only if the table has no row with the code. */
  lemma PostedCurrenciesAreFound(
    combine: (nat, char) -> nat, posts: seq<PostRequest>, batches: seq<seq<Currency>>, code: Code)
    requires forall r <- Flatten(batches) :: r in PostAll([], posts)
    ensures var rows := Flatten(batches);
      var found := Find(combine, FillBatches(combine, map[], batches), code);
      && (found.None? <==> forall r <- rows :: !SameCode(r.code, code))
      && (forall r <- rows | SameCode(r.code, code) :: found == Some(r))
      && (found.Some? ==> found.value in rows && SameCode(found.value.code, code))
      && ((forall r <- PostAll([], posts) :: r in rows) ==>
            (found.None? <==> forall r <- PostAll([], posts) :: !SameCode(r.code, code)))
  {
    var rows, table := Flatten(batches), PostAll([], posts);
    PostsKeepCodesApart([], posts);
    EmptyRepresents<Currency>(combine);
    BatchesAreOneLoad(combine, map[], map[], batches);
    AssignedValue(map[], rows, CODE_KEY, Upper(code));
    hide Represents, FillBatches, AssignAll, PostAll, Flatten;
    assert Find(combine, FillBatches(combine, map[], batches), code)
        == var m := AssignAll(map[], rows, CODE_KEY); if Upper(code) in m then Some(m[Upper(code)]) else None by {
      RepresentsAt(combine, FillBatches(combine, map[], batches), AssignAll(map[], rows, CODE_KEY), code);
    }
    LastRowOfCode(table, rows, code);
    forall r <- table ensures r.code == Upper(code) <==> SameCode(r.code, code) {
      UpperIff(r.code, code);
    }
  }

  lemma RepresentsAt<V>(combine: (nat, char) -> nat, table: Table<V>, m: map<Code, V>, code: Code)
    requires Represents(combine, table, m)
    ensures Find(combine, table, code) == if Upper(code) in m then Some(m[Upper(code)]) else None
  {
  }

  /** Among rows of a table with distinct upper-case codes, the last of a code is every one of it. */
  lemma LastRowOfCode(table: seq<Currency>, rows: seq<Currency>, code: Code)
    requires UpperCased(table) && DistinctCodes(table) && forall r <- rows :: r in table
    ensures var i := LastRow(rows, CODE_KEY, Upper(code));
      && (i >= 0 ==> rows[i].code == Upper(code))
      && (forall r <- rows | r.code == Upper(code) :: i >= 0 && r == rows[i])
  {
    var i := LastRow(rows, CODE_KEY, Upper(code));
    UpperTwice(code);
    if i >= 0 {
      assert rows[i] in table && CODE_KEY(rows[i]) == Upper(rows[i].code);
    }
    forall r <- rows | r.code == Upper(code) ensures i >= 0 && r == rows[i] {
      var j :| 0 <= j < |rows| && rows[j] == r;
      assert CODE_KEY(rows[j]) == Upper(r.code);
    }
  }

  // ---------------------------------------------------------------- readers during an update

  /** The containers after the first `k` container writes of `UpdateCache`, three per row. */
  function Partial(c: Currencies, rows: seq<Currency>, k: nat): Currencies
    requires k <= 3 * |rows|
  {
    if k == 0 then c
    else
      var before, row := Partial(c, rows, k - 1), rows[(k - 1) / 3];
      match (k - 1) % 3
      case 0 => before.(byId := before.byId[row.id := row])
      case 1 => before.(byCode := before.byCode[Upper(row.code) := row])
      case _ => before.(byIdStd := before.byIdStd[row.id := row])
  }

  /** The three container writes of one row. */
  function Put(c: Currencies, row: Currency): Currencies {
    Currencies(c.byId[row.id := row], c.byCode[Upper(row.code) := row], c.byIdStd[row.id := row])
  }

  lemma PartialRow(c: Currencies, rows: seq<Currency>, n: nat)
    requires n < |rows|
    ensures Partial(c, rows, 3 * n + 3) == Put(Partial(c, rows, 3 * n), rows[n])
  {
    hide Upper;
    var p0, p1, p2 := Partial(c, rows, 3 * n), Partial(c, rows, 3 * n + 1), Partial(c, rows, 3 * n + 2);
    assert p1 == p0.(byId := p0.byId[rows[n].id := rows[n]]);
    assert p2 == p1.(byCode := p1.byCode[Upper(rows[n].code) := rows[n]]);
  }

  lemma AssignRow(c: Currencies, rows: seq<Currency>, row: Currency)
    ensures Assign(c, rows + [row]) == Put(Assign(c, rows), row)
  {
    hide AssignAll, Upper;
    AssignAllSnoc(c.byId, rows, row, ID_KEY);
    AssignAllSnoc(c.byCode, rows, row, CODE_KEY);
    AssignAllSnoc(c.byIdStd, rows, row, ID_KEY);
  }

  /** The single writes add up to the whole update. */
  lemma {:induction false} PartialEnds(c: Currencies, rows: seq<Currency>, n: nat)
    requires n <= |rows|
    ensures Partial(c, rows, 3 * n) == Assign(c, rows[..n])
  {
    if n > 0 {
      hide Partial, Assign, Put;
      PartialEnds(c, rows, n - 1);
      PartialRow(c, rows, n - 1);
      assert rows[..n] == rows[..n - 1] + [rows[n - 1]];
      AssignRow(c, rows[..n - 1], rows[n - 1]);
    }
  }

  /** The writes of two batches are those of the first and then those of the second. */
  lemma {:induction false} PartialFirst(c: Currencies, a: seq<Currency>, b: seq<Currency>, k: nat)
    requires k <= 3 * |a|
    ensures Partial(c, a + b, k) == Partial(c, a, k)
  {
    if k > 0 {
      PartialFirst(c, a, b, k - 1);
      assert (a + b)[(k - 1) / 3] == a[(k - 1) / 3];
    }
  }

  lemma {:induction false} PartialThen(c: Currencies, a: seq<Currency>, b: seq<Currency>, k: nat)
    requires k <= 3 * |b|
    ensures Partial(c, a + b, 3 * |a| + k) == Partial(Assign(c, a), b, k)
  {
    hide Assign, Upper;
    if k == 0 {
      PartialEnds(c, a + b, |a|);
      assert (a + b)[..|a|] == a;
    } else {
      PartialThen(c, a, b, k - 1);
      var at := 3 * |a| + k - 1;
      assert at / 3 == |a| + (k - 1) / 3 && at % 3 == (k - 1) % 3;
      assert (a + b)[at / 3] == b[(k - 1) / 3];
    }
  }

  /** Each row keeps the class of its code: no write changes it. */
  ghost predicate StableCodes(c: Currencies, rows: seq<Currency>) {
    && (forall id <- c.byId :: forall r <- rows | r.id == id :: Upper(r.code) == Upper(c.byId[id].code))
    && (forall r <- rows :: forall s <- rows | r.id == s.id :: Upper(r.code) == Upper(s.code))
  }

  /** Each lookup answers with the row from before the update or with a row of the batch, and a key
      answered before is still answered. */
  ghost predicate OldOrNew(c: Currencies, rows: seq<Currency>, p: Currencies) {
    && c.byId.Keys <= p.byId.Keys && c.byCode.Keys <= p.byCode.Keys
    && (forall id <- p.byId ::
          (id in c.byId && p.byId[id] == c.byId[id]) || (p.byId[id] in rows && p.byId[id].id == id))
    && (forall u <- p.byCode ::
          || (u in c.byCode && p.byCode[u] == c.byCode[u])
          || (p.byCode[u] in rows && Upper(p.byCode[u].code) == u))
  }

  /** At every point between two container writes of an update, a concurrent reader sees a currency
      by code only if it sees it by id, and each lookup gives the old or a new row of its key. */
  lemma {:induction false} ReadersDuringUpdate(c: Currencies, rows: seq<Currency>, k: nat)
    requires k <= 3 * |rows| && CodesResolve(c) && StableCodes(c, rows)
    ensures CodesResolve(Partial(c, rows, k)) && OldOrNew(c, rows, Partial(c, rows, k))
    ensures k > 0 && (k - 1) % 3 == 0 ==> rows[(k - 1) / 3].id in Partial(c, rows, k).byId
    ensures k > 0 && (k - 1) % 3 == 0 ==> Partial(c, rows, k).byId[rows[(k - 1) / 3].id] == rows[(k - 1) / 3]
  {
    if k > 0 {
      ReadersDuringUpdate(c, rows, k - 1);
      var before, p, row := Partial(c, rows, k - 1), Partial(c, rows, k), rows[(k - 1) / 3];
      assert row in rows;
      if (k - 1) % 3 == 0 {
        assert p == before.(byId := before.byId[row.id := row]);
        forall u <- p.byCode ensures p.byCode[u].id in p.byId && Upper(p.byId[p.byCode[u].id].code) == u {
          var id := before.byCode[u].id;
          if id == row.id {
            assert before.byId[id] in rows || id in c.byId;
          }
        }
      } else if (k - 1) % 3 == 1 {
        assert (k - 2) / 3 == (k - 1) / 3 && (k - 2) % 3 == 0;
        assert before.byId[row.id] == row;
      }
    }
  }

  /** A key once visible stays visible: between an earlier and a later point no lookup is lost. */
  lemma {:induction false} NothingDisappears(c: Currencies, rows: seq<Currency>, j: nat, k: nat)
    requires j <= k <= 3 * |rows|
    ensures Partial(c, rows, j).byId.Keys <= Partial(c, rows, k).byId.Keys
    ensures Partial(c, rows, j).byCode.Keys <= Partial(c, rows, k).byCode.Keys
  {
    if j < k {
      NothingDisappears(c, rows, j, k - 1);
    }
  }

  /** So a reader that finds a currency by code at one moment finds it by id at any later one. */
  lemma FoundByCodeThenById(c: Currencies, rows: seq<Currency>, j: nat, k: nat, code: Code)
    requires j <= k <= 3 * |rows| && CodesResolve(c) && StableCodes(c, rows)
    requires Upper(code) in Partial(c, rows, j).byCode
    ensures Partial(c, rows, j).byCode[Upper(code)].id in Partial(c, rows, k).byId
  {
    ReadersDuringUpdate(c, rows, j);
    NothingDisappears(c, rows, j, k);
  }
}
