/** Two containers over the same rows, one by id and one by a further unique key: when each is the
    inverse of the other, and what loading rows does to that. */
module UniqueIndexes {
  import opened Containers

  /** The two containers hold the same rows, each under its own id and its own key. */
  ghost predicate Inverse<I, K, V>(byId: map<I, V>, byKey: map<K, V>, id: V -> I, key: V -> K) {
    && Keyed(byId, id) && Keyed(byKey, key)
    && (forall i <- byId :: key(byId[i]) in byKey && byKey[key(byId[i])] == byId[i])
    && (forall k <- byKey :: id(byKey[k]) in byId && byId[id(byKey[k])] == byKey[k])
  }

  /** Loading one row keeps the containers inverse exactly when the row's id had this key before, if
      any, and the row's key had this id before, if any. */
  lemma PutKeepsInverseIff<I, K, V>(byId: map<I, V>, byKey: map<K, V>, id: V -> I, key: V -> K, row: V)
    requires Inverse(byId, byKey, id, key)
    ensures Inverse(byId[id(row) := row], byKey[key(row) := row], id, key) <==>
      && (id(row) in byId ==> key(byId[id(row)]) == key(row))
      && (key(row) in byKey ==> id(byKey[key(row)]) == id(row))
  {
    var i, k := id(row), key(row);
    var byId', byKey' := byId[i := row], byKey[k := row];
    if i in byId && key(byId[i]) != k {
      var j := key(byId[i]);
      assert j in byKey' && byKey'[j] == byId[i];
      assert !Inverse(byId', byKey', id, key);
    } else if k in byKey && id(byKey[k]) != i {
      var j := id(byKey[k]);
      assert j in byId' && byId'[j] == byKey[k];
      assert !Inverse(byId', byKey', id, key);
    } else {
      PutKeepsInverse(byId, byKey, id, key, row);
    }
  }

  lemma PutKeepsInverse<I, K, V>(byId: map<I, V>, byKey: map<K, V>, id: V -> I, key: V -> K, row: V)
    requires Inverse(byId, byKey, id, key)
    requires id(row) in byId ==> key(byId[id(row)]) == key(row)
    requires key(row) in byKey ==> id(byKey[key(row)]) == id(row)
    ensures Inverse(byId[id(row) := row], byKey[key(row) := row], id, key)
  {
    var byId', byKey' := byId[id(row) := row], byKey[key(row) := row];
    forall i <- byId' ensures key(byId'[i]) in byKey' && byKey'[key(byId'[i])] == byId'[i] {
      if i != id(row) {
        assert id(byKey[key(byId[i])]) == i;
      }
    }
    forall k <- byKey' ensures id(byKey'[k]) in byId' && byId'[id(byKey'[k])] == byKey'[k] {
      if k != key(row) {
        assert key(byId[id(byKey[k])]) == k;
      }
    }
  }

  // ---------------------------------------------------------------- rows of a table with fixed keys

  /** `keys` says which key each id stands for; no two ids share one. */
  ghost predicate Injective<I(!new), K>(keys: map<I, K>) {
    forall i, j | i in keys && j in keys && keys[i] == keys[j] :: i == j
  }

  ghost predicate Conforms<I, K, V>(rows: seq<V>, keys: map<I, K>, id: V -> I, key: V -> K) {
    forall r <- rows :: id(r) in keys && keys[id(r)] == key(r)
  }

  ghost predicate MapConforms<I, K, V>(m: map<I, V>, keys: map<I, K>, key: V -> K) {
    forall i <- m :: i in keys && keys[i] == key(m[i])
  }

  lemma RowKeepsInverse<I(!new), K, V>(
    byId: map<I, V>, byKey: map<K, V>, row: V, keys: map<I, K>, id: V -> I, key: V -> K)
    requires Injective(keys) && Conforms([row], keys, id, key)
    requires Inverse(byId, byKey, id, key) && MapConforms(byId, keys, key)
    ensures Inverse(byId[id(row) := row], byKey[key(row) := row], id, key)
    ensures MapConforms(byId[id(row) := row], keys, key)
    ensures id(row) in byId <==> key(row) in byKey
  {
    assert row in [row];
    if key(row) in byKey {
      assert id(byKey[key(row)]) in byId;
    }
    PutKeepsInverse(byId, byKey, id, key, row);
  }

  lemma {:induction false} AssignKeepsInverse<I(!new), K, V>(
    byId: map<I, V>, byKey: map<K, V>, rows: seq<V>, keys: map<I, K>, id: V -> I, key: V -> K)
    requires Injective(keys) && Conforms(rows, keys, id, key)
    requires Inverse(byId, byKey, id, key) && MapConforms(byId, keys, key)
    ensures Inverse(AssignAll(byId, rows, id), AssignAll(byKey, rows, key), id, key)
    ensures MapConforms(AssignAll(byId, rows, id), keys, key)
    decreases |rows|
  {
    if rows != [] {
      assert rows[0] in rows && forall r <- rows[1..] :: r in rows;
      assert Conforms([rows[0]], keys, id, key) && Conforms(rows[1..], keys, id, key);
      hide Injective, Conforms, Inverse, MapConforms;
      RowKeepsInverse(byId, byKey, rows[0], keys, id, key);
      AssignKeepsInverse(byId[id(rows[0]) := rows[0]], byKey[key(rows[0]) := rows[0]], rows[1..], keys, id, key);
    }
  }

  lemma {:induction false} InsertKeepsInverse<I(!new), K, V>(
    byId: map<I, V>, byKey: map<K, V>, rows: seq<V>, keys: map<I, K>, id: V -> I, key: V -> K)
    requires Injective(keys) && Conforms(rows, keys, id, key)
    requires Inverse(byId, byKey, id, key) && MapConforms(byId, keys, key)
    ensures Inverse(InsertAll(byId, rows, id), InsertAll(byKey, rows, key), id, key)
    ensures MapConforms(InsertAll(byId, rows, id), keys, key)
    decreases |rows|
  {
    if rows != [] {
      assert rows[0] in rows && forall r <- rows[1..] :: r in rows;
      assert Conforms([rows[0]], keys, id, key) && Conforms(rows[1..], keys, id, key);
      hide Injective, Conforms, Inverse, MapConforms;
      RowKeepsInverse(byId, byKey, rows[0], keys, id, key);
      var row := rows[0];
      InsertKeepsInverse(if id(row) in byId then byId else byId[id(row) := row],
                         if key(row) in byKey then byKey else byKey[key(row) := row], rows[1..], keys, id, key);
    }
  }
}
