/** The case-insensitive index of currencies by code: a hash table whose key equality and hash both
    go through the locale's upper-casing (C locale). */
module CodeIndex {
  import opened Options

  type Code = string

  function ToUpper(c: char): char {
    if 'a' <= c <= 'z' then c - 32 as char else c
  }

  /** Two characters that differ at most in case. */
  predicate SameLetter(a: char, b: char) {
    || a == b
    || ('a' <= a <= 'z' && a as int == b as int + 32)
    || ('a' <= b <= 'z' && b as int == a as int + 32)
  }

  /** Two spellings of one code. */
  predicate SameCode(a: Code, b: Code) {
    |a| == |b| && forall i | 0 <= i < |a| :: SameLetter(a[i], b[i])
  }

  /** No letter of `s` is lower-case. */
  predicate IsUpperCase(s: Code) {
    forall i | 0 <= i < |s| :: !('a' <= s[i] <= 'z')
  }

  function Upper(s: Code): (u: Code)
    ensures |u| == |s| && forall i | 0 <= i < |s| :: u[i] == ToUpper(s[i])
  {
    seq(|s|, i requires 0 <= i < |s| => ToUpper(s[i]))
  }

  /** The upper-cased forms agree exactly for two spellings of one code. */
  lemma UpperIff(a: Code, b: Code)
    ensures Upper(a) == Upper(b) <==> SameCode(a, b)
  {
    if SameCode(a, b) {
      forall i | 0 <= i < |a| ensures Upper(a)[i] == Upper(b)[i] {
        assert SameLetter(a[i], b[i]);
      }
    } else if |a| == |b| {
      var i :| 0 <= i < |a| && !SameLetter(a[i], b[i]);
      assert Upper(a)[i] != Upper(b)[i];
    }
  }

  /** The upper-cased form is the one spelling of a code without lower-case letters. */
  lemma UpperIs(s: Code, u: Code)
    ensures u == Upper(s) <==> SameCode(u, s) && IsUpperCase(u)
  {
    if SameCode(u, s) && IsUpperCase(u) {
      forall i | 0 <= i < |u| ensures u[i] == Upper(s)[i] {
        assert SameLetter(u[i], s[i]);
      }
    }
  }

  /** `boost::iequals`: both ranges end together and agree character by character. */
  function IEqualTo(a: Code, b: Code): (equal: bool)
    ensures equal <==> Upper(a) == Upper(b)
  {
    if a == [] || b == [] then a == b
    else
      assert Upper(a)[1..] == Upper(a[1..]) && Upper(b)[1..] == Upper(b[1..]);
      assert Upper(a) == [ToUpper(a[0])] + Upper(a[1..]) && Upper(b) == [ToUpper(b[0])] + Upper(b[1..]);
      ToUpper(a[0]) == ToUpper(b[0]) && IEqualTo(a[1..], b[1..])
  }

  /** `combine` is `boost::hash_combine`; nothing about it is assumed. */
  function Hash(combine: (nat, char) -> nat, s: Code): nat {
    if s == [] then 0 else combine(Hash(combine, s[..|s| - 1]), ToUpper(s[|s| - 1]))
  }

  method IHash(combine: (nat, char) -> nat, data: Code) returns (seed: nat)
    ensures seed == Hash(combine, data)
    ensures seed == Hash(combine, Upper(data))
  {
    seed := 0;
    for i := 0 to |data|
      invariant seed == Hash(combine, data[..i])
    {
      assert data[..i + 1][..i] == data[..i];
      seed := combine(seed, ToUpper(data[i]));
    }
    assert data[..|data|] == data;
    HashOfUpper(combine, data);
  }

  lemma {:induction false} HashOfUpper(combine: (nat, char) -> nat, s: Code)
    ensures Hash(combine, Upper(s)) == Hash(combine, s)
  {
    if s != [] {
      assert Upper(s)[..|s| - 1] == Upper(s[..|s| - 1]);
      HashOfUpper(combine, s[..|s| - 1]);
    }
  }

  /** Keys are equal exactly when they are two spellings of one code. */
  lemma EqualIffSameCode(a: Code, b: Code)
    ensures IEqualTo(a, b) <==> SameCode(a, b)
  {
    UpperIff(a, b);
  }

  /** Two spellings of one code hash alike, whatever the mixing function. */
  lemma EqualCodesHashAlike(combine: (nat, char) -> nat, a: Code, b: Code)
    requires SameCode(a, b)
    ensures Hash(combine, a) == Hash(combine, b)
  {
    UpperIff(a, b);
    HashOfUpper(combine, a);
    HashOfUpper(combine, b);
  }

  /** And with a mixing function that loses nothing, only they do: every character counts. */
  lemma HashAlikeIff(combine: (nat, char) -> nat, a: Code, b: Code)
    requires forall h, c, h', c' :: combine(h, c) == combine(h', c') ==> h == h' && c == c'
    requires forall h, c :: combine(h, c) != 0
    ensures Hash(combine, a) == Hash(combine, b) <==> SameCode(a, b)
  {
    UpperIff(a, b);
    HashOfUpper(combine, a);
    HashOfUpper(combine, b);
    if Hash(combine, Upper(a)) == Hash(combine, Upper(b)) {
      HashKeeps(combine, a, b);
    }
  }

  lemma {:induction false} HashKeeps(combine: (nat, char) -> nat, a: Code, b: Code)
    requires forall h, c, h', c' :: combine(h, c) == combine(h', c') ==> h == h' && c == c'
    requires forall h, c :: combine(h, c) != 0
    requires Hash(combine, a) == Hash(combine, b)
    ensures Upper(a) == Upper(b)
    decreases |a|
  {
    if a != [] && b != [] {
      var a', b' := a[..|a| - 1], b[..|b| - 1];
      HashKeeps(combine, a', b');
      assert Upper(a) == Upper(a') + [ToUpper(a[|a| - 1])] && Upper(b) == Upper(b') + [ToUpper(b[|b| - 1])];
    }
  }

  // ---------------------------------------------------------------- the hash table

  datatype Entry<V> = Entry(key: Code, value: V)

  /** A key is compared only with keys of its own hash. */
  type Table<V> = map<nat, seq<Entry<V>>>

  function Bucket<V>(table: Table<V>, h: nat): seq<Entry<V>> {
    if h in table then table[h] else []
  }

  function FindIn<V>(bucket: seq<Entry<V>>, code: Code): Option<V> {
    if bucket == [] then None
    else if IEqualTo(bucket[0].key, code) then Some(bucket[0].value)
    else FindIn(bucket[1..], code)
  }

  function Find<V>(combine: (nat, char) -> nat, table: Table<V>, code: Code): Option<V> {
    FindIn(Bucket(table, Hash(combine, code)), code)
  }

  /** The stored spelling of an existing key stays; only its value is replaced. */
  function AssignIn<V>(bucket: seq<Entry<V>>, code: Code, value: V): seq<Entry<V>> {
    if bucket == [] then [Entry(code, value)]
    else if IEqualTo(bucket[0].key, code) then [Entry(bucket[0].key, value)] + bucket[1..]
    else [bucket[0]] + AssignIn(bucket[1..], code, value)
  }

  function InsertOrAssign<V>(combine: (nat, char) -> nat, table: Table<V>, code: Code, value: V): Table<V> {
    table[Hash(combine, code) := AssignIn(Bucket(table, Hash(combine, code)), code, value)]
  }

  function Insert<V>(combine: (nat, char) -> nat, table: Table<V>, code: Code, value: V): Table<V> {
    if Find(combine, table, code).Some? then table else InsertOrAssign(combine, table, code, value)
  }

  /** The table answers every lookup as the plain map keyed by upper-cased code would. */
  ghost predicate Represents<V>(combine: (nat, char) -> nat, table: Table<V>, m: map<Code, V>) {
    forall code :: Find(combine, table, code) == if Upper(code) in m then Some(m[Upper(code)]) else None
  }

  lemma {:induction false} FindAfterAssign<V>(bucket: seq<Entry<V>>, code: Code, value: V, other: Code)
    ensures FindIn(AssignIn(bucket, code, value), other)
         == if IEqualTo(code, other) then Some(value) else FindIn(bucket, other)
  {
    if bucket != [] && !IEqualTo(bucket[0].key, code) {
      FindAfterAssign(bucket[1..], code, value, other);
    }
  }

  lemma EmptyRepresents<V>(combine: (nat, char) -> nat)
    ensures Represents<V>(combine, map[], map[])
  {
  }

  /** `insert_or_assign` on the table is an update of the plain map. */
  lemma AssignRefines<V>(combine: (nat, char) -> nat, table: Table<V>, m: map<Code, V>, code: Code, value: V)
    requires Represents(combine, table, m)
    ensures Represents(combine, InsertOrAssign(combine, table, code, value), m[Upper(code) := value])
  {
    var table', m' := InsertOrAssign(combine, table, code, value), m[Upper(code) := value];
    forall other
      ensures Find(combine, table', other) == if Upper(other) in m' then Some(m'[Upper(other)]) else None
    {
      assert Find(combine, table, other) == if Upper(other) in m then Some(m[Upper(other)]) else None;
      if Hash(combine, other) == Hash(combine, code) {
        FindAfterAssign(Bucket(table, Hash(combine, code)), code, value, other);
      } else if IEqualTo(code, other) {
        EqualIffSameCode(code, other);
        EqualCodesHashAlike(combine, code, other);
      }
    }
  }

  /** `insert` is an update of the plain map that lets an existing key be. */
  lemma InsertRefines<V>(combine: (nat, char) -> nat, table: Table<V>, m: map<Code, V>, code: Code, value: V)
    requires Represents(combine, table, m)
    ensures Represents(combine, Insert(combine, table, code, value),
                       if Upper(code) in m then m else m[Upper(code) := value])
  {
    AssignRefines(combine, table, m, code, value);
    assert Find(combine, table, code).Some? <==> Upper(code) in m;
  }
}
