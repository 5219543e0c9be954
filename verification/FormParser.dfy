/** The form parser on top of percent-decoding: fields are separated by `&` or by `\`, keys from
    values by `=`, and `+` is an ordinary character. */
module FormParser {
  import opened Options
  import opened UrlCoding

  const BACKSLASH: Byte := 92
  const AMPERSAND: Byte := 38
  const EQUALS: Byte := 61

  datatype Parsed = Fields(fields: map<seq<Byte>, seq<Byte>>) | Throws

  /** `boost::split` without token compression: `n` separators give `n + 1` pieces. */
  function Split(s: seq<Byte>, separators: set<Byte>): (pieces: seq<seq<Byte>>)
    ensures |pieces| >= 1
  {
    if s == [] then [[]]
    else
      var rest := Split(s[1..], separators);
      if s[0] in separators then [[]] + rest else [[s[0]] + rest[0]] + rest[1..]
  }

  /** One piece: a key alone, a key and a value, or an error. */
  datatype Piece = Field(key: seq<Byte>, value: seq<Byte>) | Malformed

  function ParsePiece(piece: seq<Byte>): Piece {
    var keyValue := Split(piece, {EQUALS});
    if |keyValue| > 2 then Malformed
    else Field(Decode(keyValue[0]), if |keyValue| == 2 then Decode(keyValue[1]) else [])
  }

  /** `unordered_map::insert`: the first value of a key stays. */
  function Insert(fields: map<seq<Byte>, seq<Byte>>, f: Piece): map<seq<Byte>, seq<Byte>>
    requires f.Field?
  {
    if f.key in fields then fields else fields[f.key := f.value]
  }

  function ParsePieces(pieces: seq<seq<Byte>>, fields: map<seq<Byte>, seq<Byte>>): Parsed {
    if pieces == [] then Fields(fields)
    else
      var f := ParsePiece(pieces[0]);
      if f.Malformed? then Throws else ParsePieces(pieces[1..], Insert(fields, f))
  }

  function Parse(s: seq<Byte>): Parsed {
    if s == [] then Fields(map[]) else ParsePieces(Split(s, {BACKSLASH, AMPERSAND}), map[])
  }

  method ParseForm(str: seq<Byte>) returns (parsed: Parsed)
    ensures parsed == Parse(str)
  {
    if str == [] {
      return Fields(map[]);
    }
    var pairs := Split(str, {BACKSLASH, AMPERSAND});
    var fields := map[];
    for i := 0 to |pairs|
      invariant ParsePieces(pairs[i..], fields) == Parse(str)
    {
      assert pairs[i..][1..] == pairs[i + 1..];
      var keyValue := Split(pairs[i], {EQUALS});
      var size := |keyValue|;
      if size == 0 || size > 2 {
        return Throws;
      }
      var key := UrlDecode(keyValue[0]);
      var value := [];
      if size == 2 {
        value := UrlDecode(keyValue[1]);
      }
      if key !in fields {
        fields := fields[key := value];
      }
    }
    parsed := Fields(fields);
  }

  // ---------------------------------------------------------------- when it throws

  function Count(s: seq<Byte>, b: Byte): nat {
    multiset(s)[b]
  }

  lemma {:induction false} SplitSize(s: seq<Byte>, b: Byte)
    ensures |Split(s, {b})| == Count(s, b) + 1
  {
    if s != [] {
      assert s == [s[0]] + s[1..];
      SplitSize(s[1..], b);
    }
  }

  lemma {:induction false} ParsePiecesThrows(pieces: seq<seq<Byte>>, fields: map<seq<Byte>, seq<Byte>>)
    ensures ParsePieces(pieces, fields).Throws? <==> exists p <- pieces :: Count(p, EQUALS) >= 2
  {
    if pieces != [] {
      SplitSize(pieces[0], EQUALS);
      assert pieces == [pieces[0]] + pieces[1..];
      if Count(pieces[0], EQUALS) < 2 {
        ParsePiecesThrows(pieces[1..], Insert(fields, ParsePiece(pieces[0])));
      }
    }
  }

  /** The parser throws exactly when some piece holds two or more `=`. */
  lemma ThrowsIff(s: seq<Byte>)
    ensures Parse(s).Throws? <==> exists p <- Split(s, {92, 38}) :: Count(p, 61) >= 2
  {
    if s != [] {
      ParsePiecesThrows(Split(s, {BACKSLASH, AMPERSAND}), map[]);
    }
  }

  // ---------------------------------------------------------------- splitting and joining

  predicate Free(s: seq<Byte>, separators: set<Byte>) {
    forall b <- s :: b !in separators
  }

  /** The pieces written out, each separator of `seps` between two of them. */
  function Join(pieces: seq<seq<Byte>>, seps: seq<Byte>): seq<Byte>
    requires |pieces| == |seps| + 1
  {
    pieces[0] + if seps == [] then [] else [seps[0]] + Join(pieces[1..], seps[1..])
  }

  lemma {:induction false} SplitFree(s: seq<Byte>, separators: set<Byte>)
    requires Free(s, separators)
    ensures Split(s, separators) == [s]
  {
    if s != [] {
      assert s[0] in s && forall b <- s[1..] :: b in s;
      SplitFree(s[1..], separators);
      assert [s[0]] + s[1..] == s;
    }
  }

  lemma {:induction false} SplitAtSeparator(s: seq<Byte>, b: Byte, rest: seq<Byte>, separators: set<Byte>)
    requires Free(s, separators) && b in separators
    ensures Split(s + ([b] + rest), separators) == [s] + Split(rest, separators)
  {
    var t := s + ([b] + rest);
    if s == [] {
      assert t[1..] == rest;
    } else {
      assert s[0] in s && forall x <- s[1..] :: x in s;
      assert t[1..] == s[1..] + ([b] + rest);
      SplitAtSeparator(s[1..], b, rest, separators);
      var tail := Split(t[1..], separators);
      assert tail[0] == s[1..] && tail[1..] == Split(rest, separators) && [s[0]] + s[1..] == s;
    }
  }

  /** Splitting takes joined pieces apart again. */
  lemma {:induction false} SplitJoin(pieces: seq<seq<Byte>>, seps: seq<Byte>, separators: set<Byte>)
    requires |pieces| == |seps| + 1 && forall b <- seps :: b in separators
    requires forall p <- pieces :: Free(p, separators)
    ensures Split(Join(pieces, seps), separators) == pieces
  {
    assert pieces[0] in pieces && pieces == [pieces[0]] + pieces[1..];
    if seps == [] {
      assert pieces[0] + [] == pieces[0];
      SplitFree(pieces[0], separators);
    } else {
      assert seps[0] in seps && forall b <- seps[1..] :: b in seps;
      SplitJoin(pieces[1..], seps[1..], separators);
      SplitAtSeparator(pieces[0], seps[0], Join(pieces[1..], seps[1..]), separators);
    }
  }

  /** And every text is its own pieces joined, so splitting loses only which separators stood where. */
  lemma {:induction false} JoinSplit(s: seq<Byte>, separators: set<Byte>) returns (seps: seq<Byte>)
    ensures |Split(s, separators)| == |seps| + 1 && Join(Split(s, separators), seps) == s
    ensures (forall b <- seps :: b in separators) && forall p <- Split(s, separators) :: Free(p, separators)
  {
    if s == [] {
      seps := [];
    } else {
      var rest := JoinSplit(s[1..], separators);
      var pieces := Split(s[1..], separators);
      assert pieces == [pieces[0]] + pieces[1..];
      if s[0] in separators {
        seps := [s[0]] + rest;
        assert ([[]] + pieces)[1..] == pieces && seps[1..] == rest;
      } else {
        seps := rest;
        assert pieces[0] in pieces;
        assert ([[s[0]] + pieces[0]] + pieces[1..])[1..] == pieces[1..];
      }
    }
  }

  // ---------------------------------------------------------------- what a form means

  // In what follows the bytes are written out: 92 is `\`, 38 is `&`, and 61 is `=`.

  /** A field as it stands in the text; `None` for a key without `=`. */
  datatype RawField = RawField(key: seq<Byte>, value: Option<seq<Byte>>)

  function Text(f: RawField): seq<Byte> {
    f.key + if f.value.None? then [] else [61] + f.value.value
  }

  function Texts(fields: seq<RawField>): (texts: seq<seq<Byte>>)
    ensures |texts| == |fields|
  {
    seq(|fields|, i requires 0 <= i < |fields| => Text(fields[i]))
  }

  /** No separator stands inside the key or the value. */
  predicate Clean(f: RawField) {
    && Free(f.key, {92, 38, 61})
    && (f.value.Some? ==> Free(f.value.value, {92, 38, 61}))
  }

  function Meaning(f: RawField): (seq<Byte>, seq<Byte>) {
    (Decode(f.key), if f.value.None? then [] else Decode(f.value.value))
  }

  function Meanings(fields: seq<RawField>): (pairs: seq<(seq<Byte>, seq<Byte>)>)
    ensures |pairs| == |fields|
  {
    seq(|fields|, i requires 0 <= i < |fields| => Meaning(fields[i]))
  }

  lemma PieceMeans(f: RawField)
    requires Clean(f)
    ensures ParsePiece(Text(f)) == Field(Meaning(f).0, Meaning(f).1) && Free(Text(f), {BACKSLASH, AMPERSAND})
  {
    hide Split, Decode;
    if f.value.None? {
      assert Text(f) == f.key;
      SplitFree(f.key, {EQUALS});
    } else {
      SplitAtSeparator(f.key, EQUALS, f.value.value, {EQUALS});
      SplitFree(f.value.value, {EQUALS});
    }
  }

  ghost function KeysOf(pairs: seq<(seq<Byte>, seq<Byte>)>): set<seq<Byte>> {
    set p <- pairs :: p.0
  }

  /** Position `i` is the first with its key. */
  ghost predicate IsFirst(pairs: seq<(seq<Byte>, seq<Byte>)>, i: nat) {
    i < |pairs| && forall j | 0 <= j < i :: pairs[j].0 != pairs[i].0
  }

  /** `m` extends `fields` by the pairs, each new key with its first value. */
  ghost predicate FirstValues(
    fields: map<seq<Byte>, seq<Byte>>, pairs: seq<(seq<Byte>, seq<Byte>)>, m: map<seq<Byte>, seq<Byte>>)
  {
    && m.Keys == fields.Keys + KeysOf(pairs)
    && (forall key <- fields :: m[key] == fields[key])
    && forall i: nat | IsFirst(pairs, i) && pairs[i].0 !in fields :: m[pairs[i].0] == pairs[i].1
  }

  lemma FirstValuesCons(fields: map<seq<Byte>, seq<Byte>>, key: seq<Byte>, value: seq<Byte>,
                        pairs: seq<(seq<Byte>, seq<Byte>)>, m: map<seq<Byte>, seq<Byte>>)
    requires FirstValues(Insert(fields, Field(key, value)), pairs, m)
    ensures FirstValues(fields, [(key, value)] + pairs, m)
  {
    var all := [(key, value)] + pairs;
    ConsKeys(key, value, pairs);
    hide KeysOf;
    assert m.Keys == fields.Keys + KeysOf(all);
    forall i: nat | IsFirst(all, i) && all[i].0 !in fields
      ensures all[i].0 in m && m[all[i].0] == all[i].1
    {
      ConsFirst(key, value, pairs, i);
    }
  }

  lemma ConsFirst(key: seq<Byte>, value: seq<Byte>, pairs: seq<(seq<Byte>, seq<Byte>)>, i: nat)
    requires IsFirst([(key, value)] + pairs, i)
    ensures ([(key, value)] + pairs)[i].0 in KeysOf([(key, value)] + pairs)
    ensures i > 0 ==> IsFirst(pairs, i - 1) && pairs[i - 1].0 != key && ([(key, value)] + pairs)[i] == pairs[i - 1]
  {
    var all := [(key, value)] + pairs;
    assert all[i] in all;
    if i > 0 {
      assert all[0].0 != all[i].0;
      forall j | 0 <= j < i - 1 ensures pairs[j].0 != pairs[i - 1].0 {
        assert all[j + 1].0 != all[i].0;
      }
    }
  }

  lemma ConsKeys(key: seq<Byte>, value: seq<Byte>, pairs: seq<(seq<Byte>, seq<Byte>)>)
    ensures KeysOf([(key, value)] + pairs) == {key} + KeysOf(pairs)
  {
    var all := [(key, value)] + pairs;
    assert forall p :: p in all <==> p == (key, value) || p in pairs;
    assert (key, value) in all;
  }

  lemma {:induction false} ParsePairs(
    pieces: seq<seq<Byte>>, pairs: seq<(seq<Byte>, seq<Byte>)>, fields: map<seq<Byte>, seq<Byte>>)
    requires |pieces| == |pairs|
    requires forall i | 0 <= i < |pairs| :: ParsePiece(pieces[i]) == Field(pairs[i].0, pairs[i].1)
    ensures ParsePieces(pieces, fields).Fields? && FirstValues(fields, pairs, ParsePieces(pieces, fields).fields)
  {
    if pieces != [] {
      var next := Insert(fields, ParsePiece(pieces[0]));
      ParsePairs(pieces[1..], pairs[1..], next);
      assert pairs == [(pairs[0].0, pairs[0].1)] + pairs[1..];
      FirstValuesCons(fields, pairs[0].0, pairs[0].1, pairs[1..], ParsePieces(pieces, fields).fields);
    }
  }

  /** `s` is written as these fields with these separators between them. */
  ghost predicate Spells(s: seq<Byte>, fields: seq<RawField>, seps: seq<Byte>) {
    && |fields| == |seps| + 1 && (forall b <- seps :: b == 92 || b == 38)
    && (forall f <- fields :: Clean(f)) && Join(Texts(fields), seps) == s
  }

  /** What parsing gives for any text: each key has the value of its first field, keys and values
      percent-decoded, a key without `=` with the empty value. */
  lemma ParseMeans(s: seq<Byte>, fields: seq<RawField>, seps: seq<Byte>)
    requires s != [] && Spells(s, fields, seps)
    ensures Parse(s).Fields? && FirstValues(map[], Meanings(fields), Parse(s).fields)
  {
    forall i | 0 <= i < |fields|
      ensures ParsePiece(Texts(fields)[i]) == Field(Meanings(fields)[i].0, Meanings(fields)[i].1)
      ensures Free(Texts(fields)[i], {BACKSLASH, AMPERSAND})
    {
      assert fields[i] in fields;
      PieceMeans(fields[i]);
    }
    SplitJoin(Texts(fields), seps, {BACKSLASH, AMPERSAND});
    ParsePairs(Texts(fields), Meanings(fields), map[]);
  }

  /** A non-empty text parses if and only if it is spelt by some list of fields. */
  lemma ParsesIff(s: seq<Byte>)
    requires s != []
    ensures Parse(s).Fields? <==> exists fields, seps :: Spells(s, fields, seps)
  {
    if Parse(s).Fields? {
      var fields, seps := Spelling(s);
    }
    forall fields, seps | Spells(s, fields, seps) ensures Parse(s).Fields? {
      ParseMeans(s, fields, seps);
    }
  }

  lemma Spelling(s: seq<Byte>) returns (fields: seq<RawField>, seps: seq<Byte>)
    requires s != [] && Parse(s).Fields?
    ensures Spells(s, fields, seps)
  {
    ThrowsIff(s);
    seps := JoinSplit(s, {BACKSLASH, AMPERSAND});
    hide Split, Join, Count;
    fields := SpellPieces(Split(s, {BACKSLASH, AMPERSAND}));
  }

  lemma {:induction false} SpellPieces(pieces: seq<seq<Byte>>) returns (fields: seq<RawField>)
    requires forall p <- pieces :: Free(p, {BACKSLASH, AMPERSAND}) && Count(p, EQUALS) < 2
    ensures Texts(fields) == pieces && forall f <- fields :: Clean(f)
  {
    hide Clean, Text, Free, Count;
    if pieces == [] {
      fields := [];
    } else {
      assert pieces[0] in pieces && forall p <- pieces[1..] :: p in pieces;
      var f := SpellPiece(pieces[0]);
      var rest := SpellPieces(pieces[1..]);
      fields := [f] + rest;
      assert Texts(fields) == [Text(f)] + Texts(rest);
    }
  }

  lemma SpellPiece(piece: seq<Byte>) returns (f: RawField)
    requires Free(piece, {BACKSLASH, AMPERSAND}) && Count(piece, EQUALS) < 2
    ensures Clean(f) && Text(f) == piece
  {
    SplitSize(piece, EQUALS);
    var seps := JoinSplit(piece, {EQUALS});
    var keyValue := Split(piece, {EQUALS});
    assert keyValue[0] in keyValue;
    if |keyValue| == 1 {
      f := RawField(keyValue[0], None);
      assert Text(f) == piece;
    } else {
      assert keyValue[1] in keyValue && seps[0] in seps;
      f := RawField(keyValue[0], Some(keyValue[1]));
      assert Join(keyValue[1..], seps[1..]) == keyValue[1] + [] == keyValue[1];
      assert Text(f) == piece;
    }
    assert forall b <- f.key :: b in piece;
    assert f.value.Some? ==> forall b <- f.value.value :: b in piece;
  }

  // ---------------------------------------------------------------- round trip

  function Encoded(pairs: seq<(seq<Byte>, seq<Byte>)>): (fields: seq<RawField>)
    ensures |fields| == |pairs|
  {
    seq(|pairs|, i requires 0 <= i < |pairs| => RawField(Encode(pairs[i].0), Some(Encode(pairs[i].1))))
  }

  /** The pairs percent-encoded and written out. */
  function Render(pairs: seq<(seq<Byte>, seq<Byte>)>, seps: seq<Byte>): seq<Byte>
    requires |pairs| == |seps| + 1
  {
    Join(Texts(Encoded(pairs)), seps)
  }

  function Survived(pairs: seq<(seq<Byte>, seq<Byte>)>): seq<(seq<Byte>, seq<Byte>)> {
    seq(|pairs|, i requires 0 <= i < |pairs| => (Survivors(pairs[i].0), Survivors(pairs[i].1)))
  }

  /** Form round trip.  Any non-empty list of pairs, encoded and joined by any mix of the two
      separators, parses to the map in which each key has its first value, after each byte 255
      has turned into `%FF`. */
  lemma RoundTrip(pairs: seq<(seq<Byte>, seq<Byte>)>, seps: seq<Byte>)
    requires |pairs| == |seps| + 1 && forall b <- seps :: b == 92 || b == 38
    ensures Parse(Render(pairs, seps)).Fields?
    ensures FirstValues(map[], Survived(pairs), Parse(Render(pairs, seps)).fields)
  {
    var fields := Encoded(pairs);
    forall i | 0 <= i < |pairs| ensures Clean(fields[i]) && Meaning(fields[i]) == Survived(pairs)[i] {
      EncodedClean(pairs[i].0, pairs[i].1);
    }
    assert Meanings(fields) == Survived(pairs);
    assert Text(fields[0])[|fields[0].key|] == EQUALS;
    ParseMeans(Render(pairs, seps), fields, seps);
  }

  lemma EncodedClean(key: seq<Byte>, value: seq<Byte>)
    ensures var f := RawField(Encode(key), Some(Encode(value)));
      Clean(f) && Meaning(f) == (Survivors(key), Survivors(value))
  {
    EncodedFree(key);
    EncodedFree(value);
    DecodeEncode(key);
    DecodeEncode(value);
    hide Encode, Decode, Survivors, Free;
  }

  lemma EncodedFree(s: seq<Byte>)
    ensures Free(Encode(s), {BACKSLASH, AMPERSAND, EQUALS})
  {
    EncodeAlphabet(s);
  }

  /** Without byte 255 the round trip is exact. */
  lemma ExactRoundTrip(pairs: seq<(seq<Byte>, seq<Byte>)>, seps: seq<Byte>)
    requires |pairs| == |seps| + 1 && forall b <- seps :: b == 92 || b == 38
    requires forall p <- pairs :: 255 !in p.0 && 255 !in p.1
    ensures Parse(Render(pairs, seps)).Fields?
    ensures FirstValues(map[], pairs, Parse(Render(pairs, seps)).fields)
  {
    RoundTrip(pairs, seps);
    forall i | 0 <= i < |pairs| ensures Survived(pairs)[i] == pairs[i] {
      assert pairs[i] in pairs;
      SurvivorsSize(pairs[i].0);
      SurvivorsSize(pairs[i].1);
    }
    assert Survived(pairs) == pairs;
  }
}
