/** Percent-encoding (section 2.1 of RFC 3986) over byte strings, with `char` signed and the C
    locale, as the engine's form parser uses it. */
module UrlCoding {

  type Byte = b: int | 0 <= b < 256

  const PERCENT: Byte := 37

  /** The value of a `char` that holds the low eight bits of `v`. */
  function SignedChar(v: int): (ch: int)
    requires 0 <= v < 256
    ensures -128 <= ch < 128
  {
    if v < 128 then v else v - 256
  }

  function ToByte(ch: int): (b: Byte)
    requires -128 <= ch < 128
    ensures SignedChar(b) == ch
  {
    if ch < 0 then ch + 256 else ch
  }

  /** `std::isalnum` in the C locale. */
  predicate IsAlnum(b: Byte) {
    48 <= b <= 57 || 65 <= b <= 90 || 97 <= b <= 122
  }

  /** What `%X` prints for one hexadecimal digit. */
  function HexDigit(n: int): (digit: Byte)
    requires 0 <= n < 16
    ensures 48 <= digit <= 57 || 65 <= digit <= 70
  {
    if n < 10 then 48 + n else 55 + n
  }

  function HexCharToBin(ch: Byte): (n: int)
    ensures -1 <= n < 16
  {
    if 48 <= ch <= 57 then ch - 48
    else if 97 <= ch <= 102 then ch - 97 + 10
    else if 65 <= ch <= 70 then ch - 65 + 10
    else -1
  }

  /** The decoded `char`, or -1 for a bad digit; the byte 255 is that -1 too. */
  function HexStrToBin(high: Byte, low: Byte): (ch: int)
    ensures -128 <= ch < 128
  {
    var h, l := HexCharToBin(high), HexCharToBin(low);
    if h == -1 || l == -1 then -1 else SignedChar(h * 16 + l)
  }

  function EncodeByte(b: Byte): seq<Byte> {
    if IsAlnum(b) then [b] else [PERCENT, HexDigit(b / 16), HexDigit(b % 16)]
  }

  function Encode(s: seq<Byte>): seq<Byte> {
    if s == [] then [] else EncodeByte(s[0]) + Encode(s[1..])
  }

  function Decode(s: seq<Byte>): (t: seq<Byte>)
    ensures |t| <= |s|
  {
    if s == [] then []
    else if s[0] != PERCENT then [s[0]] + Decode(s[1..])
    else if |s| < 3 then s
    else
      var ch := HexStrToBin(s[1], s[2]);
      (if ch == -1 then s[..3] else [ToByte(ch)]) + Decode(s[3..])
  }

  lemma {:induction false} EncodeSnoc(s: seq<Byte>, b: Byte)
    ensures Encode(s + [b]) == Encode(s) + EncodeByte(b)
  {
    if s == [] {
      assert s + [b] == [b];
    } else {
      assert (s + [b])[1..] == s[1..] + [b];
      EncodeSnoc(s[1..], b);
    }
  }

  method UrlEncode(str: seq<Byte>) returns (output: seq<Byte>)
    ensures output == Encode(str)
  {
    output := [];
    for i := 0 to |str|
      invariant output == Encode(str[..i])
    {
      assert str[..i + 1] == str[..i] + [str[i]];
      EncodeSnoc(str[..i], str[i]);
      var ch := str[i];
      if IsAlnum(ch) {
        output := output + [ch];
      } else {
        output := output + [PERCENT, HexDigit(ch / 16), HexDigit(ch % 16)];
      }
    }
    assert str[..|str|] == str;
  }

  lemma Associate(a: seq<Byte>, b: seq<Byte>, c: seq<Byte>)
    ensures (a + b) + c == a + (b + c)
  {
  }

  /** One turn of the decoding loop at position `i`. */
  lemma DecodeAt(str: seq<Byte>, i: nat)
    requires i < |str|
    ensures str[i] != PERCENT ==> Decode(str[i..]) == [str[i]] + Decode(str[i + 1..])
    ensures str[i] == PERCENT && i + 3 > |str| ==> Decode(str[i..]) == str[i..]
    ensures str[i] == PERCENT && i + 3 <= |str| ==>
      var ch := HexStrToBin(str[i + 1], str[i + 2]);
      Decode(str[i..]) == (if ch == -1 then str[i..i + 3] else [ToByte(ch)]) + Decode(str[i + 3..])
  {
    var s := str[i..];
    assert s[1..] == str[i + 1..];
    if i + 3 <= |str| {
      assert s[3..] == str[i + 3..] && s[..3] == str[i..i + 3];
    }
  }

  method UrlDecode(str: seq<Byte>) returns (output: seq<Byte>)
    ensures output == Decode(str)
  {
    output := [];
    var i := 0;
    while i < |str|
      invariant i <= |str|
      invariant output + Decode(str[i..]) == Decode(str)
    {
      DecodeAt(str, i);
      hide Decode, HexStrToBin;
      ghost var before, at := output, i;
      if str[i] == PERCENT {
        if i + 3 > |str| {
          output := output + str[i..];
          return;
        }
        var ch := HexStrToBin(str[i + 1], str[i + 2]);
        if ch == -1 {
          output := output + str[i..i + 3];
          Associate(before, str[at..at + 3], Decode(str[at + 3..]));
        } else {
          output := output + [ToByte(ch)];
          Associate(before, [ToByte(ch)], Decode(str[at + 3..]));
        }
        i := i + 3;
      } else {
        output := output + [str[i]];
        Associate(before, [str[at]], Decode(str[at + 1..]));
        i := i + 1;
      }
    }
    assert str[i..] == [] && output + [] == output;
  }

  // ---------------------------------------------------------------- round trip

  /** What a byte becomes on the way through: only 255 changes, into the text `%FF`. */
  function Survive(b: Byte): seq<Byte> {
    if b == 255 then [PERCENT, 70, 70] else [b]
  }

  function Survivors(s: seq<Byte>): seq<Byte> {
    if s == [] then [] else Survive(s[0]) + Survivors(s[1..])
  }

  /** Both cases of a hexadecimal digit read the same. */
  lemma HexDigitsRead(n: int)
    requires 0 <= n < 16
    ensures HexCharToBin(HexDigit(n)) == n
    ensures n >= 10 ==> HexCharToBin(HexDigit(n) + 32) == n
  {
  }

  lemma EscapeReads(b: Byte)
    ensures HexStrToBin(HexDigit(b / 16), HexDigit(b % 16)) == SignedChar(b)
    ensures HexStrToBin(HexDigit(b / 16), HexDigit(b % 16)) == -1 <==> b == 255
  {
    HexDigitsRead(b / 16);
    HexDigitsRead(b % 16);
    assert b / 16 * 16 + b % 16 == b;
  }

  lemma DecodeEncodedByte(b: Byte, rest: seq<Byte>)
    ensures Decode(EncodeByte(b) + rest) == Survive(b) + Decode(rest)
  {
    var s := EncodeByte(b) + rest;
    if IsAlnum(b) {
      assert s[1..] == rest;
    } else {
      EscapeReads(b);
      assert s[3..] == rest;
      assert s[..3] == EncodeByte(b);
    }
  }

  /** Decoding an encoding gives every byte back, except that each 255 comes back as `%FF`. */
  lemma {:induction false} DecodeEncode(s: seq<Byte>)
    ensures Decode(Encode(s)) == Survivors(s)
  {
    if s != [] {
      DecodeEncodedByte(s[0], Encode(s[1..]));
      DecodeEncode(s[1..]);
    }
  }

  lemma {:induction false} SurvivorsSize(s: seq<Byte>)
    ensures |Survivors(s)| >= |s|
    ensures 255 !in s ==> Survivors(s) == s
    ensures 255 in s ==> |Survivors(s)| > |s|
  {
    if s != [] {
      SurvivorsSize(s[1..]);
    }
  }

  /** The round trip is exact if and only if the text holds no byte 255. */
  lemma RoundTripIff(s: seq<Byte>)
    ensures Decode(Encode(s)) == s <==> 255 !in s
  {
    DecodeEncode(s);
    SurvivorsSize(s);
  }

  /** Encoding loses nothing, the byte 255 included. */
  lemma {:induction false} EncodeInjective(s: seq<Byte>, t: seq<Byte>)
    requires Encode(s) == Encode(t)
    ensures s == t
  {
    if s != [] && t != [] {
      var a, b := EncodeByte(s[0]), EncodeByte(t[0]);
      assert Encode(s)[0] == a[0] && Encode(t)[0] == b[0];
      assert |a| == |b|;
      assert Encode(s)[..|a|] == a && Encode(t)[..|b|] == b;
      if |a| == 3 {
        assert a[1] == b[1] && a[2] == b[2];
        HexDigitsRead(s[0] / 16);
        HexDigitsRead(t[0] / 16);
        HexDigitsRead(s[0] % 16);
        HexDigitsRead(t[0] % 16);
      }
      assert Encode(s)[|a|..] == Encode(s[1..]) && Encode(t)[|b|..] == Encode(t[1..]);
      EncodeInjective(s[1..], t[1..]);
    }
  }

  /** Encoded text is letters, digits and `%` only, so it contains no separator. */
  lemma {:induction false} EncodeAlphabet(s: seq<Byte>)
    ensures forall b <- Encode(s) :: 48 <= b <= 57 || 65 <= b <= 90 || 97 <= b <= 122 || b == 37
  {
    if s != [] {
      EncodeAlphabet(s[1..]);
    }
  }

  // ---------------------------------------------------------------- arbitrary input

  /** The decoder's scan of `s` ends at the end of `s`, not inside an unfinished escape. */
  predicate Complete(s: seq<Byte>) {
    if s == [] then true
    else if s[0] != PERCENT then Complete(s[1..])
    else |s| >= 3 && Complete(s[3..])
  }

  /** Decoding goes piece by piece wherever the first piece is complete. */
  lemma {:induction false} DecodeConcat(s: seq<Byte>, t: seq<Byte>)
    requires Complete(s)
    ensures Decode(s + t) == Decode(s) + Decode(t)
    decreases |s|
  {
    if s == [] {
      assert s + t == t;
    } else if s[0] != PERCENT {
      assert (s + t)[1..] == s[1..] + t;
      DecodeConcat(s[1..], t);
    } else {
      assert (s + t)[3..] == s[3..] + t && (s + t)[..3] == s[..3];
      DecodeConcat(s[3..], t);
    }
  }

  /** And nowhere else: behind an unfinished escape the text `%A1` is not read as it is by itself. */
  lemma CompleteIff(s: seq<Byte>)
    ensures Complete(s) <==> forall t :: Decode(s + t) == Decode(s) + Decode(t)
  {
    if Complete(s) {
      forall t ensures Decode(s + t) == Decode(s) + Decode(t) {
        DecodeConcat(s, t);
      }
    } else {
      UnfinishedDiffers(s);
    }
  }

  lemma {:induction false} UnfinishedDiffers(s: seq<Byte>)
    requires !Complete(s)
    ensures Decode(s + [37, 65, 49]) != Decode(s) + Decode([37, 65, 49])
    decreases |s|
  {
    var t: seq<Byte> := [37, 65, 49];
    assert t[3..] == [] && Decode(t) == [161];
    if s[0] != PERCENT {
      assert (s + t)[1..] == s[1..] + t;
      UnfinishedDiffers(s[1..]);
      Cancel([s[0]], Decode(s[1..] + t), Decode(s[1..]) + [161]);
      assert [s[0]] + Decode(s[1..]) + [161] == [s[0]] + (Decode(s[1..]) + [161]);
    } else if |s| >= 3 {
      var first := if HexStrToBin(s[1], s[2]) == -1 then s[..3] else [ToByte(HexStrToBin(s[1], s[2]))];
      assert (s + t)[3..] == s[3..] + t && (s + t)[..3] == s[..3];
      UnfinishedDiffers(s[3..]);
      Cancel(first, Decode(s[3..] + t), Decode(s[3..]) + [161]);
      assert first + Decode(s[3..]) + [161] == first + (Decode(s[3..]) + [161]);
    } else if |s| == 1 {
      assert s + t == [37, 37, 65, 49] && (s + t)[3..] == [49] && (s + t)[..3] == [37, 37, 65];
      assert Decode([49]) == [49] + Decode([]);
      assert (Decode(s) + [161])[1] != Decode(s + t)[1];
    } else {
      assert s + t == [37, s[1], 37, 65, 49] && (s + t)[3..] == [65, 49] && (s + t)[..3] == [37, s[1], 37];
      assert [65, 49][1..] == [49] && Decode([65, 49]) == [65] + Decode([49]);
      assert (Decode(s) + [161])[2] != Decode(s + t)[2];
    }
  }

  lemma Cancel(a: seq<Byte>, x: seq<Byte>, y: seq<Byte>)
    requires x != y
    ensures a + x != a + y
  {
    assert (a + x)[|a|..] == x && (a + y)[|a|..] == y;
  }

  /** The byte `digit` spells the hexadecimal digit of value `n`, in either case. */
  predicate SpellsDigit(digit: Byte, n: nat) {
    n < 16 && (if n < 10 then digit == 48 + n else digit == 55 + n || digit == 87 + n)
  }

  /** Digits, `A` to `F` and `a` to `f`. */
  predicate IsHexDigit(b: Byte) {
    48 <= b <= 57 || 65 <= b <= 70 || 97 <= b <= 102
  }

  /** What two bytes read as: the `char` of the byte that two digits spell, or -1. */
  lemma PairReads(first: Byte, second: Byte, high: nat, low: nat)
    ensures SpellsDigit(first, high) && SpellsDigit(second, low) ==>
      var ch := HexStrToBin(first, second);
      (ch == -1 <==> 16 * high + low == 255) && (ch != -1 ==> ToByte(ch) == 16 * high + low)
    ensures !(IsHexDigit(first) && IsHexDigit(second)) ==> HexStrToBin(first, second) == -1
  {
  }

  /** Every digit spells a value, and nothing else does. */
  lemma DigitsSpell(b: Byte)
    ensures IsHexDigit(b) <==> exists n :: SpellsDigit(b, n)
  {
    if IsHexDigit(b) {
      assert SpellsDigit(b, if b <= 57 then b - 48 else if b <= 70 then b - 55 else b - 87);
    }
  }

  // The decoder on every input, from the front: four cases, which leave none out.

  /** A byte other than 37, the percent sign, stays. */
  lemma DecodePlain(b: Byte, rest: seq<Byte>)
    ensures Decode([]) == []
    ensures b != 37 ==> Decode([b] + rest) == [b] + Decode(rest)
  {
    assert ([b] + rest)[1..] == rest;
  }

  /** A percent sign with fewer than two bytes after it ends the scan, and all is kept. */
  lemma DecodeTruncated(rest: seq<Byte>)
    requires |rest| < 2
    ensures Decode([37] + rest) == [37] + rest
  {
  }

  /** A percent sign and two digits become the byte that the digits spell, unless that is 255. */
  lemma DecodeEscape(first: Byte, second: Byte, rest: seq<Byte>, high: nat, low: nat)
    requires SpellsDigit(first, high) && SpellsDigit(second, low)
    ensures 16 * high + low != 255 ==> Decode([37, first, second] + rest) == [16 * high + low] + Decode(rest)
    ensures 16 * high + low == 255 ==> Decode([37, first, second] + rest) == [37, first, second] + Decode(rest)
  {
    PairReads(first, second, high, low);
    DecodeThree(first, second, rest);
  }

  /** A percent sign and two bytes that are not both digits stay. */
  lemma DecodeMalformed(first: Byte, second: Byte, rest: seq<Byte>)
    requires !(IsHexDigit(first) && IsHexDigit(second))
    ensures Decode([37, first, second] + rest) == [37, first, second] + Decode(rest)
  {
    PairReads(first, second, 0, 0);
    DecodeThree(first, second, rest);
  }

  lemma DecodeThree(first: Byte, second: Byte, rest: seq<Byte>)
    ensures var ch := HexStrToBin(first, second);
      Decode([37, first, second] + rest) == (if ch == -1 then [37, first, second] else [ToByte(ch)]) + Decode(rest)
  {
    hide HexStrToBin, ToByte;
    var s := [37, first, second] + rest;
    assert s[3..] == rest && s[..3] == [37, first, second];
  }

  /** The encoder on every input, from the front: letters and digits stay, and any other byte becomes a
      percent sign and the upper-case digits that spell it. */
  lemma EncodeCases(b: Byte, rest: seq<Byte>)
    ensures Encode([]) == []
    ensures (48 <= b <= 57 || 65 <= b <= 90 || 97 <= b <= 122) ==> Encode([b] + rest) == [b] + Encode(rest)
    ensures !(48 <= b <= 57 || 65 <= b <= 90 || 97 <= b <= 122) ==>
      exists high: Byte, low: Byte ::
        && Encode([b] + rest) == [37, high, low] + Encode(rest)
        && SpellsDigit(high, b / 16) && SpellsDigit(low, b % 16) && high < 97 && low < 97
  {
    assert ([b] + rest)[1..] == rest;
    if !(48 <= b <= 57 || 65 <= b <= 90 || 97 <= b <= 122) {
      var high: Byte, low: Byte := HexDigit(b / 16), HexDigit(b % 16);
      assert Encode([b] + rest) == [37, high, low] + Encode(rest);
    }
  }

  /** An escape that the decoder rewrites, at the head of `s`: two digits, not both of value 15. */
  predicate LiveEscape(s: seq<Byte>) {
    && |s| >= 3 && s[0] == 37 && IsHexDigit(s[1]) && IsHexDigit(s[2])
    && !(s[1] in {70, 102} && s[2] in {70, 102})
  }

  /** Where the decoder's scan of `s` meets an escape that it rewrites. */
  predicate HasLiveEscape(s: seq<Byte>) {
    if s == [] then false
    else if s[0] != 37 then HasLiveEscape(s[1..])
    else |s| >= 3 && (LiveEscape(s) || HasLiveEscape(s[3..]))
  }

  lemma LiveIff(s: seq<Byte>)
    requires |s| >= 3 && s[0] == 37
    ensures LiveEscape(s) <==> HexStrToBin(s[1], s[2]) != -1
  {
  }

  /** Exactly the texts that decoding leaves alone: malformed and truncated escapes, and `%FF`,
      are kept as they stand. */
  lemma {:induction false} DecodeIdentityIff(s: seq<Byte>)
    ensures Decode(s) == s <==> !HasLiveEscape(s)
    ensures HasLiveEscape(s) ==> |Decode(s)| < |s|
    decreases |s|
  {
    if s != [] {
      if s[0] != PERCENT {
        DecodeIdentityIff(s[1..]);
      } else if |s| >= 3 {
        DecodeIdentityIff(s[3..]);
        LiveIff(s);
        assert s == s[..3] + s[3..];
      }
    }
  }
}
