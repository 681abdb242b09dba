/** Base58 text of keys, nonces and signatures, with each leading zero byte written as a '1'. */
module Base58 {
  import opened Wrappers
  import opened Numerals

  datatype EncodingError = EmptyInput | InvalidCharacter(c: char)

  /** The Bitcoin alphabet: digits and letters in ASCII order without 0, I, O and l. */
  function Symbol(d: int): char
    requires 0 <= d < 58
  {
    if d < 9 then '1' + d as char
    else if d < 17 then 'A' + (d - 9) as char
    else if d < 22 then 'J' + (d - 17) as char
    else if d < 33 then 'P' + (d - 22) as char
    else if d < 44 then 'a' + (d - 33) as char
    else 'm' + (d - 44) as char
  }

  function DigitOf(c: char): Option<int> {
    if '1' <= c <= '9' then Some(c as int - '1' as int)
    else if 'A' <= c <= 'H' then Some(c as int - 'A' as int + 9)
    else if 'J' <= c <= 'N' then Some(c as int - 'J' as int + 17)
    else if 'P' <= c <= 'Z' then Some(c as int - 'P' as int + 22)
    else if 'a' <= c <= 'k' then Some(c as int - 'a' as int + 33)
    else if 'm' <= c <= 'z' then Some(c as int - 'm' as int + 44)
    else None
  }

  lemma SymbolsAreDistinct(d: int)
    requires 0 <= d < 58
    ensures DigitOf(Symbol(d)) == Some(d)
  {
  }

  lemma DigitsNameSymbols(c: char)
    ensures DigitOf(c).Some? ==> 0 <= DigitOf(c).value < 58 && Symbol(DigitOf(c).value) == c
    ensures DigitOf(c) == Some(0) <==> c == '1'
  {
  }

  lemma AlphabetIsBitcoins()
    ensures [Symbol(0), Symbol(1), Symbol(2), Symbol(3), Symbol(4), Symbol(5), Symbol(6), Symbol(7),
             Symbol(8), Symbol(9), Symbol(10), Symbol(11), Symbol(12), Symbol(13), Symbol(14), Symbol(15),
             Symbol(16), Symbol(17), Symbol(18), Symbol(19), Symbol(20), Symbol(21), Symbol(22), Symbol(23),
             Symbol(24), Symbol(25), Symbol(26), Symbol(27), Symbol(28), Symbol(29), Symbol(30), Symbol(31),
             Symbol(32), Symbol(33), Symbol(34), Symbol(35), Symbol(36), Symbol(37), Symbol(38), Symbol(39),
             Symbol(40), Symbol(41), Symbol(42), Symbol(43), Symbol(44), Symbol(45), Symbol(46), Symbol(47),
             Symbol(48), Symbol(49), Symbol(50), Symbol(51), Symbol(52), Symbol(53), Symbol(54), Symbol(55),
             Symbol(56), Symbol(57)
            ] == "123456789ABCDEFGHJKLMNPQRSTUVWXYZabcdefghijkmnopqrstuvwxyz"
  {
  }

  predicate ValidText(s: string) { forall i | 0 <= i < |s| :: DigitOf(s[i]).Some? }

  function Spell(digits: seq<int>): (s: string)
    requires Digits(digits, 58)
    ensures |s| == |digits| && forall i | 0 <= i < |s| :: s[i] == Symbol(digits[i])
  {
    seq(|digits|, i requires 0 <= i < |digits| => Symbol(digits[i]))
  }

  function DigitsOf(s: string): (d: seq<int>)
    requires ValidText(s)
    ensures |d| == |s| && Digits(d, 58) && forall i | 0 <= i < |s| :: DigitOf(s[i]) == Some(d[i])
  {
    seq(|s|, i requires 0 <= i < |s| => DigitsNameSymbols(s[i]); DigitOf(s[i]).value)
  }

  lemma SpellingRoundTrips(s: string)
    requires ValidText(s)
    ensures Spell(DigitsOf(s)) == s
  {
    forall i | 0 <= i < |s| ensures Spell(DigitsOf(s))[i] == s[i] {
      DigitsNameSymbols(s[i]);
    }
  }

  lemma SpelledDigits(digits: seq<int>)
    requires Digits(digits, 58)
    ensures ValidText(Spell(digits)) && DigitsOf(Spell(digits)) == digits
  {
    forall i | 0 <= i < |digits| ensures DigitOf(Spell(digits)[i]) == Some(digits[i]) {
      SymbolsAreDistinct(digits[i]);
    }
  }

  // Hexadecimal, as the decoder goes through it.

  /** The bytes that pairs of hexadecimal digits denote. */
  function Pairs(hex: seq<int>): seq<int>
    requires |hex| % 2 == 0
  {
    if hex == [] then [] else Pairs(hex[..|hex| - 2]) + [hex[|hex| - 2] * 16 + hex[|hex| - 1]]
  }

  /** The text of n in base 16, at least two digits, and an even number of them. */
  function PaddedHex(n: int): (hex: seq<int>)
    requires n >= 0
    ensures |hex| % 2 == 0
  {
    var digits := if n == 0 then [0] else ToDigits(n, 16);
    var atLeastTwo := if |digits| < 2 then Zeros(2 - |digits|) + digits else digits;
    if |atLeastTwo| % 2 == 0 then atLeastTwo else [0] + atLeastTwo
  }

  lemma ValuePush(s: seq<int>, d: int, b: int)
    ensures Value(s + [d], b) == Value(s, b) * b + d
  {
    assert (s + [d])[..|s|] == s;
  }

  lemma {:induction false} PairsKeepValue(hex: seq<int>)
    requires |hex| % 2 == 0 && Digits(hex, 16)
    ensures |Pairs(hex)| == |hex| / 2 && Digits(Pairs(hex), 256)
    ensures Value(Pairs(hex), 256) == Value(hex, 16)
    ensures hex != [] ==> Pairs(hex)[0] == hex[0] * 16 + hex[1]
  {
    hide Value;
    if hex == [] {
      EmptyValue(16);
      EmptyValue(256);
    } else {
      var front, h, l := hex[..|hex| - 2], hex[|hex| - 2], hex[|hex| - 1];
      PairsKeepValue(front);
      ValuePush(front, h, 16);
      ValuePush(front + [h], l, 16);
      ValuePush(Pairs(front), h * 16 + l, 256);
      assert hex == front + [h] + [l];
    }
  }

  lemma EmptyValue(b: int)
    ensures Value([], b) == 0
  {
  }

  lemma HexBytesOfZero()
    ensures Pairs(PaddedHex(0)) == [0]
  {
    assert PaddedHex(0) == [0, 0];
    assert Pairs([0, 0][..0]) == [];
  }

  /** Going through hexadecimal gives the shortest byte string of n, and one zero byte for zero. */
  lemma HexBytes(n: int)
    requires n >= 0
    ensures Pairs(PaddedHex(n)) == if n == 0 then [0] else ToDigits(n, 256)
  {
    hide Pairs, ToDigits, Value;
    if n == 0 {
      HexBytesOfZero();
    } else {
      var hex, digits := PaddedHex(n), ToDigits(n, 16);
      ToDigitsIsNumeral(n, 16);
      var zeros := |hex| - |digits|;
      assert zeros <= 1 && hex == Zeros(zeros) + digits;
      LeadingZerosDoNotCount(zeros, digits, 16);
      PairsKeepValue(hex);
      assert hex[0] != 0 || hex[1] != 0;
      NumeralIsUnique(Pairs(hex), 256);
    }
  }

  // The two functions.

  function Ones(k: nat): (s: string)
    ensures |s| == k && forall i | 0 <= i < k :: s[i] == '1'
  {
    seq(k, _ => '1')
  }

  function Encoded(bytes: seq<int>): string
    requires Digits(bytes, 256)
  {
    ValueNonNegative(bytes, 256);
    ToDigitsIsNumeral(Value(bytes, 256), 58);
    Ones(LeadingZeros(bytes)) + Spell(ToDigits(Value(bytes, 256), 58))
  }

  function Decoded(s: string): seq<int>
    requires ValidText(s)
  {
    var digits := DigitsOf(s);
    ValueNonNegative(digits, 58);
    Zeros(LeadingZeros(digits)) + Pairs(PaddedHex(Value(digits, 58)))
  }

  predicate AllZeroBytes(bytes: seq<int>) { forall i | 0 <= i < |bytes| :: bytes[i] == 0 }

  predicate AllOnes(s: string) { forall i | 0 <= i < |s| :: s[i] == '1' }

  lemma NumeralsHaveNoLeadingZero(k: nat, n: int, b: int)
    requires n >= 0 && b >= 2
    ensures LeadingZeros(Zeros(k) + ToDigits(n, b)) == k
    ensures Digits(Zeros(k) + ToDigits(n, b), b) && Value(Zeros(k) + ToDigits(n, b), b) == n
  {
    ToDigitsIsNumeral(n, b);
    LeadingZerosUnique(Zeros(k) + ToDigits(n, b), k);
    LeadingZerosDoNotCount(k, ToDigits(n, b), b);
  }

  lemma ZeroBytesHaveNoValue(s: seq<int>, b: int)
    requires Digits(s, b) && b >= 2
    ensures Value(s, b) == 0 <==> LeadingZeros(s) == |s|
  {
    ZerosAndNumeral(s, b);
    ToDigitsIsNumeral(Value(s, b), b);
  }

  lemma SpellPadded(k: nat, digits: seq<int>)
    requires Digits(digits, 58)
    ensures Digits(Zeros(k) + digits, 58) && Spell(Zeros(k) + digits) == Ones(k) + Spell(digits)
  {
    SymbolsAreDistinct(0);
  }

  /** The encoded text spells the zeros and the numeral together. */
  lemma EncodedDigits(bytes: seq<int>)
    requires Digits(bytes, 256)
    ensures ValidText(Encoded(bytes)) && Value(bytes, 256) >= 0
    ensures DigitsOf(Encoded(bytes)) == Zeros(LeadingZeros(bytes)) + ToDigits(Value(bytes, 256), 58)
  {
    ValueNonNegative(bytes, 256);
    hide Value, ToDigits, LeadingZeros, Spell, DigitsOf, ValidText;
    var n, k := Value(bytes, 256), LeadingZeros(bytes);
    NumeralsHaveNoLeadingZero(k, n, 58);
    ToDigitsIsNumeral(n, 58);
    SpellPadded(k, ToDigits(n, 58));
    SpelledDigits(Zeros(k) + ToDigits(n, 58));
  }

  lemma DecodedBytes(s: string)
    requires ValidText(s)
    ensures var n := Value(DigitsOf(s), 58);
            && n >= 0
            && Decoded(s) == Zeros(LeadingZeros(DigitsOf(s))) + (if n == 0 then [0] else ToDigits(n, 256))
            && Digits(Decoded(s), 256)
  {
    var n := Value(DigitsOf(s), 58);
    ValueNonNegative(DigitsOf(s), 58);
    HexBytes(n);
    ToDigitsIsNumeral(n, 256);
  }

  // What number and which zeros are written, in powers of the base.

  function Power(b: int, n: nat): int { if n == 0 then 1 else b * Power(b, n - 1) }

  /** The sum of each digit times its power of the base. */
  function PlaceValue(s: seq<int>, b: int): int {
    if s == [] then 0 else s[0] * Power(b, |s| - 1) + PlaceValue(s[1..], b)
  }

  lemma {:induction false} PlacePush(s: seq<int>, d: int, b: int)
    ensures PlaceValue(s + [d], b) == PlaceValue(s, b) * b + d
  {
    if s == [] {
      assert (s + [d])[1..] == [] && (s + [d])[0] == d;
    } else {
      PlacePush(s[1..], d, b);
      assert (s + [d])[1..] == s[1..] + [d];
      var p := Power(b, |s| - 1);
      assert Power(b, |s|) == b * p;
      assert s[0] * (b * p) == s[0] * p * b;
    }
  }

  lemma {:induction false} ValueIsPlaceValue(s: seq<int>, b: int)
    ensures Value(s, b) == PlaceValue(s, b)
  {
    if s != [] {
      ValueIsPlaceValue(s[..|s| - 1], b);
      PlacePush(s[..|s| - 1], s[|s| - 1], b);
      assert s == s[..|s| - 1] + [s[|s| - 1]];
    }
  }

  /** The text denotes the number of the bytes, with a '1' for each zero byte before the first other one. */
  lemma EncodedDenotes(bytes: seq<int>)
    requires Digits(bytes, 256)
    ensures ValidText(Encoded(bytes))
    ensures PlaceValue(DigitsOf(Encoded(bytes)), 58) == PlaceValue(bytes, 256)
    ensures forall k: nat | k <= |bytes| && (forall i | 0 <= i < k :: bytes[i] == 0)
                            && (k < |bytes| ==> bytes[k] != 0) ::
              && k <= |Encoded(bytes)| && (forall i | 0 <= i < k :: Encoded(bytes)[i] == '1')
              && (k < |Encoded(bytes)| ==> Encoded(bytes)[k] != '1')
  {
    hide Value, ToDigits, Encoded, DigitsOf, PlaceValue;
    var n, z := Value(bytes, 256), LeadingZeros(bytes);
    EncodedDigits(bytes);
    NumeralsHaveNoLeadingZero(z, n, 58);
    ValueIsPlaceValue(bytes, 256);
    ValueIsPlaceValue(DigitsOf(Encoded(bytes)), 58);
    forall k: nat | k <= |bytes| && (forall i | 0 <= i < k :: bytes[i] == 0) && (k < |bytes| ==> bytes[k] != 0)
      ensures k == z
    {
      LeadingZerosUnique(bytes, k);
    }
    forall i | 0 <= i < |Encoded(bytes)| ensures Encoded(bytes)[i] == '1' <==> DigitsOf(Encoded(bytes))[i] == 0 {
      DigitsNameSymbols(Encoded(bytes)[i]);
    }
  }

  /** The bytes denote the number of the text. */
  lemma DecodedDenotes(s: string)
    requires ValidText(s)
    ensures PlaceValue(Decoded(s), 256) == PlaceValue(DigitsOf(s), 58)
  {
    hide Value, ToDigits, Decoded, DigitsOf, PlaceValue;
    var n, z := Value(DigitsOf(s), 58), LeadingZeros(DigitsOf(s));
    DecodedBytes(s);
    ValueIsPlaceValue(Decoded(s), 256);
    ValueIsPlaceValue(DigitsOf(s), 58);
    if n == 0 {
      LeadingZerosDoNotCount(z, [0], 256);
      ValueOfZero();
    } else {
      NumeralsHaveNoLeadingZero(z, n, 256);
    }
  }

  lemma ValueOfZero()
    ensures Value([0], 256) == 0
  {
    assert [0][..0] == [];
  }

  /** What the encoder answers: a text, or an error because BigInt('0x') is none. */
  function Encoding(bytes: seq<int>): Result<string, EncodingError>
    requires Digits(bytes, 256)
  {
    if bytes == [] then Failure(EmptyInput) else Success(Encoded(bytes))
  }

  /** Decoding undoes encoding exactly for the byte strings with a non-zero byte. */
  lemma DecodeUndoesEncode(bytes: seq<int>)
    requires Digits(bytes, 256)
    ensures Encoding(bytes).Failure? <==> bytes == []
    ensures Encoding(bytes).Success? ==>
              var text := Encoding(bytes).value;
              && ValidText(text)
              && (Decoded(text) == bytes <==> !AllZeroBytes(bytes))
              && (AllZeroBytes(bytes) ==> Decoded(text) == Zeros(|bytes| + 1))
  {
    EncodedDigits(bytes);
    DecodedBytes(Encoded(bytes));
    var n := Value(bytes, 256);
    NumeralsHaveNoLeadingZero(LeadingZeros(bytes), n, 58);
    ZerosAndNumeral(bytes, 256);
    ZeroBytesHaveNoValue(bytes, 256);
    if n == 0 {
      assert AllZeroBytes(bytes);
      assert Zeros(|bytes|) + [0] == Zeros(|bytes| + 1);
    } else {
      assert bytes[LeadingZeros(bytes)] != 0;
    }
  }

  lemma AllOnesHasNoValue(s: string)
    requires ValidText(s)
    ensures AllOnes(s) <==> Value(DigitsOf(s), 58) == 0
    ensures AllOnes(s) ==> LeadingZeros(DigitsOf(s)) == |s|
  {
    var d := DigitsOf(s);
    ZeroBytesHaveNoValue(d, 58);
    forall i | 0 <= i < |s| ensures s[i] == '1' <==> d[i] == 0 {
      DigitsNameSymbols(s[i]);
    }
    if AllOnes(s) {
      LeadingZerosUnique(d, |s|);
    }
  }

  /** Encoding undoes decoding exactly for the texts with a character other than '1'. */
  lemma EncodeUndoesDecode(s: string)
    requires ValidText(s)
    ensures Digits(Decoded(s), 256)
    ensures Encoded(Decoded(s)) == s <==> !AllOnes(s)
    ensures AllOnes(s) ==> Decoded(s) == Zeros(|s| + 1)
  {
    var d := DigitsOf(s);
    var n, k := Value(d, 58), LeadingZeros(d);
    DecodedBytes(s);
    AllOnesHasNoValue(s);
    if n == 0 {
      assert Zeros(k) + [0] == Zeros(k + 1);
      LeadingZerosUnique(Decoded(s), k + 1);
      EncodedDigits(Decoded(s));
      assert |Encoded(Decoded(s))| >= k + 1;
    } else {
      NumeralsHaveNoLeadingZero(k, n, 256);
      EncodedDigits(Decoded(s));
      ZerosAndNumeral(d, 58);
      SpellingRoundTrips(Encoded(Decoded(s)));
      SpellingRoundTrips(s);
    }
  }

  /** Comparing decoded keys is comparing their texts. */
  lemma DecodeIsInjective(s: string, t: string)
    requires ValidText(s) && ValidText(t) && Decoded(s) == Decoded(t)
    ensures s == t
  {
    EncodeUndoesDecode(s);
    EncodeUndoesDecode(t);
    if AllOnes(s) != AllOnes(t) {
      OnlyOnesDecodeToZeros(s);
      OnlyOnesDecodeToZeros(t);
    } else if AllOnes(s) {
      assert |s| == |t|;
      assert s == Ones(|s|) && t == Ones(|t|);
    }
  }

  lemma OnlyOnesDecodeToZeros(s: string)
    requires ValidText(s)
    ensures AllOnes(s) <==> AllZeroBytes(Decoded(s))
  {
    var n := Value(DigitsOf(s), 58);
    DecodedBytes(s);
    AllOnesHasNoValue(s);
    ToDigitsIsNumeral(n, 256);
    if n > 0 {
      var k := LeadingZeros(DigitsOf(s));
      assert Decoded(s)[k] == ToDigits(n, 256)[0];
    }
  }

  // The service's own loops.

  lemma SpellStep(n: int)
    requires n > 0
    ensures 0 <= n / 58 < n && Digits(ToDigits(n, 58), 58) && Digits(ToDigits(n / 58, 58), 58)
    ensures Spell(ToDigits(n, 58)) == Spell(ToDigits(n / 58, 58)) + [Symbol(n % 58)]
  {
    QuotientShrinks(n, 58);
    ToDigitsIsNumeral(n, 58);
    ToDigitsIsNumeral(n / 58, 58);
  }

  /** Digits by repeated division, least significant first. */
  method SpellNumeral(value: int) returns (result: string)
    requires value >= 0
    ensures Digits(ToDigits(value, 58), 58) && result == Spell(ToDigits(value, 58))
  {
    hide ToDigits, Spell;
    var n := value;
    result := "";
    ToDigitsIsNumeral(value, 58);
    SpellZero();
    while n > 0
      invariant n >= 0 && Digits(ToDigits(n, 58), 58)
      invariant Spell(ToDigits(n, 58)) + result == Spell(ToDigits(value, 58))
    {
      SpellStep(n);
      result := [Symbol(n % 58)] + result;
      n := n / 58;
    }
    assert "" + result == result;
  }

  lemma SpellZero()
    ensures ToDigits(0, 58) == [] && Spell([]) == ""
  {
  }

  method Base58Encode(bytes: Bytes) returns (text: Result<string, EncodingError>)
    ensures text == Encoding(bytes)
  {
    hide ToDigits, Spell, Value;
    if bytes == [] {
      return Failure(EmptyInput); // BigInt('0x') is a syntax error
    }
    ValueNonNegative(bytes, 256);
    var n := BigEndian(bytes);
    var result := SpellNumeral(n);
    var zeros := CountLeading(bytes);
    return Success(Ones(zeros) + result);
  }

  method BigEndian(bytes: Bytes) returns (n: int)
    ensures n == Value(bytes, 256)
  {
    n := 0;
    for i := 0 to |bytes|
      invariant n == Value(bytes[..i], 256)
    {
      ValuePush(bytes[..i], bytes[i], 256);
      assert bytes[..i + 1] == bytes[..i] + [bytes[i]];
      n := n * 256 + bytes[i];
    }
    assert bytes[..|bytes|] == bytes;
  }

  method CountLeading(s: seq<int>) returns (k: nat)
    ensures k == LeadingZeros(s)
  {
    k := 0;
    while k < |s| && s[k] == 0
      invariant k <= |s| && forall i | 0 <= i < k :: s[i] == 0
    {
      k := k + 1;
    }
    LeadingZerosUnique(s, k);
  }

  lemma DigitsOfPush(s: string, c: char)
    requires ValidText(s) && DigitOf(c).Some?
    ensures ValidText(s + [c]) && DigitsOf(s + [c]) == DigitsOf(s) + [DigitOf(c).value]
    ensures Value(DigitsOf(s + [c]), 58) == Value(DigitsOf(s), 58) * 58 + DigitOf(c).value
  {
    hide DigitOf;
    DigitsNameSymbols(c);
    ValuePush(DigitsOf(s), DigitOf(c).value, 58);
  }

  /** c is the first character of s outside the alphabet. */
  ghost predicate FirstInvalid(s: string, c: char) {
    exists i | 0 <= i < |s| :: s[i] == c && DigitOf(c) == None && ValidText(s[..i])
  }

  /** The number a text denotes, or its first character outside the alphabet. */
  method ReadNumeral(s: string) returns (n: Result<int, EncodingError>)
    ensures ValidText(s) ==> n == Success(Value(DigitsOf(s), 58))
    ensures !ValidText(s) ==> n.Failure? && n.error.InvalidCharacter? && FirstInvalid(s, n.error.c)
  {
    hide DigitOf, Value, DigitsOf;
    var sum := 0;
    EmptyNumeral();
    for i := 0 to |s|
      invariant ValidText(s[..i]) && sum == Value(DigitsOf(s[..i]), 58)
    {
      var digit := DigitOf(s[i]);
      if digit == None {
        return Failure(InvalidCharacter(s[i]));
      }
      DigitsOfPush(s[..i], s[i]);
      assert s[..i + 1] == s[..i] + [s[i]];
      sum := sum * 58 + digit.value;
    }
    assert s[..|s|] == s;
    return Success(sum);
  }

  lemma EmptyNumeral()
    ensures DigitsOf("") == [] && Value([], 58) == 0
  {
  }

  method CountOnes(s: string) returns (k: nat)
    requires ValidText(s)
    ensures k == LeadingZeros(DigitsOf(s))
  {
    k := 0;
    while k < |s| && s[k] == '1'
      invariant k <= |s| && forall i | 0 <= i < k :: s[i] == '1'
    {
      k := k + 1;
    }
    forall i | 0 <= i < |s| ensures s[i] == '1' <==> DigitsOf(s)[i] == 0 {
      DigitsNameSymbols(s[i]);
    }
    LeadingZerosUnique(DigitsOf(s), k);
  }

  method Base58Decode(s: string) returns (bytes: Result<Bytes, EncodingError>)
    ensures ValidText(s) ==> Digits(Decoded(s), 256) && bytes == Success(Decoded(s))
    ensures !ValidText(s) ==> bytes.Failure? && bytes.error.InvalidCharacter? && FirstInvalid(s, bytes.error.c)
  {
    hide DigitOf, Value, DigitsOf, PaddedHex, Pairs;
    var n := ReadNumeral(s);
    if n.Failure? {
      return Failure(n.error);
    }
    ValueNonNegative(DigitsOf(s), 58);
    DecodedBytes(s);
    var zeros := CountOnes(s);
    var decoded := Zeros(zeros) + Pairs(PaddedHex(n.value));
    assert decoded == Decoded(s);
    return Success(decoded);
  }
}
