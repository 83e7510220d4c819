/** The integer codec of `string/base64.h`: the URL-safe alphabet of section 5 of RFC 4648, used as
    the digits of a positional number and not as groups of octets. */
module Base64 {
  const UPPER: string := "ABCDEFGHIJKLMNOPQRSTUVWXYZ"
  const LOWER: string := "abcdefghijklmnopqrstuvwxyz"
  const OTHER: string := "0123456789-_"
  const ALPHABET: string := UPPER + LOWER + OTHER

  const WORD_LIMIT: nat := 0x1_0000_0000_0000_0000

  const MAX_ENCODED_STRING_SIZE: nat := 11

  datatype Decoded = Value(value: nat) | InvalidCharacter(c: char)

  /** `valid_character`. */
  predicate ValidCharacter(c: char) {
    'A' <= c <= 'Z' || 'a' <= c <= 'z' || '0' <= c <= '9' || c == '-' || c == '_'
  }

  /** `base64_map`: the place of a valid character in the alphabet. */
  function DigitOf(c: char): (d: nat)
    requires ValidCharacter(c)
    ensures d < 64
  {
    if 'A' <= c <= 'Z' then c as int - 'A' as int
    else if 'a' <= c <= 'z' then c as int - 'a' as int + 26
    else if '0' <= c <= '9' then c as int - '0' as int + 52
    else if c == '-' then 62
    else 63
  }

  predicate AllValid(s: string) {
    forall c <- s :: ValidCharacter(c)
  }

  /** The number that a string of digits stands for, without any limit on its size. */
  function Numeral(s: string): nat
    requires AllValid(s)
  {
    if s == "" then 0 else 64 * Numeral(s[..|s| - 1]) + DigitOf(s[|s| - 1])
  }

  /** `s` without its leading zeros. */
  function WithoutLeadingA(s: string): string {
    if s != "" && s[0] == 'A' then WithoutLeadingA(s[1..]) else s
  }

  lemma UpperDigits(d: nat)
    requires d < 26
    ensures |UPPER| == 26 && UPPER[d] as int == 'A' as int + d
  {}

  lemma LowerDigits(d: nat)
    requires d < 26
    ensures |LOWER| == 26 && LOWER[d] as int == 'a' as int + d
  {}

  lemma OtherDigits(d: nat)
    requires d < 12
    ensures |OTHER| == 12
    ensures OTHER[d] == if d < 10 then '0' + d as char else if d == 10 then '-' else '_'
  {}

  /** `base64_chars[d]`. */
  function CharOf(d: nat): (c: char)
    requires d < 64
    ensures ValidCharacter(c) && DigitOf(c) == d
  {
    if d < 26 then ('A' as int + d) as char
    else if d < 52 then ('a' as int + d - 26) as char
    else if d < 62 then ('0' as int + d - 52) as char
    else if d == 62 then '-'
    else '_'
  }

  lemma AlphabetIsCharOf(d: nat)
    requires d < 64
    ensures |ALPHABET| == 64 && ALPHABET[d] == CharOf(d)
  {
    hide UPPER, LOWER, OTHER;
    UpperDigits(0);
    LowerDigits(0);
    OtherDigits(0);
    if d < 26 { UpperDigits(d); } else if d < 52 { LowerDigits(d - 26); } else { OtherDigits(d - 52); }
  }

  /** A valid character is found again at its place in the alphabet. */
  lemma CharOfDigit(c: char)
    requires ValidCharacter(c)
    ensures CharOf(DigitOf(c)) == c
  {
    SameDigit(CharOf(DigitOf(c)), c);
  }

  lemma SameDigit(c: char, d: char)
    requires ValidCharacter(c) && ValidCharacter(d) && DigitOf(c) == DigitOf(d)
    ensures c == d
  {}

  lemma ZeroDigit()
    ensures CharOf(0) == 'A' && Digits(0) == "A"
  {
    var z: nat := 0;
    CharOfDigit('A');
    assert DigitOf('A') == z;
    assert CharOf(z) == 'A';
  }

  /** The shortest string of digits for a number. */
  function Digits(v: nat): string {
    if v < 64 then [CharOf(v)] else Digits(v / 64) + [CharOf(v % 64)]
  }

  /** The last digit of a number, in front of the digits that follow it. */
  lemma LastDigit(v: nat, rest: string)
    ensures Digits(v) + rest == (if v < 64 then "" else Digits(v / 64)) + ([CharOf(v % 64)] + rest)
  {}

  // ----- the two operations

  /** `encode`. */
  method Encode(value: nat) returns (encoded: string)
    requires value < WORD_LIMIT
    ensures encoded == Digits(value)
  {
    encoded := "";
    if value == 0 {
      ZeroDigit();
      encoded := "A";
    } else {
      hide Digits, CharOf, ALPHABET;
      var v: nat := value;
      while v > 0
        invariant v > 0 ==> Digits(v) + encoded == Digits(value)
        invariant v == 0 ==> encoded == Digits(value)
      {
        AlphabetIsCharOf(v % 64);
        LastDigit(v, encoded);
        encoded := [ALPHABET[v % 64]] + encoded;
        v := v / 64;
      }
    }
  }

  /** `decode`; the number wraps at 64 bits. */
  method Decode(str: string) returns (r: Decoded)
    ensures r == if AllValid(str) then Value(Numeral(str) % WORD_LIMIT) else InvalidCharacter(FirstInvalid(str))
  {
    var value := 0;
    for i := 0 to |str|
      invariant AllValid(str[..i])
      invariant value == Numeral(str[..i]) % WORD_LIMIT
    {
      var c := str[i];
      if !ValidCharacter(c) {
        FirstInvalidAt(str, i);
        return InvalidCharacter(c);
      }
      assert str[..i + 1] == str[..i] + [c];
      WrapStep(Numeral(str[..i]), DigitOf(c));
      value := (64 * value + DigitOf(c)) % WORD_LIMIT;
    }
    assert str[..|str|] == str;
    r := Value(value);
  }

  lemma WrapStep(x: nat, d: nat)
    ensures (64 * (x % WORD_LIMIT) + d) % WORD_LIMIT == (64 * x + d) % WORD_LIMIT
  {}

  function FirstInvalid(s: string): char
    requires !AllValid(s)
  {
    if !ValidCharacter(s[0]) then s[0] else FirstInvalid(s[1..])
  }

  lemma {:induction false} FirstInvalidAt(s: string, i: nat)
    requires i < |s| && AllValid(s[..i]) && !ValidCharacter(s[i])
    ensures !AllValid(s) && FirstInvalid(s) == s[i]
  {
    if i > 0 {
      assert ValidCharacter(s[0]) by { assert s[0] in s[..i]; }
      assert s[1..][..i - 1] == s[1..i];
      FirstInvalidAt(s[1..], i - 1);
    }
    assert s[i] in s;
  }

  // ----- round trips

  /** Decoding what was encoded gives the number back. */
  lemma {:induction false} NumeralOfDigits(v: nat)
    ensures AllValid(Digits(v)) && Numeral(Digits(v)) == v
  {
    if v >= 64 {
      NumeralOfDigits(v / 64);
      assert Digits(v)[..|Digits(v)| - 1] == Digits(v / 64);
    } else {
      assert Digits(v)[..0] == "";
    }
  }

  function Pow64(n: nat): nat {
    if n == 0 then 1 else 64 * Pow64(n - 1)
  }

  lemma {:induction false} DigitsLength(v: nat, n: nat)
    requires n > 0 && v < Pow64(n)
    ensures 0 < |Digits(v)| <= n
  {
    if v >= 64 { DigitsLength(v / 64, n - 1); }
  }

  /** A 64-bit number needs at most eleven characters. */
  lemma EncodedLength(v: nat)
    requires v < WORD_LIMIT
    ensures 0 < |Digits(v)| <= MAX_ENCODED_STRING_SIZE
  {
    assert Pow64(5) == 0x4000_0000;
    assert Pow64(8) == 0x1_0000_0000_0000;
    assert Pow64(11) == 64 * WORD_LIMIT / 16;
    DigitsLength(v, 11);
  }

  lemma {:induction false} WithoutLeadingAOfSnoc(p: string, c: char)
    ensures WithoutLeadingA(p + [c])
            == if WithoutLeadingA(p) == "" then (if c == 'A' then "" else [c]) else WithoutLeadingA(p) + [c]
  {
    if p == "" {
      assert p + [c] == [c];
    } else if p[0] == 'A' {
      assert (p + [c])[1..] == p[1..] + [c];
      WithoutLeadingAOfSnoc(p[1..], c);
    }
  }

  /** Encoding what was decoded drops the leading zeros, and keeps one digit for zero. */
  lemma {:induction false} DigitsOfNumeral(s: string)
    requires AllValid(s)
    ensures Numeral(s) == 0 <==> WithoutLeadingA(s) == ""
    ensures Digits(Numeral(s)) == if WithoutLeadingA(s) == "" then "A" else WithoutLeadingA(s)
  {
    ZeroDigit();
    hide Digits, CharOf, DigitOf;
    if s != "" {
      var p, c := s[..|s| - 1], s[|s| - 1];
      assert s == p + [c];
      DigitsOfNumeral(p);
      WithoutLeadingAOfSnoc(p, c);
      DigitsSnoc(Numeral(p), c);
    }
  }

  lemma DigitsSnoc(n: nat, c: char)
    requires ValidCharacter(c)
    ensures Digits(64 * n + DigitOf(c)) == if n == 0 then [c] else Digits(n) + [c]
    ensures c == 'A' <==> DigitOf(c) == 0
  {
    CharOfDigit(c);
    var v := 64 * n + DigitOf(c);
    assert v / 64 == n && v % 64 == DigitOf(c);
  }

  /** `decode(encode(v)) == v`, in at most eleven characters. */
  method EncodeThenDecode(v: nat) returns (s: string, r: Decoded)
    requires v < WORD_LIMIT
    ensures r == Value(v) && |s| <= MAX_ENCODED_STRING_SIZE
  {
    s := Encode(v);
    r := Decode(s);
    NumeralOfDigits(v);
    EncodedLength(v);
  }

  /** `encode(decode(s))` is `s` in canonical form, whenever its value fits. */
  method DecodeThenEncode(s: string) returns (r: Decoded, t: string)
    requires s != "" && AllValid(s) && Numeral(s) < WORD_LIMIT
    ensures r == Value(Numeral(s))
    ensures t == if WithoutLeadingA(s) == "" then "A" else WithoutLeadingA(s)
  {
    r := Decode(s);
    t := Encode(r.value);
    DigitsOfNumeral(s);
  }
}
