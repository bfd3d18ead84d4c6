/** Unicode scalar values and the hex code point notation of the emoji list.
    A Dafny `char` is a Unicode scalar value, so a Swift `String` seen through its
    `unicodeScalars` view is a Dafny `string`. */
module Scalars {
  import opened Wrappers

  /** Values `UnicodeScalar(_:)` accepts: up to U+10FFFF, surrogates excluded. */
  predicate IsScalarValue(v: int) {
    (0 <= v < 0xD800) || (0xE000 <= v <= 0x10FFFF)
  }

  /** The code points of a string, as the `UInt32` values Swift's `.value` gives. */
  function ScalarValues(s: string): (r: seq<int>)
    ensures |r| == |s|
    ensures forall i | 0 <= i < |s| :: r[i] == s[i] as int && IsScalarValue(r[i])
  {
    seq(|s|, i requires 0 <= i < |s| => s[i] as int)
  }

  /** Distinct strings have distinct code point sequences. */
  lemma ScalarValuesInjective(a: string, b: string)
    requires ScalarValues(a) == ScalarValues(b)
    ensures a == b
  {
    assert |a| == |b|;
    forall i | 0 <= i < |a| ensures a[i] == b[i] {
      assert a[i] as int == ScalarValues(a)[i] == b[i] as int;
    }
  }

  /** `uint32ToEmoji`: the one-scalar string for a valid scalar value, none otherwise. */
  function ScalarToEmoji(v: int): (r: Option<string>)
    ensures r.Some? <==> IsScalarValue(v)
    ensures r.Some? ==> ScalarValues(r.value) == [v]
  {
    if IsScalarValue(v) then Some([v as char]) else None
  }

  /** Value of a hex digit in either case. */
  function HexDigitValue(c: char): Option<int> {
    if '0' <= c <= '9' then Some(c as int - '0' as int)
    else if 'A' <= c <= 'F' then Some(c as int - 'A' as int + 10)
    else if 'a' <= c <= 'f' then Some(c as int - 'a' as int + 10)
    else None
  }

  predicate AllHexDigits(s: string) {
    forall i | 0 <= i < |s| :: HexDigitValue(s[i]).Some?
  }

  function DigitsValue(s: string): (r: nat)
    requires AllHexDigits(s)
  {
    if s == [] then 0
    else DigitsValue(s[..|s| - 1]) * 16 + HexDigitValue(s[|s| - 1]).value
  }

  /** A non-empty run of hex digits read as a number. */
  function ParseHex(s: string): (r: Option<nat>)
    ensures r.Some? <==> s != [] && AllHexDigits(s)
  {
    if s != [] && AllHexDigits(s) then Some(DigitsValue(s)) else None
  }

  /** `asEmoji()` on one code point token: the scalar the hex digits name, as a string. */
  function AsEmoji(token: string): (r: Option<string>)
    ensures r.Some? <==> ParseHex(token).Some? && IsScalarValue(ParseHex(token).value)
    ensures r.Some? ==> ScalarValues(r.value) == [ParseHex(token).value]
  {
    match ParseHex(token)
    case None => None
    case Some(v) => ScalarToEmoji(v)
  }

  /** Upper-case hex digit for 0..15. */
  function HexDigit(d: nat): (c: char)
    requires d < 16
    ensures HexDigitValue(c) == Some(d)
  {
    if d < 10 then ('0' as int + d) as char else ('A' as int + d - 10) as char
  }

  /** The hex notation the emoji list uses for a code point (upper case, no leading zeros). */
  function HexOf(n: nat): (s: string)
    ensures s != [] && AllHexDigits(s) && ' ' !in s && ';' !in s
    decreases n
  {
    if n < 16 then [HexDigit(n)] else HexOf(n / 16) + [HexDigit(n % 16)]
  }

  /** Reading the hex notation back gives the number. */
  lemma {:induction false} ParseHexOf(n: nat)
    ensures ParseHex(HexOf(n)) == Some(n)
    decreases n
  {
    var s := HexOf(n);
    if n >= 16 {
      ParseHexOf(n / 16);
      assert s[..|s| - 1] == HexOf(n / 16);
    } else {
      assert s[..|s| - 1] == [];
      assert DigitsValue(s) == DigitsValue([]) * 16 + n;
    }
  }

  /** Every scalar of a string round-trips through its hex token. */
  lemma AsEmojiHexOf(c: char)
    ensures AsEmoji(HexOf(c as int)) == Some([c])
  {
    ParseHexOf(c as int);
    var r := AsEmoji(HexOf(c as int));
    ScalarValuesInjective(r.value, [c]);
  }
}
