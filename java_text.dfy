/**
  The two pieces of the Java library the registry key depends on:
  `String.hashCode`, computed over the UTF-16 code units Java stores, with
  32-bit wrap-around, and `Integer.toHexString`, which prints the unsigned
  32-bit value in lower-case hexadecimal without leading zeros.
 */
module JavaText {

  const TwoTo32: int := 0x1_0000_0000

  /** The UTF-16 code units Java stores for one character. */
  function Utf16(c: char): (units: seq<int>)
    ensures 1 <= |units| <= 2
    ensures forall i :: 0 <= i < |units| ==> 0 <= units[i] < 0x1_0000
    ensures (c as int < 0x1_0000) <==> |units| == 1
    // a basic-plane character is its own unit
    ensures c as int < 0x1_0000 ==> units == [c as int]
    // otherwise a high and a low surrogate that decode back to the character
    ensures c as int >= 0x1_0000 ==>
              0xD800 <= units[0] < 0xDC00 && 0xDC00 <= units[1] < 0xE000 &&
              (units[0] - 0xD800) * 0x400 + (units[1] - 0xDC00) + 0x1_0000 == c as int
  {
    var n := c as int;
    if n < 0x1_0000 then [n]
    else [0xD800 + (n - 0x1_0000) / 0x400, 0xDC00 + (n - 0x1_0000) % 0x400]
  }

  /** The UTF-16 code units of a whole string, in order. */
  function Units(s: string): (units: seq<int>)
    ensures |s| <= |units| <= 2 * |s|
    ensures forall i :: 0 <= i < |units| ==> 0 <= units[i] < 0x1_0000
  {
    if s == [] then [] else Units(s[..|s| - 1]) + Utf16(s[|s| - 1])
  }

  /** The units of one character are its UTF-16 encoding. */
  lemma UnitsOfChar(c: char)
    ensures Units([c]) == Utf16(c)
  {
    assert [c][..0] == [];
  }

  /** Appending one character appends its encoding. */
  lemma UnitsSnoc(x: string, c: char)
    ensures Units(x + [c]) == Units(x) + Utf16(c)
  {
    assert (x + [c])[..|x|] == x;
  }

  /** The units of a concatenation are the units of its parts, in order. */
  lemma {:induction false} UnitsAppend(s: string, t: string)
    ensures Units(s + t) == Units(s) + Units(t)
    decreases |t|
  {
    if t == [] {
      assert s + t == s;
    } else {
      var init, c := t[..|t| - 1], t[|t| - 1];
      assert t == init + [c];
      assert s + t == (s + init) + [c];
      UnitsAppend(s, init);
      UnitsSnoc(s + init, c);
      UnitsSnoc(init, c);
      var us, ui, uc := Units(s), Units(init), Utf16(c);
      assert (us + ui) + uc == us + (ui + uc);
    }
  }

  /** `h = 31 * h + unit` over the units, each step wrapping to 32 bits; the
      result is the unsigned reading of Java's signed `int`. */
  function HashUnits(units: seq<int>): (h: nat)
    ensures h < TwoTo32
  {
    if units == [] then 0
    else (31 * HashUnits(units[..|units| - 1]) + units[|units| - 1]) % TwoTo32
  }

  /** `String.hashCode`, read as an unsigned 32-bit value. */
  function StringHash(s: string): (h: nat)
    ensures h < TwoTo32
  {
    HashUnits(Units(s))
  }

  predicate IsHexDigit(c: char) {
    '0' <= c <= '9' || 'a' <= c <= 'f'
  }

  function HexDigit(d: nat): (c: char)
    requires d < 16
    ensures IsHexDigit(c)
    ensures (c == '0') <==> d == 0
  {
    "0123456789abcdef"[d]
  }

  function DigitValue(c: char): (d: nat)
    requires IsHexDigit(c)
    ensures d < 16
  {
    if c <= '9' then (c - '0') as nat else (c - 'a') as nat + 10
  }

  /** `Integer.toHexString` of a value already read as unsigned. */
  function ToHex(n: nat): (s: string)
    ensures |s| >= 1
    ensures forall i :: 0 <= i < |s| ==> IsHexDigit(s[i])
    ensures |s| > 1 ==> s[0] != '0'
    ensures n < 16 <==> |s| == 1
  {
    if n < 16 then [HexDigit(n)] else ToHex(n / 16) + [HexDigit(n % 16)]
  }

  /** Reading a hexadecimal numeral back, the inverse of `ToHex`. */
  function FromHex(s: string): (n: nat)
    requires forall i :: 0 <= i < |s| ==> IsHexDigit(s[i])
  {
    if s == [] then 0 else 16 * FromHex(s[..|s| - 1]) + DigitValue(s[|s| - 1])
  }

  lemma DigitRoundTrip(d: nat)
    requires d < 16
    ensures DigitValue(HexDigit(d)) == d
  {
  }

  /** The hexadecimal text of a number reads back as that number. */
  lemma {:induction false} HexRoundTrip(n: nat)
    ensures FromHex(ToHex(n)) == n
  {
    DigitRoundTrip(n % 16);
    if n >= 16 {
      HexRoundTrip(n / 16);
      var s := ToHex(n);
      assert s[..|s| - 1] == ToHex(n / 16);
    }
  }

  /** Distinct hash values print as distinct texts. */
  lemma HexInjective(a: nat, b: nat)
    requires ToHex(a) == ToHex(b)
    ensures a == b
  {
    HexRoundTrip(a);
    HexRoundTrip(b);
  }

  /** An unsigned 32-bit value prints in at most eight digits. */
  lemma {:induction false} HexLength(n: nat, digits: nat)
    requires n < Pow16(digits)
    requires digits >= 1
    ensures |ToHex(n)| <= digits
  {
    if n >= 16 {
      HexLength(n / 16, digits - 1);
    }
  }

  function Pow16(k: nat): (p: nat)
    ensures p >= 1
  {
    if k == 0 then 1 else 16 * Pow16(k - 1)
  }

  lemma Hex32Length(n: nat)
    requires n < TwoTo32
    ensures 1 <= |ToHex(n)| <= 8
  {
    assert Pow16(8) == TwoTo32;
    HexLength(n, 8);
  }

  /** The code units of a two-character string from the basic plane. */
  lemma UnitsOfPair(a: char, b: char)
    requires a as int < 0x1_0000 && b as int < 0x1_0000
    ensures Units([a, b]) == [a as int, b as int]
  {
    assert [a, b][..1] == [a];
    assert [a][..0] == [];
  }

  /** The hash of two code units, which never wraps. */
  lemma HashOfPair(x: int, y: int)
    requires 0 <= x < 0x1_0000 && 0 <= y < 0x1_0000
    ensures HashUnits([x, y]) == 31 * x + y
  {
    assert [x, y][..1] == [x];
    assert [x][..0] == [];
    assert HashUnits([x]) == x;
  }

  /** `hashCode` of a two-character string from the basic plane. */
  lemma HashOfPairString(a: char, b: char)
    requires a as int < 0x1_0000 && b as int < 0x1_0000
    ensures StringHash([a, b]) == 31 * (a as int) + b as int
  {
    UnitsOfPair(a, b);
    HashOfPair(a as int, b as int);
  }

  /** Two different account keys with the same `hashCode`. */
  lemma HashCollision()
    ensures "Aa" != "BB" && StringHash("Aa") == StringHash("BB") == 2112
  {
    assert "Aa" == ['A', 'a'] && "BB" == ['B', 'B'];
    HashOfPairString('A', 'a');
    HashOfPairString('B', 'B');
  }
}
