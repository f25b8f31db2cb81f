/** Byte strings and the numbers printed in them. */
module Strings {
  import opened Machine

  /** The first position of a byte that occurs. */
  function IndexOf(s: seq<Byte>, c: Byte): (k: nat)
    requires c in s
    ensures k < |s| && s[k] == c && c !in s[..k]
  {
    if s[0] == c then 0
    else
      assert c in s[1..];
      var k := IndexOf(s[1..], c);
      assert s[..k + 1] == [s[0]] + s[1..][..k];
      k + 1
  }

  /** A string up to its terminating NUL. */
  function CString(s: seq<Byte>): (t: seq<Byte>)
    requires 0 in s
    ensures |t| < |s| && t == s[..|t|] && s[|t|] == 0 && 0 !in t
  {
    if s[0] == 0 then [] else [s[0]] + CString(s[1..])
  }

  function Reverse(s: seq<Byte>): seq<Byte> {
    if s == [] then [] else [s[|s| - 1]] + Reverse(s[..|s| - 1])
  }

  lemma ReverseSnoc(s: seq<Byte>, c: Byte)
    ensures Reverse(s + [c]) == [c] + Reverse(s)
  {
    assert (s + [c])[..|s|] == s;
  }

  // ---------------------------------------------------------------- decimal

  const ZERO: Byte := 48
  const SPACE: Byte := 32
  const DOT: Byte := 46

  /** The decimal digits of v, none for 0. */
  function Digits(v: nat): seq<Byte> {
    if v == 0 then [] else Digits(v / 10) + [ZERO + v % 10]
  }

  function Dec(v: nat): seq<Byte> {
    if v == 0 then [ZERO] else Digits(v)
  }

  /** Read a decimal number; leading spaces count as nothing. */
  function ParseDec(s: seq<Byte>): int {
    if s == [] then 0
    else
      var c := s[|s| - 1];
      10 * ParseDec(s[..|s| - 1]) + if c == SPACE then 0 else c - ZERO
  }

  /** n spaces. */
  function Pad(n: nat): (s: seq<Byte>)
    ensures |s| == n && forall i :: 0 <= i < n ==> s[i] == 32
  {
    seq(n, _ => SPACE)
  }

  function Pow10(n: nat): nat {
    if n == 0 then 1 else 10 * Pow10(n - 1)
  }

  predicate IsDigit(c: Byte) {
    ZERO <= c <= ZERO + 9
  }

  lemma ParseSnoc(s: seq<Byte>, c: Byte)
    ensures ParseDec(s + [c]) == 10 * ParseDec(s) + if c == SPACE then 0 else c - ZERO
  {
    assert (s + [c])[..|s|] == s;
  }

  lemma {:induction false} ParsePad(n: nat)
    ensures ParseDec(Pad(n)) == 0
  {
    if n == 0 {
    } else {
      assert Pad(n) == Pad(n - 1) + [SPACE];
      ParseSnoc(Pad(n - 1), SPACE);
      ParsePad(n - 1);
    }
  }

  /** A number printed after any padding reads back as itself. */
  lemma {:induction false} DigitsRoundTrip(n: nat, v: nat)
    ensures ParseDec(Pad(n) + Digits(v)) == v
  {
    if v == 0 {
      assert Pad(n) + [] == Pad(n);
      ParsePad(n);
    } else {
      assert Pad(n) + Digits(v) == (Pad(n) + Digits(v / 10)) + [ZERO + v % 10];
      ParseSnoc(Pad(n) + Digits(v / 10), ZERO + v % 10);
      DigitsRoundTrip(n, v / 10);
    }
  }

  lemma {:induction false} DigitsShape(v: nat)
    ensures forall i :: 0 <= i < |Digits(v)| ==> IsDigit(Digits(v)[i])
    ensures v != 0 ==> Digits(v) != [] && Digits(v)[0] != ZERO
  {
    if v == 0 {
    } else {
      DigitsShape(v / 10);
    }
  }

  lemma {:induction false} DigitsLength(v: nat, n: nat)
    ensures |Digits(v)| <= n <==> v < Pow10(n)
  {
    if v == 0 {
      assert Pow10(n) > 0 by { Pow10Positive(n); }
    } else if n > 0 {
      DigitsLength(v / 10, n - 1);
    }
  }

  lemma {:induction false} Pow10Positive(n: nat)
    ensures Pow10(n) > 0
  {
    if n == 0 {
    } else {
      Pow10Positive(n - 1);
    }
  }

  /** Every 64-bit value prints as at most 20 digits, with no leading zero, and reads back. */
  lemma {:induction false} DecRoundTrip(v: Word)
    ensures ParseDec(Dec(v)) == v
    ensures 1 <= |Dec(v)| <= 20
    ensures forall i :: 0 <= i < |Dec(v)| ==> IsDigit(Dec(v)[i])
    ensures Dec(v)[0] == ZERO ==> v == 0
  {
    DigitsRoundTrip(0, v);
    assert Pad(0) + Digits(v) == Digits(v);
    DigitsShape(v);
    PowerValues();
    DigitsLength(v, 20);
  }

  /** The n low decimal digits of v, most significant first. */
  function FixedDigits(v: nat, n: nat): seq<Byte>
    decreases n
  {
    if n == 0 then [] else FixedDigits(v / 10, n - 1) + [ZERO + v % 10]
  }

  lemma {:induction false} FixedRoundTrip(v: nat, n: nat)
    requires v < Pow10(n)
    ensures |FixedDigits(v, n)| == n && ParseDec(FixedDigits(v, n)) == v
    decreases n
  {
    if n == 0 {
    } else {
      FixedRoundTrip(v / 10, n - 1);
      ParseSnoc(FixedDigits(v / 10, n - 1), ZERO + v % 10);
    }
  }

  // ---------------------------------------------------------------- hexadecimal

  function HexChar(n: nat): Byte
    requires n < 16
  {
    if n < 10 then 48 + n else 55 + n
  }

  /** The value of a digit 0-9 or A-F, and -1 for any other character. */
  function HexValue(c: Byte): int {
    if 48 <= c <= 57 then c - 48 else if 65 <= c <= 70 then c - 55 else -1
  }

  /** The n low nibbles of v, most significant first. */
  function HexDigits(v: nat, n: nat): seq<Byte>
    decreases n
  {
    if n == 0 then [] else HexDigits(v / 16, n - 1) + [HexChar(v % 16)]
  }

  /** What console_puthex64 prints. */
  function Hex64(v: nat): seq<Byte> {
    [48, 120] + HexDigits(v, 16)
  }

  function ParseHex(s: seq<Byte>): int {
    if s == [] then 0 else 16 * ParseHex(s[..|s| - 1]) + HexValue(s[|s| - 1])
  }

  function Pow16(n: nat): nat {
    if n == 0 then 1 else 16 * Pow16(n - 1)
  }

  lemma PowerValues()
    ensures Pow10(5) == 100000 && Pow10(6) == 1000000 && Pow10(20) == 100000000000000000000
    ensures Pow16(16) == TWO64
  {
    assert Pow10(3) == 1000;
    assert Pow10(6) == 1000000;
    assert Pow10(9) == 1000000000;
    assert Pow10(12) == 1000000000000;
    assert Pow10(15) == 1000000000000000;
    assert Pow10(18) == 1000000000000000000;
    assert Pow16(3) == 0x1000;
    assert Pow16(6) == 0x100_0000;
    assert Pow16(9) == 0x10_0000_0000;
    assert Pow16(12) == 0x1_0000_0000_0000;
    assert Pow16(15) == 0x1000_0000_0000_0000;
  }

  lemma {:induction false} HexRoundTrip(v: nat, n: nat)
    requires v < Pow16(n)
    ensures |HexDigits(v, n)| == n && ParseHex(HexDigits(v, n)) == v
    decreases n
  {
    if n == 0 {
    } else {
      HexRoundTrip(v / 16, n - 1);
      var s := HexDigits(v, n);
      assert s[..|s| - 1] == HexDigits(v / 16, n - 1);
    }
  }

  /** The table of console_puthex64. */
  lemma {:induction false} HexTable(n: nat)
    requires n < 16
    ensures HexChar(n) == "0123456789ABCDEF"[n] as int && HexValue(HexChar(n)) == n
  {
  }

  predicate IsHexDigit(c: Byte) {
    48 <= c <= 57 || 65 <= c <= 70
  }

  lemma {:induction false} HexShape(v: nat, n: nat)
    ensures forall i :: 0 <= i < |HexDigits(v, n)| ==> IsHexDigit(HexDigits(v, n)[i])
    decreases n
  {
    if n == 0 {
    } else {
      HexShape(v / 16, n - 1);
    }
  }

  /** Every 64-bit value prints as 0x and sixteen digits 0-9A-F, and reads back. */
  lemma {:induction false} Hex64RoundTrip(v: Word)
    ensures |Hex64(v)| == 18 && Hex64(v)[0] == '0' as int && Hex64(v)[1] == 'x' as int
    ensures forall i :: 2 <= i < 18 ==> IsHexDigit(Hex64(v)[i])
    ensures ParseHex(Hex64(v)[2..]) == v
  {
    PowerValues();
    HexRoundTrip(v, 16);
    HexShape(v, 16);
    assert Hex64(v)[2..] == HexDigits(v, 16);
  }

  /** v >> 4k. */
  function ShiftRight(v: nat, k: nat): nat {
    if k == 0 then v else ShiftRight(v, k - 1) / 16
  }

  /** Printing nibble k next extends the digits printed so far. */
  lemma NextNibble(v: nat, k: nat)
    requires k < 16
    ensures HexDigits(ShiftRight(v, k), 16 - k) ==
            HexDigits(ShiftRight(v, k + 1), 15 - k) + [HexChar(ShiftRight(v, k) % 16)]
  {
  }
}
