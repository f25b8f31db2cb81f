/** The boot logger, kernel/core/klog.c, printing on the console. The timer ticks 100 times a
    second (PIT_HZ), so a tick is 10000 microseconds. */
module Klog {
  import opened Machine
  import opened Strings
  import opened Page
  import opened Console

  // ---------------------------------------------------------------- what is printed

  /** Six fraction digits. */
  function Fraction(frac: nat): seq<Byte> {
    [ZERO + frac / 100000 % 10, ZERO + frac / 10000 % 10, ZERO + frac / 1000 % 10,
     ZERO + frac / 100 % 10, ZERO + frac / 10 % 10, ZERO + frac % 10]
  }

  /** The seconds, padded so that the field has at least twelve columns. */
  function Seconds(ticks: nat): seq<Byte> {
    var secs := Dec(ticks / 100);
    Pad(if |secs| + 7 < 12 then 12 - (|secs| + 7) else 0) + secs
  }

  function Field(ticks: nat): seq<Byte> {
    Seconds(ticks) + [DOT] + Fraction(ticks % 100 * 10000)
  }

  const OPEN: seq<Byte> := [91]
  const CLOSE: seq<Byte> := [93, 32]
  const COLON: seq<Byte> := [58, 32]

  /** `[    0.000000] subsystem: ` */
  function Prefix(ticks: nat, subsystem: seq<Byte>): seq<Byte> {
    OPEN + Field(ticks) + CLOSE + subsystem + COLON
  }

  // ---------------------------------------------------------------- reading it back

  /** The tick count of a log line: the number before the first dot and the six digits after. */
  function ParseTicks(line: seq<Byte>): int
    requires DOT in line && IndexOf(line, DOT) + 7 <= |line| && 1 <= IndexOf(line, DOT)
  {
    var p := IndexOf(line, DOT);
    100 * ParseDec(line[1..p]) + ParseDec(line[p + 1..p + 7]) / 10000
  }

  lemma {:induction false} FractionIsFixed(frac: nat)
    ensures Fraction(frac) == FixedDigits(frac, 6)
  {
    var a, b, c, d, e := frac / 10, frac / 100, frac / 1000, frac / 10000, frac / 100000;
    assert b == a / 10 && c == b / 10 && d == c / 10 && e == d / 10;
    assert FixedDigits(e, 1) == [ZERO + e % 10];
    assert FixedDigits(d, 2) == FixedDigits(e, 1) + [ZERO + d % 10];
    assert FixedDigits(c, 3) == FixedDigits(d, 2) + [ZERO + c % 10];
    assert FixedDigits(b, 4) == FixedDigits(c, 3) + [ZERO + b % 10];
    assert FixedDigits(a, 5) == FixedDigits(b, 4) + [ZERO + a % 10];
    assert FixedDigits(frac, 6) == FixedDigits(a, 5) + [ZERO + frac % 10];
  }

  lemma {:induction false} FractionDigits(frac: nat)
    ensures |Fraction(frac)| == 6 && forall i :: 0 <= i < 6 ==> IsDigit(Fraction(frac)[i])
  {
  }

  lemma {:induction false} FractionRoundTrip(frac: nat)
    requires frac < 1000000
    ensures ParseDec(Fraction(frac)) == frac
  {
    PowerValues();
    FractionIsFixed(frac);
    FixedRoundTrip(frac, 6);
  }

  lemma {:induction false} SecondsRoundTrip(ticks: Word)
    ensures DOT !in Seconds(ticks)
    ensures ParseDec(Seconds(ticks)) == ticks / 100
  {
    var v := ticks / 100;
    DecRoundTrip(v);
    var n := |Seconds(ticks)| - |Dec(v)|;
    assert Seconds(ticks) == Pad(n) + Dec(v);
    if v == 0 {
      ParsePad(n);
      ParseSnoc(Pad(n), ZERO);
    } else {
      DigitsRoundTrip(n, v);
    }
  }

  lemma {:induction false} FirstOccurrence(a: seq<Byte>, c: Byte, b: seq<Byte>)
    requires c !in a
    ensures IndexOf(a + [c] + b, c) == |a|
  {
    var s := a + [c] + b;
    var k := IndexOf(s, c);
    assert s[|a|] == c && s[..|a|] == a;
  }

  lemma {:induction false} FieldParts(ticks: nat, rest: seq<Byte>)
    requires DOT !in Seconds(ticks)
    ensures var line, p := OPEN + Field(ticks) + rest, 1 + |Seconds(ticks)|;
            && p + 7 <= |line| && line[p] == DOT && IndexOf(line, DOT) == p
            && line[1..p] == Seconds(ticks)
            && line[p + 1..p + 7] == Fraction(ticks % 100 * 10000)
  {
    var line, f := OPEN + Field(ticks) + rest, Fraction(ticks % 100 * 10000);
    var before := OPEN + Seconds(ticks);
    assert line == before + [DOT] + (f + rest);
    FirstOccurrence(before, DOT, f + rest);
  }

  /** A log line gives its tick count back, whatever comes after the field: two lines with
      different ticks differ, and the timestamp cannot be confused with the text. */
  lemma {:induction false} PrefixRoundTrip(ticks: Word, rest: seq<Byte>)
    ensures var line := OPEN + Field(ticks) + rest;
            && DOT in line && 1 <= IndexOf(line, DOT) && IndexOf(line, DOT) + 7 <= |line|
            && ParseTicks(line) == ticks
  {
    var line, frac := OPEN + Field(ticks) + rest, ticks % 100 * 10000;
    SecondsRoundTrip(ticks);
    FractionRoundTrip(frac);
    FieldParts(ticks, rest);
    assert 100 * (ticks / 100) + frac / 10000 == ticks;
  }

  /** The field is twelve columns wide if and only if the seconds are at most 99999, and wider
      otherwise. */
  lemma {:induction false} FieldWidth(ticks: Word)
    ensures |Field(ticks)| == 12 <==> ticks / 100 <= 99999
    ensures 12 <= |Field(ticks)| <= 27
  {
    PowerValues();
    DigitsLength(ticks / 100, 5);
    DecRoundTrip(ticks / 100);
  }

  /** A whole log line: a bracket; the seconds, without a leading zero and padded with spaces to
      five columns or more; a dot; six digits, of which the last four are 0; a bracket and a space;
      the subsystem, a colon and a space. */
  lemma {:induction false} LineShape(ticks: Word, subsystem: seq<Byte>)
    ensures var secs, frac := Dec(ticks / 100), Fraction(ticks % 100 * 10000);
            var pad := if |secs| < 5 then 5 - |secs| else 0;
            && Prefix(ticks, subsystem) ==
               ['[' as int] + seq(pad, _ => ' ' as int) + secs + ['.' as int] + frac
               + [']' as int, ' ' as int] + subsystem + [':' as int, ' ' as int]
            && |frac| == 6 && ParseDec(frac[..2]) == ticks % 100 && frac[2..] == seq(4, _ => '0' as int)
            && forall i :: 0 <= i < 6 ==> IsDigit(frac[i])
  {
    var secs, frac := Dec(ticks / 100), Fraction(ticks % 100 * 10000);
    var pad := if |secs| < 5 then 5 - |secs| else 0;
    assert Pad(pad) == seq(pad, _ => ' ' as int);
    assert Seconds(ticks) == Pad(pad) + secs;
    LineDigits(ticks % 100);
    FractionDigits(ticks % 100 * 10000);
  }

  lemma {:induction false} HundredthDigits(h: nat)
    requires h < 100
    ensures h * 10000 / 100000 % 10 == h / 10 && h * 10000 / 10000 % 10 == h % 10
    ensures h * 10000 / 1000 % 10 == 0 && h * 10000 / 100 % 10 == 0 && h * 10000 / 10 % 10 == 0 && h * 10000 % 10 == 0
  {
    assert h * 10000 / 100000 == h / 10;
    assert h * 10000 / 1000 == 10 * h && h * 10000 / 100 == 100 * h && h * 10000 / 10 == 1000 * h;
  }

  lemma {:induction false} LineDigits(hundredths: nat)
    requires hundredths < 100
    ensures var frac := Fraction(hundredths * 10000);
            |frac| == 6 && ParseDec(frac[..2]) == hundredths && frac[2..] == seq(4, _ => '0' as int)
  {
    var frac := Fraction(hundredths * 10000);
    HundredthDigits(hundredths);
    assert frac[..2] == [ZERO + hundredths / 10, ZERO + hundredths % 10];
    assert frac[..2][..1] == [ZERO + hundredths / 10] && frac[..1][..0] == [];
    assert ParseDec([]) == 0;
    assert ParseDec(frac[..1]) == hundredths / 10;
  }

  // ---------------------------------------------------------------- the printers

  lemma AtMostTwenty(v: Word)
    ensures |Digits(v)| <= 20
  {
    PowerValues();
    DigitsLength(v, 20);
  }

  lemma NoDigits(v: nat)
    ensures Digits(v) == [] <==> v == 0
  {
  }

  lemma BytesAssoc(a: seq<Byte>, b: seq<Byte>, c: seq<Byte>)
    ensures a + b + c == a + (b + c)
  {
  }

  /** Digits of v into buf, least significant first; twenty are always enough. */
  method FillDigits(v: Word, buf: array<Byte>) returns (n: nat)
    requires 20 <= buf.Length
    modifies buf
    ensures n == |Digits(v)| <= 20 && Reverse(buf[..n]) == Digits(v)
  {
    var rest: nat := v;
    n := 0;
    AtMostTwenty(v);
    while rest != 0 && n < 20
      invariant n <= 20 && Digits(v) == Digits(rest) + Reverse(buf[..n])
      invariant |Digits(rest)| + n == |Digits(v)|
    {
      ghost var done := buf[..n];
      var digit := ZERO + rest % 10;
      buf[n] := digit;
      assert buf[..n + 1] == done + [digit];
      ReverseSnoc(done, digit);
      assert Digits(rest) == Digits(rest / 10) + [digit];
      BytesAssoc(Digits(rest / 10), [digit], Reverse(done));
      rest := rest / 10;
      n := n + 1;
    }
    NoDigits(rest);
  }

  /** Print the digits of a filled buffer from its end. */
  method Drain(screen: Screen, digits: seq<Byte>)
    requires screen.Valid()
    modifies screen, screen.vga
    ensures screen.Valid() && screen.doc == TypeAll(old(screen.doc), Reverse(digits))
  {
    var n := |digits|;
    assert digits[..n] == digits;
    while n > 0
      invariant n <= |digits| && screen.Valid()
      invariant TypeAll(screen.doc, Reverse(digits[..n])) == TypeAll(old(screen.doc), Reverse(digits))
    {
      n := n - 1;
      assert digits[..n + 1] == digits[..n] + [digits[n]];
      ReverseSnoc(digits[..n], digits[n]);
      screen.PutChar(digits[n]);
    }
  }

  /** klog_dec: the page gains the decimal number. */
  method KlogDec(screen: Screen, v: Word)
    requires screen.Valid()
    modifies screen, screen.vga
    ensures screen.Valid() && screen.doc == TypeAll(old(screen.doc), Dec(v))
  {
    if v == 0 {
      screen.PutChar(ZERO);
      return;
    }
    var buf := new Byte[20];
    var n := FillDigits(v, buf);
    Drain(screen, buf[..n]);
  }

  /** The six fraction digits of klog_prefix. */
  method PutFraction(screen: Screen, frac: nat)
    requires screen.Valid()
    modifies screen, screen.vga
    ensures screen.Valid() && screen.doc == TypeAll(old(screen.doc), Fraction(frac))
  {
    ghost var start, digits := screen.doc, Fraction(frac);
    var div: nat := 100000;
    ghost var j := 0;
    while div > 0
      invariant 0 <= j <= 6 && div == [100000, 10000, 1000, 100, 10, 1, 0][j]
      invariant screen.Valid() && screen.doc == TypeAll(start, digits[..j])
      decreases 6 - j
    {
      var digit := ZERO + frac / div % 10;
      assert digits[..j + 1] == digits[..j] + [digit];
      screen.Emit(digit, start, digits[..j]);
      div := div / 10;
      j := j + 1;
    }
    assert digits[..6] == digits;
  }

  /** The seconds of klog_prefix, least significant digit first. */
  method Convert(v: Word) returns (digits: seq<Byte>)
    ensures Reverse(digits) == Dec(v) && |digits| == |Dec(v)|
  {
    var num := new Byte[22];
    if v == 0 {
      num[0] := ZERO;
      digits := num[..1];
      assert digits == [] + [ZERO];
      ReverseSnoc([], ZERO);
    } else {
      var n := FillDigits(v, num);
      digits := num[..n];
    }
  }

  /** Spaces until the field has twelve columns. */
  method PutPadding(screen: Screen, start: nat)
    requires screen.Valid()
    modifies screen, screen.vga
    ensures screen.Valid() && screen.doc == TypeAll(old(screen.doc), Pad(if start < 12 then 12 - start else 0))
  {
    var len := start;
    while len < 12
      invariant start <= len && (len <= 12 || len == start)
      invariant screen.Valid() && screen.doc == TypeAll(old(screen.doc), Pad(len - start))
    {
      assert Pad(len - start + 1) == Pad(len - start) + [SPACE];
      screen.Emit(SPACE, old(screen.doc), Pad(len - start));
      len := len + 1;
    }
  }

  method PutSeconds(screen: Screen, ticks: Word)
    requires screen.Valid()
    modifies screen, screen.vga
    ensures screen.Valid() && screen.doc == TypeAll(old(screen.doc), Seconds(ticks))
  {
    var digits := Convert(ticks / 100);
    ghost var d, n := screen.doc, |digits| + 7;
    PutPadding(screen, |digits| + 7);
    Drain(screen, digits);
    TypeAllConcat(d, Pad(if n < 12 then 12 - n else 0), Dec(ticks / 100));
  }

  /** The opening bracket and the time. */
  method PutTime(screen: Screen, ticks: Word)
    requires screen.Valid()
    modifies screen, screen.vga
    ensures screen.Valid() && screen.doc == TypeAll(old(screen.doc), OPEN + Field(ticks))
  {
    ghost var d := screen.doc;
    screen.PutChar(91);
    PutSeconds(screen, ticks);
    screen.PutChar(DOT);
    PutFraction(screen, ticks % 100 * 10000);
    TimePieces(d, ticks);
  }

  /** klog_prefix: the timestamp and the subsystem name. */
  method KlogPrefix(screen: Screen, ticks: Word, subsystem: seq<Byte>)
    requires screen.Valid() && 0 in subsystem
    modifies screen, screen.vga
    ensures screen.Valid() && screen.doc == TypeAll(old(screen.doc), Prefix(ticks, CString(subsystem)))
  {
    ghost var d := screen.doc;
    PutTime(screen, ticks);
    screen.Puts([93, 32, 0]);
    assert CString([93, 32, 0]) == CLOSE;
    screen.Puts(subsystem);
    screen.Puts([58, 32, 0]);
    assert CString([58, 32, 0]) == COLON;
    PrefixPieces(d, ticks, CString(subsystem));
  }

  /** klog: one whole line. */
  method KlogLine(screen: Screen, ticks: Word, subsystem: seq<Byte>, msg: seq<Byte>)
    requires screen.Valid() && 0 in subsystem && 0 in msg
    modifies screen, screen.vga
    ensures screen.Valid()
    ensures screen.doc == TypeAll(old(screen.doc), Prefix(ticks, CString(subsystem)) + CString(msg) + [NEWLINE])
  {
    ghost var d := screen.doc;
    KlogPrefix(screen, ticks, subsystem);
    screen.Puts(msg);
    screen.PutChar(NEWLINE);
    TypeAllConcat(d, Prefix(ticks, CString(subsystem)), CString(msg));
    TypeAllSnoc(d, Prefix(ticks, CString(subsystem)) + CString(msg), NEWLINE);
  }

  lemma {:induction false} TimePieces(d: Doc, ticks: nat)
    ensures TypeAll(d, OPEN + Field(ticks)) ==
            TypeAll(Type(TypeAll(Type(d, 91), Seconds(ticks)), DOT), Fraction(ticks % 100 * 10000))
  {
    var a := [91] + Seconds(ticks);
    assert OPEN + Field(ticks) == a + [DOT] + Fraction(ticks % 100 * 10000);
    TypeAllConcat(d, [91], Seconds(ticks));
    TypeAllSnoc(d, [], 91);
    TypeAllSnoc(d, a, DOT);
    TypeAllConcat(d, a + [DOT], Fraction(ticks % 100 * 10000));
  }

  lemma {:induction false} PrefixPieces(d: Doc, ticks: nat, name: seq<Byte>)
    ensures TypeAll(d, Prefix(ticks, name)) ==
            TypeAll(TypeAll(TypeAll(TypeAll(d, OPEN + Field(ticks)), CLOSE), name), COLON)
  {
    var a := OPEN + Field(ticks);
    TypeAllConcat(d, a, CLOSE);
    TypeAllConcat(d, a + CLOSE, name);
    TypeAllConcat(d, a + CLOSE + name, COLON);
  }
}
