/** Decoding set-1 scancodes: the state machine inside keyboard_on_irq. */
module Scancodes {
  import opened Machine

  const NUL: char := '\0'
  const BACKSPACE: char := 8 as char

  const SC_EXTENDED: Byte := 0xE0
  const SC_LSHIFT: Byte := 0x2A
  const SC_RSHIFT: Byte := 0x36
  const SC_CAPS: Byte := 0x3A

  /** The two lookup tables; NUL where a code has no printable mapping. */
  datatype Keymap = Keymap(unshifted: seq<char>, shifted: seq<char>)

  function Lookup(table: seq<char>, code: Byte): char {
    if code < |table| then table[code] else NUL
  }

  datatype Decoder = Decoder(shift: bool, caps: bool, e0: bool)

  const INITIAL := Decoder(false, false, false)

  predicate IsShiftMake(code: Byte) {
    code == SC_LSHIFT || code == SC_RSHIFT
  }

  predicate IsShiftBreak(code: Byte) {
    code == SC_LSHIFT + 0x80 || code == SC_RSHIFT + 0x80
  }

  /** The character an unprefixed make code stands for under the given modifiers. */
  function Key(m: Keymap, shift: bool, caps: bool, code: Byte): Option<char> {
    var base := Lookup(m.unshifted, code);
    if base == NUL then None
    else if 'a' <= base <= 'z' then
      Some(if shift != caps then base - 'a' + 'A' else base)
    else if shift && Lookup(m.shifted, code) != NUL then Some(Lookup(m.shifted, code))
    else Some(base)
  }

  /** One interrupt: the next state and the byte handed to the queue, if any. */
  function Decode(m: Keymap, d: Decoder, code: Byte): (Decoder, Option<char>) {
    if code == SC_EXTENDED then (d.(e0 := true), None)
    else if d.e0 then (d.(e0 := false), None)
    else if code >= 0x80 then (if IsShiftBreak(code) then d.(shift := false) else d, None)
    else if IsShiftMake(code) then (d.(shift := true), None)
    else if code == SC_CAPS then (d.(caps := !d.caps), None)
    else (d, Key(m, d.shift, d.caps, code))
  }

  // ---------------------------------------------------------------- whole streams

  function StateAfter(m: Keymap, codes: seq<Byte>): Decoder {
    if codes == [] then INITIAL
    else Decode(m, StateAfter(m, codes[..|codes| - 1]), codes[|codes| - 1]).0
  }

  /** The bytes a stream of codes produces. */
  function Outputs(m: Keymap, codes: seq<Byte>): seq<char> {
    if codes == [] then []
    else
      var before := codes[..|codes| - 1];
      Outputs(m, before) + Emits(m, StateAfter(m, before), codes[|codes| - 1])
  }

  function Emits(m: Keymap, d: Decoder, code: Byte): seq<char> {
    match Decode(m, d, code).1
    case None => []
    case Some(c) => [c]
  }

  /** Neither a prefix nor prefixed. */
  predicate Plain(codes: seq<Byte>, i: nat)
    requires i < |codes|
  {
    codes[i] != SC_EXTENDED && (i == 0 || codes[i - 1] != SC_EXTENDED)
  }

  predicate PlainCaps(codes: seq<Byte>, i: nat)
    requires i < |codes|
  {
    Plain(codes, i) && codes[i] == SC_CAPS
  }

  predicate PlainShift(codes: seq<Byte>, i: nat)
    requires i < |codes|
  {
    Plain(codes, i) && (IsShiftMake(codes[i]) || IsShiftBreak(codes[i]))
  }

  ghost function CapsPresses(codes: seq<Byte>): set<nat> {
    set i: nat | i < |codes| && PlainCaps(codes, i)
  }

  /** The last unprefixed shift event of the stream is a press. */
  ghost predicate ShiftHeld(codes: seq<Byte>) {
    exists i: nat :: i < |codes| && IsLastShift(codes, i) && IsShiftMake(codes[i])
  }

  ghost predicate IsLastShift(codes: seq<Byte>, i: nat)
    requires i < |codes|
  {
    PlainShift(codes, i) && forall j: nat :: i < j < |codes| ==> !PlainShift(codes, j)
  }

  /** The stream without its prefixes and the codes they prefix. */
  function WithoutExtended(codes: seq<Byte>): seq<Byte> {
    if codes == [] then []
    else
      var n := |codes| - 1;
      WithoutExtended(codes[..n]) + if Plain(codes, n) then [codes[n]] else []
  }

  lemma PrefixPlain(codes: seq<Byte>, n: nat)
    requires n <= |codes|
    ensures forall i: nat :: i < n ==> PlainCaps(codes[..n], i) == PlainCaps(codes, i)
    ensures forall i: nat :: i < n ==> PlainShift(codes[..n], i) == PlainShift(codes, i)
  {
  }

  /** The prefix flag says whether the last code was a prefix. */
  lemma {:induction false} PrefixFlag(m: Keymap, codes: seq<Byte>)
    ensures StateAfter(m, codes).e0 <==> codes != [] && codes[|codes| - 1] == SC_EXTENDED
  {
    if codes == [] {
    } else {
      PrefixFlag(m, codes[..|codes| - 1]);
    }
  }

  /** What the last code of a stream does to the modifiers. */
  lemma {:induction false} LastCode(m: Keymap, codes: seq<Byte>)
    requires codes != []
    ensures var n := |codes| - 1;
            var d, d' := StateAfter(m, codes[..n]), StateAfter(m, codes);
            && (d'.caps != d.caps <==> PlainCaps(codes, n))
            && d'.shift == if PlainShift(codes, n) then IsShiftMake(codes[n]) else d.shift
  {
    PrefixFlag(m, codes[..|codes| - 1]);
  }

  /** Caps lock is the parity of its unprefixed presses. */
  lemma {:induction false} CapsIsParity(m: Keymap, codes: seq<Byte>)
    ensures StateAfter(m, codes).caps <==> |CapsPresses(codes)| % 2 == 1
  {
    if codes == [] {
      assert CapsPresses(codes) == {};
    } else {
      var n := |codes| - 1;
      var before := codes[..n];
      CapsIsParity(m, before);
      LastCode(m, codes);
      PrefixPlain(codes, n);
      if PlainCaps(codes, n) {
        assert CapsPresses(codes) == CapsPresses(before) + {n};
      } else {
        assert CapsPresses(codes) == CapsPresses(before);
      }
    }
  }

  /** A code that is no shift event leaves the last shift event where it was. */
  lemma {:induction false} LastShiftStays(codes: seq<Byte>, i: nat)
    requires i < |codes| - 1 && !PlainShift(codes, |codes| - 1)
    ensures IsLastShift(codes, i) <==> IsLastShift(codes[..|codes| - 1], i)
  {
    PrefixPlain(codes, |codes| - 1);
  }

  /** Shift is down if and only if its last unprefixed event was a press. */
  lemma {:induction false} ShiftIsLastEvent(m: Keymap, codes: seq<Byte>)
    ensures StateAfter(m, codes).shift <==> ShiftHeld(codes)
  {
    if codes == [] {
    } else {
      var n := |codes| - 1;
      LastCode(m, codes);
      if PlainShift(codes, n) {
        assert IsLastShift(codes, n);
      } else {
        ShiftIsLastEvent(m, codes[..n]);
        forall i: nat | i < n
          ensures IsLastShift(codes, i) <==> IsLastShift(codes[..n], i)
        {
          LastShiftStays(codes, i);
        }
      }
    }
  }

  lemma Snoc(m: Keymap, codes: seq<Byte>, code: Byte)
    ensures StateAfter(m, codes + [code]) == Decode(m, StateAfter(m, codes), code).0
    ensures Outputs(m, codes + [code]) == Outputs(m, codes) + Emits(m, StateAfter(m, codes), code)
  {
    assert (codes + [code])[..|codes|] == codes;
  }

  /** What one more code does to a stream, whatever came before and whatever the tables. After a
      prefix nothing but the prefix flag changes. Otherwise 0x2A and 0x36 press shift, 0xAA and
      0xB6 release it, 0x3A toggles caps lock, and no other code touches a modifier. */
  lemma {:induction false} NextModifiers(m: Keymap, codes: seq<Byte>, code: Byte)
    ensures var d, d' := StateAfter(m, codes), StateAfter(m, codes + [code]);
            var plain := codes == [] || codes[|codes| - 1] != 0xE0;
            && d'.e0 == (code == 0xE0)
            && d'.shift == (if plain && (code == 0x2A || code == 0x36) then true
                            else if plain && (code == 0xAA || code == 0xB6) then false
                            else d.shift)
            && d'.caps == (if plain && code == 0x3A then !d.caps else d.caps)
  {
    Snoc(m, codes, code);
    PrefixFlag(m, codes);
  }

  /** Which byte a code produces, from the history of the stream alone: nothing after a prefix,
      for a break code, for a modifier and for a code without an entry. Otherwise a letter is a
      capital exactly when shift is held or caps lock was pressed an odd number of times, but not
      both; any other key gives its shifted entry, if it has one, exactly when shift is held. */
  lemma {:induction false} NextByte(m: Keymap, codes: seq<Byte>, code: Byte)
    ensures var plain := codes == [] || codes[|codes| - 1] != 0xE0;
            var shift, caps := ShiftHeld(codes), |CapsPresses(codes)| % 2 == 1;
            Outputs(m, codes + [code]) == Outputs(m, codes) +
              (if !plain || code >= 0x80 || code == 0x2A || code == 0x36 || code == 0x3A then []
               else if |m.unshifted| <= code || m.unshifted[code] == '\0' then []
               else if 'a' <= m.unshifted[code] <= 'z' then
                 [if shift != caps then m.unshifted[code] - 'a' + 'A' else m.unshifted[code]]
               else if shift && code < |m.shifted| && m.shifted[code] != '\0' then [m.shifted[code]]
               else [m.unshifted[code]])
  {
    Snoc(m, codes, code);
    PrefixFlag(m, codes);
    CapsIsParity(m, codes);
    ShiftIsLastEvent(m, codes);
  }

  lemma Swallowed(m: Keymap, d: Decoder, code: Byte)
    requires code == SC_EXTENDED || d.e0
    ensures Emits(m, d, code) == [] && Decode(m, d, code).0.(e0 := false) == d.(e0 := false)
  {
  }

  /** `w` produces what `codes` produces, and leaves the same modifiers. */
  predicate Equivalent(m: Keymap, w: seq<Byte>, codes: seq<Byte>) {
    Outputs(m, w) == Outputs(m, codes) && StateAfter(m, w) == StateAfter(m, codes).(e0 := false)
  }

  lemma {:induction false} EquivalentPlain(m: Keymap, w: seq<Byte>, codes: seq<Byte>, code: Byte)
    requires Equivalent(m, w, codes) && code != SC_EXTENDED && !StateAfter(m, codes).e0
    ensures Equivalent(m, w + [code], codes + [code])
  {
    var d := StateAfter(m, codes);
    assert StateAfter(m, w) == d;
    assert !Decode(m, d, code).0.e0;
    Snoc(m, w, code);
    Snoc(m, codes, code);
  }

  lemma {:induction false} EquivalentSwallowed(m: Keymap, w: seq<Byte>, codes: seq<Byte>, code: Byte)
    requires Equivalent(m, w, codes) && (code == SC_EXTENDED || StateAfter(m, codes).e0)
    ensures Equivalent(m, w, codes + [code])
  {
    Swallowed(m, StateAfter(m, codes), code);
    Snoc(m, codes, code);
  }

  /** Extended keys are invisible: dropping every prefix and every prefixed code changes
      neither the modifiers nor a single output byte. */
  lemma {:induction false} ExtendedKeysInvisible(m: Keymap, codes: seq<Byte>)
    ensures Equivalent(m, WithoutExtended(codes), codes)
  {
    if codes == [] {
    } else {
      var n := |codes| - 1;
      var before, code := codes[..n], codes[n];
      ExtendedKeysInvisible(m, before);
      PrefixFlag(m, before);
      var w := WithoutExtended(before);
      assert before + [code] == codes;
      if Plain(codes, n) {
        EquivalentPlain(m, w, before, code);
        assert WithoutExtended(codes) == w + [code];
      } else {
        EquivalentSwallowed(m, w, before, code);
        assert WithoutExtended(codes) == w;
      }
    }
  }

  // ---------------------------------------------------------------- the tables

  /** k_unshifted. */
  function Unshifted(code: Byte): char {
    match code
    case 0x02 => '1'
    case 0x03 => '2'
    case 0x04 => '3'
    case 0x05 => '4'
    case 0x06 => '5'
    case 0x07 => '6'
    case 0x08 => '7'
    case 0x09 => '8'
    case 0x0A => '9'
    case 0x0B => '0'
    case 0x0C => '-'
    case 0x0D => '='
    case 0x0E => BACKSPACE
    case 0x0F => '\t'
    case 0x10 => 'q'
    case 0x11 => 'w'
    case 0x12 => 'e'
    case 0x13 => 'r'
    case 0x14 => 't'
    case 0x15 => 'y'
    case 0x16 => 'u'
    case 0x17 => 'i'
    case 0x18 => 'o'
    case 0x19 => 'p'
    case 0x1A => '['
    case 0x1B => ']'
    case 0x1C => '\n'
    case 0x1E => 'a'
    case 0x1F => 's'
    case 0x20 => 'd'
    case 0x21 => 'f'
    case 0x22 => 'g'
    case 0x23 => 'h'
    case 0x24 => 'j'
    case 0x25 => 'k'
    case 0x26 => 'l'
    case 0x27 => ';'
    case 0x28 => '\''
    case 0x29 => '`'
    case 0x2B => '\\'
    case 0x2C => 'z'
    case 0x2D => 'x'
    case 0x2E => 'c'
    case 0x2F => 'v'
    case 0x30 => 'b'
    case 0x31 => 'n'
    case 0x32 => 'm'
    case 0x33 => ','
    case 0x34 => '.'
    case 0x35 => '/'
    case 0x39 => ' '
    case _ => NUL
  }

  /** k_shifted. */
  function Shifted(code: Byte): char {
    match code
    case 0x02 => '!'
    case 0x03 => '@'
    case 0x04 => '#'
    case 0x05 => '$'
    case 0x06 => '%'
    case 0x07 => '^'
    case 0x08 => '&'
    case 0x09 => '*'
    case 0x0A => '('
    case 0x0B => ')'
    case 0x0C => '_'
    case 0x0D => '+'
    case 0x0E => BACKSPACE
    case 0x0F => '\t'
    case 0x10 => 'Q'
    case 0x11 => 'W'
    case 0x12 => 'E'
    case 0x13 => 'R'
    case 0x14 => 'T'
    case 0x15 => 'Y'
    case 0x16 => 'U'
    case 0x17 => 'I'
    case 0x18 => 'O'
    case 0x19 => 'P'
    case 0x1A => '{'
    case 0x1B => '}'
    case 0x1C => '\n'
    case 0x1E => 'A'
    case 0x1F => 'S'
    case 0x20 => 'D'
    case 0x21 => 'F'
    case 0x22 => 'G'
    case 0x23 => 'H'
    case 0x24 => 'J'
    case 0x25 => 'K'
    case 0x26 => 'L'
    case 0x27 => ':'
    case 0x28 => '"'
    case 0x29 => '~'
    case 0x2B => '|'
    case 0x2C => 'Z'
    case 0x2D => 'X'
    case 0x2E => 'C'
    case 0x2F => 'V'
    case 0x30 => 'B'
    case 0x31 => 'N'
    case 0x32 => 'M'
    case 0x33 => '<'
    case 0x34 => '>'
    case 0x35 => '?'
    case 0x39 => ' '
    case _ => NUL
  }

  /** The tables are the rows of a US keyboard, and no other code has an entry. */
  lemma {:induction false} KeyboardRows(code: Byte)
    ensures 0x02 <= code < 0x0E ==>
              Unshifted(code) == "1234567890-="[code - 0x02] && Shifted(code) == "!@#$%^&*()_+"[code - 0x02]
    ensures 0x10 <= code < 0x1C ==>
              Unshifted(code) == "qwertyuiop[]"[code - 0x10] && Shifted(code) == "QWERTYUIOP{}"[code - 0x10]
    ensures 0x1E <= code < 0x2A ==>
              Unshifted(code) == "asdfghjkl;'`"[code - 0x1E] && Shifted(code) == "ASDFGHJKL:\"~"[code - 0x1E]
    ensures 0x2B <= code < 0x36 ==>
              Unshifted(code) == "\\zxcvbnm,./"[code - 0x2B] && Shifted(code) == "|ZXCVBNM<>?"[code - 0x2B]
    ensures code == 0x0E || code == 0x0F || code == 0x1C || code == 0x39 ==>
              var c := if code == 0x0E then 8 as char else if code == 0x0F then '\t' else if code == 0x1C then '\n' else ' ';
              Unshifted(code) == c && Shifted(code) == c
    ensures Unshifted(code) == '\0' && Shifted(code) == '\0' <==>
            code < 0x02 || code == 0x1D || code == 0x2A || 0x36 <= code < 0x39 || 0x3A <= code
  {
  }

  const US: Keymap := Keymap(seq(128, (i: int) requires 0 <= i < 128 => Unshifted(i)),
                             seq(128, (i: int) requires 0 <= i < 128 => Shifted(i)))

  lemma TableFacts(code: Byte)
    ensures Unshifted(code) == NUL <==> Shifted(code) == NUL
    ensures 'a' <= Unshifted(code) <= 'z' ==> Shifted(code) == Unshifted(code) - 'a' + 'A'
    ensures (Unshifted(code) as int) < 128 && (Shifted(code) as int) < 128
    ensures 128 <= code ==> Unshifted(code) == Shifted(code) == NUL
  {
  }

  /** The same on the US tables: after any stream not ending in a prefix, a mapped make code
      produces its shifted entry exactly when shift is held, and for a letter exactly when shift
      and caps lock differ; otherwise its unshifted entry. */
  lemma {:induction false} NextKey(codes: seq<Byte>, code: Byte)
    requires codes == [] || codes[|codes| - 1] != 0xE0
    requires Unshifted(code) != NUL
    ensures var letter := 'a' <= Unshifted(code) <= 'z';
            var caps := |CapsPresses(codes)| % 2 == 1;
            var upper := if letter then ShiftHeld(codes) != caps else ShiftHeld(codes);
            Outputs(US, codes + [code]) == Outputs(US, codes) + [if upper then Shifted(code) else Unshifted(code)]
  {
    MappedCodes(code);
    NextByte(US, codes, code);
    TableFacts(code);
    assert US.unshifted[code] == Unshifted(code) && US.shifted[code] == Shifted(code);
  }

  /** No modifier and no break code has an entry. */
  lemma MappedCodes(code: Byte)
    requires Unshifted(code) != NUL
    ensures code < 0x80 && code != 0x2A && code != 0x36 && code != 0x3A
  {
  }

  /** A key that decodes to a byte never decodes to NUL, whatever the tables. */
  lemma NeverNul(m: Keymap, d: Decoder, code: Byte)
    ensures Decode(m, d, code).1 != Some(NUL)
  {
  }

  /** On the US tables a key gives an ASCII byte or nothing. With shift alone it is the shifted
      table's entry, with neither modifier the unshifted one's; caps lock changes letters only,
      and undoes shift on letters only. */
  lemma {:induction false} KeyMeaning(shift: bool, caps: bool, code: Byte)
    ensures Key(US, shift, caps, code).Some? <==> Unshifted(code) != NUL
    ensures Key(US, shift, caps, code).Some? ==> (Key(US, shift, caps, code).value as int) < 128
    ensures Key(US, true, false, code).Some? ==> Key(US, true, false, code).value == Shifted(code)
    ensures Key(US, false, false, code).Some? ==> Key(US, false, false, code).value == Unshifted(code)
    ensures !('a' <= Unshifted(code) <= 'z') ==> Key(US, shift, caps, code) == Key(US, shift, false, code)
    ensures Key(US, true, true, code) == Key(US, false, false, code) <==>
            Unshifted(code) == Shifted(code) || 'a' <= Unshifted(code) <= 'z'
  {
    TableFacts(code);
    assert Lookup(US.unshifted, code) == Unshifted(code) && Lookup(US.shifted, code) == Shifted(code);
  }
}
