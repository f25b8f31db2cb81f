/**
 What a firmware memory map says about frames, frame by frame. The integers here are not
 bounded by a machine word: a range may reach past the end of the address space.
 */
module E820 {
  import opened Machine

  const E820_MAX: nat := 64
  const E820_USABLE: nat := 1

  datatype Entry = Entry(base: Word, length: Word, kind: nat)

  /** Frame f lies wholly inside the byte range. */
  predicate Inside(base: Word, len: Word, f: nat) {
    base <= 4096 * f && 4096 * (f + 1) <= base + len
  }

  /** Frame f has a byte in the byte range. */
  predicate Touches(base: Word, len: Word, f: nat) {
    len != 0 && 4096 * f < base + len && base < 4096 * (f + 1)
  }

  /** The rounding of reserve_range: frame f ends inside the byte range. */
  predicate EndsInside(base: Word, len: Word, f: nat) {
    base < 4096 * (f + 1) <= base + len
  }

  predicate Offers(e: Entry, f: nat) {
    e.kind == E820_USABLE && Inside(e.base, e.length, f)
  }

  predicate Withholds(e: Entry, f: nat) {
    e.kind != E820_USABLE && EndsInside(e.base, e.length, f)
  }

  ghost predicate Offered(es: seq<Entry>, f: nat) {
    exists e :: e in es && Offers(e, f)
  }

  ghost predicate Withheld(es: seq<Entry>, f: nat) {
    exists e :: e in es && Withholds(e, f)
  }

  /** The fixed reservations of pmm_init, around the kernel image [start, end). */
  predicate CarvedOut(start: Word, end: Word, f: nat) {
    || EndsInside(0, 0x10_0000, f)
    || EndsInside(start, Wrap(end - start), f)
    || EndsInside(0x7_0000, 0x4000, f)
    || EndsInside(0x5000, 0x620, f)
    || EndsInside(0x8_C000, 0x4000, f)
    || EndsInside(0xB_8000, 0x1000, f)
  }

  ghost function UsableFrames(es: seq<Entry>): set<nat> {
    set f: nat | f < MAX_FRAMES && Offered(es, f)
  }

  /** The frames free once pmm_init is done. */
  ghost function FreeFrames(es: seq<Entry>, start: Word, end: Word): set<nat> {
    set f: nat | f < MAX_FRAMES && Offered(es, f) && !Withheld(es, f) && !CarvedOut(start, end, f)
  }

  /** Byte b is one of the `len` bytes from `base` on. */
  predicate Holds(base: nat, len: nat, b: nat) {
    base <= b < base + len
  }

  /** A frame lies inside a range exactly when each of its 4096 bytes does, and it touches the
      range exactly when one of them does. */
  lemma {:induction false} FrameBytes(base: Word, len: Word, f: nat)
    ensures Inside(base, len, f) <==> forall b: nat :: Holds(4096 * f, 4096, b) ==> Holds(base, len, b)
    ensures Touches(base, len, f) <==> exists b: nat :: Holds(4096 * f, 4096, b) && Holds(base, len, b)
  {
    var first, last := 4096 * f, 4096 * f + 4095;
    assert Holds(4096 * f, 4096, first) && Holds(4096 * f, 4096, last);
    if Touches(base, len, f) {
      var b := if base <= first then first else base;
      assert Holds(4096 * f, 4096, b) && Holds(base, len, b);
    }
  }

  /** Every byte of a frame that pmm_init leaves free is above 1MB, in the window, and in a
      usable entry. */
  lemma {:induction false} FreeBytesAreUsable(es: seq<Entry>, start: Word, end: Word, f: nat, b: nat)
    requires f in FreeFrames(es, start, end) && 4096 * f <= b < 4096 * f + 4096
    ensures 0x10_0000 <= b < 0x4000_0000
    ensures exists e :: e in es && e.kind == 1 && e.base <= b < e.base + e.length
  {
    assert !CarvedOut(start, end, f);
    var e :| e in es && Offers(e, f);
    assert e.kind == 1 && e.base <= b < e.base + e.length;
  }

  /** The order of the table does not matter. */
  lemma {:induction false} OrderIrrelevant(es: seq<Entry>, fs: seq<Entry>, start: Word, end: Word)
    requires multiset(es) == multiset(fs)
    ensures UsableFrames(es) == UsableFrames(fs)
    ensures FreeFrames(es, start, end) == FreeFrames(fs, start, end)
  {
    forall e: Entry ensures e in es <==> e in fs {
      assert e in es <==> e in multiset(es);
      assert e in fs <==> e in multiset(fs);
    }
    assert forall f: nat :: Offered(es, f) <==> Offered(fs, f);
    assert forall f: nat :: Withheld(es, f) <==> Withheld(fs, f);
  }

  /** reserve_range covers every frame its range touches if and only if the range is empty,
      starts past the window, reaches its end, or ends on a frame boundary. */
  lemma {:induction false} ReservesAllItTouchesIff(base: Word, len: Word)
    ensures (forall f: nat :: f < MAX_FRAMES && Touches(base, len, f) ==> EndsInside(base, len, f))
            <==> len == 0 || base >= MAX_BYTES || base + len >= MAX_BYTES || (base + len) % 4096 == 0
    ensures forall f: nat :: EndsInside(base, len, f) ==> Touches(base, len, f)
  {
    if len != 0 && base + len < MAX_BYTES && (base + len) % 4096 != 0 {
      var last := (base + len) / 4096;
      assert Touches(base, len, last) && !EndsInside(base, len, last);
    }
  }

  /** The frame a withheld range may end in without its being reserved. */
  function LastFrame(e: Entry): nat {
    (e.base + e.length) / 4096
  }

  lemma {:induction false} OnlyLastFrameEscapes(es: seq<Entry>, start: Word, end: Word, e: Entry, f: nat)
    requires e in es && e.kind != E820_USABLE
    requires f in FreeFrames(es, start, end) && Touches(e.base, e.length, f)
    ensures f == LastFrame(e) && (e.base + e.length) % 4096 != 0
  {
    assert Withholds(e, f) ==> Withheld(es, f);
  }

  /** After pmm_init no free frame has a byte in a withheld range, if and only if that range is
      empty, ends on a frame boundary, or ends in a frame that is past the window, not offered,
      withheld by another entry or carved out. Every free frame is above 1MB. */
  lemma {:induction false} FreeAvoidsWithheldIff(es: seq<Entry>, start: Word, end: Word, e: Entry)
    requires e in es && e.kind != E820_USABLE
    ensures (forall f: nat :: f in FreeFrames(es, start, end) ==> !Touches(e.base, e.length, f))
            <==> (|| e.length == 0
                  || (e.base + e.length) % 4096 == 0
                  || MAX_FRAMES <= LastFrame(e)
                  || !Offered(es, LastFrame(e))
                  || Withheld(es, LastFrame(e))
                  || CarvedOut(start, end, LastFrame(e)))
    ensures forall f: nat :: f in FreeFrames(es, start, end) ==> 0x100 <= f
  {
    forall f: nat | f in FreeFrames(es, start, end) && Touches(e.base, e.length, f)
      ensures f == LastFrame(e) && (e.base + e.length) % 4096 != 0
    {
      OnlyLastFrameEscapes(es, start, end, e, f);
    }
    var last := LastFrame(e);
    assert (last in FreeFrames(es, start, end)) ==
           (last < MAX_FRAMES && Offered(es, last) && !Withheld(es, last) && !CarvedOut(start, end, last));
    assert e.length != 0 && (e.base + e.length) % 4096 != 0 ==> Touches(e.base, e.length, last);
  }

  /** A table on which it fails: 256 withheld bytes inside usable memory, and the frame that
      holds them is free. */
  lemma {:induction false} WithheldBytesCanBeFree()
    ensures var e := Entry(0x18_0000, 0x100, 2);
            var es := [Entry(0x10_0000, 0x10_0000, E820_USABLE), e];
            0x180 in FreeFrames(es, 0x1_0000, 0x2_0000) && Touches(e.base, e.length, 0x180)
  {
    var usable, e := Entry(0x10_0000, 0x10_0000, E820_USABLE), Entry(0x18_0000, 0x100, 2);
    var es := [usable, e];
    assert es[0] == usable && Offers(usable, 0x180);
    assert forall x :: x in es ==> x == usable || x == e;
    assert !Withholds(usable, 0x180) && !Withholds(e, 0x180);
    LowMegabyteCoversAll(0x1_0000, 0x2_0000, 0x180);
  }

  /** The other fixed reservations add nothing to the first megabyte when the kernel ends there. */
  lemma {:induction false} LowMegabyteCoversAll(start: Word, end: Word, f: nat)
    requires start <= end <= 0x10_0000
    ensures CarvedOut(start, end, f) <==> f < 0x100
  {
    assert Wrap(end - start) == end - start;
  }
}
