/** The physical frame allocator, kernel/mm/pmm.c. */
module Pmm {
  import opened Machine
  import opened FrameSets
  import opened Bits
  import E = E820

  // ---------------------------------------------------------------- the bitmap as a set

  predicate Used(bm: seq<bv8>, f: nat)
    requires f < 8 * |bm|
  {
    Bit(bm[f / 8], f % 8)
  }

  /** The clear bits are exactly the members of `free`. */
  ghost predicate Matches(bm: seq<bv8>, free: set<nat>) {
    && (forall f: nat {:trigger Used(bm, f)} :: f < 8 * |bm| ==> (f in free <==> !Used(bm, f)))
    && (forall f :: f in free ==> f < 8 * |bm|)
  }

  /** Replacing the byte of frame f by one that differs at most in f's bit. */
  lemma {:induction false} ByteMatches(bm: seq<bv8>, free: set<nat>, f: nat, b: bv8, used: bool)
    requires Matches(bm, free) && f < 8 * |bm|
    requires forall k :: 0 <= k < 8 ==> Bit(b, k) == if k == f % 8 then used else Bit(bm[f / 8], k)
    ensures Matches(bm[f / 8 := b], if used then free - {f} else free + {f})
  {
    var bm' := bm[f / 8 := b];
    forall g: nat | g < 8 * |bm|
      ensures Used(bm', g) == if g == f then used else g !in free
    {
      assert g in free <==> !Used(bm, g);
      assert Used(bm', g) == Bit(if g / 8 == f / 8 then b else bm[g / 8], g % 8);
    }
  }

  lemma {:induction false} SetBitMatches(bm: seq<bv8>, free: set<nat>, f: nat)
    requires Matches(bm, free) && f < 8 * |bm|
    ensures Matches(bm[f / 8 := bm[f / 8] | Mask(f % 8)], free - {f})
  {
    var b := bm[f / 8] | Mask(f % 8);
    forall k | 0 <= k < 8
      ensures Bit(b, k) == if k == f % 8 then true else Bit(bm[f / 8], k)
    {
      OrMask(bm[f / 8], f % 8, k);
    }
    ByteMatches(bm, free, f, b, true);
  }

  lemma {:induction false} ClearBitMatches(bm: seq<bv8>, free: set<nat>, f: nat)
    requires Matches(bm, free) && f < 8 * |bm|
    ensures Matches(bm[f / 8 := bm[f / 8] & !Mask(f % 8)], free + {f})
  {
    var b := bm[f / 8] & !Mask(f % 8);
    forall k | 0 <= k < 8
      ensures Bit(b, k) == if k == f % 8 then false else Bit(bm[f / 8], k)
    {
      AndNotMask(bm[f / 8], f % 8, k);
    }
    ByteMatches(bm, free, f, b, false);
  }

  /** The set of free frames determines the bitmap. */
  lemma {:induction false} BitmapIsItsFreeSet(a: seq<bv8>, b: seq<bv8>, free: set<nat>)
    requires |a| == |b| && Matches(a, free) && Matches(b, free)
    ensures a == b
  {
    forall i | 0 <= i < |a|
      ensures a[i] == b[i]
    {
      forall k | 0 <= k < 8
        ensures Bit(a[i], k) == Bit(b[i], k)
      {
        var f := 8 * i + k;
        assert f / 8 == i && f % 8 == k;
        assert Used(a, f) == Used(b, f);
      }
      ByteIsItsBits(a[i], b[i]);
    }
  }

  lemma {:induction false} FreeSetBound(free: set<nat>, n: nat)
    requires forall f :: f in free ==> f < n
    ensures |free| <= n
  {
    IntervalSize(0, n);
    SubsetSize(free, Interval(0, n));
  }

  lemma {:induction false} AllSet(bm: seq<bv8>)
    requires forall i :: 0 <= i < |bm| ==> bm[i] == 0xFF
    ensures Matches(bm, {})
  {
    forall f: nat | f < 8 * |bm|
      ensures Used(bm, f)
    {
      assert bm[f / 8] == 0xFF;
    }
  }

  // ---------------------------------------------------------------- the table

  /** The entries pmm_init looks at: none for a null pointer, and at most E820_MAX. */
  function Table(count: nat, entries: Option<seq<E.Entry>>): seq<E.Entry>
    requires entries.Some? ==> count <= |entries.value| || 64 <= |entries.value|
  {
    if entries.None? then []
    else if count > E.E820_MAX then entries.value[..64]
    else entries.value[..count]
  }

  /** Which entries these are. */
  lemma {:induction false} TableEntries(count: nat, entries: Option<seq<E.Entry>>)
    requires entries.Some? ==> count <= |entries.value| || 64 <= |entries.value|
    ensures entries.None? ==> Table(count, entries) == []
    ensures entries.Some? ==> |Table(count, entries)| == if count < 64 then count else 64
    ensures entries.Some? ==> forall i :: 0 <= i < count && i < 64 ==> Table(count, entries)[i] == entries.value[i]
  {
  }

  /** The frames pmm_init leaves free, in terms of its arguments: those above 1MB and in the
      window that lie wholly inside a usable entry among the first 64, that end inside no other
      entry among these, and that do not end inside the kernel image. */
  lemma {:induction false} FreeFramesIff(count: nat, entries: Option<seq<E.Entry>>, start: Word, end: Word, f: nat)
    requires entries.Some? ==> count <= |entries.value| || 64 <= |entries.value|
    ensures f in E.FreeFrames(Table(count, entries), start, end) <==>
            && entries.Some? && 0x100 <= f < 0x4_0000
            && (exists i :: 0 <= i < count && i < 64 && entries.value[i].kind == 1
                            && entries.value[i].base <= 4096 * f
                            && 4096 * f + 4096 <= entries.value[i].base + entries.value[i].length)
            && (forall i :: 0 <= i < count && i < 64 && entries.value[i].kind != 1 ==>
                  !(entries.value[i].base < 4096 * f + 4096 <= entries.value[i].base + entries.value[i].length))
            && !(start < 4096 * f + 4096 <= start + Wrap(end - start))
  {
    TableEntries(count, entries);
    OfferedIff(count, entries, f);
    WithheldIff(count, entries, f);
    LowReservations(start, end, f);
  }

  /** The usable frames: all frames of the window that lie wholly inside a usable entry. */
  lemma {:induction false} UsableFramesIff(count: nat, entries: Option<seq<E.Entry>>, f: nat)
    requires entries.Some? ==> count <= |entries.value| || 64 <= |entries.value|
    ensures f in E.UsableFrames(Table(count, entries)) <==>
            && entries.Some? && f < 0x4_0000
            && exists i :: 0 <= i < count && i < 64 && entries.value[i].kind == 1
                           && entries.value[i].base <= 4096 * f
                           && 4096 * f + 4096 <= entries.value[i].base + entries.value[i].length
  {
    OfferedIff(count, entries, f);
  }

  lemma {:induction false} OfferedIff(count: nat, entries: Option<seq<E.Entry>>, f: nat)
    requires entries.Some? ==> count <= |entries.value| || 64 <= |entries.value|
    ensures E.Offered(Table(count, entries), f) <==>
            entries.Some? && exists i :: 0 <= i < count && i < 64 && entries.value[i].kind == 1
                                         && entries.value[i].base <= 4096 * f
                                         && 4096 * f + 4096 <= entries.value[i].base + entries.value[i].length
  {
    var es := Table(count, entries);
    TableEntries(count, entries);
    if E.Offered(es, f) {
      var e :| e in es && E.Offers(e, f);
      var i :| 0 <= i < |es| && es[i] == e;
      assert entries.value[i] == e;
    }
    if i :| entries.Some? && 0 <= i < count && i < 64 && entries.value[i].kind == 1
            && entries.value[i].base <= 4096 * f
            && 4096 * f + 4096 <= entries.value[i].base + entries.value[i].length {
      assert es[i] in es && E.Offers(es[i], f);
    }
  }

  lemma {:induction false} WithheldIff(count: nat, entries: Option<seq<E.Entry>>, f: nat)
    requires entries.Some? ==> count <= |entries.value| || 64 <= |entries.value|
    ensures E.Withheld(Table(count, entries), f) <==>
            entries.Some? && exists i :: 0 <= i < count && i < 64 && entries.value[i].kind != 1
                                         && entries.value[i].base < 4096 * f + 4096
                                         && 4096 * f + 4096 <= entries.value[i].base + entries.value[i].length
  {
    var es := Table(count, entries);
    TableEntries(count, entries);
    if E.Withheld(es, f) {
      var e :| e in es && E.Withholds(e, f);
      var i :| 0 <= i < |es| && es[i] == e;
      assert entries.value[i] == e;
    }
    if i :| entries.Some? && 0 <= i < count && i < 64 && entries.value[i].kind != 1
            && entries.value[i].base < 4096 * f + 4096
            && 4096 * f + 4096 <= entries.value[i].base + entries.value[i].length {
      assert es[i] in es && E.Withholds(es[i], f);
    }
  }

  /** The fixed reservations are the first megabyte and the kernel image. */
  lemma {:induction false} LowReservations(start: Word, end: Word, f: nat)
    ensures E.CarvedOut(start, end, f) <==> f < 0x100 || start < 4096 * f + 4096 <= start + Wrap(end - start)
  {
  }

  /** Where a non-empty range that starts inside the window ends, clipped to the window. An
      end that wraps around the address space saturates first. */
  function RangeEnd(base: Word, len: Word): (end: nat)
    requires base < MAX_BYTES
    ensures end == if base + len < MAX_BYTES then base + len else MAX_BYTES
  {
    var sum := Wrap(base + len);
    var end := if sum < base then TWO64 - 1 else sum;
    if end > MAX_BYTES then MAX_BYTES else end
  }

  lemma {:induction false} OfferedMore(es: seq<E.Entry>, i: nat)
    requires i < |es|
    ensures forall f: nat :: E.Offered(es[..i + 1], f) <==> E.Offered(es[..i], f) || E.Offers(es[i], f)
  {
    assert es[..i + 1] == es[..i] + [es[i]];
  }

  lemma {:induction false} WithheldMore(es: seq<E.Entry>, i: nat)
    requires i < |es|
    ensures forall f: nat :: E.Withheld(es[..i + 1], f) <==> E.Withheld(es[..i], f) || E.Withholds(es[i], f)
  {
    assert es[..i + 1] == es[..i] + [es[i]];
  }

  /** The frame an address gives back to the pool, if it names one: the one that starts there. */
  ghost function Returned(addr: Word): (fs: set<nat>)
    ensures forall f: nat :: f in fs <==> addr == 4096 * f && f < 0x4_0000
  {
    if addr % 4096 == 0 && addr < MAX_BYTES then {addr / 4096} else {}
  }

  // ---------------------------------------------------------------- the allocator

  class Allocator {
    const bitmap: array<bv8>
    var usable: Word
    var free: Word

    /** The frames whose bit is clear. */
    ghost var pool: set<nat>

    /** The bitmap spans the window, `pool` is what it says and `free` counts it. */
    ghost predicate Valid()
      reads this, bitmap
    {
      bitmap.Length == 0x8000 && Matches(bitmap[..], pool) && free == |pool|
    }

    method TestBit(f: nat) returns (used: bool)
      requires Valid() && f < 0x4_0000
      ensures used <==> f !in pool
      ensures used <==> bitmap[f / 8] & (1 << (f % 8)) != 0
    {
      MaskIsShift(f % 8);
      used := bitmap[f / 8] & (1 << (f % 8)) != 0;
      assert used <==> Used(bitmap[..], f);
    }

    method SetBit(f: nat)
      requires bitmap.Length == 0x8000 && f < 0x4_0000 && Matches(bitmap[..], pool)
      modifies this`pool, bitmap
      ensures Matches(bitmap[..], pool) && pool == old(pool) - {f}
    {
      var b := bitmap[f / 8] | (1 << (f % 8));
      ShiftForms(bitmap[f / 8], f % 8);
      SetBitMatches(bitmap[..], pool, f);
      bitmap[f / 8] := b;
      assert bitmap[..] == old(bitmap[..])[f / 8 := b];
      pool := pool - {f};
    }

    method ClearBit(f: nat)
      requires bitmap.Length == 0x8000 && f < 0x4_0000 && Matches(bitmap[..], pool)
      modifies this`pool, bitmap
      ensures Matches(bitmap[..], pool) && pool == old(pool) + {f}
    {
      var b := bitmap[f / 8] & !(1 << (f % 8));
      ShiftForms(bitmap[f / 8], f % 8);
      ClearBitMatches(bitmap[..], pool, f);
      bitmap[f / 8] := b;
      assert bitmap[..] == old(bitmap[..])[f / 8 := b];
      pool := pool + {f};
    }

    /** Take a free frame out of the pool, keeping the count. */
    method Claim(f: nat)
      requires Valid() && f in pool
      modifies this`free, this`pool, bitmap
      ensures Valid() && pool == old(pool) - {f}
    {
      SetBit(f);
      free := Wrap(free - 1);
    }

    /** Give a frame that is not free back, keeping the count. */
    method Unclaim(f: nat)
      requires Valid() && f < 0x4_0000 && f !in pool
      modifies this`free, this`pool, bitmap
      ensures Valid() && pool == old(pool) + {f} && free == old(free) + 1
    {
      ClearBit(f);
      FreeSetBound(pool, 0x4_0000);
      free := Wrap(free + 1);
    }

    method Reserve(f: nat)
      requires Valid() && f < 0x4_0000
      modifies this`free, this`pool, bitmap
      ensures Valid() && pool == old(pool) - {f}
    {
      var used := TestBit(f);
      if !used {
        Claim(f);
      }
    }

    method ReserveFrames(lo: nat, hi: nat)
      requires Valid() && hi <= 0x4_0000
      modifies this`free, this`pool, bitmap
      ensures Valid()
      ensures forall f: nat :: f in pool <==> f in old(pool) && !(lo <= f < hi)
    {
      var frame := lo;
      while frame < hi
        invariant lo <= frame && (frame <= hi || frame == lo)
        invariant Valid()
        invariant forall f: nat :: f in pool <==> f in old(pool) && !(lo <= f < frame)
      {
        Reserve(frame);
        frame := frame + 1;
      }
    }

    /** reserve_range: the frames that end inside [base, base + len) stop being free. */
    method ReserveRange(base: Word, len: Word)
      requires Valid()
      modifies this`free, this`pool, bitmap
      ensures Valid()
      ensures forall f: nat :: f in pool <==> f in old(pool) && !E.EndsInside(base, len, f)
    {
      if len == 0 || base >= MAX_BYTES {
        return;
      }
      ReserveFrames(base / 4096, RangeEnd(base, len) / 4096);
    }

    method Offer(f: nat)
      requires Valid() && usable == free && f < 0x4_0000
      modifies this, bitmap
      ensures Valid() && usable == free && pool == old(pool) + {f}
    {
      var used := TestBit(f);
      if used {
        Unclaim(f);
        assert usable + 1 == free;
        usable := Wrap(usable + 1);
      }
    }

    method OfferFrames(lo: nat, hi: nat)
      requires Valid() && usable == free && hi <= 0x4_0000
      modifies this, bitmap
      ensures Valid() && usable == free
      ensures forall f: nat :: f in pool <==> f in old(pool) || lo <= f < hi
    {
      var frame := lo;
      while frame < hi
        invariant lo <= frame && (frame <= hi || frame == lo)
        invariant Valid() && usable == free
        invariant forall f: nat :: f in pool <==> f in old(pool) || lo <= f < frame
      {
        Offer(frame);
        frame := frame + 1;
      }
    }

    /** One usable entry of the table: the frames wholly inside it become free. */
    method OfferRange(base: Word, len: Word)
      requires Valid() && usable == free
      modifies this, bitmap
      ensures Valid() && usable == free
      ensures forall f: nat :: f in pool <==> f in old(pool) || (f < MAX_FRAMES && E.Inside(base, len, f))
    {
      if len == 0 || base >= MAX_BYTES {
        return;
      }
      OfferFrames(Wrap(base + 4095) / 4096, RangeEnd(base, len) / 4096);
    }

    method OfferEntry(e: E.Entry)
      requires Valid() && usable == free
      modifies this, bitmap
      ensures Valid() && usable == free
      ensures forall f: nat :: f in pool <==> f in old(pool) || (f < MAX_FRAMES && E.Offers(e, f))
    {
      if e.kind == E.E820_USABLE {
        OfferRange(e.base, e.length);
      }
    }

    method WithholdEntry(e: E.Entry)
      requires Valid()
      modifies this`free, this`pool, bitmap
      ensures Valid()
      ensures forall f: nat :: f in pool <==> f in old(pool) && !E.Withholds(e, f)
    {
      if e.kind != E.E820_USABLE {
        ReserveRange(e.base, e.length);
      }
    }

    /** Every bit set: nothing is known to be usable yet. */
    method Fill()
      requires bitmap.Length == 0x8000
      modifies this, bitmap
      ensures Valid() && pool == {} && usable == 0
    {
      for i := 0 to bitmap.Length
        invariant forall j :: 0 <= j < i ==> bitmap[j] == 0xFF
      {
        bitmap[i] := 0xFF;
      }
      AllSet(bitmap[..]);
      pool := {};
      usable := 0;
      free := 0;
    }

    /** pmm_init, for every table: the free set is what the table offers, less what it
        withholds, less the fixed reservations. A null table pointer is None. */
    method Init(count: nat, entries: Option<seq<E.Entry>>, kernelStart: Word, kernelEnd: Word)
      requires bitmap.Length == 0x8000
      requires entries.Some? ==> count <= |entries.value| || 64 <= |entries.value|
      modifies this, bitmap
      ensures Valid()
      ensures pool == E.FreeFrames(Table(count, entries), kernelStart, kernelEnd)
      ensures usable == |E.UsableFrames(Table(count, entries))|
      ensures forall f: nat :: f in pool <==>
                && entries.Some? && 0x100 <= f < 0x4_0000
                && (exists i :: 0 <= i < count && i < 64 && entries.value[i].kind == 1
                                && entries.value[i].base <= 4096 * f
                                && 4096 * f + 4096 <= entries.value[i].base + entries.value[i].length)
                && (forall i :: 0 <= i < count && i < 64 && entries.value[i].kind != 1 ==>
                      !(entries.value[i].base < 4096 * f + 4096 <= entries.value[i].base + entries.value[i].length))
                && !(kernelStart < 4096 * f + 4096 <= kernelStart + Wrap(kernelEnd - kernelStart))
    {
      BuildPool(count, entries, kernelStart, kernelEnd);
      forall f: nat
        ensures f in pool <==>
                && entries.Some? && 0x100 <= f < 0x4_0000
                && (exists i :: 0 <= i < count && i < 64 && entries.value[i].kind == 1
                                && entries.value[i].base <= 4096 * f
                                && 4096 * f + 4096 <= entries.value[i].base + entries.value[i].length)
                && (forall i :: 0 <= i < count && i < 64 && entries.value[i].kind != 1 ==>
                      !(entries.value[i].base < 4096 * f + 4096 <= entries.value[i].base + entries.value[i].length))
                && !(kernelStart < 4096 * f + 4096 <= kernelStart + Wrap(kernelEnd - kernelStart))
      {
        FreeFramesIff(count, entries, kernelStart, kernelEnd, f);
      }
    }

    /** The two passes over the table and the fixed reservations. */
    method BuildPool(count: nat, entries: Option<seq<E.Entry>>, kernelStart: Word, kernelEnd: Word)
      requires bitmap.Length == 0x8000
      requires entries.Some? ==> count <= |entries.value| || 64 <= |entries.value|
      modifies this, bitmap
      ensures Valid()
      ensures pool == E.FreeFrames(Table(count, entries), kernelStart, kernelEnd)
      ensures usable == |E.UsableFrames(Table(count, entries))|
    {
      Fill();
      var es := Table(count, entries);
      for i := 0 to |es|
        invariant Valid() && usable == free
        invariant forall f: nat :: f in pool <==> f < MAX_FRAMES && E.Offered(es[..i], f)
      {
        OfferEntry(es[i]);
        OfferedMore(es, i);
      }
      assert es[..|es|] == es;
      assert pool == E.UsableFrames(es);
      for i := 0 to |es|
        invariant Valid() && usable == |E.UsableFrames(es)|
        invariant forall f: nat :: f in pool <==> f < MAX_FRAMES && E.Offered(es, f) && !E.Withheld(es[..i], f)
      {
        WithholdEntry(es[i]);
        WithheldMore(es, i);
      }
      assert es[..|es|] == es;
      ReserveRange(0, 0x10_0000);
      ReserveRange(kernelStart, Wrap(kernelEnd - kernelStart));
      ReserveRange(0x7_0000, 0x4000);
      ReserveRange(0x5000, 0x620);
      ReserveRange(0x8_C000, 0x4000);
      ReserveRange(0xB_8000, 0x1000);
      assert pool == E.FreeFrames(es, kernelStart, kernelEnd);
    }

    /** Scan upward for a clear bit. */
    method Scan() returns (frame: nat)
      requires Valid()
      ensures frame <= 0x4_0000 && (frame < 0x4_0000 ==> frame in pool)
      ensures forall f: nat :: f < frame ==> f !in pool
    {
      frame := 0;
      while frame < 0x4_0000
        invariant frame <= 0x4_0000
        invariant forall f: nat :: f < frame ==> f !in pool
      {
        var used := TestBit(frame);
        if !used {
          return;
        }
        frame := frame + 1;
      }
    }

    /** pmm_alloc_frame: the address of the lowest free frame, which stops being free. */
    method AllocFrame() returns (addr: Word)
      requires Valid()
      modifies this`free, this`pool, bitmap
      ensures Valid()
      ensures old(pool) == {} ==> addr == 0 && pool == {}
      ensures old(pool) != {} ==>
                addr == 4096 * Lowest(old(pool)) && pool == old(pool) - {Lowest(old(pool))}
    {
      var frame := Scan();
      if frame == 0x4_0000 {
        assert pool == {};
        return 0;
      }
      LowestIs(pool, frame);
      Claim(frame);
      return frame * 4096;
    }

    /** pmm_free_frame: unaligned and out-of-window addresses are ignored. */
    method FreeFrame(addr: Word)
      requires Valid()
      modifies this`free, this`pool, bitmap
      ensures Valid()
      ensures pool == old(pool) + Returned(addr)
      ensures forall f: nat :: f in pool <==> f in old(pool) || (addr == 4096 * f && f < 0x4_0000)
    {
      if addr % 4096 != 0 {
        return;
      }
      if addr >= MAX_BYTES {
        return;
      }
      var used := TestBit(addr / 4096);
      if used {
        Unclaim(addr / 4096);
      }
    }
  }
}
