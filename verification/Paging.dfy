/** The boot page tables, kernel/arch/x86_64/entry.asm, under the processor's 4-level walk. */
module Paging {
  import opened Machine

  type Dword = x: int | 0 <= x < 0x1_0000_0000

  const PML4: nat := 0x7_0000
  const PDPT: nat := 0x7_1000
  const PD: nat := 0x7_2000

  // ---------------------------------------------------------------- the hardware walk

  /** The result of translating a linear address (Intel SDM Vol. 3A, section 4.5). */
  datatype Translation = Fault | Mapped(address: nat, writable: bool)

  /** Entry `i` of the table at physical address `table`; a table outside memory reads as 0. */
  function EntryAt(m: seq<Dword>, table: nat, i: nat): nat {
    var k := (table + 8 * i) / 4;
    if k + 1 < |m| then
      var low: int, high: int := m[k], m[k + 1];
      low + 0x1_0000_0000 * high
    else 0
  }

  predicate Present(e: nat) {
    e % 2 == 1
  }

  predicate Writable(e: nat) {
    e / 2 % 2 == 1
  }

  predicate PageSize(e: nat) {
    e / 128 % 2 == 1
  }

  /** Bits 51:12 of an entry: the next table. */
  function NextTable(e: nat): nat {
    e / 0x1000 % 0x100_0000_0000 * 0x1000
  }

  function WalkPt(m: seq<Dword>, table: nat, va: nat, writable: bool): Translation {
    var e := EntryAt(m, table, va / 0x1000 % 512);
    if !Present(e) then Fault
    else Mapped(NextTable(e) + va % 0x1000, writable && Writable(e))
  }

  function WalkPd(m: seq<Dword>, table: nat, va: nat, writable: bool): Translation {
    var e := EntryAt(m, table, va / 0x20_0000 % 512);
    if !Present(e) then Fault
    else if PageSize(e) then
      Mapped(e / 0x20_0000 % 0x8000_0000 * 0x20_0000 + va % 0x20_0000, writable && Writable(e))
    else WalkPt(m, NextTable(e), va, writable && Writable(e))
  }

  function WalkPdpt(m: seq<Dword>, table: nat, va: nat, writable: bool): Translation {
    var e := EntryAt(m, table, va / 0x4000_0000 % 512);
    if !Present(e) then Fault
    else if PageSize(e) then
      Mapped(e / 0x4000_0000 % 0x40_0000 * 0x4000_0000 + va % 0x4000_0000, writable && Writable(e))
    else WalkPd(m, NextTable(e), va, writable && Writable(e))
  }

  /** Translate a 48-bit linear address with CR3 holding `cr3`. */
  function Walk(m: seq<Dword>, cr3: nat, va: nat): Translation {
    var e := EntryAt(m, NextTable(cr3), va / 0x80_0000_0000 % 512);
    if !Present(e) then Fault else WalkPdpt(m, NextTable(e), va, Writable(e))
  }

  // ---------------------------------------------------------------- building the tables

  /** What the clear and fill loops leave in the 16KB from PML4 on, dword by dword. */
  function TableWord(k: nat): Dword {
    if k == PML4 / 4 then 0x7_1003
    else if k == PDPT / 4 then 0x7_2003
    else if PD / 4 <= k < PD / 4 + 1024 && k % 2 == 0 then 0x83 + (k - PD / 4) / 2 * 0x20_0000
    else 0
  }

  ghost predicate TablesBuilt(m: seq<Dword>) {
    0x1_D000 <= |m| && forall k :: 0x1_C000 <= k < 0x1_D000 ==> m[k] == TableWord(k)
  }

  /** The tables, dword by dword: one entry in each of the two upper tables, both present and
      writable and nothing else; 512 large pages, ascending; and zeros in the rest of the 16KB. */
  lemma {:induction false} TablesAre(m: seq<Dword>, k: nat)
    requires TablesBuilt(m)
    ensures m[0x1_C000] == 0x7_1003 && m[0x1_C400] == 0x7_2003
    ensures k < 512 ==> m[0x1_C800 + 2 * k] == 0x83 + k * 0x20_0000 && m[0x1_C801 + 2 * k] == 0
    ensures (0x1_C000 < k < 0x1_C800 && k != 0x1_C400) || 0x1_CC00 <= k < 0x1_D000 ==> m[k] == 0
  {
    if k < 512 {
      DirectoryWord(k);
      assert m[0x1_C800 + 2 * k] == TableWord(0x1_C800 + 2 * k);
      assert m[0x1_C801 + 2 * k] == TableWord(0x1_C801 + 2 * k);
    }
  }

  method Clear(mem: array<Dword>)
    requires 0x1_D000 <= mem.Length
    modifies mem
    ensures forall k :: 0x1_C000 <= k < 0x1_D000 ==> mem[k] == 0
    ensures forall k :: 0 <= k < mem.Length && !(0x1_C000 <= k < 0x1_D000) ==> mem[k] == old(mem[k])
  {
    var edi, ecx := PML4, 0x1000;
    while ecx > 0
      invariant 0 <= ecx <= 0x1000 && edi == 0x7_0000 + 4 * (0x1000 - ecx)
      invariant forall k :: 0x1_C000 <= k < edi / 4 ==> mem[k] == 0
      invariant forall k :: 0 <= k < mem.Length && !(0x1_C000 <= k < edi / 4) ==> mem[k] == old(mem[k])
    {
      mem[edi / 4] := 0;
      edi := edi + 4;
      ecx := ecx - 1;
    }
  }

  /** The page-table part of the entry code, over arbitrary memory. */
  method BuildTables(mem: array<Dword>)
    requires 0x1_D000 <= mem.Length
    modifies mem
    ensures TablesBuilt(mem[..])
    ensures forall k :: 0 <= k < mem.Length && !(0x1_C000 <= k < 0x1_D000) ==> mem[k] == old(mem[k])
  {
    Clear(mem);
    mem[PML4 / 4] := PDPT + 0x03;
    mem[PDPT / 4] := PD + 0x03;
    Fill(mem);
  }

  method Fill(mem: array<Dword>)
    requires 0x1_D000 <= mem.Length && forall k :: 0x1_C800 <= k < 0x1_CC00 ==> mem[k] == 0
    modifies mem
    ensures forall k :: 0x1_C800 <= k < 0x1_CC00 ==> mem[k] == TableWord(k)
    ensures forall k :: 0 <= k < mem.Length && !(0x1_C800 <= k < 0x1_CC00) ==> mem[k] == old(mem[k])
  {
    var ecx, edi, eax := 512, PD, 0x83;
    while ecx > 0
      invariant 0 <= ecx <= 512 && edi == 0x7_2000 + 8 * (512 - ecx) && eax == 0x83 + (512 - ecx) * 0x20_0000
      invariant forall k :: 0x1_C800 <= k < edi / 4 ==> mem[k] == TableWord(k)
      invariant forall k :: edi / 4 <= k < 0x1_CC00 ==> mem[k] == 0
      invariant forall k :: 0 <= k < mem.Length && !(0x1_C800 <= k < 0x1_CC00) ==> mem[k] == old(mem[k])
    {
      DirectoryWord(512 - ecx);
      mem[edi / 4] := eax % 0x1_0000_0000;
      eax := eax + 0x20_0000;
      edi := edi + 8;
      ecx := ecx - 1;
    }
  }

  lemma DirectoryWord(i: nat)
    requires i < 512
    ensures TableWord(0x1_C800 + 2 * i) == 0x83 + i * 0x20_0000 && TableWord(0x1_C800 + 2 * i + 1) == 0
  {
  }

  // ---------------------------------------------------------------- the identity map

  /** An entry of a built table, from its two dwords. */
  lemma {:induction false} EntryWords(m: seq<Dword>, table: nat, i: nat)
    requires TablesBuilt(m) && i < 512 && table in {PML4, PDPT, PD}
    ensures var k := table / 4 + 2 * i;
            EntryAt(m, table, i) == TableWord(k) + 0x1_0000_0000 * TableWord(k + 1)
  {
    var k := table / 4 + 2 * i;
    assert m[k] == TableWord(k) && m[k + 1] == TableWord(k + 1);
  }

  lemma {:induction false} Entries(m: seq<Dword>, i: nat)
    requires TablesBuilt(m) && i < 512
    ensures EntryAt(m, PML4, i) == if i == 0 then 0x7_1003 else 0
    ensures EntryAt(m, PDPT, i) == if i == 0 then 0x7_2003 else 0
    ensures EntryAt(m, PD, i) == 0x83 + i * 0x20_0000
  {
    EntryWords(m, PML4, i);
    EntryWords(m, PDPT, i);
    EntryWords(m, PD, i);
    DirectoryWord(i);
  }

  lemma LargePageFlags(i: nat)
    requires i < 512
    ensures Present(0x83 + i * 0x20_0000) && Writable(0x83 + i * 0x20_0000)
  {
    assert (0x83 + i * 0x20_0000) / 2 == 0x41 + i * 0x10_0000;
  }

  lemma LargePageSize(i: nat)
    requires i < 512
    ensures PageSize(0x83 + i * 0x20_0000)
  {
    assert (0x83 + i * 0x20_0000) / 128 == 1 + i * 0x4000;
  }

  lemma LargePageBase(i: nat)
    requires i < 512
    ensures (0x83 + i * 0x20_0000) / 0x20_0000 % 0x8000_0000 == i
  {
    assert (0x83 + i * 0x20_0000) / 0x20_0000 == i;
  }

  lemma {:induction false} TableEntries()
    ensures NextTable(PML4) == PML4
    ensures Present(0x7_1003) && Writable(0x7_1003) && NextTable(0x7_1003) == PDPT
    ensures Present(0x7_2003) && Writable(0x7_2003) && !PageSize(0x7_2003) && NextTable(0x7_2003) == PD
  {
  }

  lemma {:induction false} DirectoryWalk(m: seq<Dword>, va: nat)
    requires TablesBuilt(m) && va < 0x4000_0000
    ensures WalkPd(m, PD, va, true) == Mapped(va, true)
  {
    var i := va / 0x20_0000;
    assert i % 512 == i;
    Entries(m, i);
    LargePageFlags(i);
    LargePageSize(i);
    LargePageBase(i);
  }

  lemma {:induction false} PointerWalk(m: seq<Dword>, va: nat)
    requires TablesBuilt(m) && va < 0x80_0000_0000
    ensures WalkPdpt(m, PDPT, va, true) == if va < 0x4000_0000 then Mapped(va, true) else Fault
  {
    TableEntries();
    var i := va / 0x4000_0000;
    assert i % 512 == i;
    Entries(m, i);
    if va < 0x4000_0000 {
      DirectoryWalk(m, va);
    }
  }

  /** Over the tables as built, every 48-bit address below 1GB translates to itself, writable,
      and every other one faults. */
  lemma {:induction false} IdentityBelow1GB(m: seq<Dword>, va: nat)
    requires TablesBuilt(m) && va < 0x1_0000_0000_0000
    ensures Walk(m, PML4, va) == if va < MAX_BYTES then Mapped(va, true) else Fault
  {
    TableEntries();
    var i := va / 0x80_0000_0000;
    assert i % 512 == i;
    Entries(m, i);
    if va < 0x80_0000_0000 {
      PointerWalk(m, va);
    }
  }

  /** Memory that agrees on the 16KB of the tables translates alike. */
  lemma {:induction false} TablesSurvive(m: seq<Dword>, m': seq<Dword>)
    requires TablesBuilt(m) && |m'| == |m|
    requires forall k :: 0x1_C000 <= k < 0x1_D000 ==> m'[k] == m[k]
    ensures TablesBuilt(m')
  {
    forall k | 0x1_C000 <= k < 0x1_D000
      ensures m'[k] == TableWord(k)
    {
      assert m[k] == TableWord(k);
    }
  }
}
