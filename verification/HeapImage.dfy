/**
 The heap as kernel/mm/kmalloc.c keeps it: a list head, two counters, and headers and links
 stored in the memory being managed. An address `a` names the word mem[a / 8].
 */
module HeapImage {
  import opened Machine
  import opened RawMemory
  import opened RunHeap

  const MAGIC: Word := 0x4E41_4449_524D_4148
  const HEADER_SIZE: int := 16

  datatype Image = Image(mem: seq<Word>, head: Word, freeFrames: Word, usedFrames: Word)

  /** Where a list pointer is stored: in the list head, or in the first word of a free node. */
  datatype Link = Head | Next(node: nat)

  function AddrOf(frame: nat): nat {
    4096 * frame
  }

  /** The pointer kmalloc returns for a block that starts at `frame`. */
  function PtrOf(frame: nat): nat {
    4096 * frame + HEADER_SIZE
  }

  // ---------------------------------------------------------------- encoding

  /** The pointer to the i-th node of a free list: NULL past its end. */
  function PointerTo(free: seq<nat>, i: nat): nat {
    if i < |free| then AddrOf(free[i]) else 0
  }

  function LinkTo(free: seq<nat>, i: nat): Link
    requires i <= |free|
  {
    if i == 0 then Head else Next(AddrOf(free[i - 1]))
  }

  ghost predicate Fits(mem: seq<Word>, h: Heap) {
    1 <= h.base && (h.base + h.n) * 512 <= |mem| <= 0x800_0000
  }

  /** A free run holds the pointer to the next one, and its own length. */
  ghost predicate NodeStored(mem: seq<Word>, h: Heap, i: nat)
    requires Shape(h) && Fits(mem, h) && i < |h.free|
  {
    && mem[512 * h.free[i]] == PointerTo(h.free, i + 1)
    && mem[512 * h.free[i] + 1] == h.runs[h.free[i]]
  }

  /** A live run holds the magic, and its own length. */
  ghost predicate HeaderStored(mem: seq<Word>, h: Heap, s: nat)
    requires Shape(h) && Fits(mem, h) && s in h.runs
  {
    mem[512 * s] == MAGIC && mem[512 * s + 1] == h.runs[s]
  }

  /** Every run of the heap is written down in memory. */
  ghost predicate Stored(mem: seq<Word>, h: Heap) {
    && Shape(h)
    && Fits(mem, h)
    && (forall i {:trigger NodeStored(mem, h, i)} :: 0 <= i < |h.free| ==> NodeStored(mem, h, i))
    && (forall s {:trigger HeaderStored(mem, h, s)} :: s in Live(h) ==> HeaderStored(mem, h, s))
  }

  ghost predicate Represents(img: Image, h: Heap) {
    && Inv(h)
    && Stored(img.mem, h)
    && img.head == PointerTo(h.free, 0)
    && img.freeFrames == SumSeq(h.runs, h.free)
    && img.usedFrames == SumSet(h.runs, Live(h))
  }

  // ---------------------------------------------------------------- operations on words

  predicate LinkOk(img: Image, link: Link) {
    link.Next? ==> link.node / 8 < |img.mem|
  }

  function Store(img: Image, link: Link, v: Word): Image
    requires LinkOk(img, link)
  {
    match link
    case Head => img.(head := v)
    case Next(a) => img.(mem := img.mem[a / 8 := v])
  }

  predicate RunOk(img: Image, link: Link, run: nat, need: nat) {
    && LinkOk(img, link)
    && run / 8 + 1 < |img.mem| <= 0x800_0000
    && need <= img.mem[run / 8 + 1]
    && ((run + need * 4096) / 8 + 1 < |img.mem| || need == img.mem[run / 8 + 1])
  }

  /** Take the node `run`, which `link` points at, off the list; a longer run leaves its tail
      in the same list slot. */
  function RelinkImage(img: Image, link: Link, run: nat, need: nat): Image
    requires RunOk(img, link, run, need)
  {
    var frames := img.mem[run / 8 + 1];
    var tail := run + need * 4096;
    if need < frames then
      Store(img.(mem := img.mem[tail / 8 := img.mem[run / 8]][tail / 8 + 1 := frames - need]), link, tail)
    else
      Store(img, link, img.mem[run / 8])
  }

  /** Stamp the header of a block of `need` frames and account for it. */
  function StampImage(img: Image, run: nat, need: Word): Image
    requires run / 8 + 1 < |img.mem|
  {
    Image(img.mem[run / 8 := MAGIC][run / 8 + 1 := need], img.head,
          Wrap(img.freeFrames - need), Wrap(img.usedFrames + need))
  }

  /** The effect of kmalloc once its walk stopped at `link`, which points at the node `run`. */
  function TakeImage(img: Image, link: Link, run: nat, need: nat): Image
    requires RunOk(img, link, run, need)
  {
    StampImage(RelinkImage(img, link, run, need), run, need)
  }

  /** A call either returns or touches memory that is not there. */
  datatype Outcome = Fault | Done(img: Image)

  /** The effect of kfree on any 64-bit pointer: NULL, wild, unaligned, out of memory. */
  function KfreeOutcome(img: Image, ptr: Word): Outcome {
    if ptr == 0 then Done(img) else KfreeAt(img, Wrap(ptr - HEADER_SIZE))
  }

  /** kfree once it computed where the header should be. */
  function KfreeAt(img: Image, hdr: Word): Outcome {
    if !InMemory(img.mem, hdr) then Fault
    else if ReadWord(img.mem, hdr) != MAGIC then Done(img)
    else if !InMemory(img.mem, hdr + 8) then Fault
    else if ReadWord(img.mem, hdr + 8) == 0 then Done(img)
    else Done(Relisted(img, hdr))
  }

  /** The header at `hdr` loses its magic and becomes the first node of the list. */
  function Relisted(img: Image, hdr: Word): Image
    requires InMemory(img.mem, hdr + 8)
  {
    var mem := WriteWord(WriteWord(img.mem, hdr, 0), hdr, img.head);
    var frames := ReadWord(mem, hdr + 8);
    Image(mem, hdr, Wrap(img.freeFrames + frames), Wrap(img.usedFrames - frames))
  }

  /** The two words before the pointer look like the header of an allocated run. */
  predicate HasHeader(img: Image, ptr: Word) {
    && 16 <= ptr <= 8 * |img.mem|
    && ReadWord(img.mem, ptr - 16) == MAGIC && ReadWord(img.mem, ptr - 8) != 0
  }

  /** HasHeader for a pointer that is a multiple of 8, in whole words. */
  predicate Accepted(img: Image, ptr: nat)
    requires 16 <= ptr && ptr / 8 <= |img.mem|
  {
    img.mem[ptr / 8 - 2] == MAGIC && img.mem[ptr / 8 - 1] != 0
  }

  /** The effect of kfree on NULL and on a multiple of 8 with its header in memory. */
  function FreeImage(img: Image, ptr: nat): Image
    requires ptr == 0 || (16 <= ptr < TWO64 && ptr / 8 <= |img.mem|)
  {
    if ptr == 0 || !Accepted(img, ptr) then img
    else
      var frames := img.mem[ptr / 8 - 1];
      Image(img.mem[ptr / 8 - 2 := img.head], ptr - HEADER_SIZE,
            Wrap(img.freeFrames + frames), Wrap(img.usedFrames - frames))
  }

  lemma {:induction false} AlignedKfree(img: Image, ptr: Word)
    requires ptr == 0 || (16 <= ptr && ptr % 8 == 0 && ptr / 8 <= |img.mem|)
    ensures KfreeOutcome(img, ptr) == Done(FreeImage(img, ptr))
    ensures ptr != 0 ==> (HasHeader(img, ptr) <==> Accepted(img, ptr))
  {
    if ptr != 0 {
      var hdr := ptr - 16;
      assert Wrap(ptr - HEADER_SIZE) == hdr && hdr / 8 == ptr / 8 - 2;
      AlignedHeader(img.mem, hdr);
      AlignedRelist(img, hdr);
    }
  }

  lemma {:induction false} AlignedHeader(mem: seq<Word>, hdr: nat)
    requires InMemory(mem, hdr + 8) && hdr % 8 == 0
    ensures ReadWord(mem, hdr) == mem[hdr / 8] && ReadWord(mem, hdr + 8) == mem[hdr / 8 + 1]
  {
    AlignedRead(mem, hdr);
    AlignedRead(mem, hdr + 8);
  }

  lemma {:induction false} AlignedRelist(img: Image, hdr: Word)
    requires InMemory(img.mem, hdr + 8) && hdr % 8 == 0
    ensures var frames := img.mem[hdr / 8 + 1];
            Relisted(img, hdr) ==
            Image(img.mem[hdr / 8 := img.head], hdr, Wrap(img.freeFrames + frames), Wrap(img.usedFrames - frames))
  {
    AlignedWrite(img.mem, hdr, 0);
    var cleared := img.mem[hdr / 8 := 0];
    AlignedWrite(cleared, hdr, img.head);
    assert cleared[hdr / 8 := img.head] == img.mem[hdr / 8 := img.head];
    AlignedRead(img.mem[hdr / 8 := img.head], hdr + 8);
  }

  // ---------------------------------------------------------------- kmalloc refines Take

  /** TakeImage at the i-th node of a stored free list. */
  ghost function TakeNth(img: Image, h: Heap, i: nat, need: nat): Image
    requires Stored(img.mem, h) && i < |h.free| && need <= h.runs[h.free[i]]
  {
    assert NodeStored(img.mem, h, i);
    TakeImage(img, LinkTo(h.free, i), AddrOf(h.free[i]), need)
  }

  /** Word by word, what kmalloc leaves: the header, the link, the tail node, and the rest. */
  ghost function WordAfter(mem: seq<Word>, h: Heap, i: nat, need: nat, w: nat): int
    requires Shape(h) && i < |h.free| && w < |mem|
  {
    var s, frames := h.free[i], h.runs[h.free[i]];
    var next := PointerTo(h.free, i + 1);
    if w == 512 * s then MAGIC
    else if w == 512 * s + 1 then need
    else if 0 < i && w == 512 * h.free[i - 1] then (if need < frames then AddrOf(s + need) else next)
    else if need < frames && w == 512 * (s + need) then next
    else if need < frames && w == 512 * (s + need) + 1 then frames - need
    else mem[w]
  }

  lemma {:induction false} RelinkWord(img: Image, h: Heap, i: nat, need: nat, w: nat)
    requires Stored(img.mem, h) && i < |h.free| && need <= h.runs[h.free[i]]
    requires w < |img.mem| && w != 512 * h.free[i] && w != 512 * h.free[i] + 1
    ensures RunOk(img, LinkTo(h.free, i), AddrOf(h.free[i]), need)
    ensures var img' := RelinkImage(img, LinkTo(h.free, i), AddrOf(h.free[i]), need);
            |img'.mem| == |img.mem| && img'.mem[w] == WordAfter(img.mem, h, i, need, w)
  {
    assert NodeStored(img.mem, h, i);
  }

  lemma {:induction false} TakeWord(img: Image, h: Heap, i: nat, need: nat, w: nat)
    requires Stored(img.mem, h) && i < |h.free| && need <= h.runs[h.free[i]]
    requires w < |img.mem|
    ensures |TakeNth(img, h, i, need).mem| == |img.mem|
    ensures TakeNth(img, h, i, need).mem[w] == WordAfter(img.mem, h, i, need, w)
  {
    assert NodeStored(img.mem, h, i);
    if w != 512 * h.free[i] && w != 512 * h.free[i] + 1 {
      RelinkWord(img, h, i, need, w);
    }
  }

  lemma {:induction false} NodeTakeSplit(mem: seq<Word>, mem': seq<Word>, h: Heap, i: nat, need: nat, j: nat)
    requires Stored(mem, h) && i < |h.free| && 1 <= need < h.runs[h.free[i]]
    requires Shape(Take(h, i, need)) && j < |h.free| && |mem'| == |mem|
    requires forall w :: 0 <= w < |mem| ==> mem'[w] == WordAfter(mem, h, i, need, w)
    ensures NodeStored(mem', Take(h, i, need), j)
  {
    var h' := Take(h, i, need);
    SplitPartition(h, i, need);
    assert NodeStored(mem, h, i);
    assert NodeStored(mem, h, j);
  }

  lemma {:induction false} NodeTakeWhole(mem: seq<Word>, mem': seq<Word>, h: Heap, i: nat, need: nat, j: nat)
    requires Stored(mem, h) && i < |h.free| && need == h.runs[h.free[i]]
    requires Shape(Take(h, i, need)) && j < |h.free| - 1 && |mem'| == |mem|
    requires forall w :: 0 <= w < |mem| ==> mem'[w] == WordAfter(mem, h, i, need, w)
    ensures NodeStored(mem', Take(h, i, need), j)
  {
    var h' := Take(h, i, need);
    var k := if j < i then j else j + 1;
    assert h'.free[j] == h.free[k];
    assert NodeStored(mem, h, i);
    assert NodeStored(mem, h, k);
  }

  lemma {:induction false} HeaderTake(mem: seq<Word>, mem': seq<Word>, h: Heap, i: nat, need: nat, t: nat)
    requires Stored(mem, h) && i < |h.free| && 1 <= need <= h.runs[h.free[i]]
    requires Shape(Take(h, i, need)) && |mem'| == |mem|
    requires forall w :: 0 <= w < |mem| ==> mem'[w] == WordAfter(mem, h, i, need, w)
    requires t in Live(h) || t == h.free[i]
    ensures t in Take(h, i, need).runs && HeaderStored(mem', Take(h, i, need), t)
  {
    if need < h.runs[h.free[i]] {
      SplitPartition(h, i, need);
    }
    if t in Live(h) {
      assert HeaderStored(mem, h, t);
      assert 0 < i ==> h.free[i - 1] !in Live(h);
    }
  }

  lemma {:induction false} StoredTake(mem: seq<Word>, mem': seq<Word>, h: Heap, i: nat, need: nat)
    requires Stored(mem, h) && i < |h.free| && 1 <= need <= h.runs[h.free[i]]
    requires Shape(Take(h, i, need)) && |mem'| == |mem|
    requires Live(Take(h, i, need)) == Live(h) + {h.free[i]}
    requires forall w :: 0 <= w < |mem| ==> mem'[w] == WordAfter(mem, h, i, need, w)
    ensures Stored(mem', Take(h, i, need))
  {
    var h' := Take(h, i, need);
    forall j | 0 <= j < |h'.free|
      ensures NodeStored(mem', h', j)
    {
      if need < h.runs[h.free[i]] {
        NodeTakeSplit(mem, mem', h, i, need, j);
      } else {
        NodeTakeWhole(mem, mem', h, i, need, j);
      }
    }
    forall t | t in Live(h')
      ensures HeaderStored(mem', h', t)
    {
      HeaderTake(mem, mem', h, i, need, t);
    }
  }

  lemma {:induction false} TakeStored(img: Image, h: Heap, i: nat, need: nat)
    requires Stored(img.mem, h) && i < |h.free| && 1 <= need <= h.runs[h.free[i]]
    requires Shape(Take(h, i, need)) && Live(Take(h, i, need)) == Live(h) + {h.free[i]}
    ensures Stored(TakeNth(img, h, i, need).mem, Take(h, i, need))
  {
    var img' := TakeNth(img, h, i, need);
    TakeWord(img, h, i, need, 0);
    forall w | 0 <= w < |img.mem|
      ensures w < |img'.mem| && img'.mem[w] == WordAfter(img.mem, h, i, need, w)
    {
      TakeWord(img, h, i, need, w);
    }
    StoredTake(img.mem, img'.mem, h, i, need);
  }

  /** The fields kmalloc leaves outside memory. */
  lemma {:induction false} TakeFields(img: Image, h: Heap, i: nat, need: nat)
    requires Stored(img.mem, h) && i < |h.free| && need <= h.runs[h.free[i]]
    requires img.head == PointerTo(h.free, 0)
    requires need <= img.freeFrames && img.usedFrames + need < TWO64
    ensures TakeNth(img, h, i, need).head == PointerTo(Take(h, i, need).free, 0)
    ensures TakeNth(img, h, i, need).freeFrames == img.freeFrames - need
    ensures TakeNth(img, h, i, need).usedFrames == img.usedFrames + need
  {
    assert NodeStored(img.mem, h, i);
  }

  /** Splitting and splicing words is taking the run off the abstract list. */
  lemma {:induction false} TakeRefines(img: Image, h: Heap, i: nat, need: nat)
    requires Represents(img, h) && i < |h.free| && 1 <= need <= h.runs[h.free[i]]
    ensures Represents(TakeNth(img, h, i, need), Take(h, i, need))
  {
    var img', h' := TakeNth(img, h, i, need), Take(h, i, need);
    TakeInv(h, i, need);
    assert Stored(img'.mem, h') by {
      TakeStored(img, h, i, need);
    }
    TakeFields(img, h, i, need);
  }

  // ---------------------------------------------------------------- kfree refines Release

  lemma {:induction false} StoredRelease(mem: seq<Word>, h: Heap, s: nat)
    requires Stored(mem, h) && s in Live(h) && Shape(Release(h, s))
    requires Live(Release(h, s)) == Live(h) - {s}
    requires PointerTo(h.free, 0) < TWO64
    ensures Stored(mem[512 * s := PointerTo(h.free, 0)], Release(h, s))
  {
    var mem', h' := mem[512 * s := PointerTo(h.free, 0)], Release(h, s);
    assert HeaderStored(mem, h, s);
    forall j | 0 <= j < |h'.free|
      ensures NodeStored(mem', h', j)
    {
      if j > 0 {
        assert NodeStored(mem, h, j - 1);
      }
    }
    forall t | t in Live(h')
      ensures HeaderStored(mem', h', t)
    {
      assert HeaderStored(mem, h, t);
    }
  }

  lemma {:induction false} ReleaseLive(img: Image, h: Heap, s: nat)
    requires Represents(img, h) && s in Live(h)
    ensures Accepted(img, PtrOf(s))
    ensures Represents(FreeImage(img, PtrOf(s)), Release(h, s))
  {
    assert HeaderStored(img.mem, h, s);
    ReleaseInv(h, s);
    StoredRelease(img.mem, h, s);
  }

  /** kfree on the pointer of any run, live or free: it releases exactly the block that is
      live there, and changes no word when there is none. */
  lemma {:induction false} FreeRefines(img: Image, h: Heap, s: nat)
    requires Represents(img, h) && s in h.runs
    ensures Represents(FreeImage(img, PtrOf(s)), Release(h, s))
    ensures s !in Live(h) ==> FreeImage(img, PtrOf(s)) == img
    ensures Accepted(img, PtrOf(s)) <==> s in Live(h)
  {
    if s in Live(h) {
      ReleaseLive(img, h, s);
    } else {
      var k :| 0 <= k < |h.free| && h.free[k] == s;
      assert NodeStored(img.mem, h, k);
    }
  }

  // ---------------------------------------------------------------- client writes

  predicate InPayload(h: Heap, s: nat, w: nat)
    requires s in h.runs
  {
    512 * s + 2 <= w < 512 * (s + h.runs[s])
  }

  /** A client that writes anything anywhere in its own block leaves the heap as it was. */
  lemma {:induction false} WriteKeeps(mem: seq<Word>, h: Heap, s: nat, w: nat, v: Word)
    requires Stored(mem, h) && s in Live(h) && InPayload(h, s, w)
    ensures w < |mem| && Stored(mem[w := v], h)
  {
    var mem' := mem[w := v];
    forall t | t in h.runs
      ensures mem'[512 * t] == mem[512 * t] && mem'[512 * t + 1] == mem[512 * t + 1]
    {
      assert s < t ==> EndsBefore(h.runs, s, t);
    }
    forall i | 0 <= i < |h.free|
      ensures NodeStored(mem', h, i)
    {
      assert NodeStored(mem, h, i);
    }
    forall t | t in Live(h)
      ensures HeaderStored(mem', h, t)
    {
      assert HeaderStored(mem, h, t);
    }
  }

  /** Nor does a write outside the heap's frames matter to it. */
  lemma {:induction false} OutsideWriteKeeps(mem: seq<Word>, h: Heap, w: nat, v: Word)
    requires Stored(mem, h) && w < |mem| && !(512 * h.base <= w < 512 * (h.base + h.n))
    ensures Stored(mem[w := v], h)
  {
    var mem' := mem[w := v];
    forall i | 0 <= i < |h.free|
      ensures NodeStored(mem', h, i)
    {
      assert NodeStored(mem, h, i);
    }
    forall t | t in Live(h)
      ensures HeaderStored(mem', h, t)
    {
      assert HeaderStored(mem, h, t);
    }
  }

  /** A frame of one run is no frame of another. */
  lemma {:induction false} RunsApart(h: Heap, s: nat, t: nat)
    requires Partition(h) && s in h.runs && t in h.runs && s != t
    ensures s + h.runs[s] <= t || t + h.runs[t] <= s
  {
    if s < t {
      assert EndsBefore(h.runs, s, t);
    } else {
      assert EndsBefore(h.runs, t, s);
    }
  }

  /** kmalloc changes no word in the payload of a block somebody holds. */
  lemma {:induction false} TakeKeepsPayload(img: Image, h: Heap, i: nat, need: nat, s: nat, w: nat)
    requires Stored(img.mem, h) && i < |h.free| && need <= h.runs[h.free[i]]
    requires s in Live(h) && InPayload(h, s, w)
    ensures w < |img.mem| == |TakeNth(img, h, i, need).mem|
    ensures TakeNth(img, h, i, need).mem[w] == img.mem[w]
  {
    TakeWord(img, h, i, need, w);
    RunsApart(h, s, h.free[i]);
    if 0 < i {
      RunsApart(h, s, h.free[i - 1]);
    }
  }

  /** kfree changes no word in any payload, not even in that of the block it releases. */
  lemma {:induction false} FreeKeepsPayload(img: Image, h: Heap, t: nat, s: nat, w: nat)
    requires Represents(img, h) && t in h.runs
    requires s in Live(h) && InPayload(h, s, w)
    ensures w < |img.mem| == |FreeImage(img, PtrOf(t)).mem|
    ensures FreeImage(img, PtrOf(t)).mem[w] == img.mem[w]
  {
    if s != t {
      RunsApart(h, s, t);
    }
  }

  // ---------------------------------------------------------------- reading the list back

  /** Follow the pointers from `a` for at most `fuel` nodes: the frames visited, provided
      every pointer is frame-aligned and in memory and NULL is reached. */
  function ReadList(mem: seq<Word>, a: nat, fuel: nat): Option<seq<nat>>
    decreases fuel
  {
    if a == 0 then Some([])
    else if fuel == 0 || a % 4096 != 0 || a / 8 >= |mem| then None
    else
      match ReadList(mem, mem[a / 8], fuel - 1)
      case None => None
      case Some(rest) => Some([a / 4096] + rest)
  }

  lemma {:induction false} ReadFrom(mem: seq<Word>, h: Heap, i: nat, fuel: nat)
    requires Stored(mem, h) && i <= |h.free| && |h.free| - i <= fuel
    ensures ReadList(mem, PointerTo(h.free, i), fuel) == Some(h.free[i..])
    decreases |h.free| - i
  {
    if i == |h.free| {
      assert h.free[i..] == [];
    } else {
      var a := AddrOf(h.free[i]);
      assert NodeStored(mem, h, i);
      assert a % 4096 == 0 && a / 4096 == h.free[i] && mem[a / 8] == PointerTo(h.free, i + 1);
      ReadFrom(mem, h, i + 1, fuel - 1);
      assert h.free[i..] == [h.free[i]] + h.free[i + 1..];
    }
  }

  /** The list found in memory is the abstract free list: NULL-terminated within n nodes,
      and without a node twice, so acyclic. */
  lemma {:induction false} ListInMemory(img: Image, h: Heap)
    requires Represents(img, h)
    ensures ReadList(img.mem, img.head, h.n) == Some(h.free)
    ensures Distinct(h.free)
  {
    RunCount(h);
    ReadFrom(img.mem, h, 0, h.n);
  }

  // ---------------------------------------------------------------- free, then allocate again

  /** In the list: a freed block comes first, and taking it back is exact. */
  lemma {:induction false} ReleaseThenTake(h: Heap, s: nat)
    requires Inv(h) && s in Live(h)
    ensures Release(h, s).free == [s] + h.free
    ensures forall i :: 0 <= i < |Release(h, s).free| ==> Release(h, s).free[i] in h.runs
    ensures FirstFit(h.runs, Release(h, s).free, h.runs[s]) == 0
    ensures Take(Release(h, s), 0, h.runs[s]) == h
  {
    ReleaseInv(h, s);
    var q := Release(h, s).free;
    assert q[..0] + q[1..] == h.free;
  }

  lemma WrapBack(a: Word, b: Word)
    ensures Wrap(Wrap(a + b) - b) == a && Wrap(Wrap(a - b) + b) == a
  {
    assert Wrap(a + b) == if a + b < TWO64 then a + b else a + b - TWO64;
    assert Wrap(a - b) == if b <= a then a - b else a - b + TWO64;
  }

  /** Word by word, without a heap: taking the head right after freeing it undoes the free. */
  lemma {:induction false} TakeUndoesFree(img: Image, s: nat, frames: Word)
    requires 512 * s + 1 < |img.mem| <= 0x800_0000
    requires img.mem[512 * s] == MAGIC && img.mem[512 * s + 1] == frames && frames != 0
    ensures RunOk(FreeImage(img, PtrOf(s)), Head, AddrOf(s), frames)
    ensures TakeImage(FreeImage(img, PtrOf(s)), Head, AddrOf(s), frames) == img
  {
    var freed := FreeImage(img, PtrOf(s));
    assert freed.mem == img.mem[512 * s := img.head];
    var linked := RelinkImage(freed, Head, AddrOf(s), frames);
    assert linked == freed.(head := img.head);
    assert freed.mem[512 * s := MAGIC][512 * s + 1 := frames] == img.mem;
    WrapBack(img.freeFrames, frames);
    WrapBack(img.usedFrames, frames);
  }

  lemma {:induction false} TakeBack(img: Image, h: Heap, s: nat)
    requires Stored(img.mem, h) && s in Live(h)
    requires Stored(FreeImage(img, PtrOf(s)).mem, Release(h, s))
    requires Release(h, s).free == [s] + h.free
    ensures TakeNth(FreeImage(img, PtrOf(s)), Release(h, s), 0, h.runs[s]) == img
  {
    assert HeaderStored(img.mem, h, s);
    TakeUndoesFree(img, s, h.runs[s]);
  }

  /** Freeing a block and allocating the same number of frames puts back every word of
      memory, the list head and both counters. */
  lemma {:induction false} FreeThenTakeRestores(img: Image, h: Heap, s: nat)
    requires Represents(img, h) && s in Live(h)
    ensures Represents(FreeImage(img, PtrOf(s)), Release(h, s))
    ensures Release(h, s).free == [s] + h.free
    ensures FirstFit(h.runs, [s] + h.free, h.runs[s]) == 0
    ensures TakeNth(FreeImage(img, PtrOf(s)), Release(h, s), 0, h.runs[s]) == img
    ensures Take(Release(h, s), 0, h.runs[s]) == h
  {
    ReleaseLive(img, h, s);
    ReleaseThenTake(h, s);
    TakeBack(img, h, s);
  }

  // ---------------------------------------------------------------- where the code is not safe

  lemma {:induction false} FirstLinkIsNotMagic(img: Image, h: Heap)
    requires Represents(img, h) && img.head != 0
    ensures img.head / 8 < |img.mem| && img.mem[img.head / 8] != MAGIC
  {
    assert NodeStored(img.mem, h, 0);
  }

  /** A request for zero frames stores the magic over the link of the first free node, which
      stays on the list: no heap whatsoever is represented afterwards. */
  lemma {:induction false} TakeZeroCorrupts(img: Image, h: Heap, any: Heap)
    requires Represents(img, h) && h.free != []
    ensures !Represents(TakeNth(img, h, 0, 0), any)
  {
    assert NodeStored(img.mem, h, 0);
    var img' := TakeNth(img, h, 0, 0);
    assert img'.head == AddrOf(h.free[0]) && img'.mem[512 * h.free[0]] == MAGIC;
    if Represents(img', any) {
      FirstLinkIsNotMagic(img', any);
    }
  }

  /** The image still describes a heap with these runs, whatever its free list. */
  ghost predicate KeepsRuns(img: Image, runs: map<nat, nat>) {
    exists h: Heap :: h.runs == runs && Represents(img, h)
  }

  /** Memory and runs decide which runs are free: a header word is the magic or a link. */
  lemma {:induction false} LiveByMagic(img: Image, h: Heap, s: nat)
    requires Represents(img, h) && s in h.runs
    ensures s in Live(h) <==> img.mem[512 * s] == MAGIC
  {
    if s in Live(h) {
      assert HeaderStored(img.mem, h, s);
    } else {
      var k :| 0 <= k < |h.free| && h.free[k] == s;
      assert NodeStored(img.mem, h, k);
    }
  }

  /** Accepting a pointer that is no live block's leaves no heap with the same runs. */
  lemma {:induction false} ForgedFreeBreaks(img: Image, h: Heap, ptr: nat, any: Heap)
    requires Represents(img, h)
    requires 16 <= ptr && ptr % 8 == 0 && ptr / 8 <= |img.mem|
    requires Accepted(img, ptr) && forall s :: s in Live(h) ==> ptr != PtrOf(s)
    requires any.runs == h.runs
    ensures !Represents(FreeImage(img, ptr), any)
  {
    forall s | s in h.runs
      ensures ptr - 16 != AddrOf(s)
    {
      FreeRefines(img, h, s);
    }
    var img' := FreeImage(img, ptr);
    if Represents(img', any) {
      if h.free != [] {
        LiveByMagic(img, h, h.free[0]);
        LiveByMagic(img', any, h.free[0]);
      }
    }
  }

  /** Outside memory or without a header before it, a pointer makes kfree fault or do nothing. */
  lemma {:induction false} NoHeaderNoEffect(img: Image, ptr: Word)
    requires !HasHeader(img, ptr) && |img.mem| <= 0x800_0000
    ensures KfreeOutcome(img, ptr) == Fault || KfreeOutcome(img, ptr) == Done(img)
  {
    if 16 <= ptr {
      assert Wrap(ptr - HEADER_SIZE) == ptr - 16;
    } else if 0 < ptr {
      assert Wrap(ptr - HEADER_SIZE) == TWO64 + ptr - 16;
    }
  }

  lemma HeaderBefore(img: Image, ptr: Word)
    requires 16 <= ptr
    ensures KfreeOutcome(img, ptr) == KfreeAt(img, ptr - 16)
  {
    var hdr := Wrap(ptr - HEADER_SIZE);
    assert hdr == ptr - 16;
  }

  lemma {:induction false} TwoWrites(mem: seq<Word>, a: nat, u: Word, v: Word)
    requires InMemory(mem, a) && InMemory(mem, a + 8)
    ensures var mem' := WriteWord(WriteWord(mem, a, u), a, v);
            ReadWord(mem', a) == v && ReadWord(mem', a + 8) == ReadWord(mem, a + 8)
  {
    var cleared := WriteWord(mem, a, u);
    WriteKeepsNext(mem, a, u);
    WriteKeepsNext(cleared, a, v);
    ReadBack(cleared, a, v);
  }

  lemma {:induction false} TwoWritesBytes(mem: seq<Word>, a: nat, u: Word, v: Word, b: nat)
    requires InMemory(mem, a) && b < 8 * |mem| && (b < a || a + 8 <= b)
    ensures ByteAt(WriteWord(WriteWord(mem, a, u), a, v), b) == ByteAt(mem, b)
  {
    StoreBytes(mem, a, u, b);
    StoreBytes(WriteWord(mem, a, u), a, v, b);
  }

  /** The header becomes the head of the list, its first word links to the old head, and the
      counters move by the frame count it claims. */
  lemma {:induction false} RelistedFields(img: Image, hdr: Word)
    requires InMemory(img.mem, hdr + 8)
    ensures var img', frames := Relisted(img, hdr), ReadWord(img.mem, hdr + 8);
            && img'.head == hdr
            && |img'.mem| == |img.mem| && ReadWord(img'.mem, hdr) == img.head
            && ReadWord(img'.mem, hdr + 8) == frames
            && img'.freeFrames == Wrap(img.freeFrames + frames)
            && img'.usedFrames == Wrap(img.usedFrames - frames)
  {
    TwoWrites(img.mem, hdr, 0, img.head);
  }

  /** Only the eight bytes of the first header word are written. */
  lemma {:induction false} RelistedBytes(img: Image, hdr: Word, b: nat)
    requires InMemory(img.mem, hdr + 8) && b < 8 * |img.mem| && (b < hdr || hdr + 8 <= b)
    ensures |Relisted(img, hdr).mem| == |img.mem|
    ensures ByteAt(Relisted(img, hdr).mem, b) == ByteAt(img.mem, b)
  {
    TwoWritesBytes(img.mem, hdr, 0, img.head, b);
  }

  /** A pointer with a header becomes the head of the list, whatever its alignment: its first
      word links to the old head, and the counters move by the frame count it claims. */
  lemma {:induction false} HeaderIsTaken(img: Image, ptr: Word)
    requires HasHeader(img, ptr)
    ensures match KfreeOutcome(img, ptr)
            case Fault => false
            case Done(img') =>
              var frames := ReadWord(img.mem, ptr - 8);
              && img'.head == ptr - 16
              && |img'.mem| == |img.mem| && ReadWord(img'.mem, ptr - 16) == img.head
              && ReadWord(img'.mem, ptr - 8) == frames
              && img'.freeFrames == Wrap(img.freeFrames + frames)
              && img'.usedFrames == Wrap(img.usedFrames - frames)
  {
    HeaderBefore(img, ptr);
    RelistedFields(img, ptr - 16);
  }

  /** kfree on any pointer whose 16 bytes before it are in memory: without the magic there, or
      with a frame count of 0, nothing changes. Otherwise those bytes become the list head and
      link to the old one, and the counters move by the frame count. */
  lemma {:induction false} KfreeMeaning(img: Image, ptr: Word)
    requires 16 <= ptr <= 8 * |img.mem|
    ensures KfreeOutcome(img, ptr).Done?
    ensures var magic, frames := ReadWord(img.mem, ptr - 16), ReadWord(img.mem, ptr - 8);
            var img' := KfreeOutcome(img, ptr).img;
            if magic != 0x4E41_4449_524D_4148 || frames == 0 then img' == img
            else
              && img'.head == ptr - 16
              && |img'.mem| == |img.mem| && ReadWord(img'.mem, ptr - 16) == img.head
              && img'.freeFrames == Wrap(img.freeFrames + frames)
              && img'.usedFrames == Wrap(img.usedFrames - frames)
  {
    if HasHeader(img, ptr) {
      HeaderIsTaken(img, ptr);
    } else {
      HeaderBefore(img, ptr);
    }
  }

  /** For every 64-bit pointer, the only bytes kfree ever writes are the eight of the magic. */
  lemma {:induction false} KfreeWritesEightBytes(img: Image, ptr: Word, b: nat)
    requires b < 8 * |img.mem| && !(ptr - 16 <= b < ptr - 8) && |img.mem| <= 0x800_0000
    ensures match KfreeOutcome(img, ptr)
            case Fault => true
            case Done(img') => |img'.mem| == |img.mem| && ByteAt(img'.mem, b) == ByteAt(img.mem, b)
  {
    if HasHeader(img, ptr) {
      HeaderBefore(img, ptr);
      RelistedBytes(img, ptr - 16, b);
    } else {
      NoHeaderNoEffect(img, ptr);
    }
  }

  ghost predicate IsLivePtr(h: Heap, ptr: nat) {
    exists s :: s in Live(h) && ptr == PtrOf(s)
  }

  lemma {:induction false} HeadIsFrame(img: Image, h: Heap)
    requires Represents(img, h)
    ensures img.head % 4096 == 0
  {
  }

  lemma {:induction false} UnalignedFreeBreaks(img: Image, ptr: Word, runs: map<nat, nat>)
    requires HasHeader(img, ptr) && ptr % 8 != 0
    ensures KfreeOutcome(img, ptr).Done? && !KeepsRuns(KfreeOutcome(img, ptr).img, runs)
  {
    assert KfreeOutcome(img, ptr).Done? && KfreeOutcome(img, ptr).img.head == ptr - 16 by {
      HeaderIsTaken(img, ptr);
    }
    var img' := KfreeOutcome(img, ptr).img;
    forall any: Heap
      ensures !Represents(img', any)
    {
      if Represents(img', any) {
        HeadIsFrame(img', any);
      }
    }
  }

  /** For every 64-bit pointer, kfree either faults, or it returns with the heap's runs kept if
      and only if there is no header before the pointer or the pointer is that of a live block. A
      header forged inside a payload is taken for real, and then the list leads into the middle
      of a run. */
  lemma {:induction false} FreeKeepsRuns(img: Image, h: Heap, ptr: Word)
    requires Represents(img, h)
    ensures match KfreeOutcome(img, ptr)
            case Fault => !HasHeader(img, ptr)
            case Done(img') =>
              KeepsRuns(img', h.runs) <==> !HasHeader(img, ptr) || IsLivePtr(h, ptr)
  {
    if !HasHeader(img, ptr) {
      NoHeaderKeepsRuns(img, h, ptr);
    } else if ptr % 8 != 0 {
      assert !IsLivePtr(h, ptr);
      UnalignedFreeBreaks(img, ptr, h.runs);
    } else {
      var img' := FreeImage(img, ptr);
      assert KfreeOutcome(img, ptr) == Done(img') && Accepted(img, ptr) by {
        AlignedKfree(img, ptr);
      }
      AlignedFreeKeepsRuns(img, h, ptr);
    }
  }

  lemma {:induction false} NoHeaderKeepsRuns(img: Image, h: Heap, ptr: Word)
    requires Represents(img, h) && !HasHeader(img, ptr)
    ensures KfreeOutcome(img, ptr).Done? ==> KeepsRuns(KfreeOutcome(img, ptr).img, h.runs)
  {
    NoHeaderNoEffect(img, ptr);
    assert KeepsRuns(img, h.runs);
  }

  lemma {:induction false} AlignedFreeKeepsRuns(img: Image, h: Heap, ptr: Word)
    requires Represents(img, h)
    requires 16 <= ptr && ptr % 8 == 0 && ptr / 8 <= |img.mem| && Accepted(img, ptr)
    ensures KeepsRuns(FreeImage(img, ptr), h.runs) <==> IsLivePtr(h, ptr)
  {
    if s :| s in Live(h) && ptr == PtrOf(s) {
      ReleaseLive(img, h, s);
      assert Release(h, s).runs == h.runs;
    } else {
      forall any: Heap | any.runs == h.runs
        ensures !Represents(FreeImage(img, ptr), any)
      {
        ForgedFreeBreaks(img, h, ptr, any);
      }
    }
  }

  /** In every heap, the holder of a block of one frame or more can forge a header with two
      legal writes anywhere in its payload: the heap is still represented, and freeing the
      forged pointer then destroys it. */
  lemma {:induction false} ForgedHeaderDestroys(img: Image, h: Heap, s: nat, w: nat)
    requires Represents(img, h) && s in Live(h) && InPayload(h, s, w) && InPayload(h, s, w + 1)
    ensures w + 1 < |img.mem|
    ensures var img' := img.(mem := img.mem[w := MAGIC][w + 1 := 1]);
            && Represents(img', h)
            && HasHeader(img', 8 * (w + 2))
            && KfreeOutcome(img', 8 * (w + 2)).Done?
            && !KeepsRuns(KfreeOutcome(img', 8 * (w + 2)).img, h.runs)
  {
    WriteKeeps(img.mem, h, s, w, MAGIC);
    WriteKeeps(img.mem[w := MAGIC], h, s, w + 1, 1);
    var img', ptr := img.(mem := img.mem[w := MAGIC][w + 1 := 1]), 8 * (w + 2);
    AlignedKfree(img', ptr);
    forall t | t in Live(h)
      ensures ptr != PtrOf(t)
    {
      if t != s {
        RunsApart(h, s, t);
      }
    }
    AlignedFreeKeepsRuns(img', h, ptr);
  }
}
