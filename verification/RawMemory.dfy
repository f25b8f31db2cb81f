/**
 64-bit loads and stores at any byte address of a memory of 64-bit words, little-endian. At an
 address that is no multiple of 8 they take the upper bytes of one word and the lower bytes of
 the next.
 */
module RawMemory {
  import opened Machine

  // ---------------------------------------------------------------- bytes of a word

  /** Byte j of a number, counted from the least significant one. */
  function ByteOf(v: nat, j: nat): (b: nat)
    ensures b < 256
  {
    if j == 0 then v % 256 else ByteOf(v / 256, j - 1)
  }

  /** The number with byte j replaced. */
  function WithByte(v: nat, j: nat, x: nat): nat {
    if j == 0 then v / 256 * 256 + x else v % 256 + 256 * WithByte(v / 256, j - 1, x)
  }

  function Pow256(n: nat): nat {
    if n == 0 then 1 else 256 * Pow256(n - 1)
  }

  lemma WordBound()
    ensures Pow256(8) == TWO64
  {
    assert Pow256(4) == 0x1_0000_0000;
  }

  lemma {:induction false} WithByteBound(v: nat, j: nat, x: nat, n: nat)
    requires j < n && v < Pow256(n) && x < 256
    ensures WithByte(v, j, x) < Pow256(n)
    decreases j
  {
    var p := Pow256(n - 1);
    assert v / 256 <= p - 1;
    if j == 0 {
      assert v / 256 * 256 + x <= (p - 1) * 256 + 255;
    } else {
      WithByteBound(v / 256, j - 1, x, n - 1);
      assert 256 * WithByte(v / 256, j - 1, x) <= 256 * (p - 1);
    }
  }

  lemma {:induction false} WithByteIs(v: nat, j: nat, x: nat, i: nat)
    requires x < 256
    ensures ByteOf(WithByte(v, j, x), i) == if i == j then x else ByteOf(v, i)
    decreases j
  {
    var w := WithByte(v, j, x);
    if j == 0 {
      assert w / 256 == v / 256 && w % 256 == x;
    } else {
      assert w / 256 == WithByte(v / 256, j - 1, x) && w % 256 == v % 256;
      if i != 0 {
        WithByteIs(v / 256, j - 1, x, i - 1);
      }
    }
  }

  /** A number below 256^n is its n bytes. */
  lemma {:induction false} SameBytes(u: nat, v: nat, n: nat)
    requires u < Pow256(n) && v < Pow256(n)
    requires forall i: nat :: i < n ==> ByteOf(u, i) == ByteOf(v, i)
    ensures u == v
    decreases n
  {
    if n != 0 {
      assert ByteOf(u, 0) == ByteOf(v, 0);
      forall i: nat | i < n - 1
        ensures ByteOf(u / 256, i) == ByteOf(v / 256, i)
      {
        assert ByteOf(u, i + 1) == ByteOf(v, i + 1);
      }
      SameBytes(u / 256, v / 256, n - 1);
    }
  }

  // ---------------------------------------------------------------- loads and stores

  /** The eight bytes from address `a` on are in memory. */
  predicate InMemory(mem: seq<Word>, a: nat) {
    a + 8 <= 8 * |mem|
  }

  function ByteAt(mem: seq<Word>, b: nat): (x: nat)
    requires b < 8 * |mem|
    ensures x < 256
  {
    ByteOf(mem[b / 8], b % 8)
  }

  function PutByte(mem: seq<Word>, b: nat, x: nat): (mem': seq<Word>)
    requires b < 8 * |mem| && x < 256
    ensures |mem'| == |mem|
  {
    WordBound();
    WithByteBound(mem[b / 8], b % 8, x, 8);
    mem[b / 8 := WithByte(mem[b / 8], b % 8, x)]
  }

  /** The number in the n bytes from `a` on. */
  function ReadBytes(mem: seq<Word>, a: nat, n: nat): (v: nat)
    requires a + n <= 8 * |mem|
    ensures v < Pow256(n)
    decreases |mem|, n
  {
    if n == 0 then 0 else ByteAt(mem, a) + 256 * ReadBytes(mem, a + 1, n - 1)
  }

  /** The n low bytes of v stored from `a` on. */
  function WriteBytes(mem: seq<Word>, a: nat, v: nat, n: nat): (mem': seq<Word>)
    requires a + n <= 8 * |mem|
    ensures |mem'| == |mem|
    decreases |mem|, n
  {
    if n == 0 then mem else PutByte(WriteBytes(mem, a, v, n - 1), a + n - 1, ByteOf(v, n - 1))
  }

  function ReadWord(mem: seq<Word>, a: nat): Word
    requires InMemory(mem, a)
  {
    WordBound();
    ReadBytes(mem, a, 8)
  }

  function WriteWord(mem: seq<Word>, a: nat, v: Word): (mem': seq<Word>)
    requires InMemory(mem, a)
    ensures |mem'| == |mem|
  {
    WriteBytes(mem, a, v, 8)
  }

  lemma {:induction false} PutByteIs(mem: seq<Word>, b: nat, x: nat, c: nat)
    requires b < 8 * |mem| && x < 256 && c < 8 * |mem|
    ensures ByteAt(PutByte(mem, b, x), c) == if c == b then x else ByteAt(mem, c)
  {
    WithByteIs(mem[b / 8], b % 8, x, c % 8);
  }

  lemma {:induction false} ReadBytesIs(mem: seq<Word>, a: nat, n: nat, j: nat)
    requires a + n <= 8 * |mem| && j < n
    ensures ByteOf(ReadBytes(mem, a, n), j) == ByteAt(mem, a + j)
    decreases n
  {
    var rest := ReadBytes(mem, a + 1, n - 1);
    assert ReadBytes(mem, a, n) / 256 == rest && ReadBytes(mem, a, n) % 256 == ByteAt(mem, a);
    if j != 0 {
      ReadBytesIs(mem, a + 1, n - 1, j - 1);
    }
  }

  lemma {:induction false} WriteBytesIs(mem: seq<Word>, a: nat, v: nat, n: nat, b: nat)
    requires a + n <= 8 * |mem| && b < 8 * |mem|
    ensures ByteAt(WriteBytes(mem, a, v, n), b) == if a <= b < a + n then ByteOf(v, b - a) else ByteAt(mem, b)
    decreases n
  {
    if n != 0 {
      WriteBytesIs(mem, a, v, n - 1, b);
      PutByteIs(WriteBytes(mem, a, v, n - 1), a + n - 1, ByteOf(v, n - 1), b);
    }
  }

  /** A load at any address reads eight bytes in order, the least significant first. */
  lemma {:induction false} LoadBytes(mem: seq<Word>, a: nat, j: nat)
    requires InMemory(mem, a) && j < 8
    ensures ByteOf(ReadWord(mem, a), j) == ByteAt(mem, a + j)
  {
    ReadBytesIs(mem, a, 8, j);
  }

  /** A store at any address writes its eight bytes in order and no other byte of memory. */
  lemma {:induction false} StoreBytes(mem: seq<Word>, a: nat, v: Word, b: nat)
    requires InMemory(mem, a) && b < 8 * |mem|
    ensures ByteAt(WriteWord(mem, a, v), b) == if a <= b < a + 8 then ByteOf(v, b - a) else ByteAt(mem, b)
  {
    WriteBytesIs(mem, a, v, 8, b);
  }

  // ---------------------------------------------------------------- consequences

  lemma {:induction false} SameWord(u: Word, v: Word)
    requires forall j: nat :: j < 8 ==> ByteOf(u, j) == ByteOf(v, j)
    ensures u == v
  {
    WordBound();
    SameBytes(u, v, 8);
  }

  /** Loads see the bytes and nothing else. */
  lemma {:induction false} SameRead(m1: seq<Word>, m2: seq<Word>, a: nat)
    requires InMemory(m1, a) && |m2| == |m1|
    requires forall b :: a <= b < a + 8 ==> ByteAt(m1, b) == ByteAt(m2, b)
    ensures ReadWord(m1, a) == ReadWord(m2, a)
  {
    forall j: nat | j < 8
      ensures ByteOf(ReadWord(m1, a), j) == ByteOf(ReadWord(m2, a), j)
    {
      LoadBytes(m1, a, j);
      LoadBytes(m2, a, j);
    }
    SameWord(ReadWord(m1, a), ReadWord(m2, a));
  }

  /** A store is what the next load of the same address finds, and it leaves every word alone
      that holds none of its bytes. */
  lemma {:induction false} ReadBack(mem: seq<Word>, a: nat, v: Word)
    requires InMemory(mem, a)
    ensures ReadWord(WriteWord(mem, a, v), a) == v
    ensures forall k :: 0 <= k < |mem| && (8 * k + 8 <= a || a + 8 <= 8 * k) ==> WriteWord(mem, a, v)[k] == mem[k]
  {
    var mem' := WriteWord(mem, a, v);
    forall j: nat | j < 8
      ensures ByteOf(ReadWord(mem', a), j) == ByteOf(v, j)
    {
      LoadBytes(mem', a, j);
      StoreBytes(mem, a, v, a + j);
    }
    SameWord(ReadWord(mem', a), v);
    forall k | 0 <= k < |mem| && (8 * k + 8 <= a || a + 8 <= 8 * k)
      ensures mem'[k] == mem[k]
    {
      KeptWord(mem, a, v, k);
    }
  }

  lemma {:induction false} KeptWord(mem: seq<Word>, a: nat, v: Word, k: nat)
    requires InMemory(mem, a) && k < |mem| && (8 * k + 8 <= a || a + 8 <= 8 * k)
    ensures WriteWord(mem, a, v)[k] == mem[k]
  {
    var mem' := WriteWord(mem, a, v);
    forall j: nat | j < 8
      ensures ByteOf(mem'[k], j) == ByteOf(mem[k], j)
    {
      var b := 8 * k + j;
      assert b / 8 == k && b % 8 == j;
      StoreBytes(mem, a, v, b);
    }
    SameWord(mem'[k], mem[k]);
  }

  /** A store does not disturb the word that follows it, aligned or not. */
  lemma {:induction false} WriteKeepsNext(mem: seq<Word>, a: nat, v: Word)
    requires InMemory(mem, a) && InMemory(mem, a + 8)
    ensures ReadWord(WriteWord(mem, a, v), a + 8) == ReadWord(mem, a + 8)
  {
    var mem' := WriteWord(mem, a, v);
    forall b | a + 8 <= b < a + 16
      ensures ByteAt(mem', b) == ByteAt(mem, b)
    {
      StoreBytes(mem, a, v, b);
    }
    SameRead(mem', mem, a + 8);
  }

  /** At a multiple of 8 a load is one word of memory. */
  lemma {:induction false} AlignedRead(mem: seq<Word>, a: nat)
    requires InMemory(mem, a) && a % 8 == 0
    ensures ReadWord(mem, a) == mem[a / 8]
  {
    forall j: nat | j < 8
      ensures ByteOf(ReadWord(mem, a), j) == ByteOf(mem[a / 8], j)
    {
      LoadBytes(mem, a, j);
      assert (a + j) / 8 == a / 8 && (a + j) % 8 == j;
    }
    SameWord(ReadWord(mem, a), mem[a / 8]);
  }

  /** At a multiple of 8 a store replaces one word of memory. */
  lemma {:induction false} AlignedWrite(mem: seq<Word>, a: nat, v: Word)
    requires InMemory(mem, a) && a % 8 == 0
    ensures WriteWord(mem, a, v) == mem[a / 8 := v]
  {
    var mem' := WriteWord(mem, a, v);
    forall k | 0 <= k < |mem|
      ensures mem'[k] == mem[a / 8 := v][k]
    {
      if k == a / 8 {
        AlignedRead(mem', a);
        ReadBack(mem, a, v);
      } else {
        KeptWord(mem, a, v, k);
      }
    }
  }
}
