/** The keyboard driver's queue, kernel/arch/x86_64/keyboard.c. */
module Keyboard {
  import opened Machine
  import opened Scancodes

  datatype Ring = Ring(buf: seq<char>, head: nat, tail: nat)

  predicate RingOk(r: Ring) {
    |r.buf| == 128 && r.head < 128 && r.tail < 128
  }

  predicate Full(r: Ring) {
    (r.head + 1) % 128 == r.tail
  }

  /** enqueue: drop the newest byte when the queue is full. */
  function Put(r: Ring, c: char): Ring
    requires RingOk(r)
  {
    if Full(r) then r else Ring(r.buf[r.head := c], (r.head + 1) % 128, r.tail)
  }

  function PutOption(r: Ring, c: Option<char>): Ring
    requires RingOk(r)
  {
    if c.Some? then Put(r, c.value) else r
  }

  class Driver {
    const keymap: Keymap
    const buf: array<char>
    var head: nat
    var tail: nat
    var shift: bool
    var caps: bool
    var e0: bool

    ghost predicate Valid()
      reads this, buf
    {
      RingOk(View())
    }

    ghost function View(): Ring
      reads this, buf
    {
      Ring(buf[..], head, tail)
    }

    function State(): Decoder
      reads this
    {
      Decoder(shift, caps, e0)
    }

    /** keyboard_init. */
    constructor (keymap: Keymap)
      ensures Valid() && State() == INITIAL && head == tail == 0 && this.keymap == keymap
    {
      this.keymap := keymap;
      buf := new char[128];
      head, tail := 0, 0;
      shift, caps, e0 := false, false, false;
    }

    method Enqueue(c: char)
      requires Valid()
      modifies this`head, buf
      ensures Valid() && View() == Put(old(View()), c)
      ensures (old(head) + 1) % 128 == tail ==> View() == old(View())
      ensures (old(head) + 1) % 128 != tail ==>
                && head == (old(head) + 1) % 128 && buf[old(head)] == c
                && forall j :: 0 <= j < 128 && j != old(head) ==> buf[j] == old(buf[j])
    {
      var next := (head + 1) % 128;
      if next == tail {
        return;
      }
      buf[head] := c;
      assert buf[..] == old(buf[..])[head := c];
      head := next;
    }

    /** The handler for one scancode: decoder and queue move as the two functions say. */
    method OnIrq(code: Byte)
      requires Valid()
      modifies this`head, this`shift, this`caps, this`e0, buf
      ensures Valid()
      ensures State() == Decode(keymap, old(State()), code).0
      ensures View() == PutOption(old(View()), Decode(keymap, old(State()), code).1)
    {
      if code == SC_EXTENDED {
        e0 := true;
        return;
      }
      if e0 {
        e0 := false;
        return;
      }
      if code >= 0x80 {
        var make := code - 0x80;
        if make == SC_LSHIFT || make == SC_RSHIFT {
          shift := false;
        }
        return;
      }
      if code == SC_LSHIFT || code == SC_RSHIFT {
        shift := true;
        return;
      }
      if code == SC_CAPS {
        caps := !caps;
        return;
      }
      if code >= |keymap.unshifted| {
        return;
      }
      var base := keymap.unshifted[code];
      if base == NUL {
        return;
      }
      var out := base;
      if 'a' <= base <= 'z' {
        if shift != caps {
          out := base - 'a' + 'A';
        }
      } else if shift {
        var shifted := Lookup(keymap.shifted, code);
        if shifted != NUL {
          out := shifted;
        }
      }
      Enqueue(out);
    }

    method HasKey() returns (some: bool)
      ensures some <==> head != tail
    {
      some := head != tail;
    }

    /** With no interrupt in between: the oldest byte, or NUL when the queue is empty. */
    method Dequeue() returns (c: char)
      requires Valid()
      modifies this`tail
      ensures Valid()
      ensures old(head == tail) ==> c == NUL && View() == old(View())
      ensures old(head != tail) ==> c == old(buf[tail]) && View() == old(View()).(tail := (old(tail) + 1) % 128)
    {
      if head == tail {
        return NUL;
      }
      c := buf[tail];
      tail := (tail + 1) % 128;
    }
  }
}
