/**
 The cascaded 8259A pair as seen through its ports, and the driver's port sequences
 (kernel/arch/x86_64/pic.c). The chip follows the Intel 8259A datasheet: ICW1 starts an
 initialisation that takes the next data writes, afterwards a data write sets the mask, and a
 non-specific end of interrupt clears the in-service bit of highest priority.
 */
module Pic {
  import opened Machine
  import opened Bits

  datatype Phase = Ready | NeedIcw2(cascaded: bool, icw4: bool) | NeedIcw3(icw4: bool) | NeedIcw4

  datatype Chip = Chip(imr: bv8, isr: set<nat>, base: bv8, cascade: bv8, mode: bv8, phase: Phase)

  datatype Pair = Pair(master: Chip, slave: Chip)

  const EOI: bv8 := 0x20

  /** The lowest in-service line, which has the highest priority, is done. */
  function EndOfInterrupt(c: Chip): Chip {
    c.(isr := set k | k in c.isr && exists j :: j in c.isr && j < k)
  }

  /** A write to a chip's command port. */
  function Command(c: Chip, b: bv8): Chip {
    if b & 0x10 != 0 then c.(imr := 0, mode := 0, phase := NeedIcw2(b & 2 == 0, b & 1 != 0))
    else if b == EOI then EndOfInterrupt(c)
    else c
  }

  function AfterCascade(icw4: bool): Phase {
    if icw4 then NeedIcw4 else Ready
  }

  /** A write to a chip's data port. */
  function Data(c: Chip, b: bv8): Chip {
    match c.phase
    case Ready => c.(imr := b)
    case NeedIcw2(cascaded, icw4) =>
      c.(base := b & 0xF8, phase := if cascaded then NeedIcw3(icw4) else AfterCascade(icw4))
    case NeedIcw3(icw4) => c.(cascade := b, phase := AfterCascade(icw4))
    case NeedIcw4 => c.(mode := b, phase := Ready)
  }

  /** The chip after initialisation for vectors from `base` on, everything masked. */
  predicate Configured(c: Chip, base: bv8, cascade: bv8) {
    c.phase == Ready && c.base == base && c.cascade == cascade && c.mode == 1
  }

  // ---------------------------------------------------------------- the driver

  /** A handler, as far as the chips can tell: the mask and unmask calls it makes. */
  type Handler = seq<(nat, bool)>

  class Driver {
    var master: Chip
    var slave: Chip
    var handlers: seq<Option<Handler>>

    /** Every byte sent to a port of either chip, in order. */
    ghost var log: seq<(nat, bv8)>

    ghost function View(): Pair
      reads this
    {
      Pair(master, slave)
    }

    /** outb on one of the four ports. */
    method Out(port: nat, b: bv8)
      requires port == 0x20 || port == 0x21 || port == 0xA0 || port == 0xA1
      modifies this`master, this`slave, this`log
      ensures log == old(log) + [(port, b)]
      ensures View() == OutPair(old(View()), port, b)
    {
      if port == 0x20 {
        master := Command(master, b);
      } else if port == 0x21 {
        master := Data(master, b);
      } else if port == 0xA0 {
        slave := Command(slave, b);
      } else {
        slave := Data(slave, b);
      }
      log := log + [(port, b)];
    }

    /** pic_remap, from any state of either chip: vectors 32-39 and 40-47, the cascade wired,
        every line masked. */
    method Remap()
      modifies this`master, this`slave, this`log
      ensures Configured(master, 0x20, 4) && Configured(slave, 0x28, 2)
      ensures master.imr == 0xFF && slave.imr == 0xFF
      ensures master.isr == old(master.isr) && slave.isr == old(slave.isr)
      ensures log == old(log) + [(0x20, 0x11), (0xA0, 0x11), (0x21, 0x20), (0xA1, 0x28), (0x21, 0x04),
                                 (0xA1, 0x02), (0x21, 0x01), (0xA1, 0x01), (0x21, 0xFF), (0xA1, 0xFF)]
    {
      Out(0x20, 0x11);
      Out(0xA0, 0x11);
      Out(0x21, 0x20);
      Out(0xA1, 0x28);
      Out(0x21, 0x04);
      Out(0xA1, 0x02);
      Out(0x21, 0x01);
      Out(0xA1, 0x01);
      Out(0x21, 0xFF);
      Out(0xA1, 0xFF);
    }

    method Eoi(irq: nat)
      modifies this`master, this`slave, this`log
      ensures View() == EoiPair(old(View()), irq)
      ensures log == old(log) + if irq < 8 then [(0x20, 0x20)]
                                else if irq < 16 then [(0xA0, 0x20), (0x20, 0x20)] else []
    {
      if irq >= 16 {
        return;
      }
      if irq >= 8 {
        Out(0xA0, EOI);
      }
      Out(0x20, EOI);
    }

    /** pic_mask and pic_unmask: one byte to the data port of the line's chip. */
    method SetMask(irq: nat, masked: bool)
      modifies this`master, this`slave, this`log
      ensures View() == MaskPair(old(View()), irq, masked)
      ensures log == old(log) + if irq < 8 then [(0x21, WithBit(old(master.imr), irq, masked))]
                                else if irq < 16 then [(0xA1, WithBit(old(slave.imr), irq - 8, masked))] else []
    {
      if irq >= 16 {
        return;
      }
      if irq < 8 {
        Out(0x21, WithBit(master.imr, irq, masked));
      } else {
        Out(0xA1, WithBit(slave.imr, irq - 8, masked));
      }
    }

    /** The calls the next dispatch of a vector makes before its end of interrupt. */
    function Inside(vector: nat): Handler
      requires |handlers| == 16
      reads this
    {
      if 32 <= vector < 48 && handlers[vector - 32].Some? then handlers[vector - 32].value else []
    }

    /** irq_register_handler: the next interrupt of that line runs the new handler, or none if
        it was unregistered; every other vector goes on as before, and all do when the line is
        out of range. */
    method Register(irq: nat, handler: Option<Handler>)
      requires |handlers| == 16
      modifies this`handlers
      ensures |handlers| == 16
      ensures irq < 16 ==> Inside(32 + irq) == if handler.Some? then handler.value else []
      ensures forall v: nat :: v != 32 + irq || 16 <= irq ==> Inside(v) == old(Inside(v))
    {
      if irq >= 16 {
        return;
      }
      handlers := handlers[irq := handler];
    }

    /** irq_dispatch: the handler, if there is one, and only then the end of interrupt, to the
        slave first when the line is the slave's. Vectors outside 32-47 are ignored. */
    method Dispatch(vector: nat)
      requires |handlers| == 16
      modifies this`master, this`slave, this`log
      ensures View() == DispatchPair(old(View()), vector, Inside(vector))
      ensures old(log) <= log
      ensures vector < 32 || 48 <= vector ==> log == old(log)
      ensures 32 <= vector < 48 ==>
                var eoi := if vector < 40 then [(0x20, 0x20)] else [(0xA0, 0x20), (0x20, 0x20)];
                && |old(log)| + |eoi| <= |log| && log[|log| - |eoi|..] == eoi
                && forall k :: |old(log)| <= k < |log| - |eoi| ==> log[k].0 == 0x21 || log[k].0 == 0xA1
    {
      if vector < 32 || vector >= 48 {
        return;
      }
      if handlers[vector - 32].Some? {
        CallHandler(handlers[vector - 32].value);
      }
      Eoi(vector - 32);
    }

    /** A handler sends nothing but mask bytes. */
    method CallHandler(handler: Handler)
      modifies this`master, this`slave, this`log
      ensures View() == MaskAll(old(View()), handler)
      ensures old(log) <= log
      ensures forall k :: |old(log)| <= k < |log| ==> log[k].0 == 0x21 || log[k].0 == 0xA1
    {
      for i := 0 to |handler|
        invariant View() == MaskAll(old(View()), handler[..i])
        invariant old(log) <= log
        invariant forall k :: |old(log)| <= k < |log| ==> log[k].0 == 0x21 || log[k].0 == 0xA1
      {
        assert handler[..i + 1][..i] == handler[..i];
        SetMask(handler[i].0, handler[i].1);
      }
      assert handler[..|handler|] == handler;
    }
  }

  // ---------------------------------------------------------------- the same as functions

  /** The chip and the register behind a port. */
  function OutPair(p: Pair, port: nat, b: bv8): Pair {
    match port
    case 0x20 => p.(master := Command(p.master, b))
    case 0x21 => p.(master := Data(p.master, b))
    case 0xA0 => p.(slave := Command(p.slave, b))
    case 0xA1 => p.(slave := Data(p.slave, b))
    case _ => p
  }

  function EoiPair(p: Pair, irq: nat): Pair {
    if irq >= 16 then p
    else if irq >= 8 then Pair(EndOfInterrupt(p.master), EndOfInterrupt(p.slave))
    else p.(master := EndOfInterrupt(p.master))
  }

  /** pic_mask or pic_unmask. */
  function MaskPair(p: Pair, irq: nat, masked: bool): Pair {
    if irq >= 16 then p
    else if irq < 8 then p.(master := Data(p.master, WithBit(p.master.imr, irq, masked)))
    else p.(slave := Data(p.slave, WithBit(p.slave.imr, irq - 8, masked)))
  }

  function MaskAll(p: Pair, ops: seq<(nat, bool)>): Pair {
    if ops == [] then p
    else
      var n := |ops| - 1;
      MaskPair(MaskAll(p, ops[..n]), ops[n].0, ops[n].1)
  }

  function DispatchPair(p: Pair, vector: nat, inside: seq<(nat, bool)>): Pair {
    if vector < 32 || vector >= 48 then p else EoiPair(MaskAll(p, inside), vector - 32)
  }

  predicate Masked(p: Pair, irq: nat)
    requires irq < 16
  {
    if irq < 8 then Bit(p.master.imr, irq) else Bit(p.slave.imr, irq - 8)
  }

  // ---------------------------------------------------------------- interrupts

  type IrqLine = x: int | 0 <= x < 16

  /** What makes the pair interrupt: a line, or a request that vanished before it was
      acknowledged, which the chip that saw it reports as its line 7. */
  datatype Cause = Line(irq: IrqLine) | SpuriousMaster | SpuriousSlave

  /** The acknowledge cycle: the in-service bits it sets. */
  function Acknowledge(p: Pair, cause: Cause): Pair {
    match cause
    case Line(irq) =>
      if irq < 8 then p.(master := p.master.(isr := p.master.isr + {irq}))
      else Pair(p.master.(isr := p.master.isr + {2}), p.slave.(isr := p.slave.isr + {irq - 8}))
    case SpuriousMaster => p
    case SpuriousSlave => p.(master := p.master.(isr := p.master.isr + {2}))
  }

  function VectorOf(p: Pair, cause: Cause): nat {
    match cause
    case Line(irq) => if irq < 8 then p.master.base as int + irq else p.slave.base as int + irq - 8
    case SpuriousMaster => p.master.base as int + 7
    case SpuriousSlave => p.slave.base as int + 7
  }

  /** An interrupt taken with interrupts disabled until the dispatcher returns, during which
      the handler makes the mask calls `inside`; or a mask call from the main line. */
  datatype Event = Interrupt(cause: Cause, inside: seq<(nat, bool)>) | Call(irq: nat, masked: bool)

  function Step(p: Pair, e: Event): Pair {
    match e
    case Interrupt(cause, inside) => DispatchPair(Acknowledge(p, cause), VectorOf(p, cause), inside)
    case Call(irq, masked) => MaskPair(p, irq, masked)
  }

  function Run(p: Pair, es: seq<Event>): Pair {
    if es == [] then p else Step(Run(p, es[..|es| - 1]), es[|es| - 1])
  }

  /** The pair as pic_remap leaves it, with nothing in service. */
  predicate Quiet(p: Pair) {
    && Configured(p.master, 0x20, 4) && Configured(p.slave, 0x28, 2)
    && p.master.isr == {} && p.slave.isr == {}
  }

  /** The mask calls of a run, in order. */
  function Calls(es: seq<Event>): seq<(nat, bool)> {
    if es == [] then []
    else
      var e := es[|es| - 1];
      Calls(es[..|es| - 1]) + if e.Interrupt? then e.inside else [(e.irq, e.masked)]
  }

  /** The state of a line after mask calls: the last call for it decides. */
  function LastCall(ops: seq<(nat, bool)>, irq: nat, initially: bool): bool {
    if ops == [] then initially
    else if ops[|ops| - 1].0 == irq then ops[|ops| - 1].1
    else LastCall(ops[..|ops| - 1], irq, initially)
  }

  /** The pair `p` with the mask registers of `q`. */
  function WithMasks(p: Pair, q: Pair): Pair {
    Pair(p.master.(imr := q.master.imr), p.slave.(imr := q.slave.imr))
  }

  lemma {:induction false} MaskPairKeeps(p: Pair, irq: nat, masked: bool, j: nat)
    requires p.master.phase == Ready && p.slave.phase == Ready && j < 16
    ensures var p' := MaskPair(p, irq, masked);
            && p' == WithMasks(p, p')
            && Masked(p', j) == if j == irq then masked else Masked(p, j)
  {
    if irq < 8 {
      if j < 8 {
        WithBitChangesOne(p.master.imr, irq, masked, j);
      }
    } else if irq < 16 {
      if 8 <= j {
        WithBitChangesOne(p.slave.imr, irq - 8, masked, j - 8);
      }
    }
  }

  lemma {:induction false} MaskAllKeeps(p: Pair, ops: seq<(nat, bool)>, j: nat)
    requires p.master.phase == Ready && p.slave.phase == Ready && j < 16
    ensures var p' := MaskAll(p, ops);
            && p' == WithMasks(p, p')
            && Masked(p', j) == LastCall(ops, j, Masked(p, j))
  {
    if ops == [] {
    } else {
      var n := |ops| - 1;
      MaskAllKeeps(p, ops[..n], j);
      MaskPairKeeps(MaskAll(p, ops[..n]), ops[n].0, ops[n].1, j);
    }
  }

  /** The end of interrupt for a cause clears exactly what its acknowledge cycle set. */
  lemma {:induction false} EoiMatchesAcknowledge(p: Pair, cause: Cause)
    requires Quiet(p)
    ensures var a := Acknowledge(p, cause);
            var irq := VectorOf(p, cause) - 32;
            0 <= irq < 16 && EoiPair(a, irq).master.isr == {} && EoiPair(a, irq).slave.isr == {}
    ensures cause.Line? ==> VectorOf(p, cause) == 32 + cause.irq
  {
  }

  lemma EoiIgnoresMasks(a: Pair, b: Pair, irq: nat)
    requires b == WithMasks(a, b)
    ensures EoiPair(b, irq) == WithMasks(EoiPair(a, irq), b)
  {
  }

  /** Every interrupt arrives as vector 32 + its line, and after its dispatch neither chip has
      anything in service: the order of acknowledge, handler and end of interrupt is right for
      lines of both chips and for spurious requests of either. */
  lemma {:induction false} DispatchQuiets(p: Pair, cause: Cause, inside: seq<(nat, bool)>, j: nat)
    requires Quiet(p) && j < 16
    ensures cause.Line? ==> VectorOf(p, cause) == 32 + cause.irq
    ensures Quiet(Step(p, Interrupt(cause, inside)))
    ensures Masked(Step(p, Interrupt(cause, inside)), j) == LastCall(inside, j, Masked(p, j))
  {
    var a, irq := Acknowledge(p, cause), VectorOf(p, cause) - 32;
    EoiMatchesAcknowledge(p, cause);
    MaskAllKeeps(a, inside, j);
    EoiIgnoresMasks(a, MaskAll(a, inside), irq);
  }

  lemma LastCallConcat(a: seq<(nat, bool)>, b: seq<(nat, bool)>, irq: nat, initially: bool)
    ensures LastCall(a + b, irq, initially) == LastCall(b, irq, LastCall(a, irq, initially))
    decreases |b|
  {
    if b == [] {
      assert a + b == a;
    } else {
      assert (a + b)[..|a + b| - 1] == a + b[..|b| - 1];
      LastCallConcat(a, b[..|b| - 1], irq, initially);
    }
  }

  /** Over every run of interrupts and mask calls: nothing stays in service, the configuration
      stands, and each line is masked exactly as its own last mask call said, wherever that
      call was made. */
  lemma {:induction false} RunTheorem(p: Pair, es: seq<Event>, j: nat)
    requires Quiet(p) && j < 16
    ensures Quiet(Run(p, es))
    ensures Masked(Run(p, es), j) == LastCall(Calls(es), j, Masked(p, j))
  {
    if es == [] {
    } else {
      var before, e := es[..|es| - 1], es[|es| - 1];
      RunTheorem(p, before, j);
      var ops := if e.Interrupt? then e.inside else [(e.irq, e.masked)];
      LastCallConcat(Calls(before), ops, j, Masked(p, j));
      match e {
        case Interrupt(cause, inside) => DispatchQuiets(Run(p, before), cause, inside, j);
        case Call(irq, masked) =>
          MaskPairKeeps(Run(p, before), irq, masked, j);
          assert LastCall([(irq, masked)], j, Masked(Run(p, before), j)) ==
                 if irq == j then masked else Masked(Run(p, before), j);
      }
    }
  }
}
