/**
 The queue under interrupts. keyboard_dequeue runs as four steps (load the head, compare it
 with the tail, read the slot, publish the new tail), and any number of whole interrupt
 handlers may run between any two of them.
 */
module KeyboardRuns {
  import opened Machine
  import opened Scancodes
  import opened Keyboard

  /** Where the consumer is. `at` records how many bytes had been accepted when it loaded the head. */
  datatype Consumer = Idle | Loaded(head: nat, at: nat) | NonEmpty | Fetched(c: char)

  /** A value returned by keyboard_dequeue, and whether its own comparison saw an empty queue. */
  datatype Answer = Answer(value: char, sawEmpty: bool)

  /** The driver, the consumer, and the history of both. */
  datatype System = System(
    dec: Decoder, ring: Ring, con: Consumer,
    codes: seq<Byte>, accepted: seq<char>, dropped: nat, answers: seq<Answer>)

  datatype Event = Irq(code: Byte) | Poll

  function Start(buf: seq<char>): System {
    System(INITIAL, Ring(buf, 0, 0), Idle, [], [], 0, [])
  }

  function IrqStep(m: Keymap, s: System, code: Byte): (s': System)
    requires RingOk(s.ring)
    ensures RingOk(s'.ring)
  {
    var (dec, out) := Decode(m, s.dec, code);
    var s' := s.(dec := dec, codes := s.codes + [code]);
    if out.None? then s'
    else if Full(s.ring) then s'.(dropped := s.dropped + 1)
    else s'.(ring := Put(s.ring, out.value), accepted := s.accepted + [out.value])
  }

  function PollStep(s: System): (s': System)
    requires RingOk(s.ring)
    ensures RingOk(s'.ring)
  {
    match s.con
    case Idle => s.(con := Loaded(s.ring.head, |s.accepted|))
    case Loaded(h, _) =>
      if h == s.ring.tail then s.(con := Idle, answers := s.answers + [Answer(NUL, true)])
      else s.(con := NonEmpty)
    case NonEmpty => s.(con := Fetched(s.ring.buf[s.ring.tail]))
    case Fetched(c) =>
      s.(con := Idle, answers := s.answers + [Answer(c, false)],
         ring := s.ring.(tail := (s.ring.tail + 1) % 128))
  }

  function Step(m: Keymap, s: System, e: Event): (s': System)
    requires RingOk(s.ring)
    ensures RingOk(s'.ring)
  {
    match e
    case Irq(code) => IrqStep(m, s, code)
    case Poll => PollStep(s)
  }

  /** The bytes delivered so far. */
  function Delivered(answers: seq<Answer>): seq<char> {
    if answers == [] then []
    else
      var last := answers[|answers| - 1];
      Delivered(answers[..|answers| - 1]) + if last.sawEmpty then [] else [last.value]
  }

  function Taken(s: System): nat {
    |Delivered(s.answers)|
  }

  /** Bytes accepted and not yet published as read. */
  function Unread(s: System): int {
    |s.accepted| - Taken(s)
  }

  /** Every unread byte is still in its slot. */
  ghost predicate SlotsHold(ring: Ring, accepted: seq<char>, taken: nat)
    requires RingOk(ring)
  {
    forall j :: taken <= j < |accepted| ==> ring.buf[j % 128] == accepted[j]
  }

  ghost predicate ConsumerOk(s: System) {
    match s.con
    case Idle => true
    case Loaded(h, at) => h == at % 128 && Taken(s) <= at <= |s.accepted|
    case NonEmpty => Taken(s) < |s.accepted|
    case Fetched(c) => Taken(s) < |s.accepted| && c == s.accepted[Taken(s)]
  }

  ghost predicate Inv(s: System) {
    && RingOk(s.ring)
    && 0 <= Unread(s) <= 127
    && s.ring.head == |s.accepted| % 128
    && s.ring.tail == Taken(s) % 128
    && SlotsHold(s.ring, s.accepted, Taken(s))
    && ConsumerOk(s)
    && Delivered(s.answers) <= s.accepted
    && NUL !in s.accepted
  }

  lemma DeliveredSnoc(answers: seq<Answer>, a: Answer)
    ensures Delivered(answers + [a]) == Delivered(answers) + if a.sawEmpty then [] else [a.value]
  {
    assert (answers + [a])[..|answers|] == answers;
  }

  /** The queue is full exactly when 127 bytes are unread. */
  lemma {:induction false} FullIff(s: System)
    requires Inv(s)
    ensures Full(s.ring) <==> Unread(s) == 127
  {
  }

  lemma {:induction false} SlotsPut(ring: Ring, accepted: seq<char>, taken: nat, c: char)
    requires RingOk(ring) && SlotsHold(ring, accepted, taken)
    requires taken <= |accepted| < taken + 127 && ring.head == |accepted| % 128
    requires !Full(ring)
    ensures RingOk(Put(ring, c)) && SlotsHold(Put(ring, c), accepted + [c], taken)
  {
  }

  /** A byte put into a queue that is not full disturbs no unread slot and no consumer. */
  lemma {:induction false} AcceptKeeps(s: System, c: char)
    requires Inv(s) && !Full(s.ring) && c != NUL
    ensures Inv(s.(ring := Put(s.ring, c), accepted := s.accepted + [c]))
  {
    FullIff(s);
    SlotsPut(s.ring, s.accepted, Taken(s), c);
    NextIndex(|s.accepted|);
  }

  lemma {:induction false} IrqKeeps(m: Keymap, s: System, code: Byte)
    requires Inv(s)
    ensures Inv(IrqStep(m, s, code))
  {
    NeverNul(m, s.dec, code);
    var out := Decode(m, s.dec, code).1;
    if out.Some? && !Full(s.ring) {
      AcceptKeeps(s, out.value);
    }
  }

  lemma SameIndex(a: nat, b: nat)
    requires a <= b <= a + 127
    ensures a % 128 == b % 128 <==> a == b
  {
  }

  lemma NextIndex(k: nat)
    ensures (k % 128 + 1) % 128 == (k + 1) % 128
  {
  }

  lemma {:induction false} CompareKeeps(s: System)
    requires Inv(s) && s.con.Loaded?
    ensures Inv(PollStep(s))
    ensures s.con.head == s.ring.tail <==> s.con.at == Taken(s)
  {
    SameIndex(Taken(s), s.con.at);
    if s.con.head == s.ring.tail {
      DeliveredSnoc(s.answers, Answer(NUL, true));
      assert Delivered(s.answers) + [] == Delivered(s.answers);
    }
  }

  lemma {:induction false} PublishKeeps(s: System)
    requires Inv(s) && s.con.Fetched?
    ensures Inv(PollStep(s))
  {
    var s', taken := PollStep(s), Taken(s);
    DeliveredSnoc(s.answers, Answer(s.con.c, false));
    assert Taken(s') == taken + 1;
    assert Delivered(s'.answers) == s.accepted[..taken + 1];
    NextIndex(taken);
  }

  lemma {:induction false} PollKeeps(s: System)
    requires Inv(s)
    ensures Inv(PollStep(s))
  {
    match s.con {
      case Idle =>
      case Loaded(_, _) => CompareKeeps(s);
      case NonEmpty =>
      case Fetched(_) => PublishKeeps(s);
    }
  }

  // ---------------------------------------------------------------- every interleaving

  lemma {:induction false} StepKeeps(m: Keymap, s: System, e: Event)
    requires Inv(s)
    ensures Inv(Step(m, s, e))
  {
    match e {
      case Irq(code) => IrqKeeps(m, s, code);
      case Poll => PollKeeps(s);
    }
  }

  function Run(m: Keymap, s: System, es: seq<Event>): (s': System)
    requires RingOk(s.ring)
    ensures RingOk(s'.ring)
    decreases |es|
  {
    if es == [] then s else Run(m, Step(m, s, es[0]), es[1..])
  }

  // ---------------------------------------------------------------- the driver's own calls

  /** The driver is where the system says, with its consumer between two dequeues. */
  ghost predicate InState(k: Driver, s: System)
    reads k, k.buf
  {
    k.Valid() && k.View() == s.ring && k.State() == s.dec && s.con.Idle?
  }

  /** The driver's interrupt handler is the system's interrupt step. */
  method Interrupt(k: Driver, code: Byte, ghost s: System)
    requires InState(k, s)
    modifies k`head, k`shift, k`caps, k`e0, k.buf
    ensures InState(k, IrqStep(k.keymap, s, code))
  {
    k.OnIrq(code);
  }

  /** Whole calls: an interrupt, or an undisturbed dequeue. */
  datatype Call = Key(code: Byte) | Get

  /** The steps a call consists of. */
  function Steps(s: System, c: Call): seq<Event> {
    match c
    case Key(code) => [Irq(code)]
    case Get => if s.ring.head == s.ring.tail then [Poll, Poll] else [Poll, Poll, Poll, Poll]
  }

  /** The steps of a sequence of calls. */
  function Expand(m: Keymap, s: System, calls: seq<Call>): seq<Event>
    requires RingOk(s.ring)
    decreases |calls|
  {
    if calls == [] then []
    else Steps(s, calls[0]) + Expand(m, Run(m, s, Steps(s, calls[0])), calls[1..])
  }

  lemma {:induction false} RunConcat(m: Keymap, s: System, a: seq<Event>, b: seq<Event>)
    requires RingOk(s.ring)
    ensures Run(m, s, a + b) == Run(m, Run(m, s, a), b)
    decreases |a|
  {
    if a == [] {
      assert a + b == b;
    } else {
      assert (a + b)[1..] == a[1..] + b;
      RunConcat(m, Step(m, s, a[0]), a[1..], b);
    }
  }

  lemma {:induction false} ExpandNext(m: Keymap, s: System, calls: seq<Call>)
    requires RingOk(s.ring) && calls != []
    ensures var s1 := Run(m, s, Steps(s, calls[0]));
            Run(m, s, Expand(m, s, calls)) == Run(m, s1, Expand(m, s1, calls[1..]))
  {
    var es := Steps(s, calls[0]);
    RunConcat(m, s, es, Expand(m, Run(m, s, es), calls[1..]));
  }

  /** The values keyboard_dequeue returned. */
  function Values(answers: seq<Answer>): seq<char> {
    seq(|answers|, i requires 0 <= i < |answers| => answers[i].value)
  }

  lemma {:induction false} InvAlong(m: Keymap, s: System, es: seq<Event>)
    requires Inv(s)
    ensures Inv(Run(m, s, es))
    decreases |es|
  {
    if es == [] {
    } else {
      StepKeeps(m, s, es[0]);
      InvAlong(m, Step(m, s, es[0]), es[1..]);
    }
  }

  method DoCall(k: Driver, c: Call, ghost s: System) returns (got: seq<char>)
    requires InState(k, s) && Inv(s)
    modifies k`head, k`tail, k`shift, k`caps, k`e0, k.buf
    ensures var s' := Run(k.keymap, s, Steps(s, c));
            InState(k, s') && Values(s'.answers) == Values(s.answers) + got
    ensures |got| == if c.Get? then 1 else 0
  {
    match c {
      case Key(code) =>
        Interrupt(k, code, s);
        got := [];
        assert [Irq(code)][1..] == [];
      case Get =>
        UndisturbedDequeue(k.keymap, s);
        var answer := k.Dequeue();
        got := [answer];
    }
  }

  /** The driver's own methods, called in any order, end in the state of the system after the
      steps of the same calls, and the values its dequeues return are the system's answers. */
  method Drive(k: Driver, calls: seq<Call>, ghost s: System) returns (answers: seq<char>)
    requires InState(k, s) && Inv(s)
    modifies k`head, k`tail, k`shift, k`caps, k`e0, k.buf
    ensures var s' := Run(k.keymap, s, Expand(k.keymap, s, calls));
            InState(k, s') && Values(s'.answers) == Values(s.answers) + answers
    decreases |calls|
  {
    if calls == [] {
      answers := [];
    } else {
      ghost var m := k.keymap;
      var c := calls[0];
      ghost var s1 := Run(m, s, Steps(s, c));
      assert Inv(s1) by {
        InvAlong(m, s, Steps(s, c));
      }
      var got := DoCall(k, c, s);
      var more := Drive(k, calls[1..], s1);
      answers := got + more;
      ExpandNext(m, s, calls);
      Append(Values(s.answers), got, more);
    }
  }

  lemma Append(a: seq<char>, b: seq<char>, c: seq<char>)
    ensures a + b + c == a + (b + c)
  {
  }

  /** `a` is `b` with some elements left out. */
  ghost predicate Subsequence(a: seq<char>, b: seq<char>)
    decreases |b|
  {
    if a == [] then true
    else if b == [] then false
    else
      var a', b' := a[..|a| - 1], b[..|b| - 1];
      (a[|a| - 1] == b[|b| - 1] && Subsequence(a', b')) || Subsequence(a, b')
  }

  ghost predicate Accounted(accepted: seq<char>, dropped: nat, outs: seq<char>) {
    && |accepted| + dropped == |outs|
    && Subsequence(accepted, outs)
    && (dropped == 0 ==> accepted == outs)
  }

  /** What was accepted and dropped accounts for every byte the codes produced, and an answer
      is NUL exactly when its comparison saw an empty queue. */
  ghost predicate HistoryOk(m: Keymap, s: System) {
    && s.dec == StateAfter(m, s.codes)
    && Accounted(s.accepted, s.dropped, Outputs(m, s.codes))
    && AnswersOk(s.answers)
  }

  ghost predicate AnswersOk(answers: seq<Answer>) {
    forall i :: 0 <= i < |answers| ==> (answers[i].value == NUL <==> answers[i].sawEmpty)
  }

  lemma SubsequenceSnoc(a: seq<char>, b: seq<char>, c: char)
    requires Subsequence(a, b)
    ensures Subsequence(a, b + [c]) && Subsequence(a + [c], b + [c])
  {
    assert (b + [c])[..|b|] == b && (a + [c])[..|a|] == a;
  }

  lemma {:induction false} AccountedSnoc(accepted: seq<char>, dropped: nat, outs: seq<char>, c: char)
    requires Accounted(accepted, dropped, outs)
    ensures Accounted(accepted + [c], dropped, outs + [c])
    ensures Accounted(accepted, dropped + 1, outs + [c])
  {
    SubsequenceSnoc(accepted, outs, c);
  }

  lemma {:induction false} IrqHistory(m: Keymap, s: System, code: Byte)
    requires Inv(s) && HistoryOk(m, s)
    ensures HistoryOk(m, IrqStep(m, s, code))
  {
    var out, outs := Decode(m, s.dec, code).1, Outputs(m, s.codes);
    Snoc(m, s.codes, code);
    if out.None? {
      assert outs + [] == outs;
    } else {
      AccountedSnoc(s.accepted, s.dropped, outs, out.value);
    }
  }

  lemma {:induction false} PollHistory(m: Keymap, s: System)
    requires Inv(s) && HistoryOk(m, s)
    ensures HistoryOk(m, PollStep(s))
  {
    var s' := PollStep(s);
    if s.con.Fetched? {
      assert s.con.c in s.accepted;
      assert s'.answers == s.answers + [Answer(s.con.c, false)];
    }
    assert AnswersOk(s'.answers);
  }

  lemma {:induction false} StepHistory(m: Keymap, s: System, e: Event)
    requires Inv(s) && HistoryOk(m, s)
    ensures HistoryOk(m, Step(m, s, e))
  {
    match e {
      case Irq(code) => IrqHistory(m, s, code);
      case Poll => PollHistory(m, s);
    }
  }

  lemma {:induction false} RunKeeps(m: Keymap, s: System, es: seq<Event>)
    requires Inv(s) && HistoryOk(m, s)
    ensures Inv(Run(m, s, es)) && HistoryOk(m, Run(m, s, es))
    decreases |es|
  {
    if es == [] {
    } else {
      StepKeeps(m, s, es[0]);
      StepHistory(m, s, es[0]);
      RunKeeps(m, Step(m, s, es[0]), es[1..]);
    }
  }

  /** The scancodes of a run, in order. */
  function CodesOf(es: seq<Event>): seq<Byte> {
    if es == [] then [] else CodeOf(es[0]) + CodesOf(es[1..])
  }

  function CodeOf(e: Event): seq<Byte> {
    if e.Irq? then [e.code] else []
  }

  lemma StepCodes(m: Keymap, s: System, e: Event)
    requires RingOk(s.ring)
    ensures Step(m, s, e).codes == s.codes + CodeOf(e)
  {
  }

  lemma {:induction false} RunCodes(m: Keymap, s: System, es: seq<Event>)
    requires RingOk(s.ring)
    ensures Run(m, s, es).codes == s.codes + CodesOf(es)
    decreases |es|
  {
    if es == [] {
    } else {
      StepCodes(m, s, es[0]);
      RunCodes(m, Step(m, s, es[0]), es[1..]);
      assert s.codes + (CodeOf(es[0]) + CodesOf(es[1..])) == s.codes + CodeOf(es[0]) + CodesOf(es[1..]);
    }
  }

  lemma StartOk(m: Keymap, buf: seq<char>)
    requires |buf| == 128
    ensures Inv(Start(buf)) && HistoryOk(m, Start(buf))
  {
  }

  /** Under every interleaving of interrupts with the consumer's steps: the bytes delivered
      are a prefix of the bytes accepted, every unread byte is still in its slot, accepted and
      dropped bytes account for every byte decoded, in order, and keyboard_dequeue answers
      NUL exactly when its own comparison saw an empty queue. */
  lemma {:induction false} QueueTheorem(m: Keymap, buf: seq<char>, es: seq<Event>)
    requires |buf| == 128
    ensures var s := Run(m, Start(buf), es);
            && s.codes == CodesOf(es)
            && 0 <= Unread(s) <= 127
            && Delivered(s.answers) <= s.accepted
            && RingOk(s.ring) && SlotsHold(s.ring, s.accepted, Taken(s))
            && Subsequence(s.accepted, Outputs(m, s.codes))
            && |s.accepted| + s.dropped == |Outputs(m, s.codes)|
            && AnswersOk(s.answers)
  {
    StartOk(m, buf);
    RunKeeps(m, Start(buf), es);
    RunCodes(m, Start(buf), es);
  }

  /** After any run, an interrupt drops its byte if and only if it decodes to one while 127
      bytes are unread; otherwise it loses nothing. */
  lemma {:induction false} DropIff(m: Keymap, buf: seq<char>, es: seq<Event>, code: Byte)
    requires |buf| == 128
    ensures var s := Run(m, Start(buf), es);
            var s', out := IrqStep(m, s, code), Decode(m, s.dec, code).1;
            && (s'.dropped == s.dropped + 1 <==> out.Some? && Unread(s) == 127)
            && (s'.dropped == s.dropped || s'.dropped == s.dropped + 1)
            && (out.Some? && Unread(s) < 127 ==> s'.accepted == s.accepted + [out.value])
  {
    StartOk(m, buf);
    RunKeeps(m, Start(buf), es);
    FullIff(Run(m, Start(buf), es));
  }

  // ---------------------------------------------------------------- has_key, then dequeue

  /** A dequeue in progress, or about to start, that cannot come back empty. */
  predicate WillDeliver(s: System) {
    match s.con
    case Idle => Taken(s) < |s.accepted|
    case Loaded(_, at) => Taken(s) < at
    case NonEmpty => true
    case Fetched(_) => true
  }

  /** If keyboard_has_key said yes, then whatever interrupts run during the next
      keyboard_dequeue, it answers with a byte. */
  lemma {:induction false} HasKeyThenDequeue(m: Keymap, s: System, es: seq<Event>)
    requires Inv(s) && WillDeliver(s)
    ensures var s' := Run(m, s, es);
            && |s.answers| <= |s'.answers|
            && (|s.answers| < |s'.answers| ==> !s'.answers[|s.answers|].sawEmpty)
    decreases |es|
  {
    if es == [] {
    } else {
      var s1 := Step(m, s, es[0]);
      StepKeeps(m, s, es[0]);
      if s.con.Loaded? {
        CompareKeeps(s);
      }
      if |s1.answers| == |s.answers| {
        HasKeyThenDequeue(m, s1, es[1..]);
      } else {
        AnswersGrow(m, s1, es[1..]);
      }
    }
  }

  lemma {:induction false} AnswersGrow(m: Keymap, s: System, es: seq<Event>)
    requires Inv(s)
    ensures s.answers <= Run(m, s, es).answers
    decreases |es|
  {
    if es == [] {
    } else {
      StepKeeps(m, s, es[0]);
      AnswersGrow(m, Step(m, s, es[0]), es[1..]);
    }
  }

  /** keyboard_has_key's comparison is exact when the consumer is idle. */
  lemma {:induction false} HasKeyIff(s: System)
    requires Inv(s) && s.con.Idle?
    ensures s.ring.head != s.ring.tail <==> WillDeliver(s)
  {
  }

  /** Undisturbed, the consumer's steps are the driver's keyboard_dequeue: two on an empty
      queue, four otherwise, with the same answer and the same ring. */
  lemma {:induction false} UndisturbedDequeue(m: Keymap, s: System)
    requires Inv(s) && s.con.Idle?
    ensures var empty := s.ring.head == s.ring.tail;
            var s' := Run(m, s, if empty then [Poll, Poll] else [Poll, Poll, Poll, Poll]);
            && s'.con.Idle? && s'.dec == s.dec && s'.accepted == s.accepted && s'.dropped == s.dropped
            && s'.answers == s.answers + [if empty then Answer(NUL, true) else Answer(s.ring.buf[s.ring.tail], false)]
            && s'.ring == (if empty then s.ring else s.ring.(tail := (s.ring.tail + 1) % 128))
  {
    var one, two := [Poll], [Poll, Poll];
    var three, four := [Poll, Poll, Poll], [Poll, Poll, Poll, Poll];
    assert four[1..] == three && three[1..] == two && two[1..] == one && one[1..] == [];
    var s1 := PollStep(s);
    var s2 := PollStep(s1);
    assert Run(m, s, two) == Run(m, s1, one) == s2;
    if s.ring.head != s.ring.tail {
      var s3 := PollStep(s2);
      assert Run(m, s, four) == Run(m, s1, three) == Run(m, s2, two) == Run(m, s3, one) == PollStep(s3);
    }
  }
}
