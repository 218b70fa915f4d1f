/** What the ring protocol guarantees over every interleaving, and for exactly which sizes. */
module RingTheorems {
  import opened Words
  import opened RingMachine

  // ------------------------------------------------------------------ FIFO over every run

  /** No PDU lost, duplicated, reordered or torn, and no more than N ever queued, however the
      two cores interleave and however often the 32-bit indices wrap. */
  lemma FifoTheorem(c: Config, run: seq<State>, i: nat)
    requires ValidSize(c.slots) && Run(c, run) && i < |run|
    ensures run[i].popped <= run[i].pushed
    ensures WrapSub(run[i].mem.head, run[i].mem.tail) == |run[i].pushed| - |run[i].popped| <= c.slots
    ensures forall k :: 0 <= k < |run[i].pushed| ==> |run[i].pushed[k]| == c.size
  {
    RunKeepsInv(c, run, i);
    WrapSubOfCounters(|run[i].pushed|, |run[i].popped|);
  }

  /** The producer never writes the slot the consumer is reading. */
  lemma NoSharedSlot(c: Config, run: seq<State>, i: nat)
    requires ValidSize(c.slots) && Run(c, run) && i < |run|
    requires run[i].prod.PushCopying? && run[i].cons.PopCopying?
    ensures run[i].prod.h % c.slots != run[i].cons.t % c.slots
  {
    RunKeepsInv(c, run, i);
    var s := run[i];
    SlotOfCounter(|s.pushed|, c.slots);
    SlotOfCounter(|s.popped|, c.slots);
    SlotsDiffer(|s.popped|, |s.pushed|, c.slots);
  }

  // ------------------------------------------------------------------ refinement of an atomic queue

  datatype Caller<A, R> = Idle | Wants(arg: A) | Done(result: R)

  /** A bounded queue whose push and pop each take effect in one indivisible step. */
  datatype Queue = Queue(items: seq<Pdu>, prod: Caller<Pdu, bool>, cons: Caller<(), Option<Pdu>>)

  ghost predicate AtomicPush(n: nat, q: Queue, q': Queue) {
    match q.prod
    case Idle => q'.prod.Wants? && q' == q.(prod := q'.prod)
    case Wants(pdu) =>
      if |q.items| >= n then q' == q.(prod := Done(false))
      else q' == q.(items := q.items + [pdu], prod := Done(true))
    case Done(_) => q' == q.(prod := Idle)
  }

  ghost predicate AtomicPop(q: Queue, q': Queue) {
    match q.cons
    case Idle => q' == q.(cons := Wants(()))
    case Wants(_) =>
      if q.items == [] then q' == q.(cons := Done(None))
      else q' == q.(items := q.items[1..], cons := Done(Some(q.items[0])))
    case Done(_) => q' == q.(cons := Idle)
  }

  ghost predicate AtomicStep(n: nat, q: Queue, q': Queue) {
    AtomicPush(n, q, q') || AtomicPop(q, q')
  }

  /** How a push under way looks from outside: a full queue is settled by the load of tail. */
  function PushView(c: Config, s: State): Caller<Pdu, bool> {
    match s.prod
    case PushIdle => Idle
    case PushCalled(pdu) => Wants(pdu)
    case PushHasHead(pdu, _) => Wants(pdu)
    case PushHasTail(pdu, t) => if WrapSub(s.mem.head, t) >= c.slots then Done(false) else Wants(pdu)
    case PushAdmitted(pdu) => Wants(pdu)
    case PushCopying(pdu, _, _) => Wants(pdu)
    case PushReturned(ok) => Done(ok)
  }

  /** How a pop under way looks from outside: an empty queue is settled by the load of head. */
  function PopView(s: State): Caller<(), Option<Pdu>> {
    match s.cons
    case PopIdle => Idle
    case PopHasHead(h) => if h == s.mem.tail then Done(None) else Wants(())
    case PopReturned(result) => Done(result)
    case _ => Wants(())
  }

  function View(c: Config, s: State): Queue
    requires |s.popped| <= |s.pushed|
  {
    Queue(s.pushed[|s.popped|..], PushView(c, s), PopView(s))
  }

  /** What the refinement needs of the invariant, for each core. */
  lemma InvParts(c: Config, s: State)
    requires 0 < c.slots && Inv(c, s)
    ensures |s.mem.slots| == c.slots && IndicesOk(c, s) && HistoryOk(c, s) && ProducerOk(c, s) && ConsumerOk(c, s)
  {
  }

  lemma QueueLength(c: Config, s: State)
    requires 0 < c.slots < WRAP && IndicesOk(c, s) && HistoryOk(c, s)
    ensures |View(c, s).items| == Occupancy(s) == WrapSub(s.mem.head, s.mem.tail) <= c.slots
    ensures s.mem.head == s.mem.tail <==> Occupancy(s) == 0
  {
    WrapSubOfCounters(|s.pushed|, |s.popped|);
  }

  /** A push that loads an index, fails, goes on or returns. */
  lemma PushDecisionRefines(c: Config, s: State, s': State)
    requires 0 < c.slots < WRAP && |s.mem.slots| == c.slots && IndicesOk(c, s) && HistoryOk(c, s) && ProducerOk(c, s)
    requires ProducerStep(c, s, s') && (s.prod.PushCalled? || s.prod.PushHasHead? || s.prod.PushHasTail?)
    ensures |s'.popped| <= |s'.pushed|
    ensures View(c, s') == View(c, s) || AtomicPush(c.slots, View(c, s), View(c, s'))
  {
    QueueLength(c, s);
    hide IndicesOk, WrapSub;
  }

  lemma PushCopyRefines(c: Config, s: State, s': State)
    requires 0 < c.slots < WRAP && |s.mem.slots| == c.slots && IndicesOk(c, s) && HistoryOk(c, s) && ProducerOk(c, s)
    requires s.prod.PushCopying? && ProducerStep(c, s, s')
    ensures |s'.popped| <= |s'.pushed|
    ensures View(c, s') == View(c, s) || AtomicPush(c.slots, View(c, s), View(c, s'))
  {
    hide IndicesOk, WrapSub;
    QueueLength(c, s);
    if PushPublishes(c, s, s') {
      assert s'.pushed[|s'.popped|..] == s.pushed[|s.popped|..] + [s.prod.pdu];
    }
  }

  lemma PushOtherwiseRefines(c: Config, s: State, s': State)
    requires 0 < c.slots && HistoryOk(c, s) && ProducerStep(c, s, s')
    requires s.prod.PushIdle? || s.prod.PushAdmitted? || s.prod.PushReturned?
    ensures |s'.popped| <= |s'.pushed|
    ensures View(c, s') == View(c, s) || AtomicPush(c.slots, View(c, s), View(c, s'))
  {
    hide WrapSub;
  }

  lemma ProducerRefines(c: Config, s: State, s': State)
    requires ValidSize(c.slots) && Inv(c, s) && ProducerStep(c, s, s') && Inv(c, s')
    ensures View(c, s') == View(c, s) || AtomicPush(c.slots, View(c, s), View(c, s'))
  {
    hide Inv, View, AtomicPush, ProducerStep, IndicesOk, HistoryOk, ProducerOk, ConsumerOk;
    InvParts(c, s);
    if s.prod.PushCalled? || s.prod.PushHasHead? || s.prod.PushHasTail? {
      PushDecisionRefines(c, s, s');
    } else if s.prod.PushCopying? {
      PushCopyRefines(c, s, s');
    } else {
      PushOtherwiseRefines(c, s, s');
    }
  }

  /** A pop that loads an index, fails, goes on or returns. */
  lemma PopDecisionRefines(c: Config, s: State, s': State)
    requires 0 < c.slots < WRAP && IndicesOk(c, s) && HistoryOk(c, s) && ConsumerOk(c, s)
    requires ConsumerStep(c, s, s') && (s.cons.PopCalled? || s.cons.PopHasHead? || s.cons.PopHasTail?)
    ensures |s'.popped| <= |s'.pushed|
    ensures View(c, s') == View(c, s) || AtomicPop(View(c, s), View(c, s'))
  {
    QueueLength(c, s);
    hide IndicesOk, WrapSub, PushView;
  }

  lemma PopOtherwiseRefines(c: Config, s: State, s': State)
    requires 0 < c.slots && HistoryOk(c, s) && ConsumerStep(c, s, s')
    requires s.cons.PopIdle? || s.cons.PopAdmitted? || s.cons.PopReturned?
    ensures |s'.popped| <= |s'.pushed|
    ensures View(c, s') == View(c, s) || AtomicPop(View(c, s), View(c, s'))
  {
    hide PushView;
    SamePush(c, s, s');
  }

  /** The consumer's steps do not show in a push under way. */
  lemma SamePush(c: Config, s: State, s': State)
    requires s'.prod == s.prod && s'.mem.head == s.mem.head
    ensures PushView(c, s') == PushView(c, s)
  {
  }

  lemma PopCopyRefines(c: Config, s: State, s': State)
    requires 0 < c.slots && HistoryOk(c, s) && ConsumerOk(c, s) && s.cons.PopCopying? && ConsumerStep(c, s, s')
    ensures |s'.popped| <= |s'.pushed|
    ensures View(c, s') == View(c, s) || AtomicPop(View(c, s), View(c, s'))
  {
    hide PushView, ConsumerOk, AtomicPop;
    if PopPublishes(c, s, s') {
      TakeRefines(c, s, s');
    } else {
      SamePush(c, s, s');
    }
  }

  lemma ConsumerRefines(c: Config, s: State, s': State)
    requires ValidSize(c.slots) && Inv(c, s) && ConsumerStep(c, s, s') && Inv(c, s')
    ensures View(c, s') == View(c, s) || AtomicPop(View(c, s), View(c, s'))
  {
    hide Inv, View, AtomicPop, ConsumerStep, IndicesOk, HistoryOk, ProducerOk, ConsumerOk;
    InvParts(c, s);
    if s.cons.PopCalled? || s.cons.PopHasHead? || s.cons.PopHasTail? {
      PopDecisionRefines(c, s, s');
    } else if s.cons.PopCopying? {
      PopCopyRefines(c, s, s');
    } else {
      PopOtherwiseRefines(c, s, s');
    }
  }

  lemma TakeRefines(c: Config, s: State, s': State)
    requires HistoryOk(c, s) && s.cons.PopCopying? && ConsumerOk(c, s) && PopPublishes(c, s, s')
    ensures |s'.popped| <= |s'.pushed|
    ensures AtomicPop(View(c, s), View(c, s'))
  {
    TakeIsOldest(c, s, s');
    assert s'.pushed[|s'.popped|..] == s.pushed[|s.popped|..][1..];
  }

  /** Every interleaved run is, step by step, a run of the atomic queue: each push and each pop
      takes effect at one instant between its call and its return. */
  lemma RunRefinesAtomicQueue(c: Config, run: seq<State>, i: nat)
    requires ValidSize(c.slots) && Run(c, run) && i + 1 < |run|
    ensures |run[i].popped| <= |run[i].pushed| && |run[i + 1].popped| <= |run[i + 1].pushed|
    ensures View(c, run[0]) == Queue([], Idle, Idle)
    ensures View(c, run[i + 1]) == View(c, run[i]) || AtomicStep(c.slots, View(c, run[i]), View(c, run[i + 1]))
  {
    RunKeepsInv(c, run, i);
    RunKeepsInv(c, run, i + 1);
    assert Step(c, run[i], run[i + 1]);
    if ProducerStep(c, run[i], run[i + 1]) {
      ProducerRefines(c, run[i], run[i + 1]);
    } else {
      ConsumerRefines(c, run[i], run[i + 1]);
    }
  }

  // ------------------------------------------------------------------ refused calls were right to be refused

  predicate InPush(s: State) {
    !s.prod.PushIdle? && !s.prod.PushReturned?
  }

  predicate InPop(s: State) {
    !s.cons.PopIdle? && !s.cons.PopReturned?
  }

  /** Both cores are idle at the start of a run; every later state comes by a step. */
  lemma NotAtStart(c: Config, run: seq<State>, i: nat)
    requires 0 < c.slots && Run(c, run) && i < |run| && (!run[i].prod.PushIdle? || !run[i].cons.PopIdle?)
    ensures i > 0 && Step(c, run[i - 1], run[i])
  {
    hide Step;
    if i > 0 {
      assert Step(c, run[i - 1], run[(i - 1) + 1]);
    }
  }

  /** What the two load lemmas need of the invariant. */
  lemma StepParts(c: Config, s: State)
    requires 0 < c.slots && Inv(c, s)
    ensures IndicesOk(c, s) && HistoryOk(c, s)
    ensures s.prod.PushCopying? ==> s.prod.h == s.mem.head
    ensures s.cons.PopCopying? ==> s.cons.t == s.mem.tail
  {
    hide IndicesOk, HistoryOk, WrapSub;
  }

  lemma TailLoadStep(c: Config, s: State, s': State)
    requires ValidSize(c.slots) && IndicesOk(c, s) && HistoryOk(c, s) && Step(c, s, s')
    requires s.prod.PushCopying? ==> s.prod.h == s.mem.head
    requires s'.prod.PushHasTail? && WrapSub(s'.mem.head, s'.prod.t) >= c.slots
    ensures || (s.prod.PushHasTail? && WrapSub(s.mem.head, s.prod.t) >= c.slots)
            || (s.prod.PushCalled? && Occupancy(s) == c.slots)
  {
    WrapSubOfCounters(|s.pushed|, |s.popped|);
  }

  lemma {:induction false} TailLoadSawFull(c: Config, run: seq<State>, i: nat) returns (j: nat)
    requires ValidSize(c.slots) && Run(c, run) && i < |run|
    requires run[i].prod.PushHasTail? && WrapSub(run[i].mem.head, run[i].prod.t) >= c.slots
    ensures j <= i && Occupancy(run[j]) == c.slots
    ensures forall k :: j <= k <= i ==> InPush(run[k])
  {
    hide Step, Inv, IndicesOk, HistoryOk, Init, WrapSub, Occupancy;
    NotAtStart(c, run, i);
    RunKeepsInv(c, run, i - 1);
    StepParts(c, run[i - 1]);
    TailLoadStep(c, run[i - 1], run[i]);
    if run[i - 1].prod.PushHasTail? {
      j := TailLoadSawFull(c, run, i - 1);
    } else {
      j := i - 1;
    }
  }

  /** A push that reports a full ring: at some instant inside the call N PDUs were queued. */
  lemma FailedPushSawFull(c: Config, run: seq<State>, i: nat) returns (j: nat)
    requires ValidSize(c.slots) && Run(c, run) && i + 1 < |run|
    requires InPush(run[i]) && run[i + 1].prod == PushReturned(false)
    ensures j <= i && Occupancy(run[j]) == c.slots
    ensures forall k :: j <= k <= i ==> InPush(run[k])
  {
    assert Step(c, run[i], run[i + 1]);
    RunKeepsInv(c, run, i);
    WrapSubOfCounters(|run[i].pushed|, |run[i].popped|);
    if run[i].prod.PushHasTail? {
      j := TailLoadSawFull(c, run, i);
    } else {
      j := i;
    }
  }

  lemma HeadLoadStep(c: Config, s: State, s': State)
    requires ValidSize(c.slots) && IndicesOk(c, s) && HistoryOk(c, s) && Step(c, s, s')
    requires s.cons.PopCopying? ==> s.cons.t == s.mem.tail
    requires s'.cons.PopHasHead? && s'.cons.h == s'.mem.tail
    ensures || (s.cons.PopHasHead? && s.cons.h == s.mem.tail)
            || (s.cons.PopCalled? && Occupancy(s) == 0)
  {
    WrapSubOfCounters(|s.pushed|, |s.popped|);
  }

  lemma {:induction false} HeadLoadSawEmpty(c: Config, run: seq<State>, i: nat) returns (j: nat)
    requires ValidSize(c.slots) && Run(c, run) && i < |run|
    requires run[i].cons.PopHasHead? && run[i].cons.h == run[i].mem.tail
    ensures j <= i && Occupancy(run[j]) == 0
    ensures forall k :: j <= k <= i ==> InPop(run[k])
  {
    hide Step, Inv, IndicesOk, HistoryOk, Init, WrapSub, Occupancy;
    NotAtStart(c, run, i);
    RunKeepsInv(c, run, i - 1);
    StepParts(c, run[i - 1]);
    HeadLoadStep(c, run[i - 1], run[i]);
    if run[i - 1].cons.PopHasHead? {
      j := HeadLoadSawEmpty(c, run, i - 1);
    } else {
      j := i - 1;
    }
  }

  /** A pop that reports an empty ring: at some instant inside the call nothing was queued. */
  lemma EmptyPopSawEmpty(c: Config, run: seq<State>, i: nat) returns (j: nat)
    requires ValidSize(c.slots) && Run(c, run) && i + 1 < |run|
    requires InPop(run[i]) && run[i + 1].cons == PopReturned(None)
    ensures j <= i && Occupancy(run[j]) == 0
    ensures forall k :: j <= k <= i ==> InPop(run[k])
  {
    assert Step(c, run[i], run[i + 1]);
    RunKeepsInv(c, run, i);
    WrapSubOfCounters(|run[i].pushed|, |run[i].popped|);
    if run[i].cons.PopHasHead? {
      j := HeadLoadSawEmpty(c, run, i);
    } else {
      j := i;
    }
  }
}
