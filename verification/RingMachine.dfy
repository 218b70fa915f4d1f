/** The inter-core ring as a protocol: one producer core and one consumer core whose
    single-word and single-byte memory accesses interleave in any order.
    bridge-core/src/ipc.rs and csrc/ipc_c.c. */
module RingMachine {
  import opened Words
  import opened Numbers

  /** `slots` is N; `size` is the number of bytes of one stored PDU (526 in the source). */
  datatype Config = Config(slots: nat, size: nat)

  /** What the source asks of N: a power of two that fits the index type. Stated as the
      property the protocol uses; `RingSize.PowersOfTwo` shows it is the same thing. */
  ghost predicate ValidSize(n: int) {
    0 < n < WRAP && WRAP % n == 0
  }

  type Pdu = seq<byte>

  function WrapSub(a: u32, b: u32): u32 {
    (a - b) % WRAP
  }

  function WrapInc(a: u32): u32 {
    (a + 1) % WRAP
  }

  /** Where a push has got to. The Rust side reads head, then tail; the C compiler may load
      the two in either order, and the C side loads head once more after its check. */
  datatype Producer =
    | PushIdle
    | PushCalled(pdu: Pdu)
    | PushHasHead(pdu: Pdu, h: u32)
    | PushHasTail(pdu: Pdu, t: u32)
    | PushAdmitted(pdu: Pdu)
    | PushCopying(pdu: Pdu, h: u32, done: set<nat>)
    | PushReturned(ok: bool)

  /** Where a pop has got to; `got` holds the bytes copied out of the slot so far. */
  datatype Consumer =
    | PopIdle
    | PopCalled
    | PopHasHead(h: u32)
    | PopHasTail(t: u32)
    | PopAdmitted
    | PopCopying(t: u32, got: map<nat, byte>)
    | PopReturned(result: Option<Pdu>)

  /** The memory both cores share. */
  datatype Memory = Memory(head: u32, tail: u32, slots: seq<Pdu>)

  /** `pushed` and `popped` record every PDU ever published and every PDU ever handed out. */
  datatype State = State(mem: Memory, prod: Producer, cons: Consumer, pushed: seq<Pdu>, popped: seq<Pdu>)

  ghost predicate ShapeOk(c: Config, slots: seq<Pdu>) {
    |slots| == c.slots && forall i :: 0 <= i < c.slots ==> |slots[i]| == c.size
  }

  ghost predicate Init(c: Config, s: State) {
    && s.mem.head == 0 && s.mem.tail == 0 && ShapeOk(c, s.mem.slots)
    && s.prod == PushIdle && s.cons == PopIdle && s.pushed == [] && s.popped == []
  }

  /** The bytes of a slot, one of them overwritten. */
  function Poke(slots: seq<Pdu>, slot: nat, j: nat, b: byte): (r: seq<Pdu>)
    requires slot < |slots| && j < |slots[slot]|
    ensures |r| == |slots| && forall i :: 0 <= i < |r| ==> |r[i]| == |slots[i]|
  {
    var row: Pdu := slots[slot][j := b];
    slots[slot := row]
  }

  /** After a check of `h - t >= N`, the push fails or goes on to the copy; the Rust side copies
      with the head it has, the C side loads head again first. */
  ghost predicate PushDecides(c: Config, pdu: Pdu, h: u32, t: u32, next: Producer) {
    if WrapSub(h, t) >= c.slots then next == PushReturned(false)
    else next == PushCopying(pdu, h, {}) || next == PushAdmitted(pdu)
  }

  /** One copied byte, in whatever order the copy runs. */
  ghost predicate PushCopies(c: Config, s: State, s': State, j: nat)
    requires 0 < c.slots && s.prod.PushCopying?
  {
    var slot := s.prod.h % c.slots;
    && j < c.size && j !in s.prod.done && j < |s.prod.pdu|
    && slot < |s.mem.slots| && j < |s.mem.slots[slot]|
    && s' == s.(mem := s.mem.(slots := Poke(s.mem.slots, slot, j, s.prod.pdu[j])),
                prod := s.prod.(done := s.prod.done + {j}))
  }

  ghost predicate PushPublishes(c: Config, s: State, s': State)
    requires s.prod.PushCopying?
  {
    && (forall j: nat :: j < c.size ==> j in s.prod.done)
    && s' == s.(mem := s.mem.(head := WrapInc(s.prod.h)),
                prod := PushReturned(true), pushed := s.pushed + [s.prod.pdu])
  }

  /** One atomic step of the producer core. */
  ghost predicate ProducerStep(c: Config, s: State, s': State)
    requires 0 < c.slots
  {
    match s.prod
    case PushIdle => s'.prod.PushCalled? && |s'.prod.pdu| == c.size && s' == s.(prod := s'.prod)
    case PushCalled(pdu) =>
      || s' == s.(prod := PushHasHead(pdu, s.mem.head))
      || s' == s.(prod := PushHasTail(pdu, s.mem.tail))
    case PushHasHead(pdu, h) => PushDecides(c, pdu, h, s.mem.tail, s'.prod) && s' == s.(prod := s'.prod)
    case PushHasTail(pdu, t) => PushDecides(c, pdu, s.mem.head, t, s'.prod) && s' == s.(prod := s'.prod)
    case PushAdmitted(pdu) => s' == s.(prod := PushCopying(pdu, s.mem.head, {}))
    case PushCopying(pdu, h, done) => (exists j: nat :: PushCopies(c, s, s', j)) || PushPublishes(c, s, s')
    case PushReturned(ok) => s' == s.(prod := PushIdle)
  }

  ghost predicate PopDecides(h: u32, t: u32, next: Consumer) {
    if h == t then next == PopReturned(None)
    else next == PopCopying(t, map[]) || next == PopAdmitted
  }

  ghost predicate PopCopies(c: Config, s: State, s': State, j: nat)
    requires 0 < c.slots && s.cons.PopCopying?
  {
    var slot := s.cons.t % c.slots;
    && j < c.size && j !in s.cons.got
    && slot < |s.mem.slots| && j < |s.mem.slots[slot]|
    && s' == s.(cons := s.cons.(got := s.cons.got[j := s.mem.slots[slot][j]]))
  }

  /** The bytes copied out, in order. */
  function Collected(got: map<nat, byte>, size: nat): (r: Pdu)
    requires forall j: nat :: j < size ==> j in got
    ensures |r| == size && forall j :: 0 <= j < size ==> r[j] == got[j]
  {
    seq(size, j requires 0 <= j < size => got[j])
  }

  ghost predicate PopPublishes(c: Config, s: State, s': State)
    requires s.cons.PopCopying?
  {
    && (forall j: nat :: j < c.size ==> j in s.cons.got)
    && var out := Collected(s.cons.got, c.size);
       s' == s.(mem := s.mem.(tail := WrapInc(s.cons.t)),
                cons := PopReturned(Some(out)), popped := s.popped + [out])
  }

  /** One atomic step of the consumer core. */
  ghost predicate ConsumerStep(c: Config, s: State, s': State)
    requires 0 < c.slots
  {
    match s.cons
    case PopIdle => s' == s.(cons := PopCalled)
    case PopCalled =>
      || s' == s.(cons := PopHasHead(s.mem.head))
      || s' == s.(cons := PopHasTail(s.mem.tail))
    case PopHasHead(h) => PopDecides(h, s.mem.tail, s'.cons) && s' == s.(cons := s'.cons)
    case PopHasTail(t) => PopDecides(s.mem.head, t, s'.cons) && s' == s.(cons := s'.cons)
    case PopAdmitted => s' == s.(cons := PopCopying(s.mem.tail, map[]))
    case PopCopying(t, got) => (exists j: nat :: PopCopies(c, s, s', j)) || PopPublishes(c, s, s')
    case PopReturned(result) => s' == s.(cons := PopIdle)
  }

  ghost predicate Step(c: Config, s: State, s': State)
    requires 0 < c.slots
  {
    ProducerStep(c, s, s') || ConsumerStep(c, s, s')
  }

  /** A run: every interleaving of the two cores from an empty ring. */
  ghost predicate Run(c: Config, run: seq<State>)
    requires 0 < c.slots
  {
    && 0 < |run| && Init(c, run[0])
    && forall i :: 0 <= i < |run| - 1 ==> Step(c, run[i], run[i + 1])
  }

  // ------------------------------------------------------------------ invariant

  /** PDUs published and not yet handed out. */
  function Occupancy(s: State): int {
    |s.pushed| - |s.popped|
  }

  ghost predicate IndicesOk(c: Config, s: State) {
    && s.mem.head == |s.pushed| % WRAP
    && s.mem.tail == |s.popped| % WRAP
    && 0 <= Occupancy(s) <= c.slots
  }

  ghost predicate HistoryOk(c: Config, s: State) {
    && |s.popped| <= |s.pushed|
    && s.popped == s.pushed[..|s.popped|]
    && forall k :: 0 <= k < |s.pushed| ==> |s.pushed[k]| == c.size
  }

  /** Every PDU still queued sits whole in its own slot. */
  ghost predicate QueueStored(c: Config, s: State)
    requires 0 < c.slots == |s.mem.slots|
  {
    forall k :: |s.popped| <= k < |s.pushed| && 0 <= k ==> s.mem.slots[k % c.slots] == s.pushed[k]
  }

  ghost predicate ProducerOk(c: Config, s: State)
    requires 0 < c.slots == |s.mem.slots|
  {
    match s.prod
    case PushCalled(pdu) => |pdu| == c.size
    case PushHasHead(pdu, h) => |pdu| == c.size && h == s.mem.head
    case PushHasTail(pdu, t) => |pdu| == c.size && Occupancy(s) <= WrapSub(s.mem.head, t) <= c.slots
    case PushAdmitted(pdu) => |pdu| == c.size && Occupancy(s) < c.slots
    case PushCopying(pdu, h, done) =>
      && |pdu| == c.size && h == s.mem.head && Occupancy(s) < c.slots
      && forall j :: j in done ==> j < c.size && j < |s.mem.slots[h % c.slots]| && s.mem.slots[h % c.slots][j] == pdu[j]
    case _ => true
  }

  ghost predicate ConsumerOk(c: Config, s: State) {
    match s.cons
    case PopHasHead(h) => WrapSub(h, s.mem.tail) <= Occupancy(s)
    case PopHasTail(t) => t == s.mem.tail
    case PopAdmitted => 0 < Occupancy(s)
    case PopCopying(t, got) =>
      && t == s.mem.tail && 0 < Occupancy(s)
      && forall j :: j in got ==> j < c.size && j < |s.pushed[|s.popped|]| && got[j] == s.pushed[|s.popped|][j]
    case _ => true
  }

  ghost predicate Inv(c: Config, s: State)
    requires 0 < c.slots
  {
    && ShapeOk(c, s.mem.slots) && IndicesOk(c, s) && HistoryOk(c, s)
    && QueueStored(c, s) && ProducerOk(c, s) && ConsumerOk(c, s)
  }

  // ------------------------------------------------------------------ arithmetic of wrapped indices

  /** A wrapped counter still selects the slot of the unbounded counter. */
  lemma SlotOfCounter(k: nat, n: int)
    requires ValidSize(n)
    ensures (k % WRAP) % n == k % n
  {
    var q := WRAP / n;
    assert WRAP == q * n;
    var d := k / WRAP;
    assert k == d * WRAP + k % WRAP;
    assert d * WRAP == (d * q) * n by { assert d * (q * n) == (d * q) * n; }
    ModAddMultiple(k % WRAP, d * q, n);
  }

  lemma ModAddMultiple(a: int, m: int, n: int)
    requires 0 < n
    ensures (m * n + a) % n == a % n
  {
    var r := a % n;
    assert a == (a / n) * n + r;
    assert m * n + a == (m + a / n) * n + r by { assert (m + a / n) * n == m * n + (a / n) * n; }
    QuotientUnique(m * n + a, m + a / n, r, n);
  }

  /** Two counters less than N apart select different slots. */
  lemma SlotsDiffer(a: nat, b: nat, n: int)
    requires 0 < n && a < b < a + n
    ensures a % n != b % n
  {
    var d := b / n - a / n;
    assert a == (a / n) * n + a % n && b == (b / n) * n + b % n;
    assert d * n == (b / n) * n - (a / n) * n;
    MultipleBounds(d, n);
  }

  /** Subtracting wrapped counters gives the true distance while that fits a u32. */
  lemma WrapSubOfCounters(a: nat, b: nat)
    requires b <= a < b + WRAP
    ensures WrapSub(a % WRAP, b % WRAP) == a - b
  {
  }

  lemma NextCounter(a: nat)
    ensures WrapInc(a % WRAP) == (a + 1) % WRAP
  {
  }

  // ------------------------------------------------------------------ preservation

  lemma InitInv(c: Config, s: State)
    requires 0 < c.slots && Init(c, s)
    ensures Inv(c, s)
  {
  }

  /** A producer step outside the copy leaves memory and histories alone. */
  lemma PushOutsideCopyKeepsInv(c: Config, s: State, s': State)
    requires ValidSize(c.slots) && Inv(c, s) && ProducerStep(c, s, s') && !s.prod.PushCopying?
    ensures Inv(c, s')
  {
    WrapSubOfCounters(|s.pushed|, |s.popped|);
    hide ValidSize, ShapeOk, HistoryOk, QueueStored, WrapSub;
  }

  lemma ProducerKeepsInv(c: Config, s: State, s': State)
    requires ValidSize(c.slots) && Inv(c, s) && ProducerStep(c, s, s')
    ensures Inv(c, s')
  {
    hide Inv, PushCopies, PushPublishes, PushDecides;
    if !s.prod.PushCopying? {
      PushOutsideCopyKeepsInv(c, s, s');
    } else if PushPublishes(c, s, s') {
      PublishKeepsInv(c, s, s');
    } else {
      var j: nat :| PushCopies(c, s, s', j);
      CopyInKeepsInv(c, s, s', j);
    }
  }

  lemma CopyInKeepsInv(c: Config, s: State, s': State, j: nat)
    requires ValidSize(c.slots) && Inv(c, s) && s.prod.PushCopying? && PushCopies(c, s, s', j)
    ensures Inv(c, s')
  {
    SlotOfCounter(|s.pushed|, c.slots);
    forall k | |s.popped| <= k < |s.pushed| && 0 <= k
      ensures s'.mem.slots[k % c.slots] == s.pushed[k]
    {
      SlotsDiffer(k, |s.pushed|, c.slots);
    }
  }

  lemma PublishKeepsInv(c: Config, s: State, s': State)
    requires ValidSize(c.slots) && Inv(c, s) && s.prod.PushCopying? && PushPublishes(c, s, s')
    ensures Inv(c, s')
  {
    PublishKeepsIndices(c, s, s');
    PublishKeepsQueue(c, s, s');
    PublishKeepsConsumer(c, s, s');
    assert s'.popped == s'.pushed[..|s'.popped|];
  }

  lemma PublishKeepsIndices(c: Config, s: State, s': State)
    requires 0 < c.slots && IndicesOk(c, s) && ProducerOkCopying(c, s) && PushPublishes(c, s, s')
    ensures IndicesOk(c, s')
  {
    NextCounter(|s.pushed|);
  }

  ghost predicate ProducerOkCopying(c: Config, s: State) {
    s.prod.PushCopying? && s.prod.h == s.mem.head && Occupancy(s) < c.slots
  }

  lemma PublishKeepsQueue(c: Config, s: State, s': State)
    requires ValidSize(c.slots) && ShapeOk(c, s.mem.slots) && IndicesOk(c, s) && HistoryOk(c, s) && QueueStored(c, s)
    requires s.prod.PushCopying? && ProducerOk(c, s) && PushPublishes(c, s, s')
    ensures QueueStored(c, s')
  {
    SlotOfCounter(|s.pushed|, c.slots);
    assert s.mem.slots[s.prod.h % c.slots] == s.prod.pdu;
    forall k | |s'.popped| <= k < |s'.pushed| && 0 <= k
      ensures s'.mem.slots[k % c.slots] == s'.pushed[k]
    {
      if k < |s.pushed| {
        assert s.mem.slots[k % c.slots] == s.pushed[k];
      }
    }
  }

  lemma PublishKeepsConsumer(c: Config, s: State, s': State)
    requires ValidSize(c.slots) && IndicesOk(c, s) && HistoryOk(c, s) && ConsumerOk(c, s)
    requires ProducerOkCopying(c, s) && PushPublishes(c, s, s')
    ensures ConsumerOk(c, s')
  {
  }

  /** A consumer step outside the copy leaves memory and histories alone. */
  lemma PopOutsideCopyMovesConsumer(c: Config, s: State, s': State)
    requires 0 < c.slots && ConsumerStep(c, s, s') && !s.cons.PopCopying?
    ensures s' == s.(cons := s'.cons)
  {
    hide PopDecides;
  }

  lemma PopOutsideCopyKeepsConsumer(c: Config, s: State, s': State)
    requires ValidSize(c.slots) && IndicesOk(c, s) && ConsumerOk(c, s)
    requires ConsumerStep(c, s, s') && !s.cons.PopCopying?
    ensures ConsumerOk(c, s')
  {
    WrapSubOfCounters(|s.pushed|, |s.popped|);
    hide ValidSize, WrapSub;
  }

  lemma PopOutsideCopyKeepsInv(c: Config, s: State, s': State)
    requires ValidSize(c.slots) && Inv(c, s) && ConsumerStep(c, s, s') && !s.cons.PopCopying?
    ensures Inv(c, s')
  {
    hide ConsumerStep, ConsumerOk;
    PopOutsideCopyMovesConsumer(c, s, s');
    PopOutsideCopyKeepsConsumer(c, s, s');
  }

  lemma CopyOutKeepsInv(c: Config, s: State, s': State, j: nat)
    requires ValidSize(c.slots) && Inv(c, s) && s.cons.PopCopying? && PopCopies(c, s, s', j)
    ensures Inv(c, s')
  {
    hide ValidSize, ConsumerOk;
    CopyOutKeepsConsumer(c, s, s', j);
  }

  lemma ConsumerKeepsInv(c: Config, s: State, s': State)
    requires ValidSize(c.slots) && Inv(c, s) && ConsumerStep(c, s, s')
    ensures Inv(c, s')
  {
    hide Inv, PopCopies, PopPublishes, PopDecides;
    if !s.cons.PopCopying? {
      PopOutsideCopyKeepsInv(c, s, s');
    } else if PopPublishes(c, s, s') {
      TakeKeepsInv(c, s, s');
    } else {
      var j: nat :| PopCopies(c, s, s', j);
      CopyOutKeepsInv(c, s, s', j);
    }
  }

  lemma CopyOutKeepsConsumer(c: Config, s: State, s': State, j: nat)
    requires ValidSize(c.slots) && ShapeOk(c, s.mem.slots) && IndicesOk(c, s) && QueueStored(c, s)
    requires s.cons.PopCopying? && ConsumerOk(c, s) && PopCopies(c, s, s', j)
    ensures ConsumerOk(c, s')
  {
    SlotOfCounter(|s.popped|, c.slots);
    assert s.mem.slots[|s.popped| % c.slots] == s.pushed[|s.popped|];
  }

  /** What a finished pop hands out is the oldest queued PDU, whole. */
  lemma TakeIsOldest(c: Config, s: State, s': State)
    requires HistoryOk(c, s) && s.cons.PopCopying? && ConsumerOk(c, s) && PopPublishes(c, s, s')
    ensures s'.popped == s.popped + [s.pushed[|s.popped|]]
    ensures HistoryOk(c, s')
  {
    var out := Collected(s.cons.got, c.size);
    assert out == s.pushed[|s.popped|];
    assert s'.popped == s.pushed[..|s'.popped|];
  }

  lemma TakeKeepsIndices(c: Config, s: State, s': State)
    requires IndicesOk(c, s) && s.cons.PopCopying? && ConsumerOk(c, s) && PopPublishes(c, s, s')
    ensures IndicesOk(c, s')
  {
    NextCounter(|s.popped|);
  }

  lemma TakeKeepsProducer(c: Config, s: State, s': State)
    requires 0 < c.slots == |s.mem.slots| && ProducerOk(c, s)
    requires s.cons.PopCopying? && PopPublishes(c, s, s')
    ensures |s'.mem.slots| == c.slots && ProducerOk(c, s')
  {
  }

  lemma TakeKeepsInv(c: Config, s: State, s': State)
    requires ValidSize(c.slots) && Inv(c, s) && s.cons.PopCopying? && PopPublishes(c, s, s')
    ensures Inv(c, s')
  {
    TakeIsOldest(c, s, s');
    TakeKeepsIndices(c, s, s');
    TakeKeepsProducer(c, s, s');
  }

  lemma StepKeepsInv(c: Config, s: State, s': State)
    requires ValidSize(c.slots) && Inv(c, s) && Step(c, s, s')
    ensures Inv(c, s')
  {
    if ProducerStep(c, s, s') { ProducerKeepsInv(c, s, s'); } else { ConsumerKeepsInv(c, s, s'); }
  }

  lemma {:induction false} RunKeepsInv(c: Config, run: seq<State>, i: nat)
    requires ValidSize(c.slots) && Run(c, run) && i < |run|
    ensures Inv(c, run[i])
  {
    if i == 0 {
      InitInv(c, run[0]);
    } else {
      RunKeepsInv(c, run, i - 1);
      assert Step(c, run[i - 1], run[i]);
      StepKeepsInv(c, run[i - 1], run[i]);
    }
  }
}
