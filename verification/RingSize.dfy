/** For which sizes N the ring is a FIFO: exactly those that divide 2^32, the powers of two.
    The source states the requirement in a constant that nothing evaluates. */
module RingSize {
  import opened Words
  import opened Numbers
  import opened RingMachine
  import opened RingTheorems

  // ------------------------------------------------------------------ powers of two

  function Pow2(k: nat): (p: nat)
    ensures p > 0
  {
    if k == 0 then 1 else 2 * Pow2(k - 1)
  }

  lemma {:induction false} Pow2Divides(j: nat, k: nat)
    requires j <= k
    ensures Pow2(k) == Pow2(k - j) * Pow2(j)
    ensures Pow2(k) % Pow2(j) == 0
  {
    if j < k {
      Pow2Divides(j, k - 1);
      assert 2 * (Pow2(k - 1 - j) * Pow2(j)) == (2 * Pow2(k - 1 - j)) * Pow2(j);
    }
    QuotientUnique(Pow2(k), Pow2(k - j), 0, Pow2(j));
  }

  /** A divisor of a power of two is one. */
  lemma {:induction false} DivisorIsPow2(d: nat, m: nat, k: nat) returns (j: nat)
    requires d * m == Pow2(k)
    ensures j <= k && d == Pow2(j)
    decreases k
  {
    if k == 0 {
      j := 0;
      FactorsOfOne(d, m);
    } else if d % 2 == 0 {
      var e := d / 2;
      assert d * m == 2 * (e * m);
      j := DivisorIsPow2(e, m, k - 1);
      j := j + 1;
    } else {
      OddFactor(d, m);
      var h := m / 2;
      assert d * m == 2 * (d * h);
      j := DivisorIsPow2(d, h, k - 1);
    }
  }

  lemma FactorsOfOne(d: nat, m: nat)
    requires d * m == 1
    ensures d == 1
  {
    assert m != 0;
    assert (d - 1) * m == 1 - m;
    MultipleBounds(d - 1, m);
  }

  lemma OddFactor(d: nat, m: nat)
    requires d % 2 == 1 && (d * m) % 2 == 0
    ensures m % 2 == 0
  {
    var e := d / 2;
    assert d * m == 2 * (e * m) + m;
  }

  lemma Wrap32()
    ensures Pow2(32) == WRAP
  {
    assert Pow2(8) == 256;
    assert Pow2(16) == 65536;
    assert Pow2(24) == 0x100_0000;
  }

  /** Dividing 2^32 is the same as being a power of two. */
  lemma PowersOfTwo(n: int)
    requires 0 < n < WRAP
    ensures ValidSize(n) <==> exists k: nat :: k < 32 && n == Pow2(k)
  {
    Wrap32();
    if WRAP % n == 0 {
      var q := WRAP / n;
      assert n * q == Pow2(32);
      var j := DivisorIsPow2(n, q, 32);
      assert j < 32 && n == Pow2(j);
    }
    forall k: nat | k < 32 && n == Pow2(k)
      ensures ValidSize(n)
    {
      Pow2Divides(k, 32);
    }
  }

  // ------------------------------------------------------------------ runs of one core alone

  ghost predicate Path(c: Config, path: seq<State>)
    requires 0 < c.slots
  {
    0 < |path| && forall i :: 0 <= i < |path| - 1 ==> Step(c, path[i], path[i + 1])
  }

  ghost predicate PathBetween(c: Config, path: seq<State>, s: State, s': State)
    requires 0 < c.slots
  {
    Path(c, path) && path[0] == s && path[|path| - 1] == s'
  }

  ghost predicate Reaches(c: Config, s: State, s': State)
    requires 0 < c.slots
  {
    exists path :: PathBetween(c, path, s, s')
  }

  lemma ReachesSelf(c: Config, s: State)
    requires 0 < c.slots
    ensures Reaches(c, s, s)
  {
    assert PathBetween(c, [s], s, s);
  }

  lemma ReachesStep(c: Config, s: State, m: State, s': State)
    requires 0 < c.slots && Reaches(c, s, m) && Step(c, m, s')
    ensures Reaches(c, s, s')
  {
    var path :| PathBetween(c, path, s, m);
    var longer := path + [s'];
    forall i | 0 <= i < |longer| - 1
      ensures Step(c, longer[i], longer[i + 1])
    {
      if i < |path| - 1 {
        assert Step(c, path[i], path[i + 1]);
      }
    }
    assert PathBetween(c, longer, s, s');
  }

  /** Bytes 0 to m of the PDU have been copied in. */
  function FilledTo(slot: Pdu, pdu: Pdu, m: nat): Pdu
    requires m <= |slot| == |pdu|
  {
    pdu[..m] + slot[m..]
  }

  function Below(m: nat): (r: set<nat>)
    ensures forall j: nat :: j in r <==> j < m
  {
    if m == 0 then {} else Below(m - 1) + {m - 1}
  }

  ghost predicate CanPush(c: Config, s: State, pdu: Pdu) {
    && 0 < c.slots && ShapeOk(c, s.mem.slots) && |pdu| == c.size
    && s.prod == PushIdle && WrapSub(s.mem.head, s.mem.tail) < c.slots
  }

  function MidCopyIn(c: Config, s: State, pdu: Pdu, m: nat): State
    requires 0 < c.slots == |s.mem.slots| && m <= |s.mem.slots[s.mem.head % c.slots]| == |pdu|
  {
    var slot := s.mem.head % c.slots;
    s.(mem := s.mem.(slots := s.mem.slots[slot := FilledTo(s.mem.slots[slot], pdu, m)]),
       prod := PushCopying(pdu, s.mem.head, Below(m)))
  }

  lemma {:induction false} SoloCopyIn(c: Config, s: State, pdu: Pdu, m: nat)
    requires CanPush(c, s, pdu) && m <= c.size
    ensures Reaches(c, s, MidCopyIn(c, s, pdu, m))
  {
    if m == 0 {
      var s1 := s.(prod := PushCalled(pdu));
      var s2 := s.(prod := PushHasHead(pdu, s.mem.head));
      var s3 := s.(prod := PushCopying(pdu, s.mem.head, {}));
      ReachesSelf(c, s);
      ReachesStep(c, s, s, s1);
      ReachesStep(c, s, s1, s2);
      ReachesStep(c, s, s2, s3);
      var slot := s.mem.head % c.slots;
      var same := FilledTo(s.mem.slots[slot], pdu, 0);
      assert same == s.mem.slots[slot];
      assert s.mem.slots[slot := same] == s.mem.slots;
      assert Below(0) == {};
      assert MidCopyIn(c, s, pdu, 0) == s3;
    } else {
      SoloCopyIn(c, s, pdu, m - 1);
      var a, b := MidCopyIn(c, s, pdu, m - 1), MidCopyIn(c, s, pdu, m);
      CopyInStep(c, s, pdu, m);
      ReachesStep(c, s, a, b);
    }
  }

  lemma CopyInStep(c: Config, s: State, pdu: Pdu, m: nat)
    requires CanPush(c, s, pdu) && 0 < m <= c.size
    ensures Step(c, MidCopyIn(c, s, pdu, m - 1), MidCopyIn(c, s, pdu, m))
  {
    var a, b := MidCopyIn(c, s, pdu, m - 1), MidCopyIn(c, s, pdu, m);
    var slot := s.mem.head % c.slots;
    var was := s.mem.slots[slot];
    assert FilledTo(was, pdu, m) == FilledTo(was, pdu, m - 1)[m - 1 := pdu[m - 1]];
    assert b.mem.slots == Poke(a.mem.slots, slot, m - 1, pdu[m - 1]);
    assert Below(m) == Below(m - 1) + {m - 1};
    assert PushCopies(c, a, b, m - 1);
  }

  /** The memory after an undisturbed push, and whether it was accepted. */
  function PushAlone(c: Config, mem: Memory, pdu: Pdu): (Memory, bool)
    requires 0 < c.slots == |mem.slots|
  {
    if WrapSub(mem.head, mem.tail) >= c.slots then (mem, false)
    else (Memory(WrapInc(mem.head), mem.tail, mem.slots[mem.head % c.slots := pdu]), true)
  }

  /** The memory after an undisturbed pop, and what it hands out. */
  function PopAlone(c: Config, mem: Memory): (Memory, Option<Pdu>)
    requires 0 < c.slots == |mem.slots|
  {
    if mem.head == mem.tail then (mem, None)
    else (mem.(tail := WrapInc(mem.tail)), Some(mem.slots[mem.tail % c.slots]))
  }

  /** From any state with the producer idle, its steps alone carry out `PushAlone`. */
  lemma SoloPush(c: Config, s: State, pdu: Pdu)
    requires 0 < c.slots && ShapeOk(c, s.mem.slots) && |pdu| == c.size && s.prod == PushIdle
    ensures var (mem, ok) := PushAlone(c, s.mem, pdu);
            Reaches(c, s, s.(mem := mem, prod := PushReturned(ok), pushed := if ok then s.pushed + [pdu] else s.pushed))
  {
    if CanPush(c, s, pdu) {
      SoloCopyIn(c, s, pdu, c.size);
      var slot := s.mem.head % c.slots;
      var full := MidCopyIn(c, s, pdu, c.size);
      assert FilledTo(s.mem.slots[slot], pdu, c.size) == pdu;
      var (mem, ok) := PushAlone(c, s.mem, pdu);
      var s' := s.(mem := mem, prod := PushReturned(true), pushed := s.pushed + [pdu]);
      assert PushPublishes(c, full, s');
      ReachesStep(c, s, full, s');
    } else {
      var s1 := s.(prod := PushCalled(pdu));
      var s2 := s.(prod := PushHasHead(pdu, s.mem.head));
      ReachesSelf(c, s);
      ReachesStep(c, s, s, s1);
      ReachesStep(c, s, s1, s2);
      ReachesStep(c, s, s2, s.(prod := PushReturned(false)));
    }
  }

  function MidCopyOut(c: Config, s: State, m: nat): State
    requires 0 < c.slots == |s.mem.slots| && m <= |s.mem.slots[s.mem.tail % c.slots]|
  {
    s.(cons := PopCopying(s.mem.tail, map j: nat | j < m :: s.mem.slots[s.mem.tail % c.slots][j]))
  }

  lemma {:induction false} SoloCopyOut(c: Config, s: State, m: nat)
    requires 0 < c.slots && ShapeOk(c, s.mem.slots) && s.cons == PopIdle && s.mem.head != s.mem.tail && m <= c.size
    ensures Reaches(c, s, MidCopyOut(c, s, m))
  {
    if m == 0 {
      var s1 := s.(cons := PopCalled);
      var s2 := s.(cons := PopHasHead(s.mem.head));
      var s3 := s.(cons := PopCopying(s.mem.tail, map[]));
      ReachesSelf(c, s);
      ReachesStep(c, s, s, s1);
      ReachesStep(c, s, s1, s2);
      ReachesStep(c, s, s2, s3);
      assert MidCopyOut(c, s, 0) == s3;
    } else {
      SoloCopyOut(c, s, m - 1);
      var a, b := MidCopyOut(c, s, m - 1), MidCopyOut(c, s, m);
      var slot := s.mem.slots[s.mem.tail % c.slots];
      assert b.cons.got == a.cons.got[m - 1 := slot[m - 1]];
      assert PopCopies(c, a, b, m - 1);
      ReachesStep(c, s, a, b);
    }
  }

  /** From any state with the consumer idle, its steps alone carry out `PopAlone`. */
  lemma SoloPop(c: Config, s: State)
    requires 0 < c.slots && ShapeOk(c, s.mem.slots) && s.cons == PopIdle
    ensures var (mem, out) := PopAlone(c, s.mem);
            Reaches(c, s, s.(mem := mem, cons := PopReturned(out),
                             popped := if out.Some? then s.popped + [out.value] else s.popped))
  {
    if s.mem.head != s.mem.tail {
      SoloCopyOut(c, s, c.size);
      var full := MidCopyOut(c, s, c.size);
      var slot := s.mem.slots[s.mem.tail % c.slots];
      assert Collected(full.cons.got, c.size) == slot;
      var (mem, out) := PopAlone(c, s.mem);
      var s' := s.(mem := mem, cons := PopReturned(out), popped := s.popped + [slot]);
      assert PopPublishes(c, full, s');
      ReachesStep(c, s, full, s');
    } else {
      var s1 := s.(cons := PopCalled);
      var s2 := s.(cons := PopHasHead(s.mem.head));
      ReachesSelf(c, s);
      ReachesStep(c, s, s, s1);
      ReachesStep(c, s, s1, s2);
      ReachesStep(c, s, s2, s.(cons := PopReturned(None)));
    }
  }

  // ------------------------------------------------------------------ a size that does not divide 2^32 breaks the FIFO

  lemma ReachesTrans(c: Config, s: State, m: State, s': State)
    requires 0 < c.slots && Reaches(c, s, m) && Reaches(c, m, s')
    ensures Reaches(c, s, s')
  {
    var p :| PathBetween(c, p, s, m);
    var q :| PathBetween(c, q, m, s');
    var both := p + q[1..];
    forall i | 0 <= i < |both| - 1
      ensures Step(c, both[i], both[i + 1])
    {
      if i < |p| - 1 {
        assert Step(c, p[i], p[i + 1]);
      } else {
        assert both[i] == q[i - |p| + 1] && both[i + 1] == q[i - |p| + 2];
      }
    }
    assert PathBetween(c, both, s, s');
  }

  /** Both cores idle after `a` pushes and `b` pops. */
  ghost predicate Rested(c: Config, s: State, a: nat, b: nat) {
    && ShapeOk(c, s.mem.slots) && s.prod == PushIdle && s.cons == PopIdle
    && |s.pushed| == a && |s.popped| == b && s.mem.head == a % WRAP && s.mem.tail == b % WRAP
  }

  lemma PushOnce(c: Config, s: State, a: nat, b: nat, pdu: Pdu) returns (s': State)
    requires 0 < c.slots < WRAP && Rested(c, s, a, b) && b <= a < b + c.slots && |pdu| == c.size
    ensures Reaches(c, s, s') && Rested(c, s', a + 1, b)
    ensures s'.pushed == s.pushed + [pdu] && s'.popped == s.popped
    ensures s'.mem.slots == s.mem.slots[s.mem.head % c.slots := pdu]
  {
    WrapSubOfCounters(a, b);
    NextCounter(a);
    SoloPush(c, s, pdu);
    var mem := PushAlone(c, s.mem, pdu).0;
    var m := s.(mem := mem, prod := PushReturned(true), pushed := s.pushed + [pdu]);
    s' := m.(prod := PushIdle);
    assert Step(c, m, s');
    ReachesStep(c, s, m, s');
  }

  lemma PopReturns(c: Config, s: State, s': State)
    requires 0 < c.slots && s.cons.PopReturned? && s' == s.(cons := PopIdle)
    ensures Step(c, s, s')
  {
    hide ProducerStep;
  }

  /** With PDUs queued the pop alone takes one and moves the tail on. */
  lemma PopTakes(c: Config, s: State, a: nat, b: nat)
    requires 0 < c.slots < WRAP && Rested(c, s, a, b) && b < a <= b + c.slots
    ensures PopAlone(c, s.mem)
            == (s.mem.(tail := (b + 1) % WRAP), Some(s.mem.slots[s.mem.tail % c.slots]))
  {
    WrapSubOfCounters(a, b);
    NextCounter(b);
  }

  lemma PopOnce(c: Config, s: State, a: nat, b: nat) returns (s': State)
    requires 0 < c.slots < WRAP && Rested(c, s, a, b) && b < a <= b + c.slots
    ensures Reaches(c, s, s') && Rested(c, s', a, b + 1)
    ensures s'.pushed == s.pushed && s'.popped == s.popped + [s.mem.slots[s.mem.tail % c.slots]]
  {
    hide Step, Reaches, WrapSub, WrapInc;
    PopTakes(c, s, a, b);
    SoloPop(c, s);
    var oldest := s.mem.slots[s.mem.tail % c.slots];
    var m := s.(mem := PopAlone(c, s.mem).0, cons := PopReturned(Some(oldest)), popped := s.popped + [oldest]);
    s' := m.(cons := PopIdle);
    PopReturns(c, m, s');
    ReachesStep(c, s, m, s');
  }

  function Filled(c: Config, b: byte): (p: Pdu)
    ensures |p| == c.size
  {
    seq(c.size, _ => b)
  }

  /** The ring can be brought, empty, to any count. */
  lemma {:induction false} CycleTo(c: Config, s0: State, k: nat) returns (s: State)
    requires 0 < c.slots < WRAP && Init(c, s0)
    ensures Reaches(c, s0, s) && Rested(c, s, k, k)
    decreases k
  {
    if k == 0 {
      ReachesSelf(c, s0);
      s := s0;
    } else {
      var a := CycleTo(c, s0, k - 1);
      var b := PushOnce(c, a, k - 1, k - 1, Filled(c, 0));
      s := PopOnce(c, b, k, k - 1);
      ReachesTrans(c, s0, a, b);
      ReachesTrans(c, s0, b, s);
    }
  }

  /** `m` copies of the same PDU are pushed into an empty ring. */
  lemma {:induction false} FillBy(c: Config, s0: State, s: State, k: nat, m: nat) returns (s': State)
    requires 0 < c.slots < WRAP && Reaches(c, s0, s) && Rested(c, s, k, k) && m <= c.slots
    ensures Reaches(c, s0, s') && Rested(c, s', k + m, k)
    ensures s'.popped == s.popped && forall j :: k <= j < k + m ==> s'.pushed[j] == Filled(c, 0)
    decreases m
  {
    if m == 0 {
      s' := s;
    } else {
      var a := FillBy(c, s0, s, k, m - 1);
      s' := PushOnce(c, a, k + m - 1, k, Filled(c, 0));
      ReachesTrans(c, s0, a, s');
    }
  }

  /** With N not dividing 2^32, the slot of index 2^32 is also the slot of an index still queued. */
  lemma BadSizeBreaksFifo(c: Config, s0: State) returns (s: State)
    requires 0 < c.slots < WRAP && !ValidSize(c.slots) && 0 < c.size && Init(c, s0)
    ensures Reaches(c, s0, s) && !(s.popped <= s.pushed)
  {
    var r := WRAP % c.slots;
    var k := WRAP - r;
    var empty := CycleTo(c, s0, k);
    var filled := FillBy(c, s0, empty, k, r);
    assert filled.pushed[k] == Filled(c, 0);
    var over := PushOnce(c, filled, k + r, k, Filled(c, 1));
    ReachesTrans(c, s0, filled, over);
    SlotOfRemainder(c.slots);
    assert over.mem.slots[over.mem.tail % c.slots] == Filled(c, 1);
    s := PopOnce(c, over, k + r + 1, k);
    ReachesTrans(c, s0, over, s);
    assert s.popped[k] == Filled(c, 1) && s.pushed[k] == Filled(c, 0);
    assert Filled(c, 1)[0] != Filled(c, 0)[0];
  }

  lemma SlotOfRemainder(n: int)
    requires 0 < n < WRAP && WRAP % n != 0
    ensures ((WRAP - WRAP % n) % WRAP) % n == 0
  {
    var q := WRAP / n;
    assert WRAP == q * n + WRAP % n;
    QuotientUnique(WRAP - WRAP % n, q, 0, n);
  }

  /** Every state any interleaving can reach from an empty ring hands PDUs out in order. */
  ghost predicate AlwaysFifo(c: Config)
    requires 0 < c.slots
  {
    forall s0, s :: Init(c, s0) && Reaches(c, s0, s) ==> s.popped <= s.pushed
  }

  /** The ring is a FIFO for every interleaving if and only if N is a power of two. */
  lemma FifoExactlyForPowersOfTwo(c: Config)
    requires 0 < c.slots < WRAP && 0 < c.size
    ensures AlwaysFifo(c) <==> exists k: nat :: k < 32 && c.slots == Pow2(k)
  {
    PowersOfTwo(c.slots);
    if ValidSize(c.slots) {
      forall s0, s | Init(c, s0) && Reaches(c, s0, s)
        ensures s.popped <= s.pushed
      {
        var path :| PathBetween(c, path, s0, s);
        FifoTheorem(c, path, |path| - 1);
      }
    } else {
      var blank: seq<Pdu> := seq(c.slots, _ => Filled(c, 0));
      var s0 := State(Memory(0, 0, blank), PushIdle, PopIdle, [], []);
      var s := BadSizeBreaksFifo(c, s0);
    }
  }
}
