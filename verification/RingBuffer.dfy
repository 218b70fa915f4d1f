/** The ring as each side's code runs it when the other core is not in a call: fields updated in
    place, slots copied byte by byte. bridge-core/src/ipc.rs and csrc/ipc_c.c. */
module RingBuffer {
  import opened Words
  import opened RingMachine
  import opened RingSize

  /** What a ring memory holds, oldest first. */
  function Queued(c: Config, mem: Memory): (q: seq<Pdu>)
    requires 0 < c.slots == |mem.slots|
    ensures |q| == WrapSub(mem.head, mem.tail)
  {
    seq(WrapSub(mem.head, mem.tail), i requires 0 <= i => mem.slots[(mem.tail + i) % WRAP % c.slots])
  }

  lemma QueuedAt(c: Config, mem: Memory, i: nat)
    requires ValidSize(c.slots) && |mem.slots| == c.slots && i < |Queued(c, mem)|
    ensures Queued(c, mem)[i] == mem.slots[(mem.tail + i) % c.slots]
  {
    SlotOfCounter(mem.tail + i, c.slots);
  }

  lemma WrapSubNext(h: u32, t: u32)
    requires WrapSub(h, t) < WRAP - 1
    ensures WrapSub(WrapInc(h), t) == WrapSub(h, t) + 1
    ensures h == (t + WrapSub(h, t)) % WRAP
  {
    assert WrapSub(h, t) == if h >= t then h - t else h - t + WRAP;
    assert WrapInc(h) == if h + 1 < WRAP then h + 1 else 0;
  }

  /** Undisturbed, a push appends to the queue unless N PDUs are already in it. */
  lemma PushAppends(c: Config, mem: Memory, pdu: Pdu)
    requires ValidSize(c.slots) && |mem.slots| == c.slots && WrapSub(mem.head, mem.tail) <= c.slots
    ensures var (mem', ok) := PushAlone(c, mem, pdu);
            && |mem'.slots| == c.slots && ok == (|Queued(c, mem)| < c.slots)
            && WrapSub(mem'.head, mem'.tail) <= c.slots
            && Queued(c, mem') == if ok then Queued(c, mem) + [pdu] else Queued(c, mem)
  {
    var (mem', ok) := PushAlone(c, mem, pdu);
    if ok {
      var n := WrapSub(mem.head, mem.tail);
      WrapSubNext(mem.head, mem.tail);
      SlotOfCounter(mem.tail + n, c.slots);
      forall i | 0 <= i < n + 1
        ensures Queued(c, mem')[i] == (Queued(c, mem) + [pdu])[i]
      {
        QueuedAt(c, mem', i);
        if i < n {
          QueuedAt(c, mem, i);
          SlotsDiffer(mem.tail + i, mem.tail + n, c.slots);
        }
      }
    }
  }

  lemma WrapSubPrevious(h: u32, t: u32)
    requires h != t
    ensures 0 < WrapSub(h, t) == WrapSub(h, WrapInc(t)) + 1
  {
  }

  /** With the tail one further, the queue lacks its first element. */
  lemma QueuedBehindTail(c: Config, mem: Memory, mem': Memory)
    requires ValidSize(c.slots) && |mem.slots| == c.slots && mem.head != mem.tail
    requires mem' == mem.(tail := WrapInc(mem.tail))
    ensures |Queued(c, mem)| > 0 && Queued(c, mem)[0] == mem.slots[mem.tail % c.slots]
    ensures Queued(c, mem') == Queued(c, mem)[1..]
  {
    hide Queued, WrapSub, ValidSize, WrapInc;
    WrapSubPrevious(mem.head, mem.tail);
    SizeIsPositive(c.slots);
    QueuedAt(c, mem, 0);
    forall i | 0 <= i < |Queued(c, mem')|
      ensures Queued(c, mem')[i] == Queued(c, mem)[1..][i]
    {
      QueuedAt(c, mem', i);
      QueuedAt(c, mem, i + 1);
      NextSlot(mem.tail, i, c.slots);
    }
  }

  lemma SizeIsPositive(n: int)
    requires ValidSize(n)
    ensures 0 < n
  {
  }

  lemma NothingQueued(c: Config, mem: Memory)
    requires 0 < c.slots == |mem.slots|
    ensures Queued(c, mem) == [] <==> mem.head == mem.tail
  {
    WrapSubIsZero(mem.head, mem.tail);
    hide WrapSub;
  }

  lemma WrapSubIsZero(h: u32, t: u32)
    ensures WrapSub(h, t) == 0 <==> h == t
  {
  }

  /** Undisturbed, a pop removes the oldest PDU of a non-empty queue. */
  lemma PopRemovesOldest(c: Config, mem: Memory)
    requires ValidSize(c.slots) && |mem.slots| == c.slots && WrapSub(mem.head, mem.tail) <= c.slots
    ensures var (mem', out) := PopAlone(c, mem);
            && |mem'.slots| == c.slots && WrapSub(mem'.head, mem'.tail) <= c.slots
            && if Queued(c, mem) == [] then out == None && mem' == mem
               else out == Some(Queued(c, mem)[0]) && Queued(c, mem') == Queued(c, mem)[1..]
  {
    hide Queued, WrapSub, WrapInc, ValidSize;
    SizeIsPositive(c.slots);
    NothingQueued(c, mem);
    if mem.head != mem.tail {
      WrapSubPrevious(mem.head, mem.tail);
      QueuedBehindTail(c, mem, PopAlone(c, mem).0);
    }
  }

  lemma NextSlot(t: u32, i: nat, n: int)
    requires ValidSize(n)
    ensures (WrapInc(t) + i) % n == (t + i + 1) % n
  {
    hide ValidSize;
    SlotOfCounter(WrapInc(t) + i, n);
    SlotOfCounter(t + i + 1, n);
    NextCounterValue(t, i);
  }

  lemma NextCounterValue(t: u32, i: nat)
    ensures (WrapInc(t) + i) % WRAP == (t + i + 1) % WRAP
  {
    if t + 1 < WRAP {
      assert WrapInc(t) == t + 1;
    } else {
      assert WrapInc(t) == 0;
      ModAddMultiple(i, 1, WRAP);
    }
  }

  class RingBuffer {
    const slots: nat
    const size: nat
    var head: u32
    var tail: u32
    const buffer: array2<byte>

    ghost function Shape(): Config {
      Config(slots, size)
    }

    ghost function Row(i: nat): Pdu
      reads buffer
      requires i < buffer.Length0
    {
      seq(buffer.Length1, j requires 0 <= j < buffer.Length1 reads buffer => buffer[i, j])
    }

    ghost function Mem(): (m: Memory)
      reads this, buffer
      ensures |m.slots| == buffer.Length0
    {
      Memory(head, tail, seq(buffer.Length0, i requires 0 <= i < buffer.Length0 reads buffer => Row(i)))
    }

    ghost predicate Valid()
      reads this, buffer
    {
      && ValidSize(slots) && buffer.Length0 == slots && buffer.Length1 == size
      && WrapSub(head, tail) <= slots
    }

    ghost function Contents(): seq<Pdu>
      reads this, buffer
      requires Valid()
    {
      Queued(Shape(), Mem())
    }

    constructor (slots: nat, size: nat)
      requires ValidSize(slots)
      ensures Valid() && fresh(buffer) && this.slots == slots && this.size == size
      ensures Contents() == []
    {
      this.slots, this.size := slots, size;
      head, tail := 0, 0;
      buffer := new byte[slots, size];
    }

    method IsEmpty() returns (empty: bool)
      requires Valid()
      ensures empty == (Contents() == [])
    {
      empty := head == tail;
    }

    method IsFull() returns (full: bool)
      requires Valid()
      ensures full == (|Contents()| == slots)
    {
      full := WrapSub(head, tail) >= slots;
    }

    method Len() returns (n: nat)
      requires Valid()
      ensures n == |Contents()|
    {
      n := WrapSub(head, tail);
    }

    method Push(pdu: array<byte>) returns (ok: bool)
      requires Valid() && pdu.Length == size
      modifies this`head, buffer
      ensures Valid()
      ensures (Mem(), ok) == PushAlone(Shape(), old(Mem()), pdu[..])
      ensures ok == (|old(Contents())| < slots)
      ensures Contents() == if ok then old(Contents()) + [pdu[..]] else old(Contents())
    {
      PushAppends(Shape(), Mem(), pdu[..]);
      if WrapSub(head, tail) >= slots {
        return false;
      }
      var h := head;
      var slot := h % slots;
      var k := 0;
      while k < size
        invariant 0 <= k <= size
        invariant forall j :: 0 <= j < k ==> buffer[slot, j] == pdu[j]
        invariant forall i, j :: 0 <= i < slots && 0 <= j < size && i != slot ==> buffer[i, j] == old(buffer[i, j])
      {
        buffer[slot, k] := pdu[k];
        k := k + 1;
      }
      head := WrapInc(h);
      assert Row(slot) == pdu[..];
      forall i | 0 <= i < slots && i != slot
        ensures Row(i) == old(Row(i))
      {
      }
      assert Mem().slots == old(Mem()).slots[slot := pdu[..]];
      return true;
    }

    method Pop(pdu: array<byte>) returns (ok: bool)
      requires Valid() && pdu.Length == size
      modifies this`tail, pdu
      ensures Valid()
      ensures (Mem(), if ok then Some(pdu[..]) else None) == PopAlone(Shape(), old(Mem()))
      ensures ok == (old(Contents()) != [])
      ensures ok ==> pdu[..] == old(Contents())[0] && Contents() == old(Contents())[1..]
      ensures !ok ==> pdu[..] == old(pdu[..]) && Contents() == old(Contents())
    {
      PopRemovesOldest(Shape(), Mem());
      if head == tail {
        return false;
      }
      var t := tail;
      var slot := t % slots;
      var k := 0;
      while k < size
        invariant 0 <= k <= size
        invariant forall j :: 0 <= j < k ==> pdu[j] == buffer[slot, j]
      {
        pdu[k] := buffer[slot, k];
        k := k + 1;
      }
      tail := WrapInc(t);
      assert pdu[..] == Row(slot);
      assert Mem().slots == old(Mem()).slots;
      return true;
    }
  }
}
