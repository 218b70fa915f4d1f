/** The list loop of `decode_ucov_notification` in bridge-core/src/apdu.rs: when it ends, and how it
    can run for ever. */
module ApduLoop {
  import opened Words
  import opened ApduValues
  import opened ApduMessages
  import opened ApduStops
  import opened ApduReach
  import opened ApduLimits

  // ------------------------------------------------------------------ the positions of the loop

  /** The position after so many rounds, if the loop gets there. */
  function After(data: Slice, pos: u32, rounds: nat): Option<u32>
    decreases rounds
  {
    if rounds == 0 then Some(pos)
    else if ClosingHere(data, pos, 4) || EntryAt(data, pos).Failure? then None
    else After(data, EntryAt(data, pos).value.1, rounds - 1)
  }

  /** The loop gets through this round. */
  ghost predicate GoesOn(data: Slice, pos: u32, rounds: nat) {
    After(data, pos, rounds).Some? && !ClosingHere(data, After(data, pos, rounds).value, 4)
  }

  lemma {:induction false} EndlessGoesOn(data: Slice, pos: u32, kept: Readings, rounds: nat)
    ensures EntriesWithin(data, pos, kept, rounds) == Failure(Endless) <==> GoesOn(data, pos, rounds)
    decreases rounds
  {
    hide ClosingHere, EntryAt;
    EntryIsNotEndless(data, pos);
    if rounds > 0 && !ClosingHere(data, pos, 4) && EntryAt(data, pos).Success? {
      var (e, next) := EntryAt(data, pos).value;
      EndlessGoesOn(data, next, if |kept| < 8 then kept + [e] else kept, rounds - 1);
    }
  }

  lemma EntryIsNotEndless(data: Slice, pos: u32)
    ensures EntryAt(data, pos) != Failure(Endless)
  {
    FieldsAreNotEndless(data);
  }

  lemma FieldsAreNotEndless(data: Slice)
    ensures forall k: u32, tag :: ContextUnsignedAt(data, k, tag) != Failure(Endless)
    ensures forall k: u32, tag :: ContextObjectAt(data, k, tag) != Failure(Endless)
    ensures forall k: u32, tag, kind :: BracketAt(data, k, tag, kind) != Failure(Endless)
    ensures forall k: u32 :: ValueAt(data, k) != Failure(Endless)
    ensures forall k: u32 :: NumberAt(data, k) != Failure(Endless)
  {
  }

  lemma {:induction false} AfterBoth(data: Slice, pos: u32, i: nat, j: nat)
    ensures After(data, pos, i + j)
            == if After(data, pos, i).None? then None else After(data, After(data, pos, i).value, j)
    decreases i
  {
    hide ClosingHere, EntryAt;
    if i > 0 && !ClosingHere(data, pos, 4) && EntryAt(data, pos).Success? {
      AfterBoth(data, EntryAt(data, pos).value.1, i - 1, j);
    }
  }

  lemma Earlier(data: Slice, pos: u32, i: nat, j: nat)
    requires i <= j && After(data, pos, j).Some?
    ensures After(data, pos, i).Some? && (i < j ==> After(data, pos, i).value < |data| && GoesOn(data, pos, i))
  {
    hide ClosingHere, EntryAt;
    AfterBoth(data, pos, i, j - i);
    if i < j {
      EntryInside(data, After(data, pos, i).value);
    }
  }

  lemma EntryInside(data: Slice, pos: u32)
    requires EntryAt(data, pos).Success?
    ensures pos < |data| && EntryAt(data, pos).value.1 <= |data|
  {
  }

  // ------------------------------------------------------------------ a position that recurs

  /** The loop comes back to a position it has been at. */
  ghost predicate Recurs(data: Slice, pos: u32) {
    exists i: nat, j: nat :: i < j && After(data, pos, i).Some? && After(data, pos, j) == After(data, pos, i)
  }

  /** Among more positions than there are octets, two are the same. */
  lemma Pigeonhole(data: Slice, pos: u32, rounds: nat)
    requires rounds > |data| && After(data, pos, rounds).Some?
    ensures Recurs(data, pos)
  {
    hide After;
    forall i: nat | i < rounds
      ensures After(data, pos, i).Some? && After(data, pos, i).value < |data|
    {
      Earlier(data, pos, i, rounds);
    }
    var at := seq(rounds, i requires 0 <= i < rounds => var k: int := After(data, pos, i).value; k);
    var i, j := TwoAlike(at, |data|);
    assert After(data, pos, j) == After(data, pos, i);
  }

  lemma {:induction false} TwoAlike(s: seq<int>, n: nat) returns (i: nat, j: nat)
    requires |s| > n && forall k :: 0 <= k < |s| ==> 0 <= s[k] < n
    ensures i < j < |s| && s[i] == s[j]
    decreases n
  {
    var last := |s| - 1;
    if k :| 0 <= k < last && s[k] == s[last] {
      i, j := k, last;
    } else {
      // Without the last value, and with the largest in its place, one value fewer is in use.
      var t := seq(last, k requires 0 <= k < last => if s[k] == n - 1 then s[last] else s[k]);
      i, j := TwoAlike(t, n - 1);
    }
  }

  lemma {:induction false} CycleNeverEnds(data: Slice, pos: u32, d: nat, rounds: nat)
    requires d > 0 && After(data, pos, d) == Some(pos)
    ensures After(data, pos, rounds).Some?
    decreases rounds
  {
    hide After;
    if rounds < d {
      Earlier(data, pos, rounds, d);
    } else {
      AfterBoth(data, pos, d, rounds - d);
      CycleNeverEnds(data, pos, d, rounds - d);
    }
  }

  lemma RecursGoesOn(data: Slice, pos: u32, rounds: nat)
    requires Recurs(data, pos)
    ensures GoesOn(data, pos, rounds)
  {
    hide After, GoesOn;
    var i: nat, j: nat :| i < j && After(data, pos, i).Some? && After(data, pos, j) == After(data, pos, i);
    var p := After(data, pos, i).value;
    AfterBoth(data, pos, i, j - i);
    CycleNeverEnds(data, p, j - i, rounds + 1);
    AfterBoth(data, pos, i, rounds + 1);
    Earlier(data, pos, rounds, i + (rounds + 1));
  }

  /** The loop runs for ever if and only if it is still running after more rounds than there are
      octets, and if and only if it comes back to a position it has been at. */
  lemma LoopEndlessExactly(data: Slice, pos: u32, kept: Readings, rounds: nat)
    requires rounds > |data|
    ensures EntriesWithin(data, pos, kept, rounds) == Failure(Endless) <==> Recurs(data, pos)
    ensures EntriesWithin(data, pos, kept, rounds) == Failure(Endless)
            <==> forall n: nat :: EntriesWithin(data, pos, kept, n) == Failure(Endless)
  {
    hide GoesOn, EntriesWithin, Recurs;
    EndlessGoesOn(data, pos, kept, rounds);
    if EntriesWithin(data, pos, kept, rounds) == Failure(Endless) {
      StillThere(data, pos, rounds);
      Pigeonhole(data, pos, rounds);
    }
    if Recurs(data, pos) {
      forall n: nat
        ensures EntriesWithin(data, pos, kept, n) == Failure(Endless)
      {
        RecursGoesOn(data, pos, n);
        EndlessGoesOn(data, pos, kept, n);
      }
    }
  }

  lemma StillThere(data: Slice, pos: u32, rounds: nat)
    requires GoesOn(data, pos, rounds)
    ensures After(data, pos, rounds).Some?
  {
  }

  // ------------------------------------------------------------------ whole messages

  /** Where the list loop of a notification starts, if decoding comes to it. */
  function ListStart(body: Slice): Option<u32> {
    var process := UnsignedField(body, 0, 0);
    if process.Failure? then None
    else
      var device := ObjectField(body, process.value.1, 1);
      if device.Failure? then None
      else
        var o := ObjectField(body, device.value.1, 2);
        if o.Failure? then None
        else
          var time := UnsignedField(body, o.value.1, 3);
          if time.Failure? || time.value.1 >= |body| then None
          else
            var a := BracketAt(body, time.value.1, 4, 6);
            if a.Failure? then None else Some(a.value)
  }

  /** The same for a whole message. */
  function LoopStart(data: Slice): Option<u32> {
    if |data| < 2 || data[0] / 16 != 1 || data[1] != UCOV_NOTIFICATION then None else ListStart(BodyOf(data))
  }

  lemma NotificationEndless(body: Slice, rounds: nat)
    ensures CovNotificationWithin(body, rounds) == Failure(Endless)
            <==> ListStart(body).Some? && EntriesWithin(body, ListStart(body).value, [], rounds) == Failure(Endless)
  {
    hide ContextUnsignedAt, ContextObjectAt, BracketAt, ValueAt, EntriesWithin, NumberAt;
    FieldsAreNotEndless(body);
  }

  lemma ValueIsNotEndless(body: Slice, pos: u32)
    ensures ValueAt(body, pos) != Failure(Endless)
  {
  }

  lemma BracketIsNotEndless(body: Slice, pos: u32, number: byte, kind: u32)
    ensures BracketAt(body, pos, number, kind) != Failure(Endless)
  {
  }

  lemma BracketedIsNotEndless(body: Slice, pos: u32, number: byte)
    ensures BracketedAt(body, pos, number) != Failure(Endless)
  {
    hide BracketAt, ValueAt;
    BracketIsNotEndless(body, pos, number, 6);
    var a := BracketAt(body, pos, number, 6);
    if a.Success? {
      ValueIsNotEndless(body, a.value);
      var v := ValueAt(body, a.value);
      if v.Success? {
        BracketIsNotEndless(body, v.value.1, number, 7);
      }
    }
  }

  lemma ReferenceIsNotEndless(body: Slice)
    ensures ReferenceAt(body) != Failure(Endless)
  {
    hide ContextUnsignedAt, ContextObjectAt;
    FieldsAreNotEndless(body);
  }

  lemma IAmIsNotEndless(body: Slice)
    ensures IAmOf(body) != Failure(Endless)
  {
    hide ValueAt;
    ValueIsNotEndless(body, 0);
    var device := ValueAt(body, 0);
    if device.Success? {
      ValueIsNotEndless(body, device.value.1);
      var maxApdu := ValueAt(body, device.value.1);
      if maxApdu.Success? {
        ValueIsNotEndless(body, maxApdu.value.1);
        var segmentation := ValueAt(body, maxApdu.value.1);
        if segmentation.Success? {
          ValueIsNotEndless(body, segmentation.value.1);
        }
      }
    }
  }

  lemma PropertyServicesAreNotEndless(body: Slice, id: byte)
    ensures ReadPropertyOf(body, id) != Failure(Endless) && ReadPropertyAckOf(body, id) != Failure(Endless)
    ensures WritePropertyOf(body, id) != Failure(Endless)
  {
    hide ReferenceAt, BracketedAt, ContextUnsignedAt;
    ReferenceIsNotEndless(body);
    FieldsAreNotEndless(body);
    var ref := ReferenceAt(body);
    if ref.Success? {
      BracketedIsNotEndless(body, ref.value.next, 3);
    }
  }

  lemma ServicesAreNotEndless(body: Slice, id: byte)
    ensures WhoIsOf(body) != Failure(Endless) && IAmOf(body) != Failure(Endless)
    ensures ReadPropertyOf(body, id) != Failure(Endless) && ReadPropertyAckOf(body, id) != Failure(Endless)
    ensures WritePropertyOf(body, id) != Failure(Endless) && SubscribeCovOf(body, id) != Failure(Endless)
    ensures |body| >= 3 ==> ErrorOf(body) != Failure(Endless)
  {
    hide ContextUnsignedAt, ContextObjectAt, IAmOf, ReadPropertyOf, ReadPropertyAckOf, WritePropertyOf, NumberAt;
    FieldsAreNotEndless(body);
    IAmIsNotEndless(body);
    PropertyServicesAreNotEndless(body, id);
  }

  /** Only the list loop can be endless. */
  lemma EndlessIsTheLoop(data: Slice, rounds: nat)
    ensures ApduWithin(data, rounds) == Failure(Endless)
            <==> (LoopStart(data).Some?
                  && EntriesWithin(BodyOf(data), LoopStart(data).value, [], rounds) == Failure(Endless))
  {
    hide WhoIsOf, IAmOf, ReadPropertyOf, ReadPropertyAckOf, WritePropertyOf, SubscribeCovOf, CovNotificationWithin,
         ErrorOf, ListStart, EntriesWithin;
    var body := BodyOf(data);
    NotificationEndless(body, rounds);
    ServicesAreNotEndless(body, 0);
    if |data| >= 3 {
      ServicesAreNotEndless(body, data[1]);
      ServicesAreNotEndless(data, 0);
    }
    if |data| >= 4 {
      ServicesAreNotEndless(body, data[2]);
    }
  }

  /** Decoding runs for ever if and only if the list loop comes back to a position it has been at;
      `ApduOf` tells. */
  lemma EndlessExactly(data: Slice)
    ensures ApduOf(data) == Failure(Endless) <==> LoopStart(data).Some? && Recurs(BodyOf(data), LoopStart(data).value)
    ensures ApduOf(data) == Failure(Endless) <==> forall n: nat :: ApduWithin(data, n) == Failure(Endless)
  {
    hide ApduWithin, EntriesWithin, LoopStart, Recurs;
    EndlessIsTheLoop(data, |data| + 8);
    if LoopStart(data).Some? {
      LoopEndlessExactly(BodyOf(data), LoopStart(data).value, [], |data| + 8);
      if ApduOf(data) == Failure(Endless) {
        forall n: nat
          ensures ApduWithin(data, n) == Failure(Endless)
        {
          EndlessIsTheLoop(data, n);
        }
      }
    }
  }

  lemma {:induction false} OnceEnded(data: Slice, pos: u32, kept: Readings, rounds: nat, more: nat)
    requires rounds <= more && EntriesWithin(data, pos, kept, rounds) != Failure(Endless)
    ensures EntriesWithin(data, pos, kept, more) == EntriesWithin(data, pos, kept, rounds)
    decreases rounds
  {
    hide ClosingHere, EntryAt;
    if !ClosingHere(data, pos, 4) && EntryAt(data, pos).Success? && rounds > 0 {
      var (e, next) := EntryAt(data, pos).value;
      OnceEnded(data, next, if |kept| < 8 then kept + [e] else kept, rounds - 1, more - 1);
    }
  }

  /** What is decoded once the loop has ended does not depend on how long it was watched. */
  lemma EndedIsFinal(data: Slice, rounds: nat, more: nat)
    requires rounds <= more && ApduWithin(data, rounds) != Failure(Endless)
    ensures ApduWithin(data, more) == ApduWithin(data, rounds)
  {
    hide ContextUnsignedAt, ContextObjectAt, BracketAt, ValueAt, EntriesWithin, NumberAt, WhoIsOf, IAmOf,
         ReadPropertyOf, ReadPropertyAckOf, WritePropertyOf, SubscribeCovOf, ErrorOf;
    EndlessIsTheLoop(data, rounds);
    if LoopStart(data).Some? {
      OnceEnded(BodyOf(data), LoopStart(data).value, [], rounds, more);
    }
  }

  // ------------------------------------------------------------------ progress

  lemma BracketedMoves(data: Slice, pos: u32, number: byte)
    requires BracketedAt(data, pos, number).Success?
    requires forall r :: r in BracketedReads(data, pos, number) ==> !Wraps(data, r)
    ensures BracketedAt(data, pos, number).value.1 >= pos + 3
  {
    hide BracketAt, ValueAt, TagAt, Wraps;
    var a := BracketAt(data, pos, number, 6).value;
    ValueMoves(data, a);
    assert ValueRead(a) in BracketedReads(data, pos, number);
  }

  /** An accepted entry whose reads do not wrap moves the position forward by at least four octets. */
  lemma EntryMoves(data: Slice, pos: u32)
    requires EntryAt(data, pos).Success? && forall r :: r in EntryReads(data, pos) ==> !Wraps(data, r)
    ensures EntryAt(data, pos).value.1 >= pos + 4
  {
    hide UnsignedField, ContextUnsignedAt, BracketedAt, BracketedReads, Wraps;
    var index := ContextUnsignedAt(data, UnsignedField(data, pos, 0).value.1, 1);
    BracketedMoves(data, index.value.1, 2);
  }

  /** A loop whose reads do not wrap ends, after at most a quarter as many rounds as there are octets. */
  lemma {:induction false} LoopEnds(data: Slice, pos: u32, kept: Readings, rounds: nat)
    requires pos <= |data| && 4 * rounds > |data| - pos
    requires forall r :: r in EntriesReads(data, pos, rounds) ==> !Wraps(data, r)
    ensures EntriesWithin(data, pos, kept, rounds) != Failure(Endless)
    decreases rounds
  {
    hide ClosingHere, EntryAt, EntryReads, Wraps;
    EntryIsNotEndless(data, pos);
    if !ClosingHere(data, pos, 4) && EntryAt(data, pos).Success? {
      var (e, next) := EntryAt(data, pos).value;
      EntryMoves(data, pos);
      EntryInside(data, pos);
      LoopEnds(data, next, if |kept| < 8 then kept + [e] else kept, rounds - 1);
    }
  }

  /** Decoding ends on every message unless it comes to something that wraps. */
  lemma EndsUnlessSomethingWraps(data: Slice)
    requires NothingWraps(data, |data| + 8)
    ensures ApduOf(data) != Failure(Endless)
  {
    hide ApduWithin, Wraps, EntriesWithin, EntriesReads;
    EndlessIsTheLoop(data, |data| + 8);
    if LoopStart(data).Some? {
      LoopReadsAreMet(data, |data| + 8);
      LoopEnds(BodyOf(data), LoopStart(data).value, [], |data| + 8);
    }
  }

  lemma LoopReadsAreMet(data: Slice, rounds: nat)
    requires LoopStart(data).Some?
    ensures LoopStart(data).value <= |BodyOf(data)|
    ensures EntriesReads(BodyOf(data), LoopStart(data).value, rounds) <= Reads(data, rounds)
  {
    hide UnsignedField, ObjectField, BracketAt, EntriesWithin, EntriesReads;
    assert LoopStart(data) == ListStart(BodyOf(data));
  }
}
