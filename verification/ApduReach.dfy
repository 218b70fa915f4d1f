/** The reads that `decode_apdu` of bridge-core/src/apdu.rs comes to make of any octets, and what they
    decide: whether it indexes out of range, and whether it always moves forward. */
module ApduReach {
  import opened Words
  import opened ApduValues
  import opened ApduMessages
  import opened ApduStops

  // ------------------------------------------------------------------ the reads of each service

  function ReferenceReads(data: Slice): set<Read> {
    var o := ObjectField(data, 0, 0);
    {ObjectRead(0, 0)} + if o.Failure? then {} else
      var code := UnsignedField(data, o.value.1, 1);
      {NumberRead(o.value.1, 1)} + if code.Failure? then {} else {NumberRead(code.value.1, 2)}
  }

  function BracketedReads(data: Slice, pos: u32, number: byte): set<Read> {
    var a := BracketAt(data, pos, number, 6);
    {BracketRead(pos)} + if a.Failure? then {} else
      var v := ValueAt(data, a.value);
      {ValueRead(a.value)} + if v.Failure? then {} else {BracketRead(v.value.1)}
  }

  function WhoIsReads(data: Slice): set<Read> {
    if data == [] then {} else
      var low := ContextUnsignedAt(data, 0, 0);
      {NumberRead(0, 0)} + if low.Failure? then {} else {NumberRead(low.value.1, 1)}
  }

  function IAmReads(data: Slice): set<Read> {
    var device := ValueAt(data, 0);
    {ValueRead(0)} + if device.Failure? || !device.value.0.ObjectIdentifier? then {} else
      var maxApdu := ValueAt(data, device.value.1);
      {ValueRead(device.value.1)} + if maxApdu.Failure? || !maxApdu.value.0.UnsignedInt? then {} else
        var segmentation := ValueAt(data, maxApdu.value.1);
        {ValueRead(maxApdu.value.1)} + if segmentation.Failure? || !segmentation.value.0.Enumerated? then {} else
          {ValueRead(segmentation.value.1)}
  }

  function ReadPropertyAckReads(data: Slice): set<Read> {
    var ref := ReferenceAt(data);
    ReferenceReads(data) + if ref.Failure? then {} else BracketedReads(data, ref.value.next, 3)
  }

  function WritePropertyReads(data: Slice): set<Read> {
    var ref := ReferenceAt(data);
    ReferenceReads(data) + if ref.Failure? then {} else
      var value := BracketedAt(data, ref.value.next, 3);
      BracketedReads(data, ref.value.next, 3) + if value.Failure? then {} else {NumberRead(value.value.1, 4)}
  }

  function SubscribeCovReads(data: Slice): set<Read> {
    var process := UnsignedField(data, 0, 0);
    {NumberRead(0, 0)} + if process.Failure? then {} else
      var o := ObjectField(data, process.value.1, 1);
      {ObjectRead(process.value.1, 1)} + if o.Failure? then {} else
        var confirmed := ContextUnsignedAt(data, o.value.1, 2);
        {NumberRead(o.value.1, 2)} + if confirmed.Failure? then {} else {NumberRead(confirmed.value.1, 3)}
  }

  function EntryReads(data: Slice, pos: u32): set<Read> {
    var code := UnsignedField(data, pos, 0);
    {NumberRead(pos, 0)} + if code.Failure? then {} else
      var index := ContextUnsignedAt(data, code.value.1, 1);
      {NumberRead(code.value.1, 1)} + if index.Failure? then {} else BracketedReads(data, index.value.1, 2)
  }

  function EntriesReads(data: Slice, pos: u32, rounds: nat): set<Read>
    decreases rounds
  {
    if ClosingHere(data, pos, 4) || rounds == 0 then {} else
      var e := EntryAt(data, pos);
      EntryReads(data, pos) + if e.Failure? then {} else EntriesReads(data, e.value.1, rounds - 1)
  }

  function ListReads(data: Slice, pos: u32, rounds: nat): set<Read> {
    if pos >= |data| then {} else
      var a := BracketAt(data, pos, 4, 6);
      {BracketRead(pos)} + if a.Failure? then {} else
        var entries := EntriesWithin(data, a.value, [], rounds);
        EntriesReads(data, a.value, rounds) + if entries.Failure? then {} else {BracketRead(entries.value.1)}
  }

  function CovNotificationReads(data: Slice, rounds: nat): set<Read> {
    var process := UnsignedField(data, 0, 0);
    {NumberRead(0, 0)} + if process.Failure? then {} else
      var device := ObjectField(data, process.value.1, 1);
      {ObjectRead(process.value.1, 1)} + if device.Failure? then {} else
        var o := ObjectField(data, device.value.1, 2);
        {ObjectRead(device.value.1, 2)} + if o.Failure? then {} else
          var time := UnsignedField(data, o.value.1, 3);
          {NumberRead(o.value.1, 3)} + if time.Failure? then {} else ListReads(data, time.value.1, rounds)
  }

  function ErrorReads(data: Slice): set<Read>
    requires |data| >= 3
  {
    var errorClass := NumberAt(data, 3);
    {PlainRead(3)} + if errorClass.Failure? then {} else {PlainRead(errorClass.value.1)}
  }

  /** Where the part that the service's own decoder reads starts. */
  function BodyStart(data: Slice): nat {
    if data == [] then 0
    else match data[0] / 16 case 1 => 2 case 0 => 4 case 3 => 3 case _ => 0
  }

  function BodyOf(data: Slice): Slice {
    if BodyStart(data) <= |data| then data[BodyStart(data)..] else []
  }

  /** Every read that decoding comes to, at positions of the body. */
  function Reads(data: Slice, rounds: nat): set<Read> {
    var body := BodyOf(data);
    if data == [] then {}
    else
      match data[0] / 16
      case 1 =>
        if |data| < 2 then {}
        else if data[1] == WHO_IS then WhoIsReads(body)
        else if data[1] == I_AM then IAmReads(body)
        else if data[1] == UCOV_NOTIFICATION then CovNotificationReads(body, rounds)
        else {}
      case 0 =>
        if |data| < 4 then {}
        else if data[3] == READ_PROPERTY then ReferenceReads(body)
        else if data[3] == WRITE_PROPERTY then WritePropertyReads(body)
        else if data[3] == SUBSCRIBE_COV then SubscribeCovReads(body)
        else {}
      case 3 => if |data| < 3 || data[2] != READ_PROPERTY then {} else ReadPropertyAckReads(body)
      case 5 => if |data| < 3 then {} else ErrorReads(body)
      case _ => {}
  }

  // ------------------------------------------------------------------ one of the reads stops

  ghost predicate AnyStops(data: Slice, met: set<Read>) {
    exists r :: r in met && Stops(data, r)
  }

  lemma ReferenceStopsExactly(data: Slice)
    ensures ReferenceAt(data) == Failure(OutOfRange) <==> AnyStops(data, ReferenceReads(data))
  {
    hide ObjectField, UnsignedField, ContextUnsignedAt, Stops;
    var o := ObjectField(data, 0, 0);
    ObjectNeverStops(data, 0, 0);
    if o.Success? {
      var code := UnsignedField(data, o.value.1, 1);
      NumberStopsExactly(data, o.value.1, 1);
      if code.Success? {
        NumberStopsExactly(data, code.value.1, 2);
      }
    }
  }

  lemma BracketedStopsExactly(data: Slice, pos: u32, number: byte)
    ensures BracketedAt(data, pos, number) == Failure(OutOfRange) <==> AnyStops(data, BracketedReads(data, pos, number))
  {
    hide BracketAt, ValueAt, Stops;
    var a := BracketAt(data, pos, number, 6);
    BracketStopsExactly(data, pos, number, 6);
    if a.Success? {
      var v := ValueAt(data, a.value);
      OutOfRangeExactly(data, a.value);
      if v.Success? {
        BracketStopsExactly(data, v.value.1, number, 7);
      }
    }
  }

  lemma WhoIsStopsExactly(data: Slice)
    ensures WhoIsOf(data) == Failure(OutOfRange) <==> AnyStops(data, WhoIsReads(data))
  {
    hide ContextUnsignedAt, Stops;
    var low := ContextUnsignedAt(data, 0, 0);
    NumberStopsExactly(data, 0, 0);
    if low.Success? {
      NumberStopsExactly(data, low.value.1, 1);
    }
  }

  lemma IAmStopsExactly(data: Slice)
    ensures IAmOf(data) == Failure(OutOfRange) <==> AnyStops(data, IAmReads(data))
  {
    hide ValueAt, Stops;
    var device := ValueAt(data, 0);
    OutOfRangeExactly(data, 0);
    if device.Success? {
      var maxApdu := ValueAt(data, device.value.1);
      OutOfRangeExactly(data, device.value.1);
      if maxApdu.Success? {
        var segmentation := ValueAt(data, maxApdu.value.1);
        OutOfRangeExactly(data, maxApdu.value.1);
        if segmentation.Success? {
          OutOfRangeExactly(data, segmentation.value.1);
        }
      }
    }
  }

  lemma ReadPropertyAckStopsExactly(data: Slice, id: byte)
    ensures ReadPropertyAckOf(data, id) == Failure(OutOfRange) <==> AnyStops(data, ReadPropertyAckReads(data))
  {
    hide ReferenceAt, ReferenceReads, BracketedAt, BracketedReads, Stops;
    ReferenceStopsExactly(data);
    var ref := ReferenceAt(data);
    if ref.Success? {
      BracketedStopsExactly(data, ref.value.next, 3);
    }
  }

  lemma WritePropertyStopsExactly(data: Slice, id: byte)
    ensures WritePropertyOf(data, id) == Failure(OutOfRange) <==> AnyStops(data, WritePropertyReads(data))
  {
    hide ReferenceAt, ReferenceReads, BracketedAt, BracketedReads, ContextUnsignedAt, Stops;
    ReferenceStopsExactly(data);
    var ref := ReferenceAt(data);
    if ref.Success? {
      var value := BracketedAt(data, ref.value.next, 3);
      BracketedStopsExactly(data, ref.value.next, 3);
      if value.Success? {
        NumberStopsExactly(data, value.value.1, 4);
      }
    }
  }

  lemma SubscribeCovStopsExactly(data: Slice, id: byte)
    ensures SubscribeCovOf(data, id) == Failure(OutOfRange) <==> AnyStops(data, SubscribeCovReads(data))
  {
    hide UnsignedField, ObjectField, ContextUnsignedAt, Stops;
    var process := UnsignedField(data, 0, 0);
    NumberStopsExactly(data, 0, 0);
    if process.Success? {
      var o := ObjectField(data, process.value.1, 1);
      ObjectNeverStops(data, process.value.1, 1);
      if o.Success? {
        var confirmed := ContextUnsignedAt(data, o.value.1, 2);
        NumberStopsExactly(data, o.value.1, 2);
        if confirmed.Success? {
          NumberStopsExactly(data, confirmed.value.1, 3);
        }
      }
    }
  }

  lemma EntryStopsExactly(data: Slice, pos: u32)
    ensures EntryAt(data, pos) == Failure(OutOfRange) <==> AnyStops(data, EntryReads(data, pos))
  {
    hide UnsignedField, ContextUnsignedAt, BracketedAt, BracketedReads, Stops;
    var code := UnsignedField(data, pos, 0);
    NumberStopsExactly(data, pos, 0);
    if code.Success? {
      var index := ContextUnsignedAt(data, code.value.1, 1);
      NumberStopsExactly(data, code.value.1, 1);
      if index.Success? {
        BracketedStopsExactly(data, index.value.1, 2);
      }
    }
  }

  lemma {:induction false} EntriesStopExactly(data: Slice, pos: u32, kept: Readings, rounds: nat)
    ensures EntriesWithin(data, pos, kept, rounds) == Failure(OutOfRange)
            <==> AnyStops(data, EntriesReads(data, pos, rounds))
    decreases rounds
  {
    hide EntryAt, EntryReads, ClosingHere, Stops;
    if !ClosingHere(data, pos, 4) && rounds > 0 {
      EntryStopsExactly(data, pos);
      var e := EntryAt(data, pos);
      if e.Success? {
        EntriesStopExactly(data, e.value.1, if |kept| < 8 then kept + [e.value.0] else kept, rounds - 1);
      }
    }
  }

  lemma ListStopsExactly(data: Slice, pos: u32, rounds: nat)
    ensures ListWithin(data, pos, rounds) == Failure(OutOfRange) <==> AnyStops(data, ListReads(data, pos, rounds))
  {
    hide EntriesWithin, EntriesReads, BracketAt, Stops;
    var a := BracketAt(data, pos, 4, 6);
    BracketStopsExactly(data, pos, 4, 6);
    if a.Success? {
      var entries := EntriesWithin(data, a.value, [], rounds);
      EntriesStopExactly(data, a.value, [], rounds);
      if entries.Success? {
        BracketStopsExactly(data, entries.value.1, 4, 7);
      }
    }
  }

  lemma CovNotificationStopsExactly(data: Slice, rounds: nat)
    ensures CovNotificationWithin(data, rounds) == Failure(OutOfRange)
            <==> AnyStops(data, CovNotificationReads(data, rounds))
  {
    hide UnsignedField, ObjectField, ListWithin, ListReads, Stops;
    var process := UnsignedField(data, 0, 0);
    NumberStopsExactly(data, 0, 0);
    if process.Success? {
      var device := ObjectField(data, process.value.1, 1);
      ObjectNeverStops(data, process.value.1, 1);
      if device.Success? {
        var o := ObjectField(data, device.value.1, 2);
        ObjectNeverStops(data, device.value.1, 2);
        if o.Success? {
          var time := UnsignedField(data, o.value.1, 3);
          NumberStopsExactly(data, o.value.1, 3);
          if time.Success? {
            ListStopsExactly(data, time.value.1, rounds);
          }
        }
      }
    }
  }

  lemma ErrorStopsExactly(data: Slice)
    requires |data| >= 3
    ensures ErrorOf(data) == Failure(OutOfRange) <==> AnyStops(data, ErrorReads(data))
  {
    hide NumberAt, Stops;
    var errorClass := NumberAt(data, 3);
    PlainStopsExactly(data, 3);
    if errorClass.Success? {
      PlainStopsExactly(data, errorClass.value.1);
    }
  }

  lemma ReadPropertyStopsExactly(data: Slice, id: byte)
    ensures ReadPropertyOf(data, id) == Failure(OutOfRange) <==> AnyStops(data, ReferenceReads(data))
  {
    hide ReferenceAt, ReferenceReads, Stops;
    ReferenceStopsExactly(data);
  }

  /** `decode_apdu` indexes out of range if and only if it comes to a read that does: of a value where
      an empty signed integer's tag ends the data, or of something whose position, header and length
      add up to 2 to the 32nd or more and that is not passed over unread. */
  lemma StopsExactly(data: Slice, rounds: nat)
    ensures ApduWithin(data, rounds) == Failure(OutOfRange)
            <==> exists r :: r in Reads(data, rounds) && Stops(BodyOf(data), r)
  {
    hide WhoIsOf, IAmOf, ReadPropertyOf, ReadPropertyAckOf, WritePropertyOf, SubscribeCovOf, CovNotificationWithin,
         ErrorOf, Stops, WhoIsReads, IAmReads, ReferenceReads, ReadPropertyAckReads, WritePropertyReads,
         SubscribeCovReads, CovNotificationReads, ErrorReads;
    var body := BodyOf(data);
    WhoIsStopsExactly(body);
    IAmStopsExactly(body);
    CovNotificationStopsExactly(body, rounds);
    if |data| >= 3 {
      ReadPropertyAckStopsExactly(body, data[1]);
      ErrorStopsExactly(data);
    }
    if |data| >= 4 {
      ReadPropertyStopsExactly(body, data[2]);
      WritePropertyStopsExactly(body, data[2]);
      SubscribeCovStopsExactly(body, data[2]);
    }
  }
}
