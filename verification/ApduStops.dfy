/** When `decode_apdu` of bridge-core/src/apdu.rs indexes out of range, and when it loses its way: the
    reads it makes, and the lengths at which 32-bit positions wrap. */
module ApduStops {
  import opened Words
  import opened Bacnet
  import opened ApduValues
  import opened ApduMessages

  // ------------------------------------------------------------------ reads

  /** One call of a reader: of a context number or object, a bracket, an application value, or a
      number under any tag. */
  datatype Read =
    | NumberRead(pos: u32, tag: byte)
    | ObjectRead(pos: u32, tag: byte)
    | BracketRead(pos: u32)
    | ValueRead(pos: u32)
    | PlainRead(pos: u32)

  /** Where the content of a tag ends: position, header and length added without wrapping. */
  function ContentEnd(pos: u32, tag: Tag): nat {
    pos + tag.headerLen + tag.lvt
  }

  ghost predicate TagMet(data: Slice, pos: u32, context: bool) {
    TagAt(data, pos).Success? && TagAt(data, pos).value.context == context
  }

  /** A value that is passed over unread: a null, or one with an unknown tag. */
  ghost predicate Skipped(data: Slice, pos: u32) {
    TagMet(data, pos, false) && TagAt(data, pos).value.number !in {1, 2, 3, 4, 7, 9, 12}
  }

  /** The read adds up to 2 to the 32nd or more: by the length it announces, or at the last position. */
  ghost predicate Wraps(data: Slice, r: Read) {
    match r
    case NumberRead(k, tag) =>
      k < |data| && TagMet(data, k, true) && TagAt(data, k).value.number == tag
          && ContentEnd(k, TagAt(data, k).value) >= WRAP
    case ObjectRead(_, _) => false
    case BracketRead(k) => k + 1 >= WRAP
    case ValueRead(k) =>
      || k + 1 >= WRAP
      || (TagMet(data, k, false) && TagAt(data, k).value.number !in {1, 4, 12}
          && ContentEnd(k, TagAt(data, k).value) >= WRAP)
    case PlainRead(k) => k < |data| && TagAt(data, k).Success? && ContentEnd(k, TagAt(data, k).value) >= WRAP
  }

  /** An empty signed integer whose tag ends the data. */
  ghost predicate EmptySignedAtEnd(data: Slice, pos: u32) {
    && TagMet(data, pos, false) && TagAt(data, pos).value.number == 3 && TagAt(data, pos).value.lvt == 0
    && ContentEnd(pos, TagAt(data, pos).value) == |data|
  }

  /** The read indexes out of range. */
  ghost predicate Stops(data: Slice, r: Read) {
    || (r.ValueRead? && EmptySignedAtEnd(data, r.pos))
    || (Wraps(data, r) && !(r.ValueRead? && Skipped(data, r.pos)))
  }

  /** The value reader indexes out of range exactly there, and nowhere else. */
  lemma OutOfRangeExactly(data: Slice, pos: u32)
    ensures ValueAt(data, pos) == Failure(OutOfRange) <==> Stops(data, ValueRead(pos))
  {
    hide TagAt, FromRaw, Utf8Valid, StoredText, UnsignedAt, SignedAt, TextAt, ObjectAt;
  }

  lemma NumberStopsExactly(data: Slice, pos: u32, tag: byte)
    ensures ContextUnsignedAt(data, pos, tag) == Failure(OutOfRange) <==> Stops(data, NumberRead(pos, tag))
    ensures UnsignedField(data, pos, tag) == Failure(OutOfRange) <==> Stops(data, NumberRead(pos, tag))
  {
    hide TagAt, UnsignedAt;
  }

  lemma BracketStopsExactly(data: Slice, pos: u32, tag: byte, kind: u32)
    ensures BracketAt(data, pos, tag, kind) == Failure(OutOfRange) <==> Stops(data, BracketRead(pos))
  {
    hide BracketAt;
  }

  lemma ObjectNeverStops(data: Slice, pos: u32, tag: byte)
    ensures ObjectField(data, pos, tag) != Failure(OutOfRange) && !Stops(data, ObjectRead(pos, tag))
  {
    hide ContextObjectAt;
  }

  lemma PlainStopsExactly(data: Slice, pos: u32)
    ensures NumberAt(data, pos) == Failure(OutOfRange) <==> Stops(data, PlainRead(pos))
  {
    hide TagAt, UnsignedAt;
  }

  // ------------------------------------------------------------------ orderly reads

  /** The read stays in range, but for an empty signed integer at the end, and if it takes anything
      leaves the position no earlier than the end of the tag it met. */
  ghost predicate Orderly(data: Slice, r: Read) {
    match r
    case NumberRead(k, tag) =>
      var n := ContextUnsignedAt(data, k, tag);
      n != Failure(OutOfRange) && (n.Success? && n.value.0.Some? ==> n.value.1 == ContentEnd(k, TagAt(data, k).value))
    case ObjectRead(k, tag) => ContextObjectAt(data, k, tag) != Failure(OutOfRange)
    case BracketRead(k) => forall tag, kind :: BracketAt(data, k, tag, kind) != Failure(OutOfRange)
    case ValueRead(k) =>
      var v := ValueAt(data, k);
      && (v == Failure(OutOfRange) ==> EmptySignedAtEnd(data, k))
      && (v.Success? ==> v.value.1 >= k + TagAt(data, k).value.headerLen)
    case PlainRead(k) => NumberAt(data, k) != Failure(OutOfRange)
  }

  /** A read is orderly exactly when nothing it adds up wraps. */
  lemma OrderlyExactly(data: Slice, r: Read)
    ensures Orderly(data, r) <==> !Wraps(data, r)
  {
    hide TagAt, FromRaw, Utf8Valid, StoredText, UnsignedAt, SignedAt, TextAt, ObjectAt, BracketAt;
    match r
    case NumberRead(k, tag) => NumberStopsExactly(data, k, tag);
    case ObjectRead(k, tag) =>
    case BracketRead(k) => BracketStopsExactly(data, k, 0, 0);
    case ValueRead(k) =>
      OutOfRangeExactly(data, k);
      if ValueAt(data, k).Success? {
        ValueMoves(data, k);
      }
    case PlainRead(k) => PlainStopsExactly(data, k);
  }

  /** A value that is read moves the position past its tag unless its length wraps; then back. */
  lemma ValueMoves(data: Slice, pos: u32)
    requires ValueAt(data, pos).Success?
    ensures var next, after := ValueAt(data, pos).value.1, pos + TagAt(data, pos).value.headerLen;
            && pos < after && (next < after <==> Wraps(data, ValueRead(pos)))
            && (next < after ==> Skipped(data, pos) && next == ContentEnd(pos, TagAt(data, pos).value) - WRAP)
  {
    hide TagAt, FromRaw, Utf8Valid, StoredText, UnsignedAt, SignedAt, TextAt, ObjectAt;
  }
}
