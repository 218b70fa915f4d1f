/** The BER encoding of X.690 as far as bridge-core/src/snmp.rs uses it: tag-length-value,
    two's-complement integers, base-128 object identifiers. What is written, and how it reads back. */
module Ber {
  import opened Words
  import opened Octets
  import opened Numbers

  const TAG_SEQUENCE: byte := 0x30
  const TAG_INTEGER: byte := 0x02
  const TAG_OCTET_STRING: byte := 0x04
  const TAG_NULL: byte := 0x05
  const TAG_OID: byte := 0x06
  const TAG_COUNTER32: byte := 0x41
  const TAG_GAUGE32: byte := 0x42
  const TAG_TIMETICKS: byte := 0x43
  const TAG_GET_REQUEST: byte := 0xA0
  const TAG_GET_NEXT_REQUEST: byte := 0xA1
  const TAG_GET_RESPONSE: byte := 0xA2

  // ------------------------------------------------------------------ tag and length

  /** The ways a length may be written: one octet, or a count and 1 to 4 octets. */
  datatype LengthForm = Short | Long(octets: nat)

  predicate FormFits(f: LengthForm, n: nat) {
    match f
    case Short => n <= 127
    case Long(k) => 1 <= k <= 4 && n < Pow256(k)
  }

  function LengthOctets(f: LengthForm, n: nat): seq<byte>
    requires FormFits(f, n)
  {
    match f
    case Short => [n]
    case Long(k) => [0x80 + k] + BeBytes(n, k)
  }

  /** A TLV with its length in a chosen form. */
  function TlvIn(f: LengthForm, tag: byte, content: seq<byte>): seq<byte>
    requires FormFits(f, |content|)
  {
    [tag] + LengthOctets(f, |content|) + content
  }

  /** The form the encoder chooses: the shortest. */
  function ShortestForm(n: nat): LengthForm {
    if n <= 127 then Short else if n <= 0xFF then Long(1) else Long(2)
  }

  lemma ShortestFits(n: nat)
    requires n <= 0xFFFF
    ensures FormFits(ShortestForm(n), n)
  {
    PowersOf256();
  }

  function HeaderBytes(tag: byte, n: nat): (h: seq<byte>)
    requires n <= 0xFFFF
    ensures |h| == if n <= 127 then 2 else if n <= 0xFF then 3 else 4
  {
    ShortestFits(n);
    [tag] + LengthOctets(ShortestForm(n), n)
  }

  /** The TLV the encoder writes. */
  function Tlv(tag: byte, content: seq<byte>): (t: seq<byte>)
    requires |content| <= 0xFFFF
    ensures |t| == |content| + if |content| <= 127 then 2 else if |content| <= 0xFF then 3 else 4
  {
    HeaderBytes(tag, |content|) + content
  }

  /** What `decode_tlv` reports: the tag, and where the value starts and ends. */
  datatype TlvSpan = TlvSpan(tag: byte, start: nat, end: nat)

  /** The value of a length field whose octets follow the first one. */
  function TlvAt(data: seq<byte>, pos: nat): (r: Result<TlvSpan, DecodeError>)
    ensures r.Success? ==> pos + 2 <= r.value.start <= r.value.end <= |data|
  {
    if pos >= |data| || pos + 1 >= |data| then Failure(UnexpectedEnd)
    else
      var first := data[pos + 1];
      if first < 128 then SpanOf(data, data[pos], pos + 2, first)
      else
        var k := first - 128;
        if k == 0 || k > 4 then Failure(LengthOutOfBounds)
        else if pos + 2 + k > |data| then Failure(UnexpectedEnd)
        else SpanOf(data, data[pos], pos + 2 + k, BeVal(data[pos + 2..pos + 2 + k]))
  }

  function SpanOf(data: seq<byte>, tag: byte, start: nat, length: nat): (r: Result<TlvSpan, DecodeError>)
    ensures r.Success? ==> r.value == TlvSpan(tag, start, start + length) && start + length <= |data|
    ensures r.Failure? ==> start + length > |data|
  {
    if start + length > |data| then Failure(LengthOutOfBounds) else Success(TlvSpan(tag, start, start + length))
  }

  /** A TLV reads back whatever follows it, in any length form. */
  lemma TlvReadsBack(data: seq<byte>, pos: nat, f: LengthForm, tag: byte, content: seq<byte>)
    requires FormFits(f, |content|) && HasAt(data, pos, TlvIn(f, tag, content))
    ensures var end := pos + |TlvIn(f, tag, content)|;
            && TlvAt(data, pos) == Success(TlvSpan(tag, end - |content|, end))
            && HasAt(data, end - |content|, content)
  {
    hide LengthOctets, TlvAt, FormFits, HasAt;
    var l := LengthOctets(f, |content|);
    TlvParts(data, pos, tag, l, content);
    LengthReadsBack(data, pos, f, tag, |content|);
    HasFits(data, pos + 1 + |l|, content);
  }

  lemma TlvParts(data: seq<byte>, pos: nat, tag: byte, l: seq<byte>, content: seq<byte>)
    requires HasAt(data, pos, [tag] + l + content)
    ensures HasAt(data, pos, [tag]) && HasAt(data, pos + 1, l) && HasAt(data, pos + 1 + |l|, content)
  {
    hide HasAt;
    HasConcat(data, pos, [tag] + l, content);
    HasConcat(data, pos, [tag], l);
  }

  lemma LengthReadsBack(data: seq<byte>, pos: nat, f: LengthForm, tag: byte, n: nat)
    requires FormFits(f, n) && HasAt(data, pos, [tag]) && HasAt(data, pos + 1, LengthOctets(f, n))
    ensures TlvAt(data, pos) == SpanOf(data, tag, pos + 1 + |LengthOctets(f, n)|, n)
  {
    HasIndex(data, pos, [tag], 0);
    match f
    case Short =>
      HasIndex(data, pos + 1, [n], 0);
    case Long(k) =>
      LongLengthReadsBack(data, pos, tag, k, n);
  }

  lemma LongLengthReadsBack(data: seq<byte>, pos: nat, tag: byte, k: nat, n: nat)
    requires 1 <= k <= 4 && n < Pow256(k)
    requires HasAt(data, pos, [tag]) && HasAt(data, pos + 1, [0x80 + k] + BeBytes(n, k))
    ensures TlvAt(data, pos) == SpanOf(data, tag, pos + 2 + k, n)
  {
    BeRoundTrip(n, k);
    hide BeVal, BeBytes, Pow256, SpanOf;
    HasIndex(data, pos, [tag], 0);
    HasConcat(data, pos + 1, [0x80 + k], BeBytes(n, k));
    HasIndex(data, pos + 1, [0x80 + k], 0);
  }

  /** The form written fits, and no fitting form takes fewer length octets. */
  lemma TlvIsShortest(tag: byte, content: seq<byte>)
    requires |content| <= 0xFFFF
    ensures FormFits(ShortestForm(|content|), |content|)
    ensures Tlv(tag, content) == TlvIn(ShortestForm(|content|), tag, content)
    ensures forall f :: FormFits(f, |content|) ==>
              |LengthOctets(ShortestForm(|content|), |content|)| <= |LengthOctets(f, |content|)|
  {
    ShortestFits(|content|);
    PowersOf256();
    forall f | FormFits(f, |content|)
      ensures |LengthOctets(ShortestForm(|content|), |content|)| <= |LengthOctets(f, |content|)|
    {
    }
  }

  // ------------------------------------------------------------------ integers

  function IntLength(v: i32): (n: nat)
    ensures 1 <= n <= 4
  {
    if -0x80 <= v < 0x80 then 1 else if -0x8000 <= v < 0x8000 then 2 else if -0x80_0000 <= v < 0x80_0000 then 3 else 4
  }

  function IntContent(v: i32): (s: seq<byte>)
    ensures |s| == IntLength(v)
  {
    BeBytes(v % Pow256(IntLength(v)), IntLength(v))
  }

  /** `decode_integer`. */
  function IntOf(s: seq<byte>): Result<i32, DecodeError> {
    if |s| == 0 || |s| > 4 then Failure(InvalidData)
    else SignedValInRange(s); Success(SignedVal(s))
  }

  lemma SignedValInRange(s: seq<byte>)
    requires 1 <= |s| <= 4
    ensures -0x8000_0000 <= SignedVal(s) < 0x8000_0000
  {
    SignedValFits(s);
    Pow256Monotone(|s|, 4);
    PowersOf256();
  }

  lemma IntLengthFits(v: i32)
    ensures SignedFits(v, IntLength(v))
    ensures IntLength(v) > 1 ==> !SignedFits(v, IntLength(v) - 1)
  {
    PowersOf256();
  }

  /** Every i32 reads back from what is written for it. */
  lemma IntReadsBack(v: i32)
    ensures IntOf(IntContent(v)) == Success(v)
  {
    var n := IntLength(v);
    var p := Pow256(n);
    var s := IntContent(v);
    IntLengthFits(v);
    BeRoundTrip(v % p, n);
    TopOctet(s);
    TwosComplement(v, p);
  }

  /** No shorter octet string reads as the same number. */
  lemma IntIsShortest(v: i32, s: seq<byte>)
    requires IntOf(s) == Success(v)
    ensures IntLength(v) <= |s|
  {
    SignedValFits(s);
    IntLengthFits(v);
    if |s| < IntLength(v) {
      Pow256Monotone(|s|, IntLength(v) - 1);
    }
  }

  // ------------------------------------------------------------------ unsigned application types

  function U32Content(v: u32): (s: seq<byte>)
    ensures 1 <= |s| <= 5
  {
    if v >= 0x8000_0000 then [0] + BeBytes(v, 4) else BeBytes(v, UnsignedLength(v))
  }

  /** `decode_u32`: up to four octets, or five of which the first is zero. */
  function U32Of(s: seq<byte>): Result<u32, DecodeError> {
    if |s| == 0 || |s| > 5 then Failure(InvalidData)
    else
      var effective := if |s| == 5 && s[0] == 0 then s[1..] else s;
      if |effective| > 4 then Failure(InvalidData)
      else FourOctets(effective); Success(BeVal(effective))
  }

  /** Every u32 reads back from what is written for it. */
  lemma U32ReadsBack(v: u32)
    ensures U32Of(U32Content(v)) == Success(v)
  {
    PowersOf256();
    if v >= 0x8000_0000 {
      assert U32Content(v)[1..] == BeBytes(v, 4);
      BeRoundTrip(v, 4);
    } else {
      BeRoundTrip(v, UnsignedLength(v));
    }
  }
}
