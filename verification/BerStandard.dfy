/** What bridge-core/src/snmp.rs writes and reads, by the text of X.690: lengths (section 8.1.3), integers
    (8.3), object identifiers (8.19), and the unsigned types of RFC 2578, which are integers. */
module BerStandard {
  import opened Words
  import opened Numbers
  import opened Ber
  import opened Oid

  // ------------------------------------------------------------------ lengths

  /** The length a length field announces and its own size: seven bits, or so many octets as the low
      seven bits of the first say, most significant first. */
  function AnnouncedLength(l: seq<byte>): Option<(nat, nat)> {
    if l == [] then None
    else if l[0] < 0x80 then Some((l[0], 1))
    else
      var k := l[0] - 0x80;
      if k == 0 || |l| < 1 + k then None else Some((Weighed(l[1..1 + k], 256), 1 + k))
  }

  /** Digits in some base, most significant first. */
  function Weighed(digits: seq<nat>, base: nat): nat {
    if digits == [] then 0 else Weighed(digits[..|digits| - 1], base) * base + digits[|digits| - 1]
  }

  lemma {:induction false} BigEndian(s: seq<byte>)
    ensures BeVal(s) == Weighed(s, 256)
  {
    if s != [] {
      BigEndian(s[..|s| - 1]);
    }
  }

  /** Every length form announces its length. */
  lemma LengthIsAnnounced(f: LengthForm, n: nat, content: seq<byte>)
    requires FormFits(f, n)
    ensures AnnouncedLength(LengthOctets(f, n) + content) == Some((n, |LengthOctets(f, n)|))
  {
    hide Weighed, BeVal, BeBytes;
    match f
    case Short =>
    case Long(k) =>
      BeRoundTrip(n, k);
      BigEndian(BeBytes(n, k));
      assert (LengthOctets(f, n) + content)[1..1 + k] == BeBytes(n, k);
  }

  /** A TLV is its tag, a field that announces its content, and that. */
  lemma TlvIsLaidOut(f: LengthForm, tag: byte, content: seq<byte>, rest: seq<byte>)
    requires FormFits(f, |content|)
    ensures var t := TlvIn(f, tag, content);
            && t[0] == tag && AnnouncedLength((t + rest)[1..]) == Some((|content|, |t| - 1 - |content|))
            && t[|t| - |content|..] == content
  {
    hide LengthOctets, AnnouncedLength;
    var l := LengthOctets(f, |content|);
    assert (TlvIn(f, tag, content) + rest)[1..] == l + (content + rest);
    LengthIsAnnounced(f, |content|, content + rest);
  }

  /** The reader follows such a field of at most four further octets, and says what is wrong with any other:
      it ends too soon, or it announces too much, or without a limit, or in too many octets. */
  lemma TlvReadExactly(data: seq<byte>, pos: nat)
    ensures pos + 1 >= |data| ==> TlvAt(data, pos) == Failure(UnexpectedEnd)
    ensures pos + 1 < |data| && (data[pos + 1] == 0x80 || data[pos + 1] > 0x84) ==>
              TlvAt(data, pos) == Failure(LengthOutOfBounds)
    ensures pos + 1 < |data| && 0x80 < data[pos + 1] <= 0x84 && AnnouncedLength(data[pos + 1..]).None? ==>
              TlvAt(data, pos) == Failure(UnexpectedEnd)
    ensures pos + 1 < |data| && data[pos + 1] <= 0x84 && AnnouncedLength(data[pos + 1..]).Some? ==>
              var (n, size) := AnnouncedLength(data[pos + 1..]).value;
              var start := pos + 1 + size;
              TlvAt(data, pos) == if start + n > |data| then Failure(LengthOutOfBounds)
                                  else Success(TlvSpan(data[pos], start, start + n))
  {
    hide BeVal, Weighed;
    if pos + 1 < |data| && 0x80 < data[pos + 1] <= 0x84 {
      var k := data[pos + 1] - 0x80;
      var l := data[pos + 1..];
      if pos + 2 + k <= |data| {
        BigEndian(data[pos + 2..pos + 2 + k]);
        assert l[1..1 + k] == data[pos + 2..pos + 2 + k];
      }
    }
  }

  // ------------------------------------------------------------------ integers

  /** The bits of the first octet decide the sign, all octets together the value. */
  function IntegerValue(s: seq<byte>): int {
    Weighed(s, 256) - if s != [] && s[0] >= 0x80 then Pow256(|s|) else 0
  }

  lemma IntegerIs(s: seq<byte>)
    ensures IntegerValue(s) == SignedVal(s)
  {
    hide Weighed, BeVal, Pow256;
    BigEndian(s);
  }

  /** Integers of one to four octets are read as what they say, others refused. */
  lemma IntegerReadExactly(s: seq<byte>)
    ensures if 1 <= |s| <= 4 then IntOf(s).Success? && IntOf(s).value == IntegerValue(s)
            else IntOf(s) == Failure(InvalidData)
  {
    IntegerIs(s);
    hide SignedVal, IntegerValue;
  }

  /** An integer is written as octets that say it, of which the first nine bits are not all alike. */
  lemma IntegerWritten(v: i32)
    ensures IntegerValue(IntContent(v)) == v
    ensures |IntContent(v)| > 1 ==>
              var a, b := IntContent(v)[0], IntContent(v)[1]; !(a == 0 && b < 0x80) && !(a == 0xFF && b >= 0x80)
  {
    IntReadsBack(v);
    IntegerReadExactly(IntContent(v));
    hide IntContent, IntOf, IntegerValue;
    if |IntContent(v)| > 1 && IsPadded(IntContent(v)) {
      PaddedIsLonger(IntContent(v));
      var s := IntContent(v);
      IntegerReadExactly(s[1..]);
      IntIsShortest(v, s[1..]);
    }
  }

  predicate IsPadded(s: seq<byte>) {
    |s| > 1 && ((s[0] == 0 && s[1] < 0x80) || (s[0] == 0xFF && s[1] >= 0x80))
  }

  lemma PaddedIsLonger(s: seq<byte>)
    requires IsPadded(s)
    ensures IntegerValue(s[1..]) == IntegerValue(s)
  {
    hide Weighed, Pow256;
    WeighedFront(s);
    PowStep(|s| - 1);
  }

  lemma PowStep(n: nat)
    ensures Pow256(n + 1) == 256 * Pow256(n)
  {
  }

  lemma {:induction false} WeighedFront(s: seq<byte>)
    requires s != []
    ensures Weighed(s, 256) == s[0] * Pow256(|s| - 1) + Weighed(s[1..], 256)
  {
    var n := |s| - 1;
    if n == 0 {
      assert Weighed(s[..0], 256) == 0 && Weighed(s[1..], 256) == 0;
    } else {
      WeighedFront(s[..n]);
      assert s[..n][1..] == s[1..][..n - 1];
      assert s[1..][n - 1] == s[n];
      FrontStep(s[0], Pow256(n - 1), Weighed(s[1..][..n - 1], 256), s[n]);
      assert Pow256(n) == 256 * Pow256(n - 1);
    }
  }

  lemma FrontStep(a: nat, p: nat, w: nat, b: nat)
    ensures (a * p + w) * 256 + b == a * (256 * p) + (w * 256 + b)
  {
  }

  // ------------------------------------------------------------------ counters, gauges, ticks

  /** Numbers whose shortest octets begin with a set bit, and no zero octet is put in front of them. */
  predicate LooksNegative(v: u32) {
    0x80 <= v < 0x100 || 0x8000 <= v < 0x1_0000 || 0x80_0000 <= v < 0x100_0000
  }

  /** An unsigned number is written as the integer that RFC 2578 has it be, unless its shortest octets begin
      with a set bit and it is below 2^31: then the octets say a negative one. */
  lemma UnsignedIsIntegerExactly(v: u32)
    ensures IntegerValue(U32Content(v)) == v <==> !LooksNegative(v)
    ensures LooksNegative(v) ==> IntegerValue(U32Content(v)) < 0
  {
    IntegerIs(U32Content(v));
    hide IntegerValue;
    PowersOf256();
    if v >= 0x8000_0000 {
      BeRoundTrip(v, 4);
      LeadingZero(BeBytes(v, 4));
    } else {
      var s := BeBytes(v, UnsignedLength(v));
      BeRoundTrip(v, UnsignedLength(v));
      hide BeBytes, BeVal;
      TopOctet(s);
    }
  }

  lemma LeadingZero(s: seq<byte>)
    ensures SignedVal([0] + s) == BeVal(s)
  {
    hide BeVal, Weighed, Pow256;
    BigEndian(s);
    BigEndian([0] + s);
    WeighedFront([0] + s);
    assert ([0] + s)[1..] == s;
  }

  /** Unsigned numbers of one to four octets, or five of which the first is zero, are read as the number all
      their bits say; others are refused. */
  lemma UnsignedReadExactly(s: seq<byte>)
    ensures if 1 <= |s| <= 4 || (|s| == 5 && s[0] == 0) then U32Of(s).Success? && U32Of(s).value == Weighed(s, 256)
            else U32Of(s) == Failure(InvalidData)
  {
    hide BeVal, Weighed;
    BigEndian(s);
    if |s| == 5 && s[0] == 0 {
      BigEndian(s[1..]);
      WeighedFront(s);
    }
  }

  // ------------------------------------------------------------------ object identifiers

  function LowBits(s: seq<byte>): (t: seq<nat>)
    ensures |t| == |s|
  {
    seq(|s|, k requires 0 <= k < |s| => s[k] % 0x80)
  }

  lemma LowBitsSnoc(s: seq<byte>, b: byte)
    ensures LowBits(s + [b]) == LowBits(s) + [b % 0x80]
  {
  }

  lemma WeighedSnoc(t: seq<nat>, d: nat, base: nat)
    ensures Weighed(t + [d], base) == Weighed(t, base) * base + d
  {
    assert (t + [d])[..|t|] == t;
  }

  lemma {:induction false} ContinuedIsValue(v: nat)
    ensures Weighed(LowBits(Continued(v)), 128) == v
  {
    hide Weighed, LowBits;
    if v == 0 {
      NoDigits();
    } else {
      ContinuedIsValue(v / 128);
      LowBitsSnoc(Continued(v / 128), 128 + v % 128);
      WeighedSnoc(LowBits(Continued(v / 128)), v % 128, 128);
    }
  }

  lemma NoDigits()
    ensures Weighed(LowBits([]), 128) == 0
  {
  }

  /** The low seven bits of an arc's octets, most significant first, are its value; all but the last
      have the high bit set, and the first is not padding. */
  lemma ArcIsLaidOut(v: nat)
    ensures var s := Base128(v);
            && Weighed(LowBits(s), 128) == v && s[|s| - 1] < 0x80 && s[0] != 0x80
            && forall k :: 0 <= k < |s| - 1 ==> s[k] >= 0x80
  {
    Base128HighBits(v);
    hide Weighed, LowBits, Continued;
    ContinuedIsValue(v / 128);
    LowBitsSnoc(Continued(v / 128), v % 128);
    WeighedSnoc(LowBits(Continued(v / 128)), v % 128, 128);
  }

  /** The first two arcs go into one number, 40 times the first and the second; the others follow, each on
      its own. An identifier begins, for every reader, with an octet below 128. */
  lemma IdentifierIsLaidOut(oid: seq<u32>)
    requires Carried(oid)
    ensures OidContent(oid)[0] == 40 * oid[0] + oid[1] < 0x80
    ensures OidContent(oid) == [OidContent(oid)[0]] + ArcBytes(oid[2..])
  {
    CarriedFirst(oid);
    hide Base128, ArcBytes;
  }

  /** The prefix of all of the agent's names: 1.3.6.1.2.1 is 2B 06 01 02 01. */
  lemma InternetManagement()
    ensures OidContent([1, 3, 6, 1, 2, 1]) == [0x2B, 0x06, 0x01, 0x02, 0x01]
  {
    hide Base128;
    var oid: seq<u32> := [1, 3, 6, 1, 2, 1];
    assert oid[2..] == [6, 1, 2, 1];
    var rest: seq<u32> := [6, 1, 2, 1];
    SmallArc(6);
    SmallArc(1);
    SmallArc(2);
    SmallArc(0x2B);
    assert ArcBytes(rest[..0]) == [];
    ArcsSnoc(rest, 0);
    ArcsSnoc(rest, 1);
    ArcsSnoc(rest, 2);
    ArcsSnoc(rest, 3);
    assert rest[..4] == rest;
  }

  lemma SmallArc(v: nat)
    requires v < 128
    ensures Base128(v) == [v]
  {
    assert Continued(0) == [];
  }

  /** What the octets from `i` up to `k` say as one arc. */
  function ArcValue(s: seq<byte>, i: nat, k: nat): nat
    requires i <= k <= |s|
  {
    Weighed(LowBits(s[i..k]), 128)
  }

  lemma OneMoreOctet(s: seq<byte>, i: nat, k: nat)
    requires i <= k < |s|
    ensures ArcValue(s, i, k + 1) == ArcValue(s, i, k) * 128 + s[k] % 0x80
  {
    hide Weighed, LowBits;
    assert s[i..k + 1] == s[i..k] + [s[k]];
    LowBitsSnoc(s[i..k], s[k]);
    WeighedSnoc(LowBits(s[i..k]), s[k] % 0x80, 128);
  }

  lemma {:induction false} ArcGrows(s: seq<byte>, i: nat, m: nat, k: nat)
    requires i <= m < k <= |s|
    ensures ArcValue(s, i, k) >= 128 * ArcValue(s, i, m)
    decreases k
  {
    hide ArcValue;
    OneMoreOctet(s, i, k - 1);
    if m < k - 1 {
      ArcGrows(s, i, m, k - 1);
    }
  }

  /** What reading an arc comes to: `e` is the first octet without the high bit, or the end. */
  function ArcOutcome(s: seq<byte>, i: nat, e: nat): Result<(u32, nat), DecodeError>
    requires i <= e <= |s|
  {
    var v := ArcValue(s, i, if e < |s| then e + 1 else e);
    if v >= 0x8000_0000 then Failure(InvalidData)
    else if e < |s| then Success((v, e + 1)) else Failure(UnexpectedEnd)
  }

  lemma {:induction false} ArcFrom(s: seq<byte>, i: nat, m: nat, e: nat)
    requires i <= m <= e <= |s| && (forall k :: i <= k < e ==> s[k] >= 0x80) && (e < |s| ==> s[e] < 0x80)
    requires ArcValue(s, i, m) < 0x8000_0000
    ensures ArcAt(s, m, ArcValue(s, i, m)) == ArcOutcome(s, i, e)
    decreases e - m
  {
    hide ArcValue;
    if m < |s| {
      OneMoreOctet(s, i, m);
      if ArcValue(s, i, m) > 0xFF_FFFF {
        ArcGrows(s, i, m, if e < |s| then e + 1 else e);
      } else if m < e {
        ArcFrom(s, i, m + 1, e);
      }
    }
  }

  lemma NoArcYet(s: seq<byte>, i: nat)
    requires i <= |s|
    ensures ArcValue(s, i, i) == 0
  {
    assert s[i..i] == [];
  }

  /** An arc is read as what its octets say if it ends and is below 2^31; otherwise the error says which. */
  lemma ArcReadExactly(s: seq<byte>, i: nat, e: nat)
    requires i <= e <= |s| && (forall k :: i <= k < e ==> s[k] >= 0x80) && (e < |s| ==> s[e] < 0x80)
    ensures ArcAt(s, i, 0) == ArcOutcome(s, i, e)
  {
    NoArcYet(s, i);
    ArcFrom(s, i, i, e);
  }

  /** The first octet stands for two arcs, by multiples of 40; each arc behind it adds one, up to sixteen. */
  lemma IdentifierReadOn(s: seq<byte>, i: nat, acc: Oid)
    ensures OidOf([]) == Failure(InvalidData)
    ensures s != [] ==> OidOf(s) == ArcsFrom(s, 1, [if s[0] < 80 then s[0] / 40 else 2,
                                                    if s[0] < 80 then s[0] % 40 else s[0] - 80])
    ensures i >= |s| ==> ArcsFrom(s, i, acc) == Success(acc)
    ensures i < |s| && ArcAt(s, i, 0).Failure? ==> ArcsFrom(s, i, acc) == Failure(ArcAt(s, i, 0).error)
    ensures i < |s| && ArcAt(s, i, 0).Success? ==>
              var (arc, next) := ArcAt(s, i, 0).value;
              ArcsFrom(s, i, acc) == if |acc| == 16 then Failure(InvalidData) else ArcsFrom(s, next, acc + [arc])
  {
  }
}
