/** Object identifiers in BER (X.690 section 8.19) as bridge-core/src/snmp.rs writes and reads them. */
module Oid {
  import opened Words
  import opened Octets

  const MAX_ARCS := 16

  /** `Vec<u32, 16>`: at most 16 arcs. */
  type Oid = o: seq<u32> | |o| <= 16

  // ------------------------------------------------------------------ base 128

  /** Continuation octets, high bit set. */
  function Continued(v: nat): seq<byte> {
    if v == 0 then [] else Continued(v / 128) + [128 + v % 128]
  }

  function Base128(v: nat): (s: seq<byte>)
    ensures s != []
  {
    Continued(v / 128) + [v % 128]
  }

  /** The high bit is clear on the last octet of an arc and on no other. */
  lemma {:induction false} ContinuedHighBits(v: nat)
    ensures forall k :: 0 <= k < |Continued(v)| ==> Continued(v)[k] >= 128
    ensures v > 0 ==> Continued(v) != [] && Continued(v)[0] > 128
  {
    if v > 0 {
      ContinuedHighBits(v / 128);
      if v / 128 == 0 {
        assert Continued(0) == [];
      }
    }
  }

  /** The high bit is clear on an arc's last octet only, and no leading octet is padding. */
  lemma Base128HighBits(v: nat)
    ensures var s := Base128(v);
            && s[|s| - 1] < 128 && (forall k :: 0 <= k < |s| - 1 ==> s[k] >= 128)
            && s[0] != 128
  {
    ContinuedHighBits(v / 128);
    if v < 128 {
      assert Continued(v / 128) == [];
    }
  }

  /** One arc of `decode_oid`'s inner loop: the arc and the position after it. */
  function ArcAt(s: seq<byte>, i: nat, acc: u32): (r: Result<(u32, nat), DecodeError>)
    decreases |s| - i
    ensures r.Success? ==> i < r.value.1 <= |s| && r.value.0 < 0x8000_0000
  {
    if i >= |s| then Failure(UnexpectedEnd)
    else if acc > 0xFF_FFFF then Failure(InvalidData)
    else
      var acc' := acc * 128 + s[i] % 128;
      if s[i] < 128 then Success((acc', i + 1)) else ArcAt(s, i + 1, acc')
  }

  lemma {:induction false} ReadContinued(s: seq<byte>, i: nat, v: nat)
    requires v < 0x8000_0000 && HasAt(s, i, Continued(v))
    ensures ArcAt(s, i, 0) == ArcAt(s, i + |Continued(v)|, v)
  {
    if v > 0 {
      var n := |Continued(v / 128)|;
      HasConcat(s, i, Continued(v / 128), [128 + v % 128]);
      ReadContinued(s, i, v / 128);
      HasIndex(s, i, Continued(v), n);
    }
  }

  /** An arc below 2^31 reads back; a larger one is refused. */
  lemma ArcReadsBack(s: seq<byte>, i: nat, v: u32)
    requires HasAt(s, i, Base128(v))
    ensures ArcAt(s, i, 0) == if v < 0x8000_0000 then Success((v, i + |Base128(v)|)) else Failure(InvalidData)
  {
    HasConcat(s, i, Continued(v / 128), [v % 128]);
    ReadContinued(s, i, v / 128);
    HasIndex(s, i, Base128(v), |Continued(v / 128)|);
  }

  // ------------------------------------------------------------------ whole identifiers

  function ArcBytes(arcs: seq<u32>): seq<byte> {
    if arcs == [] then [] else ArcBytes(arcs[..|arcs| - 1]) + Base128(arcs[|arcs| - 1])
  }

  /** `40 * oid[0] + oid[1]`, a u32 that wraps in a release build. */
  function FirstArc(oid: seq<u32>): u32
    requires |oid| >= 2
  {
    (40 * oid[0] + oid[1]) % WRAP
  }

  function OidContent(oid: seq<u32>): seq<byte>
    requires |oid| >= 2
  {
    Base128(FirstArc(oid)) + ArcBytes(oid[2..])
  }

  /** The two arcs a first octet stands for. */
  function FirstTwo(b: byte): (o: Oid) {
    if b < 40 then [0, b] else if b < 80 then [1, b - 40] else [2, b - 80]
  }

  /** `decode_oid`'s outer loop. */
  function ArcsFrom(s: seq<byte>, i: nat, acc: Oid): Result<Oid, DecodeError>
    decreases |s| - i
  {
    if i >= |s| then Success(acc)
    else
      var (arc, next) :- ArcAt(s, i, 0);
      if |acc| >= MAX_ARCS then Failure(InvalidData) else ArcsFrom(s, next, acc + [arc])
  }

  /** `decode_oid`. */
  function OidOf(s: seq<byte>): Result<Oid, DecodeError> {
    if s == [] then Failure(InvalidData) else ArcsFrom(s, 1, FirstTwo(s[0]))
  }

  /** The identifiers the codec carries: the first two arcs fit one octet of a single arc,
      and the others stay below 2^31. */
  predicate Carried(oid: seq<u32>) {
    && 2 <= |oid| <= MAX_ARCS
    && ((oid[0] <= 1 && oid[1] < 40) || (oid[0] == 2 && oid[1] < 48))
    && forall k :: 2 <= k < |oid| ==> oid[k] < 0x8000_0000
  }

  lemma {:induction false} ArcBytesPart(arcs: seq<u32>, k: nat)
    requires k < |arcs|
    ensures HasAt(ArcBytes(arcs), 0, ArcBytes(arcs[..k + 1]))
  {
    var n := |arcs| - 1;
    if k == n {
      assert arcs[..k + 1] == arcs;
    } else {
      assert arcs[..n][..k + 1] == arcs[..k + 1];
      ArcBytesPart(arcs[..n], k);
      assert ArcBytes(arcs)[..|ArcBytes(arcs[..n])|] == ArcBytes(arcs[..n]);
      HasPart(ArcBytes(arcs), 0, ArcBytes(arcs[..n]), 0, |ArcBytes(arcs[..k + 1])|);
    }
  }

  /** Reading the first `k` arcs. */
  lemma {:induction false} ReadArcs(s: seq<byte>, i: nat, acc: Oid, arcs: seq<u32>, k: nat)
    requires k <= |arcs| && |acc| + |arcs| <= MAX_ARCS && HasAt(s, i, ArcBytes(arcs))
    requires forall j :: 0 <= j < k ==> arcs[j] < 0x8000_0000
    ensures ArcsFrom(s, i, acc) == ArcsFrom(s, i + |ArcBytes(arcs[..k])|, acc + arcs[..k])
  {
    hide ArcAt, HasAt, ArcsFrom, ArcBytes;
    if k == 0 {
      NoArcsRead(acc, arcs);
    } else {
      ReadArcs(s, i, acc, arcs, k - 1);
      ArcAtIndex(s, i, arcs, k - 1);
      OneArc(s, i + |ArcBytes(arcs[..k - 1])|, acc + arcs[..k - 1], arcs[k - 1], i + |ArcBytes(arcs[..k])|);
      AppendOne(acc, arcs, k);
    }
  }

  lemma NoArcsRead(acc: Oid, arcs: seq<u32>)
    ensures acc + arcs[..0] == acc && ArcBytes(arcs[..0]) == []
  {
  }

  lemma AppendOne(acc: seq<u32>, arcs: seq<u32>, k: nat)
    requires 0 < k <= |arcs|
    ensures acc + arcs[..k - 1] + [arcs[k - 1]] == acc + arcs[..k]
  {
  }

  lemma OneArc(s: seq<byte>, a: nat, acc: Oid, v: u32, b: nat)
    requires a < |s| && |acc| < MAX_ARCS && ArcAt(s, a, 0) == Success((v, b))
    ensures ArcsFrom(s, a, acc) == ArcsFrom(s, b, acc + [v])
  {
    hide ArcAt;
  }

  /** What reading finds where arc `k` was written. */
  lemma ArcAtIndex(s: seq<byte>, i: nat, arcs: seq<u32>, k: nat)
    requires k < |arcs| && HasAt(s, i, ArcBytes(arcs))
    ensures var a := i + |ArcBytes(arcs[..k])|;
            && a < |s|
            && ArcAt(s, a, 0) == if arcs[k] < 0x8000_0000 then Success((arcs[k], i + |ArcBytes(arcs[..k + 1])|))
                                 else Failure(InvalidData)
  {
    hide *;
    ArcBytesPart(arcs, k);
    var upTo := ArcBytes(arcs[..k + 1]);
    ArcsSnoc(arcs, k);
    HasFits(ArcBytes(arcs), 0, upTo);
    HasPart(s, i, ArcBytes(arcs), 0, |upTo|);
    HasSlice(ArcBytes(arcs), 0, upTo);
    HasConcat(s, i, ArcBytes(arcs[..k]), Base128(arcs[k]));
    HasFits(s, i + |ArcBytes(arcs[..k])|, Base128(arcs[k]));
    ArcReadsBack(s, i + |ArcBytes(arcs[..k])|, arcs[k]);
  }

  lemma ArcsSnoc(arcs: seq<u32>, k: nat)
    requires k < |arcs|
    ensures ArcBytes(arcs[..k + 1]) == ArcBytes(arcs[..k]) + Base128(arcs[k])
  {
    hide Base128;
    assert arcs[..k + 1][..k] == arcs[..k];
  }

  /** A first arc of one octet, and what it says of the first two. */
  lemma CarriedFirst(oid: seq<u32>)
    requires Carried(oid)
    ensures FirstArc(oid) < 128 && Base128(FirstArc(oid)) == [FirstArc(oid)]
    ensures FirstTwo(FirstArc(oid)) == oid[..2]
  {
    assert Continued(0) == [];
  }

  lemma CarriedReadsBack(oid: seq<u32>)
    requires Carried(oid)
    ensures OidOf(OidContent(oid)) == Success(oid)
  {
    hide Base128, ArcBytes, FirstArc, FirstTwo, ArcsFrom;
    var s, rest, first := OidContent(oid), oid[2..], FirstArc(oid);
    CarriedFirst(oid);
    HasFront([first], ArcBytes(rest));
    ReadArcs(s, 1, oid[..2], rest, |rest|);
    assert rest[..|rest|] == rest && oid[..2] + rest == oid;
    NoMoreArcs(s, oid);
  }

  lemma NoMoreArcs(s: seq<byte>, acc: Oid)
    ensures ArcsFrom(s, |s|, acc) == Success(acc)
  {
  }

  // ------------------------------------------------------------------ nothing else reads back

  /** How many octets end an arc. */
  function Ends(s: seq<byte>): nat {
    if s == [] then 0 else Ends(s[..|s| - 1]) + if s[|s| - 1] < 128 then 1 else 0
  }

  lemma {:induction false} EndsConcat(a: seq<byte>, b: seq<byte>)
    ensures Ends(a + b) == Ends(a) + Ends(b)
  {
    if b == [] {
      assert a + b == a;
    } else {
      var n := |b| - 1;
      assert (a + b)[..|a + b| - 1] == a + b[..n];
      EndsConcat(a, b[..n]);
    }
  }

  lemma {:induction false} EndsOfContinued(v: nat)
    ensures Ends(Continued(v)) == 0
  {
    if v > 0 {
      EndsOfContinued(v / 128);
      var s := Continued(v);
      assert s[..|s| - 1] == Continued(v / 128);
    }
  }

  lemma EndsOfBase128(v: nat)
    ensures Ends(Base128(v)) == 1
  {
    EndsOfContinued(v / 128);
    var s := Base128(v);
    assert s[..|s| - 1] == Continued(v / 128);
  }

  lemma {:induction false} EndsOfArcs(arcs: seq<u32>)
    ensures Ends(ArcBytes(arcs)) == |arcs|
  {
    if arcs != [] {
      var n := |arcs| - 1;
      EndsOfArcs(arcs[..n]);
      EndsOfBase128(arcs[n]);
      EndsConcat(ArcBytes(arcs[..n]), Base128(arcs[n]));
    }
  }

  lemma {:induction false} ArcEndsOnce(s: seq<byte>, i: nat, acc: u32)
    requires ArcAt(s, i, acc).Success?
    ensures Ends(s[i..]) == 1 + Ends(s[ArcAt(s, i, acc).value.1..])
    decreases |s| - i
  {
    assert s[i..] == [s[i]] + s[i + 1..];
    EndsConcat([s[i]], s[i + 1..]);
    assert [s[i]][..0] == [];
    if s[i] >= 128 {
      ArcEndsOnce(s, i + 1, acc * 128 + s[i] % 128);
    }
  }

  /** Reading yields what it started with and one arc for each octet that ends one. */
  lemma {:induction false} ArcsCounted(s: seq<byte>, i: nat, acc: Oid)
    requires i <= |s| && ArcsFrom(s, i, acc).Success?
    ensures acc <= ArcsFrom(s, i, acc).value
    ensures |ArcsFrom(s, i, acc).value| == |acc| + Ends(s[i..])
    decreases |s| - i
  {
    if i == |s| {
      assert s[i..] == [];
    } else {
      var (arc, next) := ArcAt(s, i, 0).value;
      ArcEndsOnce(s, i, 0);
      ArcsCounted(s, next, acc + [arc]);
      assert acc <= acc + [arc];
    }
  }

  lemma OnlyCarriedReadBack(oid: seq<u32>)
    requires 2 <= |oid| <= MAX_ARCS && OidOf(OidContent(oid)) == Success(oid)
    ensures Carried(oid)
  {
    var s, first, rest := OidContent(oid), FirstArc(oid), oid[2..];
    FirstIsOneOctet(oid);
    assert Base128(first) == [first];
    assert oid[0] == FirstTwo(first)[0] && oid[1] == FirstTwo(first)[1] by {
      ArcsCounted(s, 1, FirstTwo(s[0]));
    }
    HasConcat(s, 0, [first], ArcBytes(rest));
    forall k | 0 <= k < |rest|
      ensures rest[k] < 0x8000_0000
    {
      LargeArcRefused(s, FirstTwo(s[0]), rest, k);
    }
    assert forall k :: 2 <= k < |oid| ==> oid[k] == rest[k - 2];
  }

  /** Were the first arc longer than one octet, one arc too many would be read. */
  lemma FirstIsOneOctet(oid: seq<u32>)
    requires 2 <= |oid| <= MAX_ARCS && OidOf(OidContent(oid)) == Success(oid)
    ensures Base128(FirstArc(oid)) == [FirstArc(oid)]
  {
    hide Base128, ArcBytes, FirstArc, FirstTwo, ArcsFrom, Ends;
    var s, first, rest := OidContent(oid), FirstArc(oid), oid[2..];
    TwoArcs(s[0]);
    ArcsCounted(s, 1, FirstTwo(s[0]));
    EndsFront(s);
    EndsConcat(Base128(first), ArcBytes(rest));
    EndsOfBase128(first);
    EndsOfArcs(rest);
    FirstOctetEnds(first, s[0]);
  }

  lemma TwoArcs(b: byte)
    ensures |FirstTwo(b)| == 2
  {
  }

  lemma EndsFront(s: seq<byte>)
    requires s != []
    ensures Ends(s) == (if s[0] < 128 then 1 else 0) + Ends(s[1..])
  {
    assert s == [s[0]] + s[1..];
    EndsConcat([s[0]], s[1..]);
    assert [s[0]][..0] == [];
  }

  /** An arc whose first octet is its last one is that octet. */
  lemma FirstOctetEnds(v: nat, b: byte)
    requires Base128(v)[0] == b && b < 128
    ensures Base128(v) == [v]
  {
    Base128HighBits(v);
    assert Continued(0) == [];
  }

  lemma {:induction false} LargeArcRefused(s: seq<byte>, acc: Oid, rest: seq<u32>, k: nat)
    requires |acc| + |rest| <= MAX_ARCS && HasAt(s, 1, ArcBytes(rest)) && ArcsFrom(s, 1, acc).Success?
    requires k < |rest|
    ensures rest[k] < 0x8000_0000
  {
    forall j | 0 <= j < k
      ensures rest[j] < 0x8000_0000
    {
      LargeArcRefused(s, acc, rest, j);
    }
    ReadArcs(s, 1, acc, rest, k);
    ArcAtIndex(s, 1, rest, k);
  }

  /** An identifier of 2 to 16 arcs reads back from what is written for it if and only if its
      first two arcs are in range and every later one is below 2^31. */
  lemma OidReadsBackExactly(oid: seq<u32>)
    requires 2 <= |oid| <= MAX_ARCS
    ensures OidOf(OidContent(oid)) == Success(oid) <==> Carried(oid)
  {
    if Carried(oid) {
      CarriedReadsBack(oid);
    } else if OidOf(OidContent(oid)) == Success(oid) {
      OnlyCarriedReadBack(oid);
    }
  }
}
