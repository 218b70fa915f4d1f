/** The four answers of bridge-core/src/mdns.rs, each a header, a record, and its data. */
module MdnsAnswers {
  import opened Words
  import opened Octets
  import opened Numbers
  import opened MdnsNames
  import opened MdnsReader
  import opened MdnsWriter

  // ------------------------------------------------------------------ what is written

  /** The text "local", in ASCII. */
  const LOCAL: seq<byte> := [0x6C, 0x6F, 0x63, 0x61, 0x6C]

  function ResponseHeader(anCount: u16): Header {
    Header(0, 0x8400, 0, anCount, 0, 0)
  }

  function RecordFields(rrType: u16, rrClass: u16, rdlength: u16): (s: seq<byte>)
    ensures |s| == 10
  {
    BeBytes(rrType, 2) + BeBytes(rrClass, 2) + BeBytes(MDNS_TTL, 4) + BeBytes(rdlength, 2)
  }

  /** Everything before the record's data. */
  ghost function Head(owner: seq<byte>, rrType: u16, rrClass: u16, rdlength: u16): seq<byte>
    requires Writable(owner)
  {
    HeaderOctets(ResponseHeader(1)) + WireName(owner) + RecordFields(rrType, rrClass, rdlength)
  }

  /** A response with one record. */
  ghost function Answer(owner: seq<byte>, rrType: u16, rrClass: u16, rdata: seq<byte>): seq<byte>
    requires Writable(owner) && |rdata| <= 0xFFFF
  {
    Head(owner, rrType, rrClass, |rdata|) + rdata
  }

  type IpAddress = s: seq<byte> | |s| == 4 witness [0, 0, 0, 0]

  datatype TxtPair = TxtPair(key: seq<byte>, value: seq<byte>)

  function PairText(p: TxtPair): seq<byte> {
    if p.value == [] then p.key else p.key + [0x3D] + p.value
  }

  ghost predicate PairsFit(txt: seq<TxtPair>) {
    forall k :: 0 <= k < |txt| ==> |PairText(txt[k])| <= 255
  }

  function TxtOctets(txt: seq<TxtPair>): seq<byte>
    requires PairsFit(txt)
  {
    if txt == [] then [] else
      TxtOctets(txt[..|txt| - 1]) + ([|PairText(txt[|txt| - 1])|] + PairText(txt[|txt| - 1]))
  }

  /** Priority and weight zero, the port, and the host. */
  ghost function SrvData(port: u16, host: seq<byte>): seq<byte>
    requires Writable(host)
  {
    BeBytes(0, 2) + BeBytes(0, 2) + BeBytes(port, 2) + WireName(host)
  }

  // ------------------------------------------------------------------ writing

  method EncodeHeader(buf: array<byte>, pos: nat, h: Header) returns (r: Result<nat, EncodeError>)
    modifies buf
    ensures Puts(r, old(buf[..]), buf[..], pos, HeaderOctets(h))
    ensures r.Failure? ==> r.error == BufferTooSmall
  {
    r := Put(buf, pos, HeaderOctets(h));
  }

  method WriteRrHeader(buf: array<byte>, pos: nat, rrType: u16, rrClass: u16, rdlength: u16)
    returns (r: Result<nat, EncodeError>)
    modifies buf
    ensures Puts(r, old(buf[..]), buf[..], pos, RecordFields(rrType, rrClass, rdlength))
    ensures r.Failure? ==> r.error == BufferTooSmall
  {
    r := Put(buf, pos, RecordFields(rrType, rrClass, rdlength));
  }

  /** Header, owner name and record fields: how every answer begins. */
  method WriteHead(buf: array<byte>, name: seq<byte>, domain: seq<byte>, rrType: u16, rrClass: u16, rdlength: u16)
    returns (r: Result<nat, EncodeError>)
    modifies buf
    ensures Writable(FullName(name, domain)) ==>
              Puts(r, old(buf[..]), buf[..], 0, Head(FullName(name, domain), rrType, rrClass, rdlength))
    ensures !Writable(FullName(name, domain)) ==> r.Failure?
    ensures r.Failure? ==> r.error == StringTooLong || r.error == BufferTooSmall
  {
    hide *;
    ghost var was := buf[..];
    ghost var owner := FullName(name, domain);
    ghost var a := HeaderOctets(ResponseHeader(1));
    r := EncodeHeader(buf, 0, ResponseHeader(1));
    ghost var b1 := buf[..];
    if r.Failure? {
      if Writable(owner) {
        HeadParts(owner, rrType, rrClass, rdlength);
        FailsEarly(r, was, b1, 0, a, Head(owner, rrType, rrClass, rdlength));
      }
      return;
    }
    PutsAt(r, was, b1, 0, a);
    r := WriteName(buf, r.value, name, domain);
    ghost var b2 := buf[..];
    if Writable(owner) {
      HeadParts(owner, rrType, rrClass, rdlength);
      PutsThen(r, was, b1, b2, 0, a, WireName(owner));
    }
    if r.Failure? {
      if Writable(owner) {
        FailsEarly(r, was, b2, 0, a + WireName(owner), Head(owner, rrType, rrClass, rdlength));
      }
      return;
    }
    PutsAt(r, was, b2, 0, a + WireName(owner));
    r := WriteRrHeader(buf, r.value, rrType, rrClass, rdlength);
    PutsThen(r, was, b2, buf[..], 0, a + WireName(owner), RecordFields(rrType, rrClass, rdlength));
  }

  lemma HeadParts(owner: seq<byte>, rrType: u16, rrClass: u16, rdlength: u16)
    requires Writable(owner)
    ensures Head(owner, rrType, rrClass, rdlength)
            == HeaderOctets(ResponseHeader(1)) + WireName(owner) + RecordFields(rrType, rrClass, rdlength)
    ensures |Head(owner, rrType, rrClass, rdlength)| == |HeaderOctets(ResponseHeader(1)) + WireName(owner)| + 10
    ensures |HeaderOctets(ResponseHeader(1))| == 12
  {
  }

  /** Once the data stands behind a head that announced length 0, its length is filled in. */
  method Backfill(buf: array<byte>, rdlengthPos: nat, rdataStart: nat, end: nat,
                  ghost was: seq<byte>, ghost owner: seq<byte>, ghost rrType: u16, ghost rrClass: u16,
                  ghost rdata: seq<byte>)
    returns (r: Result<nat, EncodeError>)
    requires Writable(owner) && rdataStart == |Head(owner, rrType, rrClass, 0)| && rdlengthPos + 2 == rdataStart
    requires end == rdataStart + |rdata| <= |was|
    requires Puts(Success(end), was, buf[..], 0, Head(owner, rrType, rrClass, 0) + rdata)
    modifies buf
    ensures |rdata| <= 0xFFFF ==> Puts(r, was, buf[..], 0, Answer(owner, rrType, rrClass, rdata))
    ensures |rdata| > 0xFFFF ==> r == Failure(StringTooLong)
    ensures r.Failure? ==> r.error == StringTooLong || r.error == BufferTooSmall
  {
    hide WireName, Writable, HeaderOctets, BeBytes, Puts;
    var rdataLen := end - rdataStart;
    if rdataLen > 0xFFFF {
      return Failure(StringTooLong);
    }
    var rdlength: u16 := rdataLen;
    ghost var mid := buf[..];
    BufferHolds(mid, was, Head(owner, rrType, rrClass, 0) + rdata, end);
    buf[rdlengthPos] := rdlength / 0x100;
    buf[rdlengthPos + 1] := rdlength % 0x100;
    ghost var front := HeaderOctets(ResponseHeader(1)) + WireName(owner) + BeBytes(rrType, 2) + BeBytes(rrClass, 2)
        + BeBytes(MDNS_TTL, 4);
    HeadSplit(owner, rrType, rrClass, 0);
    HeadSplit(owner, rrType, rrClass, rdlength);
    TwoBytes(rdlength);
    TwoPokes(mid, buf[..], rdlengthPos, BeBytes(rdlength, 2));
    Backfilled(was, mid, buf[..], front, BeBytes(0, 2), BeBytes(rdlength, 2), rdata);
    return Success(end);
  }

  lemma TwoPokes(was: seq<byte>, now: seq<byte>, pos: nat, x: seq<byte>)
    requires |x| == 2 && pos + 2 <= |was| && now == was[pos := x[0]][pos + 1 := x[1]]
    ensures now == Splice(was, pos, x)
  {
  }

  lemma BufferHolds(now: seq<byte>, was: seq<byte>, x: seq<byte>, end: nat)
    requires Puts(Success(end), was, now, 0, x) && end <= |was|
    ensures |now| == |was|
  {
  }

  lemma HeadSplit(owner: seq<byte>, rrType: u16, rrClass: u16, n: u16)
    requires Writable(owner)
    ensures Head(owner, rrType, rrClass, n)
            == HeaderOctets(ResponseHeader(1)) + WireName(owner) + BeBytes(rrType, 2) + BeBytes(rrClass, 2)
               + BeBytes(MDNS_TTL, 4) + BeBytes(n, 2)
  {
    hide HeaderOctets, WireName, BeBytes, Writable;
  }

  lemma Backfilled(was: seq<byte>, mid: seq<byte>, now: seq<byte>, front: seq<byte>, zero: seq<byte>, n: seq<byte>,
                   rdata: seq<byte>)
    requires |zero| == |n| && |front| + |n| + |rdata| <= |was|
    requires Puts(Success(|front| + |n| + |rdata|), was, mid, 0, front + zero + rdata)
    requires |front| + |n| <= |mid| && now == Splice(mid, |front|, n)
    ensures Puts(Success(|front| + |n| + |rdata|), was, now, 0, front + n + rdata)
  {
  }

  method EncodeAResponse(hostname: seq<byte>, ip: IpAddress, buf: array<byte>) returns (r: Result<nat, EncodeError>)
    modifies buf
    ensures var owner := FullName(hostname, LOCAL);
            && (Writable(owner) ==> Puts(r, old(buf[..]), buf[..], 0, Answer(owner, TYPE_A, CLASS_IN_FLUSH, ip)))
            && (!Writable(owner) ==> r.Failure?)
    ensures r.Failure? ==> r.error == StringTooLong || r.error == BufferTooSmall
  {
    hide *;
    ghost var was := buf[..];
    ghost var owner := FullName(hostname, LOCAL);
    r := WriteHead(buf, hostname, LOCAL, TYPE_A, CLASS_IN_FLUSH, 4);
    if Writable(owner) {
      AnswerParts(owner, TYPE_A, CLASS_IN_FLUSH, ip);
    }
    ghost var head := if Writable(owner) then Head(owner, TYPE_A, CLASS_IN_FLUSH, 4) else [];
    if r.Failure? {
      if Writable(owner) {
        FailsEarly(r, was, buf[..], 0, head, head + ip);
      }
      return;
    }
    ghost var mid := buf[..];
    PutsAt(r, was, mid, 0, head);
    r := Put(buf, r.value, ip);
    PutsThen(r, was, mid, buf[..], 0, head, ip);
  }

  lemma AnswerParts(owner: seq<byte>, rrType: u16, rrClass: u16, rdata: seq<byte>)
    requires Writable(owner) && |rdata| <= 0xFFFF
    ensures Answer(owner, rrType, rrClass, rdata) == Head(owner, rrType, rrClass, |rdata|) + rdata
    ensures |Head(owner, rrType, rrClass, 0)| == |Head(owner, rrType, rrClass, |rdata|)| >= 22
  {
  }

  /** Data that cannot be written behind the head cannot be written behind the finished head. */
  lemma AnswerTooBig(r: Result<nat, EncodeError>, was: seq<byte>, now: seq<byte>, owner: seq<byte>, rrType: u16,
                     rrClass: u16, part: seq<byte>, rdata: seq<byte>)
    requires Writable(owner) && |rdata| <= 0xFFFF && |part| <= |Head(owner, rrType, rrClass, 0)| + |rdata|
    requires Puts(r, was, now, 0, part) && r.Failure?
    ensures Puts(r, was, now, 0, Answer(owner, rrType, rrClass, rdata))
  {
    hide *;
    AnswerParts(owner, rrType, rrClass, rdata);
    FailsEarly(r, was, now, 0, part, Answer(owner, rrType, rrClass, rdata));
  }

  method EncodePtrResponse(service: seq<byte>, instance: seq<byte>, buf: array<byte>)
    returns (r: Result<nat, EncodeError>)
    modifies buf
    ensures Writable(service) && Writable(instance) && |WireName(instance)| <= 0xFFFF ==>
              Puts(r, old(buf[..]), buf[..], 0, Answer(service, TYPE_PTR, CLASS_IN, WireName(instance)))
    ensures !(Writable(service) && Writable(instance) && |WireName(instance)| <= 0xFFFF) ==> r.Failure?
    ensures r.Failure? ==> r.error == StringTooLong || r.error == BufferTooSmall
  {
    hide *;
    ghost var was := buf[..];
    NoDomain(service);
    NoDomain(instance);
    ghost var good := Writable(service) && Writable(instance) && |WireName(instance)| <= 0xFFFF;
    r := WriteHead(buf, service, [], TYPE_PTR, CLASS_IN, 0);
    ghost var mid := buf[..];
    if r.Failure? {
      if good {
        AnswerTooBig(r, was, mid, service, TYPE_PTR, CLASS_IN, Head(service, TYPE_PTR, CLASS_IN, 0),
                     WireName(instance));
      }
      return;
    }
    ghost var head := Head(service, TYPE_PTR, CLASS_IN, 0);
    PutsAt(r, was, mid, 0, head);
    var rdataStart := r.value;
    HeadParts(service, TYPE_PTR, CLASS_IN, 0);
    r := WriteName(buf, rdataStart, instance, []);
    if Writable(instance) {
      PutsThen(r, was, mid, buf[..], 0, head, WireName(instance));
    }
    if r.Failure? {
      if good {
        AnswerTooBig(r, was, buf[..], service, TYPE_PTR, CLASS_IN, head + WireName(instance), WireName(instance));
      }
      return;
    }
    PutsAt(r, was, buf[..], 0, head + WireName(instance));
    r := Backfill(buf, rdataStart - 2, rdataStart, r.value, was, service, TYPE_PTR, CLASS_IN, WireName(instance));
  }

  lemma NoDomain(name: seq<byte>)
    ensures FullName(name, []) == name
  {
  }

  method EncodeSrvResponse(instance: seq<byte>, hostname: seq<byte>, port: u16, buf: array<byte>)
    returns (r: Result<nat, EncodeError>)
    modifies buf
    ensures var host := FullName(hostname, LOCAL);
            var good := Writable(instance) && Writable(host) && |SrvData(port, host)| <= 0xFFFF;
            && (good ==> Puts(r, old(buf[..]), buf[..], 0,
                              Answer(instance, TYPE_SRV, CLASS_IN_FLUSH, SrvData(port, host))))
            && (!good ==> r.Failure?)
    ensures r.Failure? ==> r.error == StringTooLong || r.error == BufferTooSmall
  {
    hide *;
    ghost var was := buf[..];
    ghost var host := FullName(hostname, LOCAL);
    NoDomain(instance);
    ghost var good := Writable(instance) && Writable(host) && |SrvData(port, host)| <= 0xFFFF;
    r := WriteHead(buf, instance, [], TYPE_SRV, CLASS_IN_FLUSH, 0);
    ghost var b1 := buf[..];
    if r.Failure? {
      if good {
        AnswerTooBig(r, was, b1, instance, TYPE_SRV, CLASS_IN_FLUSH, Head(instance, TYPE_SRV, CLASS_IN_FLUSH, 0),
                     SrvData(port, host));
      }
      return;
    }
    ghost var head := Head(instance, TYPE_SRV, CLASS_IN_FLUSH, 0);
    PutsAt(r, was, b1, 0, head);
    var rdataStart := r.value;
    HeadParts(instance, TYPE_SRV, CLASS_IN_FLUSH, 0);
    var fixed := BeBytes(0, 2) + BeBytes(0, 2) + BeBytes(port, 2);
    r := Put(buf, rdataStart, fixed);
    ghost var b2 := buf[..];
    PutsThen(r, was, b1, b2, 0, head, fixed);
    if Writable(host) {
      SrvParts(port, host);
    }
    if r.Failure? {
      if good {
        AnswerTooBig(r, was, b2, instance, TYPE_SRV, CLASS_IN_FLUSH, head + fixed, SrvData(port, host));
      }
      return;
    }
    PutsAt(r, was, b2, 0, head + fixed);
    r := WriteName(buf, r.value, hostname, LOCAL);
    if Writable(host) {
      PutsThen(r, was, b2, buf[..], 0, head + fixed, WireName(host));
      Regroup(head, fixed, WireName(host));
    }
    if r.Failure? {
      if good {
        AnswerTooBig(r, was, buf[..], instance, TYPE_SRV, CLASS_IN_FLUSH, head + SrvData(port, host),
                     SrvData(port, host));
      }
      return;
    }
    PutsAt(r, was, buf[..], 0, head + SrvData(port, host));
    r := Backfill(buf, rdataStart - 2, rdataStart, r.value, was, instance, TYPE_SRV, CLASS_IN_FLUSH,
                  SrvData(port, host));
  }

  lemma SrvParts(port: u16, host: seq<byte>)
    requires Writable(host)
    ensures SrvData(port, host) == BeBytes(0, 2) + BeBytes(0, 2) + BeBytes(port, 2) + WireName(host)
    ensures |BeBytes(0, 2) + BeBytes(0, 2) + BeBytes(port, 2)| == 6
  {
  }

  /** One string: its length, the key, and the value behind an equals sign unless it is empty. */
  method WritePair(buf: array<byte>, pos: nat, p: TxtPair) returns (r: Result<nat, EncodeError>)
    modifies buf
    ensures |PairText(p)| <= 255 ==> Puts(r, old(buf[..]), buf[..], pos, [|PairText(p)|] + PairText(p))
    ensures |PairText(p)| > 255 ==> r == Failure(StringTooLong)
    ensures r.Failure? ==> buf[..] == old(buf[..])
    ensures r.Failure? ==> r.error == StringTooLong || r.error == BufferTooSmall
  {
    var pairLen := if p.value == [] then |p.key| else |p.key| + 1 + |p.value|;
    assert pairLen == |PairText(p)|;
    if pairLen > 255 {
      return Failure(StringTooLong);
    }
    if buf.Length < pos + 1 + pairLen {
      return Failure(BufferTooSmall);
    }
    r := Put(buf, pos, [pairLen] + PairText(p));
  }

  method WritePairs(buf: array<byte>, pos: nat, txt: seq<TxtPair>) returns (r: Result<nat, EncodeError>)
    requires pos <= buf.Length
    modifies buf
    ensures PairsFit(txt) ==> Puts(r, old(buf[..]), buf[..], pos, TxtOctets(txt))
    ensures !PairsFit(txt) ==> r.Failure?
    ensures r.Failure? ==> r.error == StringTooLong || r.error == BufferTooSmall
  {
    hide *;
    ghost var was := buf[..];
    var p := pos;
    var i := 0;
    NoPairs(txt, was, pos);
    while i < |txt|
      invariant 0 <= i <= |txt| && buf.Length == |was|
      invariant PairsFit(txt[..i]) && p == pos + |TxtOctets(txt[..i])|
      invariant Puts(Success(p), was, buf[..], pos, TxtOctets(txt[..i]))
    {
      ghost var mid := buf[..];
      OneMorePair(txt, i);
      r := WritePair(buf, p, txt[i]);
      if |PairText(txt[i])| <= 255 {
        PutsThen(r, was, mid, buf[..], pos, TxtOctets(txt[..i]), [|PairText(txt[i])|] + PairText(txt[i]));
      }
      if r.Failure? {
        if PairsFit(txt) {
          FailsEarly(r, was, buf[..], pos, TxtOctets(txt[..i + 1]), TxtOctets(txt));
        }
        return;
      }
      PutsAt(r, was, buf[..], pos, TxtOctets(txt[..i + 1]));
      p := r.value;
      i := i + 1;
    }
    assert txt[..|txt|] == txt;
    return Success(p);
  }

  lemma NoPairs(txt: seq<TxtPair>, was: seq<byte>, pos: nat)
    requires pos <= |was|
    ensures PairsFit(txt[..0]) && TxtOctets(txt[..0]) == [] && Puts(Success(pos), was, was, pos, [])
  {
  }

  lemma OneMorePair(txt: seq<TxtPair>, k: nat)
    requires k < |txt| && PairsFit(txt[..k])
    ensures PairsFit(txt[..k + 1]) <==> |PairText(txt[k])| <= 255
    ensures PairsFit(txt) ==> PairsFit(txt[..k + 1]) && |TxtOctets(txt[..k + 1])| <= |TxtOctets(txt)|
    ensures |PairText(txt[k])| <= 255 ==>
              TxtOctets(txt[..k + 1]) == TxtOctets(txt[..k]) + ([|PairText(txt[k])|] + PairText(txt[k]))
  {
    hide PairText;
    var a := txt[..k + 1];
    assert a[..k] == txt[..k] && a[k] == txt[k];
    assert forall j :: 0 <= j < k ==> a[j] == txt[..k][j];
    if PairsFit(txt) {
      TxtPrefix(txt, k + 1);
    }
  }

  lemma {:induction false} TxtPrefix(txt: seq<TxtPair>, k: nat)
    requires k <= |txt| && PairsFit(txt)
    ensures PairsFit(txt[..k]) && |TxtOctets(txt[..k])| <= |TxtOctets(txt)|
  {
    hide PairText;
    if k < |txt| {
      var n := |txt| - 1;
      TxtPrefix(txt[..n], k);
      assert txt[..n][..k] == txt[..k];
      LastPair(txt);
    } else {
      assert txt[..k] == txt;
    }
  }

  lemma LastPair(txt: seq<TxtPair>)
    requires |txt| > 0 && PairsFit(txt)
    ensures PairsFit(txt[..|txt| - 1]) && |TxtOctets(txt[..|txt| - 1])| <= |TxtOctets(txt)|
  {
    hide PairText;
  }

  method EncodeTxtResponse(instance: seq<byte>, txt: seq<TxtPair>, buf: array<byte>)
    returns (r: Result<nat, EncodeError>)
    modifies buf
    ensures Writable(instance) && PairsFit(txt) && |TxtOctets(txt)| <= 0xFFFF ==>
              Puts(r, old(buf[..]), buf[..], 0, Answer(instance, TYPE_TXT, CLASS_IN_FLUSH, TxtOctets(txt)))
    ensures !(Writable(instance) && PairsFit(txt) && |TxtOctets(txt)| <= 0xFFFF) ==> r.Failure?
    ensures r.Failure? ==> r.error == StringTooLong || r.error == BufferTooSmall
  {
    hide *;
    ghost var was := buf[..];
    NoDomain(instance);
    ghost var good := Writable(instance) && PairsFit(txt) && |TxtOctets(txt)| <= 0xFFFF;
    r := WriteHead(buf, instance, [], TYPE_TXT, CLASS_IN_FLUSH, 0);
    ghost var mid := buf[..];
    if r.Failure? {
      if good {
        AnswerTooBig(r, was, mid, instance, TYPE_TXT, CLASS_IN_FLUSH, Head(instance, TYPE_TXT, CLASS_IN_FLUSH, 0),
                     TxtOctets(txt));
      }
      return;
    }
    ghost var head := Head(instance, TYPE_TXT, CLASS_IN_FLUSH, 0);
    PutsAt(r, was, mid, 0, head);
    var rdataStart := r.value;
    HeadParts(instance, TYPE_TXT, CLASS_IN_FLUSH, 0);
    r := WritePairs(buf, rdataStart, txt);
    if PairsFit(txt) {
      PutsThen(r, was, mid, buf[..], 0, head, TxtOctets(txt));
    }
    if r.Failure? {
      if good {
        AnswerTooBig(r, was, buf[..], instance, TYPE_TXT, CLASS_IN_FLUSH, head + TxtOctets(txt), TxtOctets(txt));
      }
      return;
    }
    PutsAt(r, was, buf[..], 0, head + TxtOctets(txt));
    r := Backfill(buf, rdataStart - 2, rdataStart, r.value, was, instance, TYPE_TXT, CLASS_IN_FLUSH, TxtOctets(txt));
  }
}
