/** The answers of bridge-core/src/mdns.rs as a reader of RFC 1035 finds them: a response with one answer, its
    record, and data as long as the record announces. */
module MdnsRecords {
  import opened Words
  import opened Octets
  import opened Numbers
  import opened MdnsNames
  import opened MdnsReader
  import opened MdnsWriter
  import opened MdnsAnswers

  /** A record by section 4.1.3 of RFC 1035: the data is as long as the record announces. */
  datatype Record = Record(owner: seq<byte>, rrType: u16, rrClass: u16, ttl: nat, rdataStart: nat, rdata: seq<byte>)

  ghost function RecordAt(data: seq<byte>, pos: nat): Option<Record> {
    var n := NameOf(data, pos);
    if n.Failure? || n.value.1 + 10 > |data| then None
    else
      var p := n.value.1;
      var rdlength := ReadU16(data, p + 8);
      if p + 10 + rdlength > |data| then None
      else Some(Record(n.value.0, ReadU16(data, p), ReadU16(data, p + 2), BeVal(data[p + 4..p + 8]), p + 10,
                       data[p + 10..p + 10 + rdlength]))
  }

  /** Questions are passed over: a name, a type, a class. */
  ghost function AfterQuestions(data: seq<byte>, pos: nat, count: nat): Option<nat>
    decreases count
  {
    if count == 0 then Some(pos)
    else
      var n := NameOf(data, pos);
      if n.Failure? || n.value.1 + 4 > |data| then None else AfterQuestions(data, n.value.1 + 4, count - 1)
  }

  /** The first answer of a response, by the header of section 4.1.1: the response bit, a standard query,
      no error; the numbers of questions and of answers. */
  ghost function FirstRecord(data: seq<byte>): Option<Record> {
    if |data| < 12 || data[2] < 0x80 || data[2] / 8 % 16 != 0 || data[3] % 16 != 0 then None
    else if data[6] == 0 && data[7] == 0 then None
    else
      var p := AfterQuestions(data, 12, data[4] as int * 0x100 + data[5] as int);
      if p.None? then None else RecordAt(data, p.value)
  }

  ghost predicate Readable(text: seq<byte>) {
    Writable(text) && NoEmptyLabel(Labels(text)) && Ascii(text) && |text| <= 128
  }

  /** The header of every answer: identifier 0; a response, authoritative, whole; no question, one answer, no
      other record. */
  lemma AnswerHeader(owner: seq<byte>, rrType: u16, rrClass: u16, rdata: seq<byte>, tail: seq<byte>)
    requires Writable(owner) && |rdata| <= 0xFFFF
    ensures (Answer(owner, rrType, rrClass, rdata) + tail)[..12] == [0, 0, 0x84, 0, 0, 0, 0, 1, 0, 0, 0, 0]
  {
    hide BeBytes, WireName, Writable, HeaderOctets;
    HeadSplit(owner, rrType, rrClass, |rdata|);
    ResponseOctets();
    var h := HeaderOctets(ResponseHeader(1));
    assert (Answer(owner, rrType, rrClass, rdata) + tail)[..12] == h;
  }

  lemma ResponseOctets()
    ensures HeaderOctets(ResponseHeader(1)) == [0, 0, 0x84, 0, 0, 0, 0, 1, 0, 0, 0, 0]
  {
    hide BeBytes;
    TwoBytes(0);
    TwoBytes(1);
    TwoBytes(0x8400);
  }

  lemma HeaderAnnounces(data: seq<byte>)
    requires |data| >= 12 && data[..12] == [0, 0, 0x84, 0, 0, 0, 0, 1, 0, 0, 0, 0]
    ensures FirstRecord(data) == RecordAt(data, 12)
  {
    hide NameOf, RecordAt;
    assert data[2] == data[..12][2] && data[3] == data[..12][3] && data[4] == data[..12][4] && data[5] == data[..12][5];
    assert data[7] == data[..12][7];
  }

  /** Every answer is found behind its header as its record, and the announced length ends exactly at the
      message's end. */
  lemma AnswerReadsBack(owner: seq<byte>, rrType: u16, rrClass: u16, rdata: seq<byte>, tail: seq<byte>)
    requires Readable(owner) && |rdata| <= 0xFFFF
    ensures var message := Answer(owner, rrType, rrClass, rdata);
            FirstRecord(message + tail) == Some(Record(owner, rrType, rrClass, 4500, |message| - |rdata|, rdata))
            && ReadU16(message, |message| - |rdata| - 2) == |rdata|
  {
    hide HasAt, BeBytes, BeVal, WireName, HeaderOctets, NameOf, ReadU16, Labels, NoEmptyLabel, Ascii, FirstRecord;
    var message := Answer(owner, rrType, rrClass, rdata);
    var data := message + tail;
    AnswerHeader(owner, rrType, rrClass, rdata, tail);
    HeaderAnnounces(data);
    AnswerStands(data, owner, rrType, rrClass, rdata, tail);
    NameReadsBackExactly(data, 12, owner);
    var p := 12 + |WireName(owner)|;
    U16ReadsBack(data, p, rrType);
    U16ReadsBack(data, p + 2, rrClass);
    LengthFits(MDNS_TTL);
    BeRoundTrip(MDNS_TTL, 4);
    HasSlice(data, p + 4, BeBytes(MDNS_TTL, 4));
    U16ReadsBack(data, p + 8, |rdata|);
    SameU16(message, tail, p + 8);
    HasSlice(data, p + 10, rdata);
  }

  lemma SameU16(message: seq<byte>, tail: seq<byte>, pos: nat)
    requires pos + 2 <= |message|
    ensures ReadU16(message, pos) == ReadU16(message + tail, pos)
  {
  }

  lemma AnswerStands(data: seq<byte>, owner: seq<byte>, rrType: u16, rrClass: u16, rdata: seq<byte>, tail: seq<byte>)
    requires Writable(owner) && |rdata| <= 0xFFFF && data == Answer(owner, rrType, rrClass, rdata) + tail
    ensures var p := 12 + |WireName(owner)|;
            && HasAt(data, 12, WireName(owner)) && HasAt(data, p, BeBytes(rrType, 2))
            && HasAt(data, p + 2, BeBytes(rrClass, 2))
            && HasAt(data, p + 4, BeBytes(MDNS_TTL, 4)) && HasAt(data, p + 8, BeBytes(|rdata|, 2))
            && HasAt(data, p + 10, rdata)
            && |Answer(owner, rrType, rrClass, rdata)| == p + 10 + |rdata|
  {
    hide HasAt, BeBytes, WireName, HeaderOctets, Writable;
    HeadSplit(owner, rrType, rrClass, |rdata|);
    SevenParts(data, HeaderOctets(ResponseHeader(1)), WireName(owner), BeBytes(rrType, 2), BeBytes(rrClass, 2),
               BeBytes(MDNS_TTL, 4), BeBytes(|rdata|, 2), rdata, tail);
  }

  lemma SevenParts(data: seq<byte>, a: seq<byte>, b: seq<byte>, c: seq<byte>, d: seq<byte>, e: seq<byte>, f: seq<byte>,
                   g: seq<byte>, tail: seq<byte>)
    requires data == a + b + c + d + e + f + g + tail
    ensures HasAt(data, |a|, b) && HasAt(data, |a| + |b|, c) && HasAt(data, |a| + |b| + |c|, d)
    ensures HasAt(data, |a| + |b| + |c| + |d|, e) && HasAt(data, |a| + |b| + |c| + |d| + |e|, f)
            && HasAt(data, |a| + |b| + |c| + |d| + |e| + |f|, g)
  {
    hide HasAt;
    HasWhole(data);
    HasConcat(data, 0, a + b + c + d + e + f + g, tail);
    HasConcat(data, 0, a + b + c + d + e + f, g);
    HasConcat(data, 0, a + b + c + d + e, f);
    HasConcat(data, 0, a + b + c + d, e);
    HasConcat(data, 0, a + b + c, d);
    HasConcat(data, 0, a + b, c);
    HasConcat(data, 0, a, b);
  }

  // ------------------------------------------------------------------ the four answers

  /** The text ".local". */
  const DOT_LOCAL: seq<byte> := [0x2E, 0x6C, 0x6F, 0x63, 0x61, 0x6C]

  lemma LocalName(hostname: seq<byte>)
    ensures FullName(hostname, LOCAL) == hostname + DOT_LOCAL
  {
  }

  /** An address: type 1, class 1 with the flush bit, the four octets. */
  lemma AReadsBack(hostname: seq<byte>, ip: IpAddress, tail: seq<byte>)
    requires Readable(hostname + DOT_LOCAL)
    ensures Writable(FullName(hostname, LOCAL))
    ensures var message := Answer(FullName(hostname, LOCAL), TYPE_A, CLASS_IN_FLUSH, ip);
            FirstRecord(message + tail) == Some(Record(hostname + DOT_LOCAL, 1, 0x8001, 4500, |message| - 4, ip))
  {
    hide FirstRecord, Writable, Labels, NoEmptyLabel, Ascii, Answer;
    LocalName(hostname);
    AnswerReadsBack(hostname + DOT_LOCAL, TYPE_A, CLASS_IN_FLUSH, ip, tail);
  }

  /** A pointer: type 12, class 1. Its data is the instance's name, which ends with it. */
  lemma PtrReadsBack(service: seq<byte>, instance: seq<byte>, tail: seq<byte>)
    requires Readable(service) && Readable(instance) && |WireName(instance)| <= 0xFFFF
    ensures var message := Answer(service, TYPE_PTR, CLASS_IN, WireName(instance));
            var found := FirstRecord(message + tail);
            && found.Some? && found.value.owner == service && found.value.rrType == 12 && found.value.rrClass == 1
            && found.value.ttl == 4500
            && NameOf(message + tail, found.value.rdataStart)
               == Success((instance, found.value.rdataStart + |found.value.rdata|))
  {
    hide WireName, NameOf, Writable, Labels, NoEmptyLabel, Ascii, Answer, FirstRecord;
    var message := Answer(service, TYPE_PTR, CLASS_IN, WireName(instance));
    AnswerReadsBack(service, TYPE_PTR, CLASS_IN, WireName(instance), tail);
    AnswerStands(message + tail, service, TYPE_PTR, CLASS_IN, WireName(instance), tail);
    NameReadsBackExactly(message + tail, |message| - |WireName(instance)|, instance);
  }

  /** A service: type 33, class 1 with the flush bit. Its data is priority and weight 0, the port, and the
      host's name, which ends with it (RFC 2782). */
  lemma SrvReadsBack(instance: seq<byte>, hostname: seq<byte>, port: u16, tail: seq<byte>)
    requires Readable(instance) && Readable(hostname + DOT_LOCAL)
    requires |WireName(hostname + DOT_LOCAL)| + 6 <= 0xFFFF
    ensures Writable(FullName(hostname, LOCAL)) && |SrvData(port, FullName(hostname, LOCAL))| <= 0xFFFF
    ensures var message := Answer(instance, TYPE_SRV, CLASS_IN_FLUSH, SrvData(port, FullName(hostname, LOCAL)));
            var found := FirstRecord(message + tail);
            && found.Some? && found.value.owner == instance && found.value.rrType == 33
            && found.value.rrClass == 0x8001 && found.value.ttl == 4500 && |found.value.rdata| > 6
            && found.value.rdata[..6] == [0, 0, 0, 0, port / 0x100, port % 0x100]
            && NameOf(message + tail, found.value.rdataStart + 6)
               == Success((hostname + DOT_LOCAL, found.value.rdataStart + |found.value.rdata|))
  {
    hide WireName, NameOf, Writable, Labels, NoEmptyLabel, Ascii, Answer, BeBytes, HasAt, FirstRecord;
    LocalName(hostname);
    var host := hostname + DOT_LOCAL;
    var rdata := SrvData(port, host);
    var message := Answer(instance, TYPE_SRV, CLASS_IN_FLUSH, rdata);
    var data := message + tail;
    AnswerReadsBack(instance, TYPE_SRV, CLASS_IN_FLUSH, rdata, tail);
    AnswerStands(data, instance, TYPE_SRV, CLASS_IN_FLUSH, rdata, tail);
    var start := |message| - |rdata|;
    SrvOctets(port, host);
    HasConcat(data, start, BeBytes(0, 2) + BeBytes(0, 2) + BeBytes(port, 2), WireName(host));
    NameReadsBackExactly(data, start + 6, host);
  }

  lemma SrvOctets(port: u16, host: seq<byte>)
    requires Writable(host)
    ensures BeBytes(0, 2) + BeBytes(0, 2) + BeBytes(port, 2) == [0, 0, 0, 0, port / 0x100, port % 0x100]
    ensures SrvData(port, host)[..6] == [0, 0, 0, 0, port / 0x100, port % 0x100]
    ensures |SrvData(port, host)| == 6 + |WireName(host)| > 6
  {
    hide BeBytes, WireLabels, Labels, Writable;
    TwoBytes(0);
    TwoBytes(port);
  }
}
