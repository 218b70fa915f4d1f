/** Reading names and questions from a packet: `read_name` and `decode_query` of
    bridge-core/src/mdns.rs. */
module MdnsReader {
  import opened Words
  import opened Octets
  import opened Numbers
  import opened MdnsNames

  method PushChar(name: seq<byte>, b: byte) returns (r: Result<seq<byte>, DecodeError>)
    ensures r == if |name + Utf8Char(b)| <= NAME_CAPACITY then Success(name + Utf8Char(b)) else Failure(InvalidData)
  {
    if |name| + |Utf8Char(b)| > NAME_CAPACITY {
      return Failure(InvalidData);
    }
    return Success(name + Utf8Char(b));
  }

  method PushText(name: seq<byte>, text: seq<byte>) returns (r: Result<seq<byte>, DecodeError>)
    requires |name| <= NAME_CAPACITY
    ensures var longer := name + Utf8(text);
            r == if |longer| <= NAME_CAPACITY then Success(longer) else Failure(InvalidData)
  {
    hide *;
    var longer := name;
    var i := 0;
    Utf8OfNothing(name);
    while i < |text|
      invariant 0 <= i <= |text|
      invariant longer == name + Utf8(text[..i]) && |longer| <= NAME_CAPACITY
    {
      OneMoreChar(name, text, i);
      var next := PushChar(longer, text[i]);
      if next.Failure? {
        return next;
      }
      longer := next.value;
      i := i + 1;
    }
    assert text[..|text|] == text;
    return Success(longer);
  }

  lemma OneMoreChar(name: seq<byte>, text: seq<byte>, i: nat)
    requires i < |text|
    ensures name + Utf8(text[..i + 1]) == name + Utf8(text[..i]) + Utf8Char(text[i])
    ensures |Utf8(text[..i + 1])| <= |Utf8(text)|
  {
    hide Utf8, Utf8Char;
    assert text[..i + 1] == text[..i] + [text[i]];
    Utf8Snoc(text[..i], text[i]);
    assert text == text[..i + 1] + text[i + 1..];
    Utf8Append(text[..i + 1], text[i + 1..]);
  }

  /** A separator unless the name is still empty, then the label, character by character. */
  method PushLabel(name: seq<byte>, l: Label) returns (r: Result<seq<byte>, DecodeError>)
    requires |name| <= NAME_CAPACITY
    ensures var longer := name + Utf8(if name == [] then l else [DOT] + l);
            r == if |longer| <= NAME_CAPACITY then Success(longer) else Failure(InvalidData)
  {
    hide Utf8, Utf8Char;
    var longer := name;
    if name != [] {
      DotText(l);
      Regroup(name, Utf8Char(DOT), Utf8(l));
      var first := PushChar(name, DOT);
      if first.Failure? {
        return first;
      }
      longer := first.value;
    }
    r := PushText(longer, l);
  }

  lemma DotAlone()
    ensures Utf8([DOT]) == [DOT] && Utf8Char(DOT) == [DOT] && Utf8([]) == []
  {
    Utf8Size([DOT]);
  }

  lemma DotText(l: Label)
    ensures Utf8([DOT] + l) == Utf8Char(DOT) + Utf8(l)
  {
    DotAlone();
    Utf8Append([DOT], l);
  }

  /** The text so far, one label longer. */
  lemma NextLabel(done: seq<Label>, l: Label)
    requires NoEmptyLabel(done) && l != []
    ensures var name := Utf8(Joined(done));
            Utf8(Joined(done + [l])) == name + Utf8(if name == [] then l else [DOT] + l)
    ensures NoEmptyLabel(done + [l])
  {
    hide Utf8;
    JoinedSnoc(done, l);
    DotAlone();
    if done != [] {
      assert Joined(done) != [];
      Utf8Size(Joined(done));
      Utf8Append(Joined(done), [DOT] + l);
      assert Joined(done) + [DOT] + l == Joined(done) + ([DOT] + l);
    }
  }

  /** Further labels only lengthen the text. */
  lemma {:induction false} TextGrows(done: seq<Label>, rest: seq<Label>)
    ensures |Utf8(Joined(done + rest))| >= |Utf8(Joined(done))|
  {
    hide Utf8;
    if rest == [] {
      assert done + rest == done;
    } else {
      var m := |rest| - 1;
      TextGrows(done, rest[..m]);
      JoinedSnoc(done + rest[..m], rest[m]);
      assert done + rest == (done + rest[..m]) + [rest[m]];
      Utf8Append(Joined(done + rest[..m]), [DOT] + rest[m]);
      assert Joined(done + rest[..m]) + [DOT] + rest[m] == Joined(done + rest[..m]) + ([DOT] + rest[m]);
      DotAlone();
    }
  }

  /** How the loop's state relates to the expansion of the whole name. */
  ghost predicate OnTheWay(whole: Expansion, done: seq<Label>, endPos: Option<nat>, rest: Expansion) {
    && whole.labels == done + rest.labels
    && whole.end == if rest.end.Success? && endPos.Some? then Success(endPos.value) else rest.end
  }

  lemma TakeLabel(whole: Expansion, done: seq<Label>, endPos: Option<nat>, l: Label, rest: Expansion)
    requires OnTheWay(whole, done, endPos, Prepend([l], rest))
    ensures OnTheWay(whole, done + [l], endPos, rest)
  {
  }

  lemma TakePointer(whole: Expansion, done: seq<Label>, endPos: Option<nat>, after: nat, at: Expansion, rest: Expansion)
    requires OnTheWay(whole, done, endPos, at)
    requires at == Expansion(rest.labels, if rest.end.Success? then Success(after) else rest.end)
    ensures OnTheWay(whole, done, if endPos.None? then Some(after) else endPos, rest)
  {
  }

  /** Where the walk stops, the labels are complete. */
  lemma Stopped(whole: Expansion, done: seq<Label>, endPos: Option<nat>, end: Result<nat, DecodeError>)
    requires OnTheWay(whole, done, endPos, Expansion([], end)) && |Utf8(Joined(done))| <= NAME_CAPACITY
    ensures Outcome(whole) == if end.Failure? then Failure(end.error)
                              else Success((Utf8(Joined(done)), if endPos.Some? then endPos.value else end.value))
  {
    assert done + [] == done;
  }

  /** The loop over positions, pointers and labels ends on every packet and finds exactly what the
      name there stands for. */
  method ReadName(data: seq<byte>, start: nat) returns (r: Result<(seq<byte>, nat), DecodeError>)
    ensures r == NameOf(data, start)
  {
    hide Utf8, OnTheWay, Outcome, Joined, NoEmptyLabel;
    ghost var whole := Expand(data, start, MAX_HOPS);
    ghost var done: seq<Label> := [];
    var name: seq<byte> := [];
    var pos: nat := start;
    var endPos: Option<nat> := None;
    var hops := 0;
    NothingRead(whole);
    while true
      invariant hops <= MAX_HOPS && |name| <= NAME_CAPACITY
      invariant name == Utf8(Joined(done)) && NoEmptyLabel(done)
      invariant OnTheWay(whole, done, endPos, Expand(data, pos, MAX_HOPS - hops))
      decreases MAX_HOPS - hops, |data| - pos
    {
      ghost var at := Expand(data, pos, MAX_HOPS - hops);
      if at.labels == [] {
        Stopped(whole, done, endPos, at.end);
      }
      if pos >= |data| {
        return Failure(UnexpectedEnd);
      }
      var len := data[pos];
      if len == 0 {
        if endPos.None? {
          endPos := Some(pos + 1);
        }
        return Success((name, endPos.value));
      } else if len >= 0xC0 {
        if pos + 1 >= |data| {
          return Failure(UnexpectedEnd);
        }
        var offset := PointerTarget(len, data[pos + 1]);
        if offset >= pos {
          return Failure(InvalidNamePointer);
        }
        if hops + 1 > MAX_HOPS {
          return Failure(InvalidNamePointer);
        }
        TakePointer(whole, done, endPos, pos + 2, at, Expand(data, offset, MAX_HOPS - (hops + 1)));
        if endPos.None? {
          endPos := Some(pos + 2);
        }
        hops := hops + 1;
        pos := offset;
      } else {
        pos := pos + 1;
        if pos + len > |data| {
          return Failure(UnexpectedEnd);
        }
        var l := data[pos..pos + len];
        ghost var rest := Expand(data, pos + len, MAX_HOPS - hops);
        TakeLabel(whole, done, endPos, l, rest);
        NextLabel(done, l);
        var longer := PushLabel(name, l);
        if longer.Failure? {
          TooLong(whole, done + [l], endPos, rest);
          return Failure(InvalidData);
        }
        name := longer.value;
        done := done + [l];
        pos := pos + len;
      }
    }
  }

  lemma NothingRead(whole: Expansion)
    ensures OnTheWay(whole, [], None, whole) && Utf8(Joined([])) == [] && NoEmptyLabel([])
  {
  }

  lemma TooLong(whole: Expansion, done: seq<Label>, endPos: Option<nat>, rest: Expansion)
    requires OnTheWay(whole, done, endPos, rest) && |Utf8(Joined(done))| > NAME_CAPACITY
    ensures Outcome(whole) == Failure(InvalidData)
  {
    TextGrows(done, rest.labels);
  }

  // ------------------------------------------------------------------ questions

  datatype Header = Header(id: u16, flags: u16, qdCount: u16, anCount: u16, nsCount: u16, arCount: u16)

  function HeaderOctets(h: Header): (s: seq<byte>)
    ensures |s| == 12
  {
    BeBytes(h.id, 2) + BeBytes(h.flags, 2) + BeBytes(h.qdCount, 2) + BeBytes(h.anCount, 2)
    + BeBytes(h.nsCount, 2) + BeBytes(h.arCount, 2)
  }

  datatype DnsQuery = DnsQuery(name: seq<byte>, qtype: u16, qclass: u16)

  /** `read_u16`. */
  function ReadU16(data: seq<byte>, pos: nat): u16
    requires pos + 2 <= |data|
  {
    (data[pos] as int) * 0x100 + data[pos + 1] as int
  }

  lemma U16ReadsBack(data: seq<byte>, pos: nat, v: u16)
    requires HasAt(data, pos, BeBytes(v, 2))
    ensures pos + 2 <= |data| && ReadU16(data, pos) == v
  {
    TwoBytes(v);
    HasFits(data, pos, BeBytes(v, 2));
    HasIndex(data, pos, BeBytes(v, 2), 0);
    HasIndex(data, pos, BeBytes(v, 2), 1);
  }

  method DecodeHeader(data: seq<byte>) returns (r: Result<Header, DecodeError>)
    ensures r.Success? <==> |data| >= 12
    ensures r.Failure? ==> r.error == UnexpectedEnd
    ensures forall h: Header :: HasAt(data, 0, HeaderOctets(h)) ==> r == Success(h)
    ensures r.Success? ==> r.value.qdCount == ReadU16(data, 4)
  {
    if |data| < 12 {
      return Failure(UnexpectedEnd);
    }
    var read := Header(ReadU16(data, 0), ReadU16(data, 2), ReadU16(data, 4), ReadU16(data, 6), ReadU16(data, 8),
                       ReadU16(data, 10));
    forall h: Header | HasAt(data, 0, HeaderOctets(h))
      ensures read == h
    {
      HeaderParts(data, h);
    }
    return Success(read);
  }

  lemma HeaderParts(data: seq<byte>, h: Header)
    requires HasAt(data, 0, HeaderOctets(h))
    ensures |data| >= 12 && ReadU16(data, 0) == h.id && ReadU16(data, 2) == h.flags && ReadU16(data, 4) == h.qdCount
    ensures ReadU16(data, 6) == h.anCount && ReadU16(data, 8) == h.nsCount && ReadU16(data, 10) == h.arCount
  {
    hide HasAt, ReadU16, BeBytes;
    var a, b, c, d, e, f := BeBytes(h.id, 2), BeBytes(h.flags, 2), BeBytes(h.qdCount, 2), BeBytes(h.anCount, 2),
        BeBytes(h.nsCount, 2), BeBytes(h.arCount, 2);
    HasConcat(data, 0, a + b + c + d + e, f);
    HasConcat(data, 0, a + b + c + d, e);
    HasConcat(data, 0, a + b + c, d);
    HasConcat(data, 0, a + b, c);
    HasConcat(data, 0, a, b);
    U16ReadsBack(data, 0, h.id);
    U16ReadsBack(data, 2, h.flags);
    U16ReadsBack(data, 4, h.qdCount);
    U16ReadsBack(data, 6, h.anCount);
    U16ReadsBack(data, 8, h.nsCount);
    U16ReadsBack(data, 10, h.arCount);
  }

  /** The first question of a packet: a name, in whatever form, and the four octets after it. */
  ghost function QueryOf(data: seq<byte>): Result<DnsQuery, DecodeError> {
    if |data| < 12 then Failure(UnexpectedEnd)
    else if ReadU16(data, 4) == 0 then Failure(InvalidData)
    else
      var n := NameOf(data, 12);
      if n.Failure? then Failure(n.error)
      else if |data| < n.value.1 + 4 then Failure(UnexpectedEnd)
      else Success(DnsQuery(n.value.0, ReadU16(data, n.value.1), ReadU16(data, n.value.1 + 2)))
  }

  method DecodeQuery(data: seq<byte>) returns (r: Result<DnsQuery, DecodeError>)
    ensures r == QueryOf(data)
  {
    hide NameOf;
    var header :- DecodeHeader(data);
    if header.qdCount == 0 {
      return Failure(InvalidData);
    }
    var named :- ReadName(data, 12);
    var pos := named.1;
    if |data| < pos + 4 {
      return Failure(UnexpectedEnd);
    }
    return Success(DnsQuery(named.0, ReadU16(data, pos), ReadU16(data, pos + 2)));
  }

  /** A query with at least one question returns that question, whatever follows it. */
  lemma QueryReadsBack(data: seq<byte>, h: Header, text: seq<byte>, qtype: u16, qclass: u16, tail: seq<byte>)
    requires h.qdCount > 0 && Writable(text) && NoEmptyLabel(Labels(text)) && Ascii(text) && |text| <= 128
    requires data == HeaderOctets(h) + (WireName(text) + (BeBytes(qtype, 2) + (BeBytes(qclass, 2) + tail)))
    ensures QueryOf(data) == Success(DnsQuery(text, qtype, qclass))
  {
    hide HeaderOctets, BeBytes, WireName, NameOf, ReadU16, Ascii, Writable, NoEmptyLabel;
    var n := 12 + |WireName(text)|;
    StartsWith(data, HeaderOctets(h), WireName(text), BeBytes(qtype, 2), BeBytes(qclass, 2), tail);
    HeaderParts(data, h);
    NameReadsBackExactly(data, 12, text);
    U16ReadsBack(data, n, qtype);
    U16ReadsBack(data, n + 2, qclass);
  }

  lemma StartsWith(data: seq<byte>, a: seq<byte>, b: seq<byte>, c: seq<byte>, d: seq<byte>, tail: seq<byte>)
    requires data == a + (b + (c + (d + tail)))
    ensures HasAt(data, 0, a) && HasAt(data, |a|, b) && HasAt(data, |a| + |b|, c) && HasAt(data, |a| + |b| + |c|, d)
  {
    assert data[0..|data|] == data;
    HasConcat(data, 0, a, b + (c + (d + tail)));
    HasConcat(data, |a|, b, c + (d + tail));
    HasConcat(data, |a| + |b|, c, d + tail);
    HasConcat(data, |a| + |b| + |c|, d, tail);
  }
}
