/** The limits of names in bridge-core/src/mdns.rs, and what its reader says of packets beyond them. */
module MdnsLimits {
  import opened Words
  import opened Octets
  import opened MdnsNames
  import opened MdnsReader

  // ------------------------------------------------------------------ what is written

  lemma {:induction false} JoinedSize(ls: seq<Label>)
    requires NoEmptyLabel(ls)
    ensures |ls| > 0 ==> EncodedLength(ls) == |Joined(ls)| + 2
    ensures |ls| == 0 ==> EncodedLength(ls) == 1
  {
    if ls != [] {
      var n := |ls| - 1;
      assert forall k :: 0 <= k < n ==> ls[..n][k] == ls[k];
      JoinedSize(ls[..n]);
    }
  }

  /** A name without empty labels is written if, and only if, no label has more than 63 octets and it has no
      more than 253, dots included: the limits of section 2.3.4 of RFC 1035. */
  lemma WritableExactly(text: seq<byte>)
    requires NoEmptyLabel(Labels(text))
    ensures Writable(text) <==> (forall k :: 0 <= k < |Labels(text)| ==> |Labels(text)[k]| <= 63) && |text| <= 253
  {
    hide Labels, Joined, EncodedLength;
    SplitThenJoin(text);
    JoinedSize(Labels(text));
  }

  // ------------------------------------------------------------------ eight pointers and no more

  /** A name of one letter and so many pointers, each to the one before. */
  function Chain(k: nat): (s: seq<byte>)
    requires k < 8000
    ensures |s| == 3 + 2 * k
  {
    if k == 0 then [0x01, 0x61, 0x00]
    else Chain(k - 1) + [0xC0 + Start(k - 1) / 0x100, Start(k - 1) % 0x100]
  }

  /** Where the name ends that goes through so many pointers. */
  function Start(k: nat): nat {
    if k == 0 then 0 else 1 + 2 * k
  }

  lemma OneLetter(data: seq<byte>, hops: nat)
    requires HasAt(data, 0, [0x01, 0x61, 0x00])
    ensures Expand(data, 0, hops) == Expansion([[0x61]], Success(3))
  {
    HasIndex(data, 0, [0x01, 0x61, 0x00], 0);
    HasIndex(data, 0, [0x01, 0x61, 0x00], 1);
    HasIndex(data, 0, [0x01, 0x61, 0x00], 2);
    assert Expand(data, 2, hops) == Expansion([], Success(3));
    assert data[1..2] == [0x61];
  }

  lemma PointerReads(data: seq<byte>, pos: nat, target: nat, hops: nat)
    requires target < 0x4000 && HasAt(data, pos, [0xC0 + target / 0x100, target % 0x100])
    ensures target >= pos || hops == 0 ==> Expand(data, pos, hops) == Expansion([], Failure(InvalidNamePointer))
    ensures target < pos && hops > 0 ==>
              var rest := Expand(data, target, hops - 1);
              Expand(data, pos, hops)
              == Expansion(rest.labels, if rest.end.Success? then Success(pos + 2) else rest.end)
  {
    HasIndex(data, pos, [0xC0 + target / 0x100, target % 0x100], 0);
    HasIndex(data, pos, [0xC0 + target / 0x100, target % 0x100], 1);
    HasFits(data, pos, [0xC0 + target / 0x100, target % 0x100]);
  }

  lemma {:induction false} ChainExpands(data: seq<byte>, k: nat, hops: nat)
    requires k < 8000 && HasAt(data, 0, Chain(k))
    ensures Expand(data, Start(k), hops)
            == if k <= hops then Expansion([[0x61]], Success(3 + 2 * k)) else Expansion([], Failure(InvalidNamePointer))
  {
    hide Expand, HasAt;
    if k == 0 {
      OneLetter(data, hops);
    } else {
      HasConcat(data, 0, Chain(k - 1), [0xC0 + Start(k - 1) / 0x100, Start(k - 1) % 0x100]);
      PointerReads(data, Start(k), Start(k - 1), hops);
      if hops > 0 {
        ChainExpands(data, k - 1, hops - 1);
      }
    }
  }

  lemma LetterIsText()
    ensures Utf8(Joined([[0x61]])) == [0x61] && Utf8(Joined([])) == []
  {
    Utf8Size([0x61]);
  }

  /** A name that goes through eight pointers is read, one that goes through nine is not. */
  lemma EightPointersExactly(k: nat)
    requires k < 8000
    ensures NameOf(Chain(k), Start(k))
            == if k <= 8 then Success(([0x61], 3 + 2 * k)) else Failure(InvalidNamePointer)
  {
    hide Expand, Chain, Utf8, Joined, Start;
    HasWhole(Chain(k));
    ChainExpands(Chain(k), k, 8);
    LetterIsText();
  }

  // ------------------------------------------------------------------ what is refused

  /** A pointer that does not lead back. */
  lemma ForwardPointerRefused(data: seq<byte>, pos: nat, target: nat)
    requires target < 0x4000 && target >= pos && HasAt(data, pos, [0xC0 + target / 0x100, target % 0x100])
    ensures NameOf(data, pos) == Failure(InvalidNamePointer)
  {
    hide Expand;
    PointerReads(data, pos, target, 8);
    LetterIsText();
  }

  /** A packet that ends before a name does: at its next octet, inside a label, or inside a pointer. */
  lemma CutNameRefused(data: seq<byte>, pos: nat)
    requires pos >= |data| || (0 < data[pos] < 0xC0 && pos + 1 + data[pos] > |data|)
             || (data[pos] >= 0xC0 && pos + 1 == |data|)
    ensures NameOf(data, pos) == Failure(UnexpectedEnd)
  {
    LetterIsText();
  }

  /** A name whose text would take more than 128 octets is refused, however it ends. */
  lemma LongNameRefused(data: seq<byte>, pos: nat)
    requires |Utf8(Joined(Expand(data, pos, 8).labels))| > 128
    ensures NameOf(data, pos) == Failure(InvalidData)
  {
    hide Utf8, Joined, Expand;
  }

  /** An octet from 80 on is taken for the character of that number, which RFC 3629 has in two octets. */
  lemma HighOctetIsUtf8(b: byte)
    requires b >= 0x80
    ensures var s := Utf8Char(b);
            && |s| == 2 && 0xC2 <= s[0] <= 0xC3 && 0x80 <= s[1] < 0xC0
            && (s[0] - 0xC0) * 0x40 + (s[1] - 0x80) == b
  {
  }

  // ------------------------------------------------------------------ questions

  /** A packet without a whole header, one without a question, and one that ends inside it. */
  lemma QueryRefused(data: seq<byte>)
    ensures |data| < 12 ==> QueryOf(data) == Failure(UnexpectedEnd)
    ensures |data| >= 12 && data[4] == 0 && data[5] == 0 ==> QueryOf(data) == Failure(InvalidData)
    ensures |data| >= 12 && (data[4] != 0 || data[5] != 0) && NameOf(data, 12).Failure? ==>
              QueryOf(data) == Failure(NameOf(data, 12).error)
    ensures |data| >= 12 && (data[4] != 0 || data[5] != 0) && NameOf(data, 12).Success? ==>
              (QueryOf(data) == Failure(UnexpectedEnd) <==> NameOf(data, 12).value.1 + 4 > |data|)
  {
    hide NameOf;
  }

  /** The fields of a header, each in two octets, most significant first (section 4.1.1 of RFC 1035). */
  lemma HeaderIsLaidOut(h: Header)
    ensures var s := HeaderOctets(h);
            && s[0] as int * 0x100 + s[1] as int == h.id && s[2] as int * 0x100 + s[3] as int == h.flags
            && s[4] as int * 0x100 + s[5] as int == h.qdCount && s[6] as int * 0x100 + s[7] as int == h.anCount
            && s[8] as int * 0x100 + s[9] as int == h.nsCount && s[10] as int * 0x100 + s[11] as int == h.arCount
  {
    HasWhole(HeaderOctets(h));
    HeaderParts(HeaderOctets(h), h);
    hide HeaderOctets;
  }
}
