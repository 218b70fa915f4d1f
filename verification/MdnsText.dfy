/** The key and value pairs of a TXT answer, as section 6 of RFC 6763 has them read. */
module MdnsText {
  import opened Words
  import opened Octets
  import opened MdnsWriter
  import opened MdnsAnswers
  import opened MdnsRecords

  // ------------------------------------------------------------------ strings

  /** The strings of a TXT record, each behind its length (section 3.3.14 of RFC 1035). */
  function Strings(rdata: seq<byte>): Option<seq<seq<byte>>>
    decreases |rdata|
  {
    if rdata == [] then Some([])
    else if 1 + rdata[0] > |rdata| then None
    else
      var rest := Strings(rdata[1 + rdata[0]..]);
      if rest.None? then None else Some([rdata[1..1 + rdata[0]]] + rest.value)
  }

  /** The first string, and what the rest holds. */
  lemma FirstString(data: seq<byte>, n: nat)
    requires 1 <= n <= |data| && n == 1 + data[0] as int
    ensures Strings(data) == if Strings(data[n..]).None? then None else Some([data[1..n]] + Strings(data[n..]).value)
  {
    var k := data[0];
    assert data[1 + k..] == data[n..] && data[1..1 + k] == data[1..n];
  }

  lemma FrontOf(a: seq<byte>, b: seq<byte>, n: nat)
    requires 1 <= n <= |a|
    ensures (a + b)[n..] == a[n..] + b && (a + b)[1..n] == a[1..n] && (a + b)[0] == a[0]
  {
  }

  lemma {:induction false} StringsAppend(a: seq<byte>, b: seq<byte>)
    requires Strings(a).Some? && Strings(b).Some?
    ensures Strings(a + b) == Some(Strings(a).value + Strings(b).value)
  {
    if a == [] {
      NoStrings();
      assert a + b == b;
      assert [] + Strings(b).value == Strings(b).value;
    } else {
      StringInFront(a);
      hide Strings;
      var n := 1 + a[0] as int;
      var s := a[1..n];
      FirstString(a, n);
      StringsAppend(a[n..], b);
      FrontOf(a, b, n);
      FirstString(a + b, n);
      Regroup([s], Strings(a[n..]).value, Strings(b).value);
    }
  }

  lemma StringInFront(a: seq<byte>)
    requires Strings(a).Some? && a != []
    ensures 1 + a[0] as int <= |a|
  {
  }

  function PairTexts(txt: seq<TxtPair>): seq<seq<byte>> {
    if txt == [] then [] else PairTexts(txt[..|txt| - 1]) + [PairText(txt[|txt| - 1])]
  }

  /** Every string comes back, in order. */
  lemma {:induction false} TxtReadsBack(txt: seq<TxtPair>)
    requires PairsFit(txt)
    ensures Strings(TxtOctets(txt)) == Some(PairTexts(txt))
  {
    hide PairText, Strings;
    if txt == [] {
      NoStrings();
    } else {
      var n := |txt| - 1;
      var s := PairText(txt[n]);
      TxtReadsBack(txt[..n]);
      OneString(s);
      StringsAppend(TxtOctets(txt[..n]), [|s|] + s);
    }
  }

  lemma NoStrings()
    ensures Strings([]) == Some([])
  {
  }

  lemma OneString(s: seq<byte>)
    requires |s| <= 255
    ensures Strings([|s|] + s) == Some([s])
  {
    hide Strings;
    var x := [|s|] + s;
    var n := 1 + |s|;
    FirstString(x, n);
    assert x[n..] == [];
    assert x[1..n] == s;
    NoStrings();
    assert [s] + [] == [s];
  }

  // ------------------------------------------------------------------ pairs

  const EQUALS: byte := 0x3D

  /** The place of the first equals sign, or the length. */
  function FirstEquals(s: seq<byte>): (k: nat)
    ensures k <= |s| && EQUALS !in s[..k] && (k < |s| ==> s[k] == EQUALS)
  {
    if s == [] || s[0] == EQUALS then 0
    else
      var k := FirstEquals(s[1..]);
      assert s[..k + 1] == [s[0]] + s[1..][..k];
      k + 1
  }

  /** A string split at its first equals sign; without one it is a key alone. */
  function PairOf(s: seq<byte>): TxtPair {
    var k := FirstEquals(s);
    TxtPair(s[..k], if k < |s| then s[k + 1..] else [])
  }

  function PairsOf(strings: seq<seq<byte>>): (pairs: seq<TxtPair>)
    ensures |pairs| == |strings|
  {
    seq(|strings|, k requires 0 <= k < |strings| => PairOf(strings[k]))
  }

  /** What a reader of the record's data takes for its pairs. */
  function PairsIn(rdata: seq<byte>): Option<seq<TxtPair>> {
    var strings := Strings(rdata);
    if strings.None? then None else Some(PairsOf(strings.value))
  }

  ghost predicate PlainKeys(txt: seq<TxtPair>) {
    forall k :: 0 <= k < |txt| ==> EQUALS !in txt[k].key
  }

  lemma FirstEqualsAt(s: seq<byte>, k: nat)
    requires k <= |s| && EQUALS !in s[..k] && (k < |s| ==> s[k] == EQUALS)
    ensures FirstEquals(s) == k
  {
    hide FirstEquals;
    PrefixHolds(s, k);
    PrefixHolds(s, FirstEquals(s));
  }

  lemma PrefixHolds(s: seq<byte>, k: nat)
    requires k <= |s|
    ensures forall j :: 0 <= j < k ==> s[j] in s[..k]
  {
    assert forall j :: 0 <= j < k ==> s[j] == s[..k][j];
  }

  lemma PairTextParts(p: TxtPair)
    ensures |PairText(p)| >= |p.key| && PairText(p)[..|p.key|] == p.key
    ensures p.value == [] ==> PairText(p) == p.key
    ensures p.value != [] ==> |PairText(p)| > |p.key| && PairText(p)[|p.key|] == EQUALS
                              && PairText(p)[|p.key| + 1..] == p.value
  {
  }

  /** A pair comes back from its string exactly when its key has no equals sign. */
  lemma PairReadsBackExactly(p: TxtPair)
    ensures PairOf(PairText(p)) == p <==> EQUALS !in p.key
  {
    hide PairText, FirstEquals;
    PairTextParts(p);
    if EQUALS !in p.key {
      FirstEqualsAt(PairText(p), |p.key|);
    }
  }

  lemma {:induction false} PairTextsAt(txt: seq<TxtPair>, k: nat)
    requires k < |txt|
    ensures |PairTexts(txt)| == |txt| && PairTexts(txt)[k] == PairText(txt[k])
  {
    hide PairText;
    if k < |txt| - 1 {
      PairTextsAt(txt[..|txt| - 1], k);
    } else if k > 0 {
      PairTextsAt(txt[..|txt| - 1], k - 1);
    }
  }

  lemma {:induction false} AsManyTexts(txt: seq<TxtPair>)
    ensures |PairTexts(txt)| == |txt|
  {
    if txt != [] {
      PairTextsAt(txt, 0);
    }
  }

  lemma PairsOfTexts(txt: seq<TxtPair>, k: nat)
    requires k < |txt|
    ensures |PairsOf(PairTexts(txt))| == |txt|
    ensures PairsOf(PairTexts(txt))[k] == txt[k] <==> EQUALS !in txt[k].key
  {
    hide PairOf, PairText, PairTexts;
    PairTextsAt(txt, k);
    PairReadsBackExactly(txt[k]);
  }

  /** All pairs come back, in order, exactly when no key has an equals sign. */
  lemma PairsReadBackExactly(txt: seq<TxtPair>)
    requires PairsFit(txt)
    ensures PairsIn(TxtOctets(txt)) == Some(txt) <==> PlainKeys(txt)
  {
    hide PairText, PairTexts, Strings, PairsOf, TxtOctets;
    TxtReadsBack(txt);
    AsManyTexts(txt);
    var pairs := PairsOf(PairTexts(txt));
    assert |pairs| == |txt|;
    forall k | 0 <= k < |txt|
      ensures pairs[k] == txt[k] <==> EQUALS !in txt[k].key
    {
      PairsOfTexts(txt, k);
    }
    if PlainKeys(txt) {
      assert pairs == txt;
    }
  }

  /** A pair is written in one string exactly when its key, and its value behind an equals sign if there is
      one, have at most 255 octets. */
  lemma PairsFitExactly(txt: seq<TxtPair>)
    ensures PairsFit(txt) <==>
              forall k :: 0 <= k < |txt| ==>
                |txt[k].key| + (if |txt[k].value| == 0 then 0 else 1 + |txt[k].value|) <= 255
  {
    hide PairText;
    forall k | 0 <= k < |txt|
      ensures |PairText(txt[k])| == |txt[k].key| + if |txt[k].value| == 0 then 0 else 1 + |txt[k].value|
    {
      PairSize(txt[k]);
    }
  }

  lemma PairSize(p: TxtPair)
    ensures |PairText(p)| == |p.key| + if |p.value| == 0 then 0 else 1 + |p.value|
  {
  }

  /** The same from the whole answer: the record that a reader finds holds the pairs. */
  lemma TxtAnswerReadsBackExactly(instance: seq<byte>, txt: seq<TxtPair>, tail: seq<byte>)
    requires Readable(instance) && PairsFit(txt) && |TxtOctets(txt)| <= 0xFFFF
    ensures var found := FirstRecord(Answer(instance, TYPE_TXT, CLASS_IN_FLUSH, TxtOctets(txt)) + tail);
            && found.Some? && found.value.owner == instance && found.value.rrType == 16
            && found.value.rrClass == 0x8001 && found.value.ttl == 4500
            && (PairsIn(found.value.rdata) == Some(txt) <==> PlainKeys(txt))
  {
    hide PairsIn, TxtOctets, PairsFit, PlainKeys, Answer, FirstRecord, Readable;
    AnswerReadsBack(instance, TYPE_TXT, CLASS_IN_FLUSH, TxtOctets(txt), tail);
    PairsReadBackExactly(txt);
  }

  /** With an equals sign in the key `a=b`, two different pairs, a=b and c, and a and b=c, are written alike. */
  lemma TwoPairsAlike()
    ensures var p, q := TxtPair([0x61, EQUALS, 0x62], [0x63]), TxtPair([0x61], [0x62, EQUALS, 0x63]);
            && p != q && PairsFit([p]) && PairsFit([q]) && TxtOctets([p]) == TxtOctets([q])
  {
    var p, q := TxtPair([0x61, EQUALS, 0x62], [0x63]), TxtPair([0x61], [0x62, EQUALS, 0x63]);
    assert PairText(p) == [0x61, EQUALS, 0x62, EQUALS, 0x63];
    assert PairText(q) == [0x61, EQUALS, 0x62, EQUALS, 0x63];
    assert p.key[1] != q.key[0];
    OnePair(p);
    OnePair(q);
  }

  lemma OnePair(p: TxtPair)
    requires |PairText(p)| <= 255
    ensures PairsFit([p]) && TxtOctets([p]) == [|PairText(p)|] + PairText(p)
  {
    assert [p][..0] == [];
  }
}
