/** Domain names (sections 3.1 and 4.1.4 of RFC 1035) as bridge-core/src/mdns.rs writes and
    reads them. Texts are octet strings: the UTF-8 bytes of the source's strings. */
module MdnsNames {
  import opened Words
  import opened Octets

  type Label = seq<byte>

  const DOT: byte := 0x2E

  /** The capacity of the string a name is read into. */
  const NAME_CAPACITY := 128

  const MAX_HOPS := 8

  // ------------------------------------------------------------------ texts and labels

  /** `split('.')`: the stretches between dots, one more than there are dots. */
  function Labels(text: seq<byte>): (ls: seq<Label>)
    ensures |ls| > 0
  {
    if text == [] then [[]]
    else
      var n := |text| - 1;
      var ls := Labels(text[..n]);
      if text[n] == DOT then ls + [[]] else ls[..|ls| - 1] + [ls[|ls| - 1] + [text[n]]]
  }

  function Joined(ls: seq<Label>): (text: seq<byte>)
  {
    if ls == [] then []
    else if |ls| == 1 then ls[0]
    else Joined(ls[..|ls| - 1]) + [DOT] + ls[|ls| - 1]
  }

  ghost predicate DotFree(l: Label) {
    forall k :: 0 <= k < |l| ==> l[k] != DOT
  }

  lemma JoinedSnoc(ls: seq<Label>, l: Label)
    ensures Joined(ls + [l]) == if ls == [] then l else Joined(ls) + [DOT] + l
  {
    assert (ls + [l])[..|ls|] == ls;
  }

  function LabelsStep(ls: seq<Label>, b: byte): (r: seq<Label>)
    requires |ls| > 0
    ensures |r| > 0
  {
    if b == DOT then ls + [[]] else ls[..|ls| - 1] + [ls[|ls| - 1] + [b]]
  }

  lemma LabelsSnoc(text: seq<byte>, b: byte)
    ensures Labels(text + [b]) == LabelsStep(Labels(text), b)
  {
    assert (text + [b])[..|text|] == text;
  }

  /** Splitting loses nothing. */
  lemma {:induction false} SplitThenJoin(text: seq<byte>)
    ensures Joined(Labels(text)) == text
    ensures forall k :: 0 <= k < |Labels(text)| ==> DotFree(Labels(text)[k])
  {
    if text != [] {
      var n := |text| - 1;
      SplitThenJoin(text[..n]);
      assert text == text[..n] + [text[n]];
      JoinedStep(Labels(text[..n]), text[n]);
      LabelsSnoc(text[..n], text[n]);
    }
  }

  lemma JoinedStep(ls: seq<Label>, b: byte)
    requires |ls| > 0
    ensures Joined(LabelsStep(ls, b)) == Joined(ls) + [b]
  {
    hide Joined;
    var m := |ls| - 1;
    if b == DOT {
      JoinedSnoc(ls, []);
    } else {
      LastOf(ls);
      JoinedSnoc(ls[..m], ls[m]);
      JoinedSnoc(ls[..m], ls[m] + [b]);
      Regroup(Joined(ls[..m]) + [DOT], ls[m], [b]);
    }
  }

  lemma LabelsOfNothing(text: seq<byte>)
    ensures Labels([]) == [[]] && text + [] == text
  {
  }

  /** A name and the domain it is completed with. */
  function FullName(name: seq<byte>, domain: seq<byte>): seq<byte> {
    if domain == [] then name else name + [DOT] + domain
  }

  lemma {:induction false} SplitAtDot(a: seq<byte>, b: seq<byte>)
    ensures Labels(a + [DOT] + b) == Labels(a) + Labels(b)
  {
    hide *;
    if b == [] {
      LabelsOfNothing(a + [DOT]);
      LabelsSnoc(a, DOT);
      DotStep(Labels(a));
    } else {
      var m := |b| - 1;
      SplitAtDot(a, b[..m]);
      LabelsSnoc(a + [DOT] + b[..m], b[m]);
      LabelsSnoc(b[..m], b[m]);
      StepOnRight(Labels(a), Labels(b[..m]), b[m]);
      LastOf(b);
      Regroup(a + [DOT], b[..m], [b[m]]);
    }
  }

  lemma DotStep(ls: seq<Label>)
    requires |ls| > 0
    ensures LabelsStep(ls, DOT) == ls + [[]]
  {
  }

  lemma StepOnRight(x: seq<Label>, y: seq<Label>, b: byte)
    requires |y| > 0
    ensures LabelsStep(x + y, b) == x + LabelsStep(y, b)
  {
    assert (x + y)[..|x + y| - 1] == x + y[..|y| - 1];
  }

  // ------------------------------------------------------------------ the uncompressed form

  function WireLabels(ls: seq<Label>): (s: seq<byte>)
    requires Short(ls)
  {
    if ls == [] then [] else
      WireLabels(ls[..|ls| - 1]) + ([|ls[|ls| - 1]|] + ls[|ls| - 1])
  }

  /** Labels within the length the writer accepts. */
  ghost predicate Short(ls: seq<Label>) {
    forall k :: 0 <= k < |ls| ==> |ls[k]| <= 63
  }

  function EncodedLength(ls: seq<Label>): (n: nat)
    ensures n >= 1
  {
    if ls == [] then 1
    else EncodedLength(ls[..|ls| - 1]) + if ls[|ls| - 1] == [] then 0 else 1 + |ls[|ls| - 1]|
  }

  /** What the writer demands of a name. */
  ghost predicate Writable(text: seq<byte>) {
    Short(Labels(text)) && EncodedLength(Labels(text)) <= 255
  }

  /** Every label behind its length, and a terminator. */
  ghost function WireName(text: seq<byte>): seq<byte>
    requires Writable(text)
  {
    WireLabels(Labels(text)) + [0]
  }

  ghost predicate NoEmptyLabel(ls: seq<Label>) {
    forall k :: 0 <= k < |ls| ==> ls[k] != []
  }

  lemma WireSnoc(ls: seq<Label>, l: Label)
    requires Short(ls) && |l| <= 63
    ensures Short(ls + [l]) && WireLabels(ls + [l]) == WireLabels(ls) + ([|l|] + l)
  {
    assert (ls + [l])[..|ls|] == ls;
  }

  lemma {:induction false} WireAppend(a: seq<Label>, b: seq<Label>)
    requires Short(a) && Short(b)
    ensures Short(a + b) && WireLabels(a + b) == WireLabels(a) + WireLabels(b)
  {
    if b == [] {
      assert a + b == a;
    } else {
      hide WireLabels;
      var m := |b| - 1;
      WireAppend(a, b[..m]);
      WireSnoc(a + b[..m], b[m]);
      WireSnoc(b[..m], b[m]);
      LastOf(b);
      Regroup(a, b[..m], [b[m]]);
      Regroup(WireLabels(a), WireLabels(b[..m]), [|b[m]|] + b[m]);
    }
  }

  /** The measured length is the wire length unless a label is empty, when it is too small. */
  lemma {:induction false} EncodedLengthIsWire(ls: seq<Label>)
    requires Short(ls)
    ensures NoEmptyLabel(ls) ==> EncodedLength(ls) == |WireLabels(ls)| + 1
    ensures !NoEmptyLabel(ls) ==> EncodedLength(ls) < |WireLabels(ls)| + 1
  {
    if ls != [] {
      var n := |ls| - 1;
      EncodedLengthIsWire(ls[..n]);
      assert NoEmptyLabel(ls) <==> NoEmptyLabel(ls[..n]) && ls[n] != [] by {
        assert ls == ls[..n] + [ls[n]];
      }
    }
  }

  // ------------------------------------------------------------------ what a name in a packet stands for

  /** The labels met from a position on, and how the walk ends: after the name's own terminator
      or first pointer, or with an error. */
  datatype Expansion = Expansion(labels: seq<Label>, end: Result<nat, DecodeError>)

  function Prepend(ls: seq<Label>, e: Expansion): Expansion {
    Expansion(ls + e.labels, e.end)
  }

  function PointerTarget(first: byte, second: byte): nat
    requires first >= 0xC0
  {
    (first - 0xC0) * 0x100 + second
  }

  /** The labels a name stands for, pointers replaced by what they point to, `hops` pointers at most. */
  function Expand(data: seq<byte>, pos: nat, hops: nat): Expansion
    decreases hops, |data| - pos
  {
    if pos >= |data| then Expansion([], Failure(UnexpectedEnd))
    else if data[pos] == 0 then Expansion([], Success(pos + 1))
    else if data[pos] >= 0xC0 then
      if pos + 1 >= |data| then Expansion([], Failure(UnexpectedEnd))
      else
        var target := PointerTarget(data[pos], data[pos + 1]);
        if target >= pos || hops == 0 then Expansion([], Failure(InvalidNamePointer))
        else
          var rest := Expand(data, target, hops - 1);
          Expansion(rest.labels, if rest.end.Success? then Success(pos + 2) else rest.end)
    else
      var next := pos + 1 + data[pos];
      if next > |data| then Expansion([], Failure(UnexpectedEnd))
      else Prepend([data[pos + 1..next]], Expand(data, next, hops))
  }

  /** Each octet read is taken as a character of its own and stored as UTF-8. */
  function Utf8Char(b: byte): seq<byte> {
    if b < 0x80 then [b] else [0xC0 + b / 64, 0x80 + b % 64]
  }

  function Utf8(s: seq<byte>): seq<byte> {
    if s == [] then [] else Utf8(s[..|s| - 1]) + Utf8Char(s[|s| - 1])
  }

  ghost predicate Ascii(s: seq<byte>) {
    forall k :: 0 <= k < |s| ==> s[k] < 0x80
  }

  lemma Utf8Snoc(s: seq<byte>, b: byte)
    ensures Utf8(s + [b]) == Utf8(s) + Utf8Char(b)
  {
    assert (s + [b])[..|s|] == s;
  }

  lemma Utf8OfNothing(s: seq<byte>)
    ensures Utf8([]) == [] && s + [] == s
  {
  }

  lemma {:induction false} Utf8Append(a: seq<byte>, b: seq<byte>)
    ensures Utf8(a + b) == Utf8(a) + Utf8(b)
  {
    hide *;
    if b == [] {
      Utf8OfNothing(a);
      Utf8OfNothing(Utf8(a));
    } else {
      var m := |b| - 1;
      Utf8Append(a, b[..m]);
      Utf8Snoc(a + b[..m], b[m]);
      Utf8Snoc(b[..m], b[m]);
      LastOf(b);
      Regroup(a, b[..m], [b[m]]);
      Regroup(Utf8(a), Utf8(b[..m]), Utf8Char(b[m]));
    }
  }

  lemma {:induction false} Utf8Size(s: seq<byte>)
    ensures |Utf8(s)| >= |s|
    ensures Utf8(s) == s <==> Ascii(s)
    ensures |Utf8(s)| == |s| <==> Ascii(s)
  {
    if s != [] {
      var n := |s| - 1;
      Utf8Size(s[..n]);
      assert s == s[..n] + [s[n]];
      if Ascii(s) {
        assert Ascii(s[..n]);
      }
    }
  }

  /** The dotted text of an expansion, if it fits the reader's string, and where it ended. */
  ghost function Outcome(e: Expansion): Result<(seq<byte>, nat), DecodeError> {
    var text := Utf8(Joined(e.labels));
    if |text| > NAME_CAPACITY then Failure(InvalidData)
    else if e.end.Success? then Success((text, e.end.value))
    else Failure(e.end.error)
  }

  /** What `read_name` is to return: the dotted text and the position after the name. */
  ghost function NameOf(data: seq<byte>, pos: nat): Result<(seq<byte>, nat), DecodeError> {
    Outcome(Expand(data, pos, MAX_HOPS))
  }

  // ------------------------------------------------------------------ reading back

  /** One label, of up to 191 octets, though none longer than 63 is written. */
  lemma LabelReadsBack(data: seq<byte>, pos: nat, l: Label, hops: nat)
    requires 1 <= |l| < 0xC0 && HasAt(data, pos, [|l|] + l)
    ensures Expand(data, pos, hops) == Prepend([l], Expand(data, pos + 1 + |l|, hops))
  {
    HasIndex(data, pos, [|l|] + l, 0);
    HasConcat(data, pos, [|l|], l);
    HasFits(data, pos + 1, l);
  }

  lemma PrependTwice(a: seq<Label>, b: seq<Label>, e: Expansion)
    ensures Prepend(a, Prepend(b, e)) == Prepend(a + b, e)
  {
    assert a + (b + e.labels) == a + b + e.labels;
  }

  /** Labels, up to whatever follows them. */
  lemma {:induction false} LabelsReadBack(data: seq<byte>, pos: nat, ls: seq<Label>, hops: nat)
    requires Short(ls) && NoEmptyLabel(ls) && HasAt(data, pos, WireLabels(ls))
    ensures Expand(data, pos, hops) == Prepend(ls, Expand(data, pos + |WireLabels(ls)|, hops))
  {
    hide Expand, HasAt;
    if ls == [] {
    } else {
      var n := |ls| - 1;
      var l := ls[n];
      HasConcat(data, pos, WireLabels(ls[..n]), [|l|] + l);
      LabelsReadBack(data, pos, ls[..n], hops);
      var mid := pos + |WireLabels(ls[..n])|;
      LabelReadsBack(data, mid, l, hops);
      PrependTwice(ls[..n], [l], Expand(data, mid + 1 + |l|, hops));
      assert ls == ls[..n] + [l];
    }
  }

  /** Labels and a terminator. */
  lemma TerminatedReadsBack(data: seq<byte>, pos: nat, ls: seq<Label>, hops: nat)
    requires Short(ls) && NoEmptyLabel(ls) && HasAt(data, pos, WireLabels(ls) + [0])
    ensures Expand(data, pos, hops) == Expansion(ls, Success(pos + |WireLabels(ls)| + 1))
  {
    hide WireLabels;
    HasConcat(data, pos, WireLabels(ls), [0]);
    LabelsReadBack(data, pos, ls, hops);
    HasIndex(data, pos + |WireLabels(ls)|, [0], 0);
  }

  lemma PointerReadsBack(data: seq<byte>, pos: nat, target: nat, hops: nat)
    requires target < 0x4000 && target < pos && HasAt(data, pos, [0xC0 + target / 0x100, target % 0x100])
    requires Expand(data, target, hops).end.Success?
    ensures Expand(data, pos, hops + 1) == Expansion(Expand(data, target, hops).labels, Success(pos + 2))
  {
    hide HasAt;
    var pointer := [0xC0 + target / 0x100, target % 0x100];
    HasIndex(data, pos, pointer, 0);
    HasIndex(data, pos, pointer, 1);
    HasFits(data, pos, pointer);
  }

  /** Compression: labels and a pointer to an earlier name stand for both, one hop dearer; the name
      ends after the pointer. */
  lemma CompressedReadsBack(data: seq<byte>, pos: nat, ls: seq<Label>, target: nat, hops: nat)
    requires Short(ls) && NoEmptyLabel(ls) && target < 0x4000 && target < pos + |WireLabels(ls)|
    requires HasAt(data, pos, WireLabels(ls) + [0xC0 + target / 0x100, target % 0x100])
    requires Expand(data, target, hops).end.Success?
    ensures Expand(data, pos, hops + 1)
            == Expansion(ls + Expand(data, target, hops).labels, Success(pos + |WireLabels(ls)| + 2))
  {
    hide WireLabels, HasAt, Short, NoEmptyLabel, Expand;
    var p := pos + |WireLabels(ls)|;
    HasConcat(data, pos, WireLabels(ls), [0xC0 + target / 0x100, target % 0x100]);
    LabelsReadBack(data, pos, ls, hops + 1);
    PointerReadsBack(data, p, target, hops);
  }

  /** One hop fewer is never better: what is read with some hops is read with more. */
  lemma {:induction false} MoreHops(data: seq<byte>, pos: nat, hops: nat, more: nat)
    requires hops <= more && Expand(data, pos, hops).end.Success?
    ensures Expand(data, pos, more) == Expand(data, pos, hops)
    decreases hops, |data| - pos
  {
    if data[pos] == 0 {
    } else if data[pos] >= 0xC0 {
      MoreHops(data, PointerTarget(data[pos], data[pos + 1]), hops - 1, more - 1);
    } else {
      MoreHops(data, pos + 1 + data[pos], hops, more);
    }
  }

  /** Whatever the octets, the labels are non-empty, lie inside the packet, and the name ends inside
      it, after where it began. */
  lemma {:induction false} ExpansionInside(data: seq<byte>, pos: nat, hops: nat)
    ensures NoEmptyLabel(Expand(data, pos, hops).labels)
    ensures Expand(data, pos, hops).end.Success? ==> pos < Expand(data, pos, hops).end.value <= |data|
    decreases hops, |data| - pos
  {
    if pos < |data| && data[pos] >= 0xC0 && pos + 1 < |data| {
      var target := PointerTarget(data[pos], data[pos + 1]);
      if target < pos && hops > 0 {
        ExpansionInside(data, target, hops - 1);
      }
    } else if pos < |data| && 0 < data[pos] < 0xC0 && pos + 1 + data[pos] <= |data| {
      ExpansionInside(data, pos + 1 + data[pos], hops);
    }
  }

  // ------------------------------------------------------------------ the writer's names

  lemma EmptyInside(ls: seq<Label>, k: nat)
    requires Short(ls) && k < |ls| && ls[k] == []
    ensures Short(ls[..k]) && Short(ls[k + 1..])
    ensures WireLabels(ls) + [0] == WireLabels(ls[..k]) + [0] + (WireLabels(ls[k + 1..]) + [0])
  {
    hide WireLabels;
    var a, b := ls[..k], ls[k + 1..];
    WireSnoc(a, []);
    WireAppend(a + [[]], b);
    SplitAround(ls, k);
    EmptyLabelOctets();
    Regroup(WireLabels(a) + [0], WireLabels(b), [0]);
  }

  lemma EmptyLabelOctets()
    ensures var l: Label := []; [|l|] + l == [0]
  {
  }

  lemma SplitAround<T>(s: seq<T>, k: nat)
    requires k < |s|
    ensures s == s[..k] + [s[k]] + s[k + 1..]
  {
  }

  /** The first empty label cuts the name short: the reader stops at its zero octet. */
  lemma CutShort(data: seq<byte>, pos: nat, ls: seq<Label>, hops: nat)
    requires Short(ls) && !NoEmptyLabel(ls) && HasAt(data, pos, WireLabels(ls) + [0])
    ensures Expand(data, pos, hops).end.Success? && Expand(data, pos, hops).end.value < pos + |WireLabels(ls)| + 1
  {
    hide Expand, HasAt, WireLabels;
    var k := FirstEmpty(ls);
    EmptyInside(ls, k);
    HasConcat(data, pos, WireLabels(ls[..k]) + [0], WireLabels(ls[k + 1..]) + [0]);
    TerminatedReadsBack(data, pos, ls[..k], hops);
  }

  function FirstEmpty(ls: seq<Label>): (k: nat)
    requires !NoEmptyLabel(ls)
    ensures k < |ls| && ls[k] == [] && NoEmptyLabel(ls[..k])
  {
    if ls[0] == [] then 0
    else
      assert exists j :: 0 <= j < |ls[1..]| && ls[1..][j] == [] by {
        var j :| 0 <= j < |ls| && ls[j] == [];
        assert ls[1..][j - 1] == [];
      }
      var k := FirstEmpty(ls[1..]);
      assert ls[..k + 1] == [ls[0]] + ls[1..][..k];
      k + 1
  }

  /** A written name reads back as its text, ending where the writer stopped, exactly when it is
      ASCII, has no empty label, and fits the reader's string. */
  lemma NameReadsBackExactly(data: seq<byte>, pos: nat, text: seq<byte>)
    requires Writable(text) && HasAt(data, pos, WireName(text))
    ensures NameOf(data, pos) == Success((text, pos + |WireName(text)|))
            <==> NoEmptyLabel(Labels(text)) && Ascii(text) && |text| <= 128
  {
    hide Labels, Expand, HasAt, Utf8;
    var ls := Labels(text);
    SplitThenJoin(text);
    Utf8Size(text);
    if NoEmptyLabel(ls) {
      TerminatedReadsBack(data, pos, ls, MAX_HOPS);
    } else {
      CutShort(data, pos, ls, MAX_HOPS);
    }
  }
}
