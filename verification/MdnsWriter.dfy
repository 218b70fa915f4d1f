/** Writing names and answers: `write_name` and the `encode_*_response` functions of
    bridge-core/src/mdns.rs, with the record length filled in once the data is written. */
module MdnsWriter {
  import opened Words
  import opened Octets
  import opened MdnsNames

  const TYPE_A: u16 := 1
  const TYPE_PTR: u16 := 12
  const TYPE_TXT: u16 := 16
  const TYPE_SRV: u16 := 33
  const CLASS_IN_FLUSH: u16 := 0x8001
  const CLASS_IN: u16 := 0x0001
  const MDNS_TTL: u32 := 4500

  // ------------------------------------------------------------------ names

  method WriteLabel(buf: array<byte>, pos: nat, l: Label) returns (r: Result<nat, EncodeError>)
    modifies buf
    ensures |l| <= 63 ==> Puts(r, old(buf[..]), buf[..], pos, [|l|] + l)
    ensures |l| > 63 ==> r == Failure(StringTooLong)
    ensures r.Failure? ==> buf[..] == old(buf[..])
    ensures r.Failure? ==> r.error == StringTooLong || r.error == BufferTooSmall
  {
    if |l| > 63 {
      return Failure(StringTooLong);
    }
    r := Put(buf, pos, [|l|] + l);
  }

  lemma {:induction false} ShortPrefix(ls: seq<Label>, k: nat)
    requires k < |ls|
    ensures Short(ls[..k + 1]) <==> Short(ls[..k]) && |ls[k]| <= 63
    ensures Short(ls) ==> Short(ls[..k + 1])
    ensures Short(ls[..k + 1]) ==> WireLabels(ls[..k + 1]) == WireLabels(ls[..k]) + ([|ls[k]|] + ls[k])
  {
    var a := ls[..k + 1];
    assert a[..k] == ls[..k] && a[k] == ls[k];
    assert forall j :: 0 <= j < k ==> a[j] == ls[..k][j];
  }

  lemma WirePrefix(ls: seq<Label>, k: nat)
    requires k <= |ls| && Short(ls)
    ensures Short(ls[..k]) && |WireLabels(ls[..k])| <= |WireLabels(ls)|
  {
    assert ls == ls[..k] + ls[k..];
    WireAppend(ls[..k], ls[k..]);
  }

  /** What stands in the buffer after some labels: nothing yet, or their wire form. */
  ghost predicate LabelsIn(was: seq<byte>, now: seq<byte>, pos: nat, ls: seq<Label>)
    requires Short(ls)
  {
    if ls == [] then now == was else Puts(Success(pos + |WireLabels(ls)|), was, now, pos, WireLabels(ls))
  }

  lemma OneMoreLabel(r: Result<nat, EncodeError>, was: seq<byte>, mid: seq<byte>, now: seq<byte>, pos: nat,
                     ls: seq<Label>, l: Label)
    requires Short(ls) && |l| <= 63 && LabelsIn(was, mid, pos, ls)
    requires Puts(r, mid, now, pos + |WireLabels(ls)|, [|l|] + l)
    ensures Short(ls + [l]) && Puts(r, was, now, pos, WireLabels(ls + [l]))
    ensures r.Success? ==> r.value == pos + |WireLabels(ls + [l])| && LabelsIn(was, now, pos, ls + [l])
  {
    WireSnoc(ls, l);
    if ls == [] {
      assert WireLabels([]) == [];
      assert WireLabels(ls) + ([|l|] + l) == [|l|] + l;
    } else {
      PutsThen(r, was, mid, now, pos, WireLabels(ls), [|l|] + l);
    }
  }

  lemma KeptBefore(was: seq<byte>, now: seq<byte>, pos: nat, ls: seq<Label>)
    requires Short(ls) && LabelsIn(was, now, pos, ls)
    ensures |now| == |was| && SameBefore(was, now, pos)
  {
  }

  method WriteLabels(buf: array<byte>, pos: nat, ls: seq<Label>) returns (r: Result<nat, EncodeError>)
    requires |ls| > 0
    modifies buf
    ensures Short(ls) ==> Puts(r, old(buf[..]), buf[..], pos, WireLabels(ls))
    ensures !Short(ls) ==> r.Failure? && SameBefore(old(buf[..]), buf[..], pos)
    ensures r.Failure? ==> r.error == StringTooLong || r.error == BufferTooSmall
  {
    hide *;
    ghost var was := buf[..];
    var p := pos;
    var i := 0;
    NoLabels(ls, was, pos);
    while i < |ls|
      invariant 0 <= i <= |ls| && buf.Length == |was|
      invariant Short(ls[..i]) && p == pos + |WireLabels(ls[..i])|
      invariant LabelsIn(was, buf[..], pos, ls[..i])
    {
      ghost var mid := buf[..];
      ShortPrefix(ls, i);
      var next := WriteLabel(buf, p, ls[i]);
      assert ls[..i + 1] == ls[..i] + [ls[i]];
      if |ls[i]| <= 63 {
        OneMoreLabel(next, was, mid, buf[..], pos, ls[..i], ls[i]);
      }
      if next.Failure? {
        KeptBefore(was, mid, pos, ls[..i]);
        if Short(ls) {
          WirePrefix(ls, i + 1);
          FailsEarly(next, was, buf[..], pos, WireLabels(ls[..i + 1]), WireLabels(ls));
        }
        return next;
      }
      p := next.value;
      i := i + 1;
    }
    assert ls[..|ls|] == ls;
    AllIn(was, buf[..], pos, ls);
    return Success(p);
  }

  lemma NoLabels(ls: seq<Label>, was: seq<byte>, pos: nat)
    ensures Short(ls[..0]) && WireLabels(ls[..0]) == [] && LabelsIn(was, was, pos, ls[..0])
  {
  }

  lemma AllIn(was: seq<byte>, now: seq<byte>, pos: nat, ls: seq<Label>)
    requires |ls| > 0 && Short(ls) && LabelsIn(was, now, pos, ls)
    ensures Puts(Success(pos + |WireLabels(ls)|), was, now, pos, WireLabels(ls))
  {
  }

  /** The labels of a name and its domain; an empty domain contributes one empty part, as
      splitting an empty string does. */
  lemma NameParts(name: seq<byte>, domain: seq<byte>)
    ensures domain != [] ==> Labels(FullName(name, domain)) == Labels(name) + Labels(domain)
    ensures domain == [] ==> Labels(FullName(name, domain)) == Labels(name) && Labels(domain) == [[]]
    ensures EncodedLength(Labels(name) + Labels(domain)) == EncodedLength(Labels(FullName(name, domain)))
  {
    SplitAtDot(name, domain);
    if domain == [] {
      assert (Labels(name) + [[]])[..|Labels(name)|] == Labels(name);
    }
  }

  method MeasureName(parts: seq<Label>) returns (n: nat)
    ensures n == EncodedLength(parts)
  {
    n := 1;
    var i := 0;
    while i < |parts|
      invariant 0 <= i <= |parts| && n == EncodedLength(parts[..i])
    {
      assert parts[..i + 1][..i] == parts[..i];
      if parts[i] != [] {
        n := n + 1 + |parts[i]|;
      }
      i := i + 1;
    }
    assert parts[..|parts|] == parts;
  }

  lemma ShortParts(a: seq<Label>, b: seq<Label>)
    ensures Short(a + b) <==> Short(a) && Short(b)
  {
    if Short(a + b) {
      forall k | 0 <= k < |a| ensures |a[k]| <= 63 { assert (a + b)[k] == a[k]; }
      forall k | 0 <= k < |b| ensures |b[k]| <= 63 { assert (a + b)[|a| + k] == b[k]; }
    }
  }

  /** The length is checked before anything is written; then the labels, then the terminator. */
  method WriteName(buf: array<byte>, pos: nat, name: seq<byte>, domain: seq<byte>) returns (r: Result<nat, EncodeError>)
    modifies buf
    ensures Writable(FullName(name, domain)) ==> Puts(r, old(buf[..]), buf[..], pos, WireName(FullName(name, domain)))
    ensures !Writable(FullName(name, domain)) ==> r.Failure? && SameBefore(old(buf[..]), buf[..], pos)
    ensures EncodedLength(Labels(FullName(name, domain))) > 255 ==>
              r == Failure(StringTooLong) && buf[..] == old(buf[..])
    ensures r.Failure? ==> r.error == StringTooLong || r.error == BufferTooSmall
  {
    hide Puts, SameBefore, Short, WireLabels, Labels, EncodedLength, FullName;
    ghost var was := buf[..];
    ghost var ls := Labels(FullName(name, domain));
    NameParts(name, domain);
    SameAsItself(was, pos);
    var encodedLen := MeasureName(Labels(name) + Labels(domain));
    if encodedLen > 255 {
      return Failure(StringTooLong);
    }
    r := WriteParts(buf, pos, name, domain);
    if r.Failure? {
      if Short(ls) {
        FailsEarly(r, was, buf[..], pos, WireLabels(ls), WireLabels(ls) + [0]);
      }
      return;
    }
    ghost var mid := buf[..];
    PutsAt(r, was, mid, pos, WireLabels(ls));
    r := Put(buf, r.value, [0x00]);
    PutsThen(r, was, mid, buf[..], pos, WireLabels(ls), [0]);
  }

  method WriteParts(buf: array<byte>, pos: nat, name: seq<byte>, domain: seq<byte>)
    returns (r: Result<nat, EncodeError>)
    modifies buf
    ensures var ls := Labels(FullName(name, domain));
            && (Short(ls) ==> Puts(r, old(buf[..]), buf[..], pos, WireLabels(ls)))
            && (!Short(ls) ==> r.Failure? && SameBefore(old(buf[..]), buf[..], pos))
    ensures r.Failure? ==> r.error == StringTooLong || r.error == BufferTooSmall
  {
    hide *;
    NameParts(name, domain);
    ShortParts(Labels(name), Labels(domain));
    ghost var was := buf[..];
    r := WriteLabels(buf, pos, Labels(name));
    if domain != [] {
      if Short(Labels(name)) && Short(Labels(domain)) {
        WireAppend(Labels(name), Labels(domain));
      }
      ghost var mid := buf[..];
      if r.Failure? {
        if Short(Labels(name)) {
          NotPut(r, was, mid, pos, WireLabels(Labels(name)));
          if Short(Labels(domain)) {
            FailsEarly(r, was, mid, pos, WireLabels(Labels(name)),
                       WireLabels(Labels(name)) + WireLabels(Labels(domain)));
          }
        }
        return;
      }
      PutsAt(r, was, mid, pos, WireLabels(Labels(name)));
      r := WriteLabels(buf, r.value, Labels(domain));
      if Short(Labels(domain)) {
        PutsThen(r, was, mid, buf[..], pos, WireLabels(Labels(name)), WireLabels(Labels(domain)));
      } else {
        StillBefore(was, mid, buf[..], pos, WireLabels(Labels(name)));
      }
    }
  }

  lemma SameAsItself(was: seq<byte>, pos: nat)
    ensures SameBefore(was, was, pos)
  {
  }

  lemma StillBefore(was: seq<byte>, mid: seq<byte>, now: seq<byte>, pos: nat, x: seq<byte>)
    requires Puts(Success(pos + |x|), was, mid, pos, x) && |now| == |mid| && SameBefore(mid, now, pos + |x|)
    ensures |now| == |was| && SameBefore(was, now, pos)
  {
  }
}
