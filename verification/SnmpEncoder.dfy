/** The encoders of bridge-core/src/snmp.rs: into the caller's buffer, at a position, in place. */
module SnmpEncoder {
  import opened Words
  import opened Octets
  import opened Numbers
  import opened Ber
  import opened Oid
  import opened SnmpMessage

  method EncodeTlvHeader(buf: array<byte>, pos: nat, tag: byte, length: nat) returns (r: Result<nat, EncodeError>)
    modifies buf
    ensures length <= 0xFFFF ==> Puts(r, old(buf[..]), buf[..], pos, HeaderBytes(tag, length))
    ensures length > 0xFFFF ==> r == Failure(InvalidValue)
    ensures r.Failure? ==> buf[..] == old(buf[..])
  {
    if length <= 0xFFFF {
      HeaderOctets(tag, length);
    }
    if length <= 127 {
      r := Put(buf, pos, [tag, length]);
    } else if length <= 0xFF {
      r := Put(buf, pos, [tag, 0x81, length]);
    } else if length <= 0xFFFF {
      r := Put(buf, pos, [tag, 0x82, length / 256, length % 256]);
    } else {
      r := Failure(InvalidValue);
    }
  }

  lemma HeaderOctets(tag: byte, n: nat)
    requires n <= 0xFFFF
    ensures HeaderBytes(tag, n) == if n <= 127 then [tag, n] else if n <= 0xFF then [tag, 0x81, n]
                                   else [tag, 0x82, n / 256, n % 256]
  {
    assert BeBytes(n, 0) == [] && BeBytes(n / 256, 0) == [];
    assert n <= 0xFF ==> BeBytes(n, 1) == [n];
    assert BeBytes(n / 256, 1) == BeBytes(n / 256 / 256, 0) + [(n / 256) % 256];
    assert BeBytes(n, 2) == BeBytes(n / 256, 1) + [n % 256];
  }

  /** A header, then its content. */
  method EncodeTlv(buf: array<byte>, pos: nat, tag: byte, content: seq<byte>) returns (r: Result<nat, EncodeError>)
    modifies buf
    ensures |content| <= 0xFFFF ==> Puts(r, old(buf[..]), buf[..], pos, Tlv(tag, content))
    ensures |content| > 0xFFFF ==> r == Failure(InvalidValue)
  {
    hide Puts, HeaderBytes;
    ghost var was := buf[..];
    var p := EncodeTlvHeader(buf, pos, tag, |content|);
    if p.Failure? {
      if |content| <= 0xFFFF {
        FailsEarly(p, was, buf[..], pos, HeaderBytes(tag, |content|), Tlv(tag, content));
      }
      return p;
    }
    ghost var mid := buf[..];
    PutsAt(p, was, mid, pos, HeaderBytes(tag, |content|));
    r := Put(buf, p.value, content);
    PutsThen(r, was, mid, buf[..], pos, HeaderBytes(tag, |content|), content);
  }

  function Signed4(b: seq<byte>, len: nat): int
    requires |b| == 4 && 1 <= len <= 4
  {
    var t := if b[4 - len] >= 0x80 then b[4 - len] as int - 0x100 else b[4 - len] as int;
    if len == 1 then t
    else if len == 2 then t * 0x100 + b[3] as int
    else if len == 3 then t * 0x1_0000 + b[2] as int * 0x100 + b[3] as int
    else t * 0x100_0000 + b[1] as int * 0x1_0000 + b[2] as int * 0x100 + b[3] as int
  }

  /** The fewest octets that keep the value of four two's-complement octets. */
  method MinimalSignedByteLen(bytes: seq<byte>) returns (len: nat)
    requires |bytes| == 4
    ensures 1 <= len <= 4 && len == IntLength(Signed4(bytes, 4))
  {
    len := 4;
    while len > 1
      invariant 1 <= len <= 4 && Signed4(bytes, len) == Signed4(bytes, 4)
      invariant IntLength(Signed4(bytes, 4)) <= len
    {
      var hi, next := bytes[4 - len], bytes[4 - len + 1];
      if (hi == 0x00 && next < 0x80) || (hi == 0xFF && next >= 0x80) {
        len := len - 1;
      } else {
        break;
      }
    }
  }

  lemma LowDigit(x: nat)
    ensures x == 256 * (x / 256) + x % 256
  {
  }

  lemma FourDigits(u: u32)
    ensures u == (u / 0x100_0000) * 0x100_0000 + (u / 0x1_0000 % 0x100) * 0x1_0000 + (u / 0x100 % 0x100) * 0x100
                 + u % 0x100
    ensures u >= 0x8000_0000 <==> u / 0x100_0000 >= 0x80
  {
    LowDigit(u);
    LowDigit(u / 0x100);
    LowDigit(u / 0x1_0000);
    NestedQuotients(u);
  }

  lemma LowWord(v: i32)
    ensures v % WRAP == if v < 0 then v + WRAP else v
  {
  }

  lemma SignedOfDigits(a: byte, b: byte, c: byte, d: byte)
    ensures Signed4([a, b, c, d], 4)
            == (if a >= 0x80 then a - 0x100 else a) * 0x100_0000 + b * 0x1_0000 + c * 0x100 + d
  {
  }

  lemma FourOctetValue(v: i32)
    ensures Signed4(BeBytes(v % WRAP, 4), 4) == v
  {
    hide BeBytes, Signed4;
    var u := v % WRAP;
    FourBytes(u);
    FourDigits(u);
    LowWord(v);
    SignedOfDigits(u / 0x100_0000, u / 0x1_0000 % 0x100, u / 0x100 % 0x100, u % 0x100);
  }

  lemma ContentIsTail(v: i32)
    ensures IntContent(v) == BeBytes(v % WRAP, 4)[4 - IntLength(v)..]
  {
    var n := IntLength(v);
    BeBytesTail(v % WRAP, 4, n);
    hide BeBytes, IntLength;
    PowersOf256();
    LowPart(v);
  }

  method EncodeInteger(buf: array<byte>, pos: nat, val: i32) returns (r: Result<nat, EncodeError>)
    modifies buf
    ensures Puts(r, old(buf[..]), buf[..], pos, IntTlv(val))
  {
    var bytes := BeBytes(val % WRAP, 4);
    FourOctetValue(val);
    ContentIsTail(val);
    var len := MinimalSignedByteLen(bytes);
    r := EncodeTlv(buf, pos, TAG_INTEGER, bytes[4 - len..]);
  }

  method EncodeOctetString(buf: array<byte>, pos: nat, val: seq<byte>) returns (r: Result<nat, EncodeError>)
    modifies buf
    ensures |val| <= 0xFFFF ==> Puts(r, old(buf[..]), buf[..], pos, Tlv(TAG_OCTET_STRING, val))
    ensures |val| > 0xFFFF ==> r == Failure(InvalidValue)
  {
    r := EncodeTlv(buf, pos, TAG_OCTET_STRING, val);
  }

  method EncodeNull(buf: array<byte>, pos: nat) returns (r: Result<nat, EncodeError>)
    modifies buf
    ensures Puts(r, old(buf[..]), buf[..], pos, Tlv(TAG_NULL, []))
  {
    HeaderOctets(TAG_NULL, 0);
    assert Tlv(TAG_NULL, []) == [TAG_NULL, 0x00];
    r := Put(buf, pos, [TAG_NULL, 0x00]);
  }

  method EncodeU32App(buf: array<byte>, pos: nat, tag: byte, val: u32) returns (r: Result<nat, EncodeError>)
    modifies buf
    ensures Puts(r, old(buf[..]), buf[..], pos, Tlv(tag, U32Content(val)))
  {
    hide BeBytes, U32Content, Puts, Tlv;
    var bytes := BeBytes(val, 4);
    U32Octets(val);
    if bytes[0] >= 0x80 {
      r := EncodeTlv(buf, pos, tag, [0x00] + bytes);
    } else {
      var len := MinimalUnsignedByteLen(bytes);
      r := EncodeTlv(buf, pos, tag, bytes[4 - len..]);
    }
  }

  /** The content by the four octets of the number. */
  lemma U32Octets(val: u32)
    ensures var b := BeBytes(val, 4);
            U32Content(val)
            == if b[0] >= 0x80 then [0x00] + b
               else b[4 - (if b[0] > 0 then 4 else if b[1] > 0 then 3 else if b[2] > 0 then 2 else 1)..]
  {
    FourBytes(val);
    if val < 0x8000_0000 {
      UnsignedTail(val);
    }
    hide BeBytes;
    LengthByOctets(val);
  }

  lemma LengthByOctets(v: u32)
    ensures v >= 0x8000_0000 <==> v / 0x100_0000 >= 0x80
    ensures UnsignedLength(v)
            == if v / 0x100_0000 > 0 then 4 else if v / 0x1_0000 % 0x100 > 0 then 3
               else if v / 0x100 % 0x100 > 0 then 2 else 1
  {
  }

  /** Four octets less the leading zeros, but at least one. */
  method MinimalUnsignedByteLen(bytes: seq<byte>) returns (len: nat)
    requires |bytes| == 4
    ensures len == if bytes[0] > 0 then 4 else if bytes[1] > 0 then 3 else if bytes[2] > 0 then 2 else 1
  {
    var zeros := 0;
    while zeros < 4 && bytes[zeros] == 0
      invariant 0 <= zeros <= 4 && forall k :: 0 <= k < zeros ==> bytes[k] == 0
    {
      zeros := zeros + 1;
    }
    len := if 4 - zeros > 1 then 4 - zeros else 1;
  }

  lemma UnsignedTail(v: u32)
    requires v < 0x8000_0000
    ensures U32Content(v) == BeBytes(v, 4)[4 - UnsignedLength(v)..]
  {
    LowOctets(v);
  }

  // ------------------------------------------------------------------ object identifiers

  type digit = x: int | 0 <= x < 128

  /** Base-128 digits, least significant first. */
  function Digits(v: nat): seq<digit> {
    if v == 0 then [] else [v % 128] + Digits(v / 128)
  }

  lemma {:induction false} ContinuedIsReversed(v: nat)
    ensures |Continued(v)| == |Digits(v)|
    ensures forall i :: 0 <= i < |Digits(v)| ==> Continued(v)[i] == 128 + Digits(v)[|Digits(v)| - 1 - i] as int
  {
    if v > 0 {
      ContinuedIsReversed(v / 128);
    }
  }

  /** The digits written most significant first, all but the last with the continuation bit. */
  lemma Base128IsReversed(v: nat)
    requires v > 0
    ensures |Base128(v)| == |Digits(v)|
    ensures forall i :: 0 <= i < |Digits(v)| ==>
              Base128(v)[i] == Digits(v)[|Digits(v)| - 1 - i] as int + if i < |Digits(v)| - 1 then 128 else 0
  {
    ContinuedIsReversed(v / 128);
  }

  /** A bound on what is left after `n` digits of a u32. */
  function Left(n: nat): int {
    if n == 0 then WRAP else if n == 1 then 0x200_0000 else if n == 2 then 0x4_0000 else if n == 3 then 0x800
    else if n == 4 then 16 else 1
  }

  method EncodeBase128(val: u32, buf: array<byte>, pos: nat) returns (r: Result<nat, EncodeError>)
    modifies buf
    ensures Puts(r, old(buf[..]), buf[..], pos, Base128(val))
    ensures r.Failure? ==> r.error == BufferTooSmall
  {
    if val == 0 {
      assert Base128(0) == [0];
      r := Put(buf, pos, [0x00]);
      return;
    }
    var tmp, n := DigitsOf(val);
    Base128IsReversed(val);
    if pos + n > buf.Length {
      return Failure(BufferTooSmall);
    }
    ghost var out := Base128(val);
    var i := 0;
    hide Digits, Base128;
    while i < n
      invariant 0 <= i <= n
      invariant forall k :: 0 <= k < i ==> buf[pos + k] == out[k]
      invariant forall k :: 0 <= k < buf.Length && !(pos <= k < pos + i) ==> buf[k] == old(buf[k])
    {
      buf[pos + i] := tmp[n - 1 - i] as int + if i < n - 1 then 0x80 else 0x00;
      i := i + 1;
    }
    assert buf[..] == Splice(old(buf[..]), pos, out);
    return Success(pos + n);
  }

  method DigitsOf(val: u32) returns (tmp: seq<digit>, n: nat)
    ensures n <= 5 && |tmp| == 5 && tmp[..n] == Digits(val)
  {
    hide Digits;
    tmp := [0, 0, 0, 0, 0];
    n := 0;
    var v: nat := val;
    NoDigits(tmp, Digits(val));
    while v > 0
      invariant 0 <= n <= 5 && |tmp| == 5 && v < Left(n)
      invariant Digits(val) == tmp[..n] + Digits(v)
    {
      OneMoreDigit(tmp, n, v);
      tmp := tmp[n := v % 128];
      n := n + 1;
      v := v / 128;
    }
    NoDigits(tmp, tmp[..n]);
  }

  lemma NoDigits(tmp: seq<digit>, s: seq<digit>)
    ensures s == tmp[..0] + s && s + Digits(0) == s
  {
  }

  lemma OneMoreDigit(tmp: seq<digit>, n: nat, v: nat)
    requires n < |tmp| && v > 0
    ensures tmp[..n] + Digits(v) == tmp[n := v % 128][..n + 1] + Digits(v / 128)
  {
    hide Digits;
    FirstDigit(v);
    StoredNext(tmp, n, v % 128, Digits(v / 128));
  }

  lemma FirstDigit(v: nat)
    requires v > 0
    ensures Digits(v) == [v % 128] + Digits(v / 128)
  {
  }

  lemma StoredNext(tmp: seq<digit>, n: nat, d: digit, rest: seq<digit>)
    requires n < |tmp|
    ensures tmp[..n] + ([d] + rest) == tmp[n := d][..n + 1] + rest
  {
    assert tmp[n := d][..n + 1] == tmp[..n] + [d];
    Regroup(tmp[..n], [d], rest);
  }

  method EncodeOid(buf: array<byte>, pos: nat, oid: Oid) returns (r: Result<nat, EncodeError>)
    modifies buf
    ensures |oid| < 2 ==> r == Failure(InvalidValue) && buf[..] == old(buf[..])
    ensures |oid| >= 2 ==> |OidContent(oid)| <= 75 && Puts(r, old(buf[..]), buf[..], pos, Tlv(TAG_OID, OidContent(oid)))
  {
    if |oid| < 2 {
      return Failure(InvalidValue);
    }
    var tmp := new byte[128];
    var n := EncodeArcs(tmp, oid);
    r := EncodeTlv(buf, pos, TAG_OID, tmp[..n]);
  }

  /** The content octets, staged in a 128-octet buffer that 16 arcs cannot overrun. */
  method EncodeArcs(tmp: array<byte>, oid: Oid) returns (n: nat)
    requires |oid| >= 2 && tmp.Length == 128
    modifies tmp
    ensures n <= 75 && n <= tmp.Length && tmp[..n] == OidContent(oid)
  {
    hide Base128, ArcBytes, FirstArc, Puts;
    OidContentLength(oid);
    ghost var rest := oid[2..];
    var first := FirstArc(oid);
    Base128Length(first);
    ghost var was := tmp[..];
    var p := EncodeBase128(first, tmp, 0);
    PutsAfter(p, was, tmp[..], 0, Base128(first));
    n := p.value;
    var i := 2;
    NoArcs();
    assert rest[..0] == [] && tmp[..n] == Base128(first) + [];
    while i < |oid|
      invariant 2 <= i <= |oid| && n <= tmp.Length && n <= 5 * (i - 1)
      invariant tmp[..n] == Base128(first) + ArcBytes(rest[..i - 2])
    {
      was := tmp[..];
      var sub := oid[i];
      Base128Length(sub);
      p := EncodeBase128(sub, tmp, n);
      PutsAfter(p, was, tmp[..], n, Base128(sub));
      ArcsSnoc(rest, i - 2);
      Regroup(Base128(first), ArcBytes(rest[..i - 2]), Base128(sub));
      n := p.value;
      i := i + 1;
    }
    assert rest[..|oid| - 2] == rest;
  }

  /** Written behind what is already there. */
  lemma PutsAfter(r: Result<nat, EncodeError>, was: seq<byte>, now: seq<byte>, pos: nat, x: seq<byte>)
    requires Puts(r, was, now, pos, x) && pos + |x| <= |was|
    ensures r == Success(pos + |x|) && |now| == |was| && now[..pos + |x|] == was[..pos] + x
  {
    SplicedPart(was, pos, x);
  }

  lemma NoArcs()
    ensures ArcBytes([]) == []
  {
  }

  // ------------------------------------------------------------------ bindings

  method EncodeSnmpValue(buf: array<byte>, pos: nat, val: SnmpValue) returns (r: Result<nat, EncodeError>)
    modifies buf
    ensures Puts(r, old(buf[..]), buf[..], pos, Tlv(ValueTag(val), ValueContent(val)))
  {
    hide Puts, Tlv, IntContent, U32Content;
    match val
    case Integer(v) => r := EncodeInteger(buf, pos, v);
    case OctetString(s) => r := EncodeOctetString(buf, pos, s);
    case Counter32(v) => r := EncodeU32App(buf, pos, TAG_COUNTER32, v);
    case Gauge32(v) => r := EncodeU32App(buf, pos, TAG_GAUGE32, v);
    case TimeTicks(v) => r := EncodeU32App(buf, pos, TAG_TIMETICKS, v);
    case Null => r := EncodeNull(buf, pos);
  }

  function BerHeaderSize(n: nat): nat {
    if n <= 127 then 2 else if n <= 255 then 3 else 4
  }

  /** What a binding leaves in the buffer: the binding itself at `pos`, the octets before untouched;
      up to two octets after it may have been used on the way. */
  ghost predicate PutsBinding(r: Result<nat, EncodeError>, was: seq<byte>, now: seq<byte>, pos: nat, vb: VarBind) {
    && |now| == |was|
    && if |vb.oid| >= 2 && pos + 4 + |BindingContent(vb)| <= |was| then
         && r == Success(pos + |BindingBytes(vb)|) && pos + |BindingBytes(vb)| <= |now|
         && now[..pos] == was[..pos] && HasAt(now, pos, BindingBytes(vb))
       else r == Failure(if |vb.oid| < 2 then InvalidValue else BufferTooSmall)
  }

  /** Writes the content four octets on, then moves it left against its header. */
  method EncodeVarbind(buf: array<byte>, pos: nat, vb: VarBind) returns (r: Result<nat, EncodeError>)
    modifies buf
    ensures PutsBinding(r, old(buf[..]), buf[..], pos, vb)
  {
    hide Tlv, OidContent, ValueTag, ValueContent, HeaderBytes, HasAt;
    ghost var was := buf[..];
    var innerStart := pos + 4;
    var afterOid :- EncodeOid(buf, innerStart, vb.oid);
    ghost var mid := buf[..];
    var afterValue :- EncodeSnmpValue(buf, afterOid, vb.value);
    PutsThen(Success(afterValue), was, mid, buf[..], innerStart,
             Tlv(TAG_OID, OidContent(vb.oid)), Tlv(ValueTag(vb.value), ValueContent(vb.value)));
    ghost var content := BindingContent(vb);
    assert |BindingBytes(vb)| == BerHeaderSize(|content|) + |content| by { BindingSize(vb); }
    var h := WrapStaged(buf, pos, afterValue, was, content);
    assert HasAt(buf[..], pos, BindingBytes(vb)) by { BindingSize(vb); }
    return Success(h);
  }

  lemma BindingSize(vb: VarBind)
    requires |vb.oid| >= 2
    ensures BindingBytes(vb) == HeaderBytes(TAG_SEQUENCE, |BindingContent(vb)|) + BindingContent(vb)
    ensures |BindingBytes(vb)| == BerHeaderSize(|BindingContent(vb)|) + |BindingContent(vb)|
  {
  }

  /** Content staged at `pos + 4` becomes a SEQUENCE at `pos`. */
  method WrapStaged(buf: array<byte>, pos: nat, end: nat, ghost was: seq<byte>, ghost content: seq<byte>)
    returns (next: nat)
    requires |was| == buf.Length && |content| <= 0xFF && end == pos + 4 + |content| <= |was|
    requires buf[..] == Splice(was, pos + 4, content)
    modifies buf
    ensures next == pos + BerHeaderSize(|content|) + |content| && next <= buf.Length
    ensures buf[..pos] == was[..pos] && HasAt(buf[..], pos, HeaderBytes(TAG_SEQUENCE, |content|) + content)
  {
    ghost var staged := buf[..];
    SplicedPart(was, pos + 4, content);
    var innerLen := end - (pos + 4);
    var size := BerHeaderSize(innerLen);
    CopyWithin(buf, pos + 4, end, pos + size);
    ghost var moved := buf[..];
    hide HeaderBytes;
    var h := EncodeTlvHeader(buf, pos, TAG_SEQUENCE, innerLen);
    assert staged[..pos] == was[..pos];
    HeaderThenContent(was, staged, moved, buf[..], pos, HeaderBytes(TAG_SEQUENCE, innerLen), content);
    return pos + size + innerLen;
  }

  lemma HeaderThenContent(was: seq<byte>, staged: seq<byte>, moved: seq<byte>, now: seq<byte>, pos: nat,
                          header: seq<byte>, content: seq<byte>)
    requires pos + 4 + |content| <= |was| == |staged| && |header| <= 4 && staged[..pos] == was[..pos]
    requires moved == Splice(staged, pos + |header|, content) && now == Splice(moved, pos, header)
    ensures now[..pos] == was[..pos] && HasAt(now, pos, header + content)
  {
    SplicedPart(staged, pos + |header|, content);
    SplicedPart(moved, pos, header);
    var a, b := pos + |header|, pos + |header| + |content|;
    assert now[a..b] == now[a..][..|content|] == moved[a..][..|content|] == moved[a..b];
    assert now[..pos] == moved[..pos] == moved[..a][..pos] == staged[..a][..pos] == staged[..pos];
    assert now[pos..b] == now[pos..a] + now[a..b];
  }
}
