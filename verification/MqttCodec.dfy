/** The writers and the length reader of bridge-core/src/mqtt.rs. */
module MqttCodec {
  import opened Words
  import opened Octets
  import opened Numbers
  import opened Mqtt

  // ------------------------------------------------------------------ remaining length

  /** What stands in the buffer after some octets: nothing yet, or those octets. */
  ghost predicate Written(was: seq<byte>, now: seq<byte>, pos: nat, done: seq<byte>) {
    if done == [] then now == was else Puts(Success(pos + |done|), was, now, pos, done)
  }

  method WriteRemainingLength(buf: array<byte>, pos: nat, length: nat) returns (r: Result<nat, EncodeError>)
    modifies buf
    ensures length <= MAX_REMAINING ==> Puts(r, old(buf[..]), buf[..], pos, LengthBytes(length))
    ensures length > MAX_REMAINING ==> r == Failure(InvalidValue) && buf[..] == old(buf[..])
  {
    hide Puts, LengthBytes, Written;
    if length > MAX_REMAINING {
      return Failure(InvalidValue);
    }
    ghost var was, whole := buf[..], LengthBytes(length);
    ghost var done: seq<byte> := [];
    var len := length;
    r := Success(pos);
    NothingWritten(was, pos);
    assert whole == [] + LengthBytes(len);
    while true
      invariant whole == done + LengthBytes(len) && Written(was, buf[..], pos, done) && r == Success(pos + |done|)
      decreases len
    {
      LengthUnfolds(len);
      var octet: byte := len % 128;
      len := len / 128;
      if len > 0 {
        octet := octet + 0x80;
      }
      ghost var mid := buf[..];
      r := Put(buf, r.value, [octet]);
      OneMore(r, was, mid, buf[..], pos, done, octet, whole);
      if r.Failure? {
        return;
      }
      if len == 0 {
        return;
      }
      Regroup(done, [octet], LengthBytes(len));
      done := done + [octet];
    }
  }

  lemma NothingWritten(was: seq<byte>, pos: nat)
    ensures Written(was, was, pos, [])
  {
  }

  lemma OneMore(r: Result<nat, EncodeError>, was: seq<byte>, mid: seq<byte>, now: seq<byte>, pos: nat,
                done: seq<byte>, b: byte,
                whole: seq<byte>)
    requires |done| + 1 <= |whole| && Puts(r, mid, now, pos + |done|, [b]) && Written(was, mid, pos, done)
    ensures r.Success? ==>
              && r == Success(pos + |done + [b]|) && Puts(r, was, now, pos, done + [b])
              && Written(was, now, pos, done + [b])
    ensures r.Failure? ==> Puts(r, was, now, pos, whole)
  {
    hide Puts;
    if done == [] {
      assert done + [b] == [b];
      First(r, was, now, pos, [b], whole);
    } else {
      Next(r, was, mid, now, pos, done, [b], whole);
    }
  }

  /** The multiplier grows by 128 an octet; at 128 to the fourth the field is too long. */
  method DecodeRemainingLength(data: seq<byte>, start: nat) returns (r: Result<(nat, nat), DecodeError>)
    ensures r == LengthAt(data, start, 4)
  {
    var multiplier: nat := 1;
    var value: nat := 0;
    var pos: nat := start;
    ghost var left: nat := 4;
    Multipliers(4);
    hide Pow128, LengthAt, Rest;
    NothingBefore(LengthAt(data, start, 4));
    while true
      invariant 1 <= left <= 4 && multiplier == Pow128(4 - left)
      invariant LengthAt(data, start, 4) == Rest(LengthAt(data, pos, left), value, multiplier)
      decreases left
    {
      LastOctet(data, pos, left, value, multiplier);
      if pos >= |data| {
        return Failure(UnexpectedEnd);
      }
      var octet := data[pos];
      pos := pos + 1;
      if octet < 0x80 {
        NotNegative(octet, multiplier);
        return Success((value + octet * multiplier, pos));
      }
      OctetTaken(data, pos - 1, left, value, multiplier);
      Multipliers(left);
      NotNegative(octet % 128, multiplier);
      value := value + (octet % 128) * multiplier;
      multiplier := multiplier * 128;
      if multiplier >= 128 * 128 * 128 * 128 {
        return Failure(InvalidData);
      }
      left := left - 1;
    }
  }

  /** A result read from a later octet on, with what came before it. */
  function Rest(r: Result<(nat, nat), DecodeError>, value: nat, multiplier: nat): Result<(nat, nat), DecodeError> {
    if r.Failure? then Failure(r.error) else Success((value + r.value.0 * multiplier, r.value.1))
  }

  lemma NotNegative(a: nat, b: nat)
    ensures a * b >= 0
  {
  }

  lemma NothingBefore(r: Result<(nat, nat), DecodeError>)
    ensures Rest(r, 0, 1) == r
  {
  }

  lemma Multipliers(left: nat)
    requires 1 <= left <= 4
    ensures Pow128(0) == 1 && Pow128(4 - left) * 128 == Pow128(5 - left)
    ensures Pow128(4 - left) * 128 >= 128 * 128 * 128 * 128 <==> left == 1
  {
    PowersOf128();
  }

  /** Where the field ends: without octets, or with an octet below 128. */
  lemma LastOctet(data: seq<byte>, pos: nat, left: nat, value: nat, multiplier: nat)
    requires left > 0
    ensures pos >= |data| ==> Rest(LengthAt(data, pos, left), value, multiplier) == Failure(UnexpectedEnd)
    ensures pos < |data| && data[pos] < 128 ==>
              Rest(LengthAt(data, pos, left), value, multiplier) == Success((value + data[pos] * multiplier, pos + 1))
  {
  }

  lemma OctetTaken(data: seq<byte>, pos: nat, left: nat, value: nat, multiplier: nat)
    requires left > 0 && pos < |data| && data[pos] >= 128
    ensures left == 1 ==> Rest(LengthAt(data, pos, left), value, multiplier) == Failure(InvalidData)
    ensures left > 1 ==> Rest(LengthAt(data, pos, left), value, multiplier)
                         == Rest(LengthAt(data, pos + 1, left - 1), value + (data[pos] % 128) * multiplier,
                                 multiplier * 128)
  {
    if left > 1 && LengthAt(data, pos + 1, left - 1).Success? {
      var rest := LengthAt(data, pos + 1, left - 1).value.0;
      Distribute(data[pos] % 128, rest, multiplier);
    }
  }

  lemma Distribute(a: nat, b: nat, m: nat)
    ensures (a + 128 * b) * m == a * m + b * (m * 128)
  {
    assert (a + 128 * b) * m == a * m + (128 * b) * m;
  }

  method DecodePacketType(data: seq<byte>) returns (r: Result<(byte, nat), DecodeError>)
    ensures r == PacketTypeOf(data)
  {
    if data == [] {
      return Failure(UnexpectedEnd);
    }
    var n :- DecodeRemainingLength(data, 1);
    return Success((data[0] / 16, n.0));
  }

  // ------------------------------------------------------------------ packets

  method WriteText(buf: array<byte>, pos: nat, s: seq<byte>) returns (r: Result<nat, EncodeError>)
    modifies buf
    ensures |s| <= 0xFFFF ==> Puts(r, old(buf[..]), buf[..], pos, Text(s))
    ensures |s| > 0xFFFF ==> r == Failure(StringTooLong) && buf[..] == old(buf[..])
  {
    if |s| > 0xFFFF {
      return Failure(StringTooLong);
    }
    hide Puts, BeBytes;
    ghost var was := buf[..];
    r := Put(buf, pos, BeBytes(|s|, 2));
    First(r, was, buf[..], pos, BeBytes(|s|, 2), Text(s));
    if r.Failure? {
      return;
    }
    ghost var mid := buf[..];
    r := Put(buf, r.value, s);
    Next(r, was, mid, buf[..], pos, BeBytes(|s|, 2), s, Text(s));
  }

  /** The fixed header of a packet that is known to fit. */
  method WriteFixedHeader(buf: array<byte>, first: byte, remaining: nat) returns (r: Result<nat, EncodeError>)
    modifies buf
    ensures remaining <= MAX_REMAINING ==> Puts(r, old(buf[..]), buf[..], 0, [first] + LengthBytes(remaining))
    ensures remaining > MAX_REMAINING ==> r == Failure(if buf.Length == 0 then BufferTooSmall else InvalidValue)
  {
    hide Puts, LengthBytes;
    ghost var was, whole := buf[..], [first] + LengthBytes(remaining);
    r := Put(buf, 0, [first]);
    First(r, was, buf[..], 0, [first], whole);
    if r.Failure? {
      return;
    }
    ghost var mid := buf[..];
    r := WriteRemainingLength(buf, r.value, remaining);
    if remaining <= MAX_REMAINING {
      Next(r, was, mid, buf[..], 0, [first], LengthBytes(remaining), whole);
    }
  }

  lemma WholeFitsNot(was: seq<byte>, first: byte, body: seq<byte>)
    requires |body| <= MAX_REMAINING && 1 + EncodedSize(|body|) + |body| > |was|
    ensures Puts(Failure(BufferTooSmall), was, was, 0, PacketBytes(first, body))
  {
    hide EncodedSize, LengthBytes;
    SizeIsExact(|body|);
  }

  lemma SizeAtMostFour(n: nat)
    ensures 1 <= EncodedSize(n) <= 4 && (n > MAX_REMAINING ==> EncodedSize(n) == 4)
  {
  }

  lemma PacketParts(first: byte, body: seq<byte>)
    ensures PacketBytes(first, body) == [first] + LengthBytes(|body|) + body
  {
  }

  method EncodePublish(buf: array<byte>, topic: seq<byte>, payload: seq<byte>, retain: bool)
    returns (r: Result<nat, EncodeError>)
    modifies buf
    ensures Publishable(topic, payload) ==> Puts(r, old(buf[..]), buf[..], 0, PublishBytes(topic, payload, retain))
    ensures |topic| > 0xFFFF ==> r == Failure(StringTooLong) && buf[..] == old(buf[..])
    ensures |topic| <= 0xFFFF && !Publishable(topic, payload) ==>
              r == Failure(if buf.Length < 7 + |topic| + |payload| then BufferTooSmall else InvalidValue)
  {
    hide Puts, LengthBytes, EncodedSize, PacketBytes, Text;
    if |topic| > 0xFFFF {
      return Failure(StringTooLong);
    }
    ghost var was := buf[..];
    ghost var body := PublishBody(topic, payload);
    var first: byte := 0x30 + if retain then 1 else 0;
    ghost var whole := PacketBytes(first, body);
    var remaining := 2 + |topic| + |payload|;
    SizeAtMostFour(remaining);
    var total := 1 + EncodedSize(remaining) + remaining;
    if total > buf.Length {
      if remaining <= MAX_REMAINING {
        WholeFitsNot(was, first, body);
      }
      return Failure(BufferTooSmall);
    }
    PacketParts(first, body);
    ghost var head := [first] + LengthBytes(remaining);
    Regroup(head, Text(topic), payload);
    r := WriteFixedHeader(buf, first, remaining);
    if remaining <= MAX_REMAINING {
      First(r, was, buf[..], 0, head, whole);
    }
    if r.Failure? {
      return;
    }
    ghost var mid := buf[..];
    r := WriteText(buf, r.value, topic);
    Next(r, was, mid, buf[..], 0, head, Text(topic), whole);
    if r.Failure? {
      return;
    }
    mid := buf[..];
    r := Put(buf, r.value, payload);
    Next(r, was, mid, buf[..], 0, head + Text(topic), payload, whole);
  }

  ghost predicate Connectable(client: seq<byte>, username: Option<seq<byte>>, password: Option<seq<byte>>) {
    |client| <= 0xFFFF && TextFits(username) && TextFits(password)
  }

  lemma ConnectSize(client: seq<byte>, keepAlive: u16, username: Option<seq<byte>>, password: Option<seq<byte>>)
    requires Connectable(client, username, password)
    ensures |ConnectBody(client, keepAlive, username, password)|
            == 12 + |client| + (if username.Some? then 2 + |username.value| else 0)
               + if password.Some? then 2 + |password.value| else 0
    ensures |ConnectBody(client, keepAlive, username, password)| <= MAX_REMAINING
  {
  }

  method WriteOptional(buf: array<byte>, pos: nat, s: Option<seq<byte>>) returns (r: Result<nat, EncodeError>)
    requires pos <= buf.Length
    modifies buf
    ensures TextFits(s) ==> Puts(r, old(buf[..]), buf[..], pos, OptionalText(s))
    ensures !TextFits(s) ==> r == Failure(StringTooLong)
  {
    if s.Some? {
      r := WriteText(buf, pos, s.value);
    } else {
      return Success(pos);
    }
  }

  method EncodeConnect(buf: array<byte>, client: seq<byte>, keepAlive: u16, username: Option<seq<byte>>,
                       password: Option<seq<byte>>)
    returns (r: Result<nat, EncodeError>)
    modifies buf
    ensures Connectable(client, username, password) ==>
              Puts(r, old(buf[..]), buf[..], 0, ConnectBytes(client, keepAlive, username, password))
    ensures !Connectable(client, username, password) ==>
              var n := 10 + TextRoom(client) + OptionalRoom(username) + OptionalRoom(password);
              r == Failure(if 1 + EncodedSize(n) + n > buf.Length then BufferTooSmall
                           else if n > MAX_REMAINING then InvalidValue else StringTooLong)
  {
    hide Puts, LengthBytes, EncodedSize, PacketBytes, Text, ConnectBody;
    ghost var was := buf[..];
    var payloadLen := 2 + |client|;
    if username.Some? {
      payloadLen := payloadLen + 2 + |username.value|;
    }
    if password.Some? {
      payloadLen := payloadLen + 2 + |password.value|;
    }
    var remaining := 10 + payloadLen;
    SizeAtMostFour(remaining);
    var total := 1 + EncodedSize(remaining) + remaining;
    if Connectable(client, username, password) {
      ConnectSize(client, keepAlive, username, password);
    }
    if total > buf.Length {
      if Connectable(client, username, password) {
        WholeFitsNot(was, 0x10, ConnectBody(client, keepAlive, username, password));
      }
      return Failure(BufferTooSmall);
    }
    r := WriteFixedHeader(buf, 0x10, remaining);
    if remaining <= MAX_REMAINING {
      SizeIsExact(remaining);
      FitsEasily(r, was, buf[..], 0, [0x10] + LengthBytes(remaining));
    }
    if Connectable(client, username, password) {
      PacketParts(0x10, ConnectBody(client, keepAlive, username, password));
      First(r, was, buf[..], 0, [0x10] + LengthBytes(remaining), ConnectBytes(client, keepAlive, username, password));
    }
    if r.Failure? {
      return;
    }
    PutsAt(r, was, buf[..], 0, [0x10] + LengthBytes(remaining));
    r := WriteConnectBody(buf, r.value, client, keepAlive, username, password, was, [0x10] + LengthBytes(remaining));
  }

  /** The octets that a text takes behind its length. */
  function TextRoom(s: seq<byte>): nat {
    2 + |s|
  }

  function OptionalRoom(s: Option<seq<byte>>): nat {
    if s.None? then 0 else TextRoom(s.value)
  }

  lemma TextSize(s: seq<byte>)
    requires |s| <= 0xFFFF
    ensures |Text(s)| == TextRoom(s)
  {
  }

  lemma OptionalSize(s: Option<seq<byte>>)
    requires TextFits(s)
    ensures |OptionalText(s)| == OptionalRoom(s)
  {
  }

  method WriteConnectBody(buf: array<byte>, pos: nat, client: seq<byte>, keepAlive: u16, username: Option<seq<byte>>,
                          password: Option<seq<byte>>, ghost was: seq<byte>, ghost head: seq<byte>)
    returns (r: Result<nat, EncodeError>)
    modifies buf
    requires Puts(Success(pos), was, buf[..], 0, head) && pos == |head|
    requires pos + 10 + TextRoom(client) + OptionalRoom(username) + OptionalRoom(password) <= buf.Length
    ensures Connectable(client, username, password) ==>
              Puts(r, was, buf[..], 0, head + ConnectBody(client, keepAlive, username, password))
    ensures !Connectable(client, username, password) ==> r == Failure(StringTooLong)
  {
    hide Puts, Text, OptionalText, BeBytes;
    ghost var good := Connectable(client, username, password);
    var fixed := PROTOCOL + [Flags(username, password)] + BeBytes(keepAlive, 2);
    ghost var mid := buf[..];
    if good {
      InOrderAfter(head, fixed, Text(client), OptionalText(username), OptionalText(password));
    }
    r := Put(buf, pos, fixed);
    PutsThen(r, was, mid, buf[..], 0, head, fixed);
    FitsEasily(r, mid, buf[..], pos, fixed);
    PutsAt(r, was, buf[..], 0, head + fixed);
    mid := buf[..];
    r := WriteText(buf, r.value, client);
    if |client| <= 0xFFFF {
      TextSize(client);
      PutsThen(r, was, mid, buf[..], 0, head + fixed, Text(client));
      FitsEasily(r, mid, buf[..], pos + 10, Text(client));
    }
    if r.Failure? {
      return;
    }
    PutsAt(r, was, buf[..], 0, head + fixed + Text(client));
    mid := buf[..];
    r := WriteOptional(buf, r.value, username);
    if TextFits(username) {
      OptionalSize(username);
      FitsEasily(r, mid, buf[..], pos + 10 + |Text(client)|, OptionalText(username));
      PutsThen(r, was, mid, buf[..], 0, head + fixed + Text(client), OptionalText(username));
    }
    if r.Failure? {
      return;
    }
    PutsAt(r, was, buf[..], 0, head + fixed + Text(client) + OptionalText(username));
    mid := buf[..];
    r := WriteOptional(buf, r.value, password);
    if TextFits(password) {
      OptionalSize(password);
      PutsThen(r, was, mid, buf[..], 0, head + fixed + Text(client) + OptionalText(username), OptionalText(password));
    }
  }

  lemma InOrderAfter(head: seq<byte>, a: seq<byte>, b: seq<byte>, c: seq<byte>, d: seq<byte>)
    ensures head + (a + b + c + d) == head + a + b + c + d
  {
  }
}
