/** MQTT 3.1.1 packets as bridge-core/src/mqtt.rs writes them, and its remaining-length field
    (section 2.2.3), written by shifting and read by multiplying. */
module Mqtt {
  import opened Words
  import opened Octets
  import opened Numbers

  /** The largest length four octets hold. */
  const MAX_REMAINING: int := 268_435_455

  // ------------------------------------------------------------------ remaining length

  /** Seven bits an octet, least significant first, all but the last with the high bit. */
  function LengthBytes(n: nat): (s: seq<byte>)
    ensures |s| >= 1
  {
    if n < 128 then [n] else [128 + n % 128] + LengthBytes(n / 128)
  }

  lemma LengthUnfolds(n: nat)
    ensures LengthBytes(n) == if n < 128 then [n] else [128 + n % 128] + LengthBytes(n / 128)
  {
  }

  /** `remaining_length_encoded_size`. */
  function EncodedSize(n: nat): nat {
    if n < 128 then 1 else if n < 16_384 then 2 else if n < 2_097_152 then 3 else 4
  }

  /** The field in at most `left` octets, and the position after it. */
  function LengthAt(data: seq<byte>, pos: nat, left: nat): (r: Result<(nat, nat), DecodeError>)
    requires left > 0
    ensures r.Success? ==> pos < r.value.1 <= pos + left && r.value.1 <= |data|
    decreases left
  {
    if pos >= |data| then Failure(UnexpectedEnd)
    else if data[pos] < 128 then Success((data[pos], pos + 1))
    else if left == 1 then Failure(InvalidData)
    else
      var (rest, next) :- LengthAt(data, pos + 1, left - 1);
      Success((data[pos] % 128 + 128 * rest, next))
  }

  function Pow128(n: nat): (p: nat)
    ensures p > 0
  {
    if n == 0 then 1 else 128 * Pow128(n - 1)
  }

  lemma PowersOf128()
    ensures Pow128(1) == 128 && Pow128(2) == 16_384 && Pow128(3) == 2_097_152 && Pow128(4) == MAX_REMAINING + 1
  {
    assert Pow128(0) == 1;
    assert Pow128(1) == 128 * Pow128(0);
    assert Pow128(2) == 128 * Pow128(1);
    assert Pow128(3) == 128 * Pow128(2);
    assert Pow128(4) == 128 * Pow128(3);
  }

  /** The size computed beforehand is the size written. */
  lemma SizeIsExact(n: nat)
    requires n <= MAX_REMAINING
    ensures |LengthBytes(n)| == EncodedSize(n)
  {
    var a, b, c := n / 128, n / 128 / 128, n / 128 / 128 / 128;
    if n >= 128 {
      assert LengthBytes(n) == [128 + n % 128] + LengthBytes(a);
      if a >= 128 {
        assert LengthBytes(a) == [128 + a % 128] + LengthBytes(b);
        if b >= 128 {
          assert LengthBytes(b) == [128 + b % 128] + LengthBytes(c);
          assert c < 128;
        }
      }
    }
  }

  /** Every length that fits reads back, whatever follows it. */
  lemma {:induction false} LengthReadsBack(data: seq<byte>, pos: nat, n: nat, left: nat)
    requires left > 0 && n < Pow128(left) && HasAt(data, pos, LengthBytes(n))
    ensures LengthAt(data, pos, left) == Success((n, pos + |LengthBytes(n)|))
    decreases left
  {
    hide HasAt;
    HasFits(data, pos, LengthBytes(n));
    HasIndex(data, pos, LengthBytes(n), 0);
    if n >= 128 {
      if left == 1 {
        PowersOf128();
        assert false;
      }
      HasConcat(data, pos, [128 + n % 128], LengthBytes(n / 128));
      QuotientFits(n, Pow128(left - 1));
      LengthReadsBack(data, pos + 1, n / 128, left - 1);
    }
  }

  lemma QuotientFits(n: nat, p: nat)
    requires n < 128 * p
    ensures n / 128 < p
  {
  }

  /** What is read is at most the largest length, and is what would be written exactly when its last
      octet is not an idle zero. */
  lemma {:induction false} ReadIsWrittenExactly(data: seq<byte>, pos: nat, left: nat)
    requires left > 0 && LengthAt(data, pos, left).Success?
    ensures var (n, next) := LengthAt(data, pos, left).value;
            && n < Pow128(left)
            && (n == 0 ==> data[next - 1] == 0)
            && (LengthBytes(n) == data[pos..next] <==> next == pos + 1 || data[next - 1] != 0)
    decreases left
  {
    hide LengthBytes, LengthAt, Pow128;
    LengthStep(data, pos, left);
    if data[pos] >= 128 {
      var (rest, next) := LengthAt(data, pos + 1, left - 1).value;
      ReadIsWrittenExactly(data, pos + 1, left - 1);
      MoreOctets(data, pos, next, data[pos] - 128, rest);
    } else {
      LengthUnfolds(data[pos]);
      assert data[pos..pos + 1] == [data[pos]];
    }
  }

  /** What one octet of a length says. */
  lemma LengthStep(data: seq<byte>, pos: nat, left: nat)
    requires left > 0 && LengthAt(data, pos, left).Success?
    ensures pos < |data| && Pow128(left) == 128 * Pow128(left - 1) >= 128
    ensures data[pos] < 128 ==> LengthAt(data, pos, left).value == (data[pos], pos + 1)
    ensures data[pos] >= 128 ==>
              && left > 1 && LengthAt(data, pos + 1, left - 1).Success?
              && LengthAt(data, pos, left).value
                 == (data[pos] - 128 + 128 * LengthAt(data, pos + 1, left - 1).value.0,
                     LengthAt(data, pos + 1, left - 1).value.1)
  {
  }

  lemma MoreOctets(data: seq<byte>, pos: nat, next: nat, low: nat, rest: nat)
    requires pos + 2 <= next <= |data| && low < 128 && data[pos] == 128 + low
    requires rest == 0 ==> data[next - 1] == 0
    requires LengthBytes(rest) == data[pos + 1..next] <==> next == pos + 2 || data[next - 1] != 0
    ensures LengthBytes(low + 128 * rest) == data[pos..next] <==> data[next - 1] != 0
  {
    var n := low + 128 * rest;
    assert data[pos..next] == [data[pos]] + data[pos + 1..next];
    if rest == 0 {
      assert |LengthBytes(n)| == 1;
    } else {
      assert n / 128 == rest && n % 128 == low;
      SameTail(data[pos], LengthBytes(rest), data[pos + 1..next]);
      if next == pos + 2 {
        assert data[pos + 1..next] == [data[next - 1]];
        assert LengthBytes(rest)[0] != 0;
      }
    }
  }

  lemma SameTail(b: byte, x: seq<byte>, y: seq<byte>)
    ensures [b] + x == [b] + y <==> x == y
  {
    if [b] + x == [b] + y {
      assert ([b] + x)[1..] == x && ([b] + y)[1..] == y;
    }
  }

  /** Four continuation octets are always refused. */
  lemma FourContinuationsRejected(data: seq<byte>, pos: nat)
    requires pos + 4 <= |data| && forall k :: pos <= k < pos + 4 ==> data[k] >= 128
    ensures LengthAt(data, pos, 4) == Failure(InvalidData)
  {
    assert LengthAt(data, pos + 3, 1) == Failure(InvalidData);
    assert LengthAt(data, pos + 2, 2) == Failure(InvalidData);
    assert LengthAt(data, pos + 1, 3) == Failure(InvalidData);
  }

  // ------------------------------------------------------------------ packets

  function Text(s: seq<byte>): seq<byte>
    requires |s| <= 0xFFFF
  {
    BeBytes(|s|, 2) + s
  }

  predicate Publishable(topic: seq<byte>, payload: seq<byte>) {
    |topic| <= 0xFFFF && 2 + |topic| + |payload| <= MAX_REMAINING
  }

  function PublishBody(topic: seq<byte>, payload: seq<byte>): (s: seq<byte>)
    requires |topic| <= 0xFFFF
    ensures |s| == 2 + |topic| + |payload|
  {
    Text(topic) + payload
  }

  /** First octet, remaining length, and that many octets. */
  function PacketBytes(first: byte, body: seq<byte>): seq<byte> {
    [first] + LengthBytes(|body|) + body
  }

  function PublishBytes(topic: seq<byte>, payload: seq<byte>, retain: bool): seq<byte>
    requires |topic| <= 0xFFFF
  {
    PacketBytes(0x30 + if retain then 1 else 0, PublishBody(topic, payload))
  }

  predicate TextFits(s: Option<seq<byte>>) {
    s.Some? ==> |s.value| <= 0xFFFF
  }

  function OptionalText(s: Option<seq<byte>>): seq<byte>
    requires TextFits(s)
  {
    if s.None? then [] else Text(s.value)
  }

  /** The name "MQTT" and protocol level 4. */
  const PROTOCOL: seq<byte> := [0x00, 0x04, 0x4D, 0x51, 0x54, 0x54, 0x04]

  function Flags(username: Option<seq<byte>>, password: Option<seq<byte>>): byte {
    0x02 + (if username.Some? then 0x80 else 0) + if password.Some? then 0x40 else 0
  }

  function ConnectBody(client: seq<byte>, keepAlive: u16, username: Option<seq<byte>>,
                       password: Option<seq<byte>>): seq<byte>
    requires |client| <= 0xFFFF && TextFits(username) && TextFits(password)
  {
    PROTOCOL + [Flags(username, password)] + BeBytes(keepAlive, 2) + Text(client) + OptionalText(username)
    + OptionalText(password)
  }

  function ConnectBytes(client: seq<byte>, keepAlive: u16, username: Option<seq<byte>>,
                        password: Option<seq<byte>>): seq<byte>
    requires |client| <= 0xFFFF && TextFits(username) && TextFits(password)
  {
    PacketBytes(0x10, ConnectBody(client, keepAlive, username, password))
  }

  /** `decode_packet_type`: the type, the announced length, and where the announced octets start. */
  function PacketTypeOf(data: seq<byte>): Result<(byte, nat), DecodeError> {
    if data == [] then Failure(UnexpectedEnd)
    else var (n, _) :- LengthAt(data, 1, 4); Success((data[0] / 16, n))
  }

  /** Every packet written announces exactly the octets that follow its fixed header. */
  lemma PacketAnnouncesItsLength(first: byte, body: seq<byte>, tail: seq<byte>)
    requires |body| <= MAX_REMAINING
    ensures var packet := PacketBytes(first, body);
            && PacketTypeOf(packet + tail) == Success((first / 16, |body|))
            && |packet| == 1 + EncodedSize(|body|) + |body|
            && packet[|packet| - |body|..] == body
  {
    hide LengthBytes, EncodedSize;
    var packet := PacketBytes(first, body);
    var data := packet + tail;
    SizeIsExact(|body|);
    assert data == [first] + LengthBytes(|body|) + (body + tail);
    assert data[0..|data|] == data;
    HasConcat(data, 0, [first] + LengthBytes(|body|), body + tail);
    HasConcat(data, 0, [first], LengthBytes(|body|));
    PowersOf128();
    LengthReadsBack(data, 1, |body|, 4);
  }

  // ------------------------------------------------------------------ reading packets back

  /** A length-prefixed text and the position after it. */
  function TextIn(data: seq<byte>, pos: nat): Option<(seq<byte>, nat)> {
    if pos + 2 > |data| then None
    else
      var n := BeVal(data[pos..pos + 2]);
      if pos + 2 + n > |data| then None else Some((data[pos + 2..pos + 2 + n], pos + 2 + n))
  }

  lemma TextReadsBack(data: seq<byte>, pos: nat, s: seq<byte>)
    requires |s| <= 0xFFFF && HasAt(data, pos, Text(s))
    ensures TextIn(data, pos) == Some((s, pos + |Text(s)|))
  {
    PowersOf256();
    BeRoundTrip(|s|, 2);
    TextParts(data, pos, s);
    hide BeBytes, BeVal, HasAt;
  }

  lemma TextParts(data: seq<byte>, pos: nat, s: seq<byte>)
    requires |s| <= 0xFFFF && HasAt(data, pos, Text(s))
    ensures pos + 2 + |s| <= |data| && data[pos..pos + 2] == BeBytes(|s|, 2) && data[pos + 2..pos + 2 + |s|] == s
  {
    hide BeBytes, HasAt;
    HasConcat(data, pos, BeBytes(|s|, 2), s);
    HasSlice(data, pos, BeBytes(|s|, 2));
    HasSlice(data, pos + 2, s);
  }

  /** A PUBLISH packet (section 3.3 of MQTT 3.1.1, quality of service 0): topic, payload, retain. */
  function PublishOf(body: seq<byte>): Option<(seq<byte>, seq<byte>)> {
    var t := TextIn(body, 0);
    if t.None? then None else Some((t.value.0, body[t.value.1..]))
  }

  lemma PublishReadsBack(topic: seq<byte>, payload: seq<byte>)
    requires |topic| <= 0xFFFF
    ensures PublishOf(PublishBody(topic, payload)) == Some((topic, payload))
  {
    hide HasAt, Text, TextIn;
    var body := PublishBody(topic, payload);
    assert body[0..|body|] == body;
    HasWhole(body);
    HasConcat(body, 0, Text(topic), payload);
    TextReadsBack(body, 0, topic);
    assert body[|Text(topic)|..] == payload;
  }

  datatype Connect = Connect(client: seq<byte>, keepAlive: u16, username: Option<seq<byte>>,
                             password: Option<seq<byte>>)

  function OptionalIn(data: seq<byte>, pos: nat, present: bool): Option<(Option<seq<byte>>, nat)> {
    if !present then Some((None, pos))
    else var t := TextIn(data, pos); if t.None? then None else Some((Some(t.value.0), t.value.1))
  }

  /** A CONNECT packet (section 3.1 of MQTT 3.1.1): the flags say which texts follow. */
  function ConnectOf(body: seq<byte>): Option<Connect> {
    if |body| < 10 || body[..7] != PROTOCOL then None
    else
      var client := TextIn(body, 10);
      if client.None? then None
      else
        var username := OptionalIn(body, client.value.1, body[7] >= 0x80);
        if username.None? then None
        else
          var password := OptionalIn(body, username.value.1, body[7] % 0x80 >= 0x40);
          if password.None? then None
          else
            var keepAlive := (body[8] as int) * 0x100 + body[9] as int;
            Some(Connect(client.value.0, keepAlive, username.value.0, password.value.0))
  }

  lemma OptionalReadsBack(data: seq<byte>, pos: nat, s: Option<seq<byte>>)
    requires TextFits(s) && HasAt(data, pos, OptionalText(s))
    ensures OptionalIn(data, pos, s.Some?) == Some((s, pos + |OptionalText(s)|))
  {
    hide HasAt, Text, TextIn;
    if s.Some? {
      TextReadsBack(data, pos, s.value);
    }
  }

  /** Client, keep-alive and credentials come back as given. */
  lemma ConnectReadsBack(client: seq<byte>, keepAlive: u16, username: Option<seq<byte>>, password: Option<seq<byte>>)
    requires |client| <= 0xFFFF && TextFits(username) && TextFits(password)
    ensures ConnectOf(ConnectBody(client, keepAlive, username, password))
            == Some(Connect(client, keepAlive, username, password))
  {
    hide HasAt, Text, TextIn, OptionalText, OptionalIn, BeBytes;
    var body := ConnectBody(client, keepAlive, username, password);
    var head := PROTOCOL + [Flags(username, password)] + BeBytes(keepAlive, 2);
    TwoBytes(keepAlive);
    ConnectParts(body, head, Text(client), OptionalText(username), OptionalText(password));
    assert head[..7] == PROTOCOL;
    assert body[..7] == body[..10][..7];
    TextReadsBack(body, 10, client);
    OptionalReadsBack(body, 10 + |Text(client)|, username);
    OptionalReadsBack(body, 10 + |Text(client)| + |OptionalText(username)|, password);
  }

  lemma ConnectParts(body: seq<byte>, head: seq<byte>, a: seq<byte>, b: seq<byte>, c: seq<byte>)
    requires |head| == 10 && body == head + a + b + c
    ensures |body| >= 10 && body[..10] == head && body[7] == head[7] && body[8] == head[8] && body[9] == head[9]
    ensures HasAt(body, 10, a) && HasAt(body, 10 + |a|, b) && HasAt(body, 10 + |a| + |b|, c)
  {
    hide HasAt;
    HasWhole(body);
    HasConcat(body, 0, head + a + b, c);
    HasConcat(body, 0, head + a, b);
    HasConcat(body, 0, head, a);
  }
}
