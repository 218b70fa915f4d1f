/** Whole packets by MQTT 3.1.1, bit by bit: what bridge-core/src/mqtt.rs writes is read as what it was
    written for. */
module MqttStandard {
  import opened Words
  import opened Octets
  import opened Numbers
  import opened Mqtt

  // ------------------------------------------------------------------ remaining length

  /** Section 2.2.3: seven bits an octet, times 1, 128, 128 squared, 128 cubed; the high bit says that another
      octet follows. */
  function RemainingIn(data: seq<byte>, pos: nat, multiplier: nat): Option<(nat, nat)>
    decreases |data| - pos
  {
    if pos >= |data| || multiplier > 128 * 128 * 128 then None
    else if data[pos] < 128 then Some((data[pos] * multiplier, pos + 1))
    else
      var rest := RemainingIn(data, pos + 1, multiplier * 128);
      if rest.None? then None else Some((data[pos] % 128 * multiplier + rest.value.0, rest.value.1))
  }

  lemma Distribute(a: nat, b: nat, m: nat)
    ensures (a + 128 * b) * m == a * m + b * (m * 128)
  {
  }

  lemma {:induction false} LengthIsRemaining(data: seq<byte>, pos: nat, left: nat, multiplier: nat)
    requires 1 <= left <= 4
    requires multiplier == (if left == 4 then 1 else if left == 3 then 128 else if left == 2 then 16_384 else 2_097_152)
    ensures RemainingIn(data, pos, multiplier)
            == match LengthAt(data, pos, left)
               case Success(r) => Some((r.0 * multiplier, r.1))
               case Failure(_) => None
    decreases left
  {
    if pos < |data| && data[pos] >= 128 {
      if left > 1 {
        LengthIsRemaining(data, pos + 1, left - 1, multiplier * 128);
        var rest := LengthAt(data, pos + 1, left - 1);
        if rest.Success? {
          Distribute(data[pos] % 128, rest.value.0, multiplier);
        }
      } else {
        assert multiplier * 128 > 128 * 128 * 128;
      }
    }
  }

  /** The reader's loop finds exactly the length that the standard's own finds. */
  lemma LengthReadExactly(data: seq<byte>, pos: nat)
    ensures RemainingIn(data, pos, 1).Some? ==> LengthAt(data, pos, 4) == Success(RemainingIn(data, pos, 1).value)
    ensures LengthAt(data, pos, 4).Success? ==> RemainingIn(data, pos, 1).Some?
  {
    LengthIsRemaining(data, pos, 4, 1);
    hide LengthAt, RemainingIn;
  }

  /** A length field cut short. */
  lemma {:induction false} CutLengthRefused(data: seq<byte>, pos: nat, left: nat)
    requires pos <= |data| < pos + left && forall k :: pos <= k < |data| ==> data[k] >= 128
    ensures LengthAt(data, pos, left) == Failure(UnexpectedEnd)
    decreases left
  {
    if pos < |data| {
      CutLengthRefused(data, pos + 1, left - 1);
    }
  }

  lemma {:induction false} LengthSize(n: nat, left: nat)
    requires left > 0
    ensures |LengthBytes(n)| <= left <==> n < Pow128(left)
    decreases left
  {
    if n >= 128 {
      if left > 1 {
        LengthSize(n / 128, left - 1);
      }
      assert Pow128(1) == 128 * Pow128(0) == 128;
    } else {
      assert Pow128(left) == 128 * Pow128(left - 1);
    }
  }

  /** What can be published: a topic of at most 65535 octets, and a length that four octets hold. */
  lemma PublishableExactly(topic: seq<byte>, payload: seq<byte>)
    ensures Publishable(topic, payload)
            <==> |topic| < 0x1_0000 && |LengthBytes(2 + |topic| + |payload|)| <= 4
  {
    hide LengthBytes, Pow128;
    LengthSize(2 + |topic| + |payload|, 4);
    PowersOf128();
  }

  /** A text is written behind its length exactly when it has at most 65535 octets. */
  lemma TextFitsExactly(s: seq<byte>)
    ensures TextFits(Some(s)) <==> |s| < 0x1_0000
    ensures TextFits(None)
  {
  }

  /** The type of a packet is the high half of its first octet; without that, with a length cut short, or of
      more than four octets, there is none. */
  lemma PacketTypeExactly(data: seq<byte>)
    ensures data == [] ==> PacketTypeOf(data) == Failure(UnexpectedEnd)
    ensures data != [] && RemainingIn(data, 1, 1).Some? ==>
              PacketTypeOf(data) == Success((data[0] / 0x10, RemainingIn(data, 1, 1).value.0))
    ensures data != [] && RemainingIn(data, 1, 1).None? ==> PacketTypeOf(data).Failure?
    ensures |data| >= 5 && (forall k :: 1 <= k < 5 ==> data[k] >= 0x80) ==> PacketTypeOf(data) == Failure(InvalidData)
    ensures data != [] && |data| < 5 && (forall k :: 1 <= k < |data| ==> data[k] >= 0x80) ==>
              PacketTypeOf(data) == Failure(UnexpectedEnd)
  {
    if data != [] {
      LengthReadExactly(data, 1);
      hide LengthAt, RemainingIn;
      if forall k :: 1 <= k < 5 && k < |data| ==> data[k] >= 0x80 {
        if |data| >= 5 {
          FourContinuationsRejected(data, 1);
        } else {
          CutLengthRefused(data, 1, 4);
        }
      }
    }
  }

  // ------------------------------------------------------------------ packets

  /** The first octet and the octets that the length announces. */
  function PacketIn(data: seq<byte>): Option<(byte, seq<byte>)> {
    if data == [] then None
    else
      var n := RemainingIn(data, 1, 1);
      if n.None? || n.value.1 + n.value.0 > |data| then None
      else Some((data[0], data[n.value.1..n.value.1 + n.value.0]))
  }

  /** Every packet is found whole, whatever follows it. */
  lemma PacketIsFound(first: byte, body: seq<byte>, tail: seq<byte>)
    requires |body| <= MAX_REMAINING
    ensures PacketIn(PacketBytes(first, body) + tail) == Some((first, body))
  {
    hide LengthBytes, RemainingIn, LengthAt, HasAt;
    var data := PacketBytes(first, body) + tail;
    var l := LengthBytes(|body|);
    HasFront([first] + l + body, tail);
    HasConcat(data, 0, [first] + l, body);
    HasConcat(data, 0, [first], l);
    PowersOf128();
    LengthReadsBack(data, 1, |body|, 4);
    LengthReadExactly(data, 1);
    HasSlice(data, 1 + |l|, body);
  }

  /** Section 3.3: type 3 in the high half; not a duplicate, quality of service 0, and perhaps retained; the
      topic; no packet identifier; the payload. */
  function PublishIn(data: seq<byte>): Option<(seq<byte>, seq<byte>, bool)> {
    var p := PacketIn(data);
    if p.None? || p.value.0 / 0x10 != 3 || p.value.0 / 0x08 % 2 != 0 || p.value.0 / 0x02 % 4 != 0 then None
    else
      var t := TextIn(p.value.1, 0);
      if t.None? then None else Some((t.value.0, p.value.1[t.value.1..], p.value.0 % 2 == 1))
  }

  /** A PUBLISH packet says topic, payload and retention. */
  lemma PublishPacketReadsBack(topic: seq<byte>, payload: seq<byte>, retain: bool, tail: seq<byte>)
    requires Publishable(topic, payload)
    ensures PublishIn(PublishBytes(topic, payload, retain) + tail) == Some((topic, payload, retain))
  {
    hide PacketIn, PacketBytes, TextIn, PublishBody;
    PublishReadsBack(topic, payload);
    PacketIsFound(0x30 + if retain then 1 else 0, PublishBody(topic, payload), tail);
  }

  /** Section 3.1: type 1 and no flags; the name MQTT and level 4; user name and password as bits 7 and 6 of the
      flags say, the password only with a user name; no will; a clean session; the reserved bit zero; the
      keep-alive; client identifier, user name, password, and nothing more. */
  function ConnectIn(data: seq<byte>): Option<Connect> {
    var p := PacketIn(data);
    if p.None? || p.value.0 != 0x10 then None
    else
      var body := p.value.1;
      var name := TextIn(body, 0);
      if name != Some(([0x4D, 0x51, 0x54, 0x54], 6)) || |body| < 10 || body[6] != 4 then None
      else
        var flags := body[7];
        if flags % 0x40 != 0x02 || (flags / 0x40 % 2 == 1 && flags / 0x80 == 0) then None
        else
          var client := TextIn(body, 10);
          if client.None? then None
          else
            var username := OptionalIn(body, client.value.1, flags / 0x80 == 1);
            if username.None? then None
            else
              var password := OptionalIn(body, username.value.1, flags / 0x40 % 2 == 1);
              if password.None? || password.value.1 != |body| then None
              else Some(Connect(client.value.0, body[8] as int * 0x100 + body[9] as int, username.value.0,
                                password.value.0))
  }

  lemma FlagBits(username: Option<seq<byte>>, password: Option<seq<byte>>)
    ensures var flags := Flags(username, password);
            && flags % 0x40 == 0x02 && (flags / 0x80 == 1 <==> username.Some?)
            && (flags / 0x40 % 2 == 1 <==> password.Some?) && flags / 0x80 <= 1
  {
  }

  lemma NameIsMqtt(body: seq<byte>)
    requires |body| >= 10 && body[..7] == [0x00, 0x04, 0x4D, 0x51, 0x54, 0x54, 0x04]
    ensures TextIn(body, 0) == Some(([0x4D, 0x51, 0x54, 0x54], 6)) && body[6] == 4
  {
    hide BeVal;
    assert body[0] == body[..7][0] && body[1] == body[..7][1] && body[6] == body[..7][6];
    TwoOctetValue(body[0..2]);
    assert body[2..6] == body[..7][2..6] == [0x4D, 0x51, 0x54, 0x54];
  }

  lemma ConnectLayout(client: seq<byte>, keepAlive: u16, username: Option<seq<byte>>, password: Option<seq<byte>>)
    requires |client| <= 0xFFFF && TextFits(username) && TextFits(password)
    ensures var body := ConnectBody(client, keepAlive, username, password);
            var a, b := 10 + |Text(client)|, 10 + |Text(client)| + |OptionalText(username)|;
            && |body| == b + |OptionalText(password)| && |body| >= 10
            && body[..7] == [0x00, 0x04, 0x4D, 0x51, 0x54, 0x54, 0x04] && body[7] == Flags(username, password)
            && body[8] == keepAlive / 0x100 && body[9] == keepAlive % 0x100
            && HasAt(body, 10, Text(client)) && HasAt(body, a, OptionalText(username))
            && HasAt(body, b, OptionalText(password))
  {
    hide HasAt, Text, OptionalText, BeBytes, Flags;
    var body := ConnectBody(client, keepAlive, username, password);
    var head := PROTOCOL + [Flags(username, password)] + BeBytes(keepAlive, 2);
    TwoBytes(keepAlive);
    ConnectParts(body, head, Text(client), OptionalText(username), OptionalText(password));
    assert head[..7] == PROTOCOL;
    assert body[..7] == body[..10][..7];
  }

  /** A CONNECT packet says client, keep-alive and credentials if, and only if, there is no password without a
      user name. */
  lemma ConnectPacketReadsBackExactly(client: seq<byte>, keepAlive: u16, username: Option<seq<byte>>,
                                      password: Option<seq<byte>>, tail: seq<byte>)
    requires |client| <= 0xFFFF && TextFits(username) && TextFits(password)
    requires |ConnectBody(client, keepAlive, username, password)| <= MAX_REMAINING
    ensures ConnectIn(ConnectBytes(client, keepAlive, username, password) + tail)
            == (if password.Some? && username.None? then None
                else Some(Connect(client, keepAlive, username, password)))
  {
    hide PacketIn, PacketBytes, TextIn, OptionalIn, Text, OptionalText, HasAt, Flags, ConnectBody;
    var body := ConnectBody(client, keepAlive, username, password);
    PacketIsFound(0x10, body, tail);
    ConnectLayout(client, keepAlive, username, password);
    NameIsMqtt(body);
    FlagBits(username, password);
    TextReadsBack(body, 10, client);
    OptionalReadsBack(body, 10 + |Text(client)|, username);
    OptionalReadsBack(body, 10 + |Text(client)| + |OptionalText(username)|, password);
  }
}
