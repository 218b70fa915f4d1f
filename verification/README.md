# BACnet bridge: a verified model

A Dafny model of the protocols at the core of an MS/TP to IP BACnet bridge, with proofs of what they
guarantee. `dafny verify dfyconfig.toml` checks all of it.

## What is modelled

* The **inter-core ring**. `RingMachine` is the protocol: one producer core and one consumer core whose
  single-word and single-byte accesses interleave freely. `RingTheorems` proves first-in-first-out
  behaviour and linearizability over every run, across 32-bit wrap-around; `RingSize` shows for which
  sizes this holds; `RingBuffer` is the array code of one call.
* The **MS/TP link**. `Crc`, `MstpFrames` and `MstpTheorems` specify frames and the receive machine and
  prove what it accepts and detects; `MstpLayout` holds frames against the standard, octet by octet;
  `MstpRecovery` bounds how long a broken frame can hold it;
  `MstpPort` is the code on its static buffers; `TokenPoll` is the token round-robin of core 1.
* The **SNMP agent's BER codec**. `Ber`, `Oid`, `SnmpMessage` specify it, `SnmpTheorems` and
  `SnmpResponses` prove what is read and that responses read back; `BerStandard`, `SnmpTags` and
  `SnmpRefusals` hold both against the standards; `SnmpDecoder`, `SnmpEncoder` and `SnmpAgent` are the
  loops, the in-place moves and the staging buffers.
* **mDNS**. `MdnsNames` defines what a compressed name stands for; `MdnsReader`, `MdnsWriter` and
  `MdnsAnswers` are the reader, the writer and the answers with their lengths filled in afterwards;
  `MdnsRecords` and `MdnsText` find the answers as RFC 1035 and RFC 6763 have them read, `MdnsLimits` says
  what is beyond the limits.
* The **bridge state**. `BridgeTable` and `BridgeState` are the fixed arrays; `BridgeMap` proves that
  after any history they are a nested map of devices and points, `BridgeHistory` what each entry shows.
* The **BACnet codec**. `Bacnet`, `ApduValues`, `ApduMessages` and `ApduTheorems` specify the
  application layer and prove the round trips; `ApduForms`, `ApduStandard` and `ApduWritten`
  hold both directions against the standard's own numbers, `ApduLenient` and `ApduCanonical` say what
  else is decoded; `ApduStops`, `ApduReach`, `ApduLimits` and `ApduLoop`
  say exactly when decoding indexes out of range or runs for ever, `ApduExamples` on what;
  `ApduDecoder` and `ApduEncoder` are its code; `Npdu`, `NpduStandard`, `NpduCodec` and `Bvlc`
  wrap it. `BusService` carries a service over the bus, all layers together.
* **MQTT** packets and their remaining-length field: `Mqtt`, `MqttStandard`, `MqttCodec`.

`Words`, `Numbers`, `Octets` and `Utf8` hold machine words, numbers as octet strings, buffers, and text.

Encoders write into an array. `Octets.Puts` is their common contract: the octets go in at the position
and nothing else changes, exactly when they fit; otherwise the buffer is reported too small and the octets
before the position are as they were. Two errors are none of the code's: `OutOfRange` stands for an index
outside its slice, on which the program stops, and `Endless` for a loop still running after the rounds
it was followed for. Arithmetic that wraps in a release build is written out; positions in a message
have 32 bits, as on the target, and a slice is shorter than 2^31 octets (`Words.Slice`).

## Where the code and its comments differ

The model follows the code.

* `bridge.rs` says the oldest device is evicted and that an update refreshes the address. The code
  evicts slot 0, which after the first eviction is the newest device (`BridgeMap.NewestIsEvicted`), and
  leaves the address alone.
* `ipc.rs` declares a compile-time check of the ring's size that nothing refers to;
  `RingSize.FifoExactlyForPowersOfTwo` shows the condition is needed.
* `mdns.rs` speaks of 253 octets for a name on the wire; the code allows 255, which are 253 with dots
  (`MdnsLimits.WritableExactly`), and does not count empty labels, which it writes as terminators
  (`MdnsNames.NameReadsBackExactly`).
* `apdu.rs` gives each Who-Is limit an option of its own; with only one, none is encoded
  (`ApduMessages.Canonical`).
* `snmp.rs` writes an unsigned value without a leading zero octet unless it has 32 bits; a reader that takes
  it for the integer it is sees a negative one when its shortest octets begin with a set bit
  (`BerStandard.UnsignedIsIntegerExactly`).
* `mqtt.rs` leaves it to the caller that a password comes with a user name
  (`MqttStandard.ConnectPacketReadsBackExactly`).
* `decode_bvlc` can slice outside its data: `Bvlc.BvlcOutOfRangeExactly` says exactly when.
* `decode_apdu` is not safe on every input: it can index outside its data (`ApduReach.StopsExactly`), and
  its list loop can run for ever (`ApduLoop.EndlessExactly`). A length whose sum with the position
  reaches 2^32 is behind both, but for an empty signed integer at the end; such a length can also do
  no harm, and a length one short of it can (`ApduExamples`), so that the exact condition is on the
  reads that decoding comes to.

## Model
| member | source | states |
|---|---|---|
| RingTheorems.FifoTheorem | bridge-core/src/ipc.rs:194-234 | In every state of every interleaving of one producer and one consumer the PDUs handed out are a prefix of those published, whole, and the wrapped index difference is the true occupancy, at most N |
| RingTheorems.NoSharedSlot | csrc/ipc_c.c:134-200 | While both cores copy, the slot written is not the slot read |
| RingTheorems.RunRefinesAtomicQueue | bridge-core/src/ipc.rs:194-234 | Every step of every run is a step, or no step, of a bounded queue whose push and pop are indivisible: both calls are linearizable |
| RingTheorems.FailedPushSawFull | csrc/ipc_c.c:134-150 | A push that reports a full ring: at some instant inside that call N PDUs were queued |
| RingTheorems.EmptyPopSawEmpty | bridge-core/src/ipc.rs:216-221 | A pop that reports an empty ring: at some instant inside that call none was queued |
| RingMachine.StepKeepsInv | csrc/ipc_c.c:134-200 | The protocol invariant (indices, history, queued PDUs stored whole, each core's local knowledge) survives every atomic step of either core |
| RingMachine.RunKeepsInv | bridge-core/src/ipc.rs:194-234 | The invariant holds in every reachable state |
| RingMachine.SlotOfCounter | bridge-core/src/ipc.rs:200 | A 32-bit wrapped counter still selects the slot of the unbounded counter |
| RingMachine.TakeIsOldest | csrc/ipc_c.c:174-200 | What a finished pop hands out is the oldest queued PDU, every byte of it |
| RingSize.PowersOfTwo | bridge-core/src/ipc.rs:153-156 | The property the protocol needs of N holds of exactly the powers of two the compile-time check asks for |
| RingSize.BadSizeBreaksFifo | bridge-core/src/ipc.rs:147-156 | For every other N that fits the index there is a run in which a PDU other than the published one comes out |
| RingSize.FifoExactlyForPowersOfTwo | bridge-core/src/ipc.rs:153-156 | First-in-first-out over all runs if and only if N is a power of two |
| RingSize.SoloPush | csrc/ipc_c.c:134-164 | Steps of the protocol compose to the whole call: a push that runs undisturbed does what the sequential code does |
| RingSize.SoloPop | csrc/ipc_c.c:174-200 | The same for pop |
| RingBuffer.PushAppends | bridge-core/src/ipc.rs:194-207 | The sequential push appends to the queue unless N PDUs are in it, and then changes nothing |
| RingBuffer.PopRemovesOldest | bridge-core/src/ipc.rs:216-234 | The sequential pop removes and returns the oldest PDU, or reports emptiness and changes nothing |
| RingBuffer.RingBuffer.constructor | bridge-core/src/ipc.rs:159-165 | A new ring is empty |
| RingBuffer.RingBuffer.IsEmpty | bridge-core/src/ipc.rs:169-174 | True exactly when nothing is queued |
| RingBuffer.RingBuffer.IsFull | bridge-core/src/ipc.rs:181-185 | True exactly when N PDUs are queued |
| RingBuffer.RingBuffer.Len | bridge-core/src/ipc.rs:244-247 | The number of queued PDUs, across index wrap-around |
| RingBuffer.RingBuffer.Push | csrc/ipc_c.c:134-164 | The array code with its byte-by-byte copy: contents grow by the PDU or stay, result says which |
| RingBuffer.RingBuffer.Pop | csrc/ipc_c.c:174-200 | The array code: the oldest PDU is returned and removed, or nothing happens |
| Crc.HeaderStepDivides | csrc/mstp_port.c:750-752 | The header check step is one octet of division by x^8 + x^7 + 1 (Annex G of ASHRAE 135) |
| Crc.DataStepDivides | csrc/mstp_port.c:795-800 | The data check step is one octet of division by the CRC-CCITT polynomial (Annex G of ASHRAE 135) |
| Crc.HeaderStepInjective | csrc/mstp_port.c:750-752 | Distinct states or distinct octets give distinct next states |
| Crc.DataStepInjectiveInCrc | csrc/mstp_port.c:795-800 | Distinct states give distinct next states, for every octet |
| Crc.DataStepInjectiveInData | csrc/mstp_port.c:795-800 | Distinct octets give distinct next states, for every state |
| Crc.HeaderTrailer | csrc/mstp_port.c:581-586 | The residue 55 is left exactly by the complement of the check so far |
| Crc.DataTrailer | csrc/mstp_port.c:590-598 | The residue F0B8 is left exactly by the complement, low octet first |
| Crc.HeaderCrcDetects | csrc/mstp_port.c:745-755 | One changed octet in a header of any length always changes the check |
| Crc.DataCrcDetects | csrc/mstp_port.c:795-808 | One changed octet in a payload of any length always changes the check |
| MstpTheorems.HeaderCorruptionDetected | csrc/mstp_port.c:745-757 | Change any one octet of a sent frame's header or header check: the error counter goes up by one modulo 2^32, the machine is idle, and no other counter, mark or offer changes |
| MstpTheorems.DataCorruptionDetected | csrc/mstp_port.c:795-808 | The same for any one octet of its 1 to 501 payload octets or data check |
| MstpLayout.FrameExactly | csrc/mstp_port.c:561-598 | The octets sent for a frame are exactly those that clause 9.3 and Annex G of ASHRAE 135 lay out: 55 FF, type, destination, source, length, checks from all ones that leave 55 and F0B8 |
| MstpLayout.WorkedExamples | csrc/mstp_port.c:581-598 | The two worked examples of Annex G |
| MstpLayout.HeadJudged | csrc/mstp_port.c:722-778 | Any five octets and a check behind a preamble: an error counted, a frame without payload counted, passed over when over 501 octets are announced, or its payload awaited |
| MstpLayout.TailJudged | csrc/mstp_port.c:782-850 | Any payload of the announced length and two check octets: an error counted, or the frame counted, and offered if its type is 5 or 6 |
| MstpFrames.FrameReceived | csrc/mstp_port.c:718-858 | From idle, or after a stray 55, a frame with 0 to 501 payload octets is accepted whole |
| MstpTheorems.EveryFrameReceived | csrc/mstp_port.c:718-858 | Any sequence of sent frames between noise without 55 FF is received in order, source, destination and payload intact, no error counted, idle after each |
| MstpTheorems.OfferCompletesFrame | csrc/mstp_port.c:795-840 | A PDU is offered only by an octet that completes a frame of type 5 or 6 with both checks right |
| MstpTheorems.OfferedAreFrames | csrc/mstp_port.c:695-858 | Over every octet stream each PDU offered is the payload of a correct frame standing in the stream, the frames disjoint and in order |
| MstpFrames.RunRxSplit | csrc/mstp_port.c:718-722 | How the stream is split across calls makes no difference |
| MstpPort.Receiver.constructor | csrc/mstp_port.c:695-708 | The receiver starts idle |
| MstpPort.Receiver.CheckHeader | csrc/mstp_port.c:745-750 | The loop over five header octets and their check octet: passed exactly when the division leaves residue 55 |
| MstpPort.Receiver.CheckData | csrc/mstp_port.c:795-804 | The loop over the payload and its two check octets: passed exactly when the division leaves residue F0B8 |
| MstpPort.Receiver.Payload | csrc/mstp_port.c:843-845 | The copying loop hands over exactly the octets collected |
| MstpPort.Receiver.OnHeader | csrc/mstp_port.c:738-743 | A header octet goes to its place, and the fifth ends the header |
| MstpPort.Receiver.OnData | csrc/mstp_port.c:782-793 | A payload octet, or the low check octet, goes to its place, inside the buffer |
| MstpPort.Receiver.OnHeaderCrc | csrc/mstp_port.c:745-778 | The header check loop and the decision after it, on the static buffers |
| MstpPort.Receiver.OnDataCrc2 | csrc/mstp_port.c:795-850 | The data check loop, the counters and the hand-over to the ring |
| MstpPort.Receiver.Receive | csrc/mstp_port.c:722-856 | One octet through the seven-state machine: buffers and indices in place and in bounds, equal to the specified step |
| MstpPort.Receiver.ReceiveCheck | csrc/mstp_port.c:718-858 | One call drains what is available and equals the specified run |
| MstpPort.SentIsFrame | csrc/mstp_port.c:561-604 | What the sender puts on the line is a frame the receiver accepts |
| MstpPort.Transmitter.SendFrame | csrc/mstp_port.c:561-604 | Preamble, header, header check, payload and data check, octet by octet |
| MstpPort.Transmitter.SendHeader | csrc/mstp_port.c:578-586 | Five header octets and the complement of their check |
| MstpPort.Transmitter.SendOctets | csrc/mstp_port.c:588-593 | The payload octets go out in order and their check is the division of them all |
| MstpPort.Transmitter.SendPayload | csrc/mstp_port.c:588-598 | The payload and the complement of its check, low octet first |
| MstpPort.Transmitter.SendToken | csrc/mstp_port.c:676-680 | One token frame, one transmission counted |
| MstpRecovery.HuntsAgain | csrc/mstp_port.c:722-856 | There is no frame-abort timer, yet from any state 510 octets of noise without 55 FF bring the receiver back to looking for a frame |
| MstpRecovery.OneFewerIsNotEnough | csrc/mstp_port.c:722-856 | 509 octets do not suffice: the bound is exact |
| MstpRecovery.RecoversAfterNoise | csrc/mstp_port.c:718-858 | So from any state at all, frames sent after such noise are all received, in order, intact |
| TokenPoll.NeverOwn | csrc/core1_entry.c:405-413 | The token is never granted to the bridge itself, from any stored address |
| TokenPoll.EachStationOnce | csrc/core1_entry.c:399-420 | Any 127 consecutive grants address each other station exactly once, from any reachable state |
| TokenPoll.GrantDistance | csrc/core1_entry.c:416-419 | Successive grants step once round the other 127 addresses |
| TokenPoll.GrantsAreSpaced | csrc/core1_entry.c:399-406 | However often the loop passes, grants are at least 200 ms apart on a counter that wraps, and every pass later than that grants |
| TokenPoll.Poller.Pass | csrc/core1_entry.c:399-420 | One pass of the loop: nothing within 200 ms on a wrapping clock, then one token frame to the next grant |
| BusService.ServiceCrossesBus | csrc/mstp_port.c:718-858 | A service encoded, put in a network packet, framed and sent amid noise is offered once, with its sender and addressee, and decodes to its normal form |
| Ber.TlvReadsBack | bridge-core/src/snmp.rs:160-200 | A TLV in any length form reads back with its content, whatever surrounds it |
| Ber.TlvIsShortest | bridge-core/src/snmp.rs:315-350 | The length form written fits, and no fitting form takes fewer octets |
| Ber.IntReadsBack | bridge-core/src/snmp.rs:206-225 | Every i32 reads back |
| Ber.IntIsShortest | bridge-core/src/snmp.rs:356-366 | No shorter octet string reads as the same integer (X.690 section 8.3.2) |
| Ber.U32ReadsBack | bridge-core/src/snmp.rs:230-255 | Every u32 of an application type reads back |
| BerStandard.LengthIsAnnounced | bridge-core/src/snmp.rs:315-350 | A length field written in any form announces its length by section 8.1.3 of X.690 |
| BerStandard.TlvIsLaidOut | bridge-core/src/snmp.rs:315-350 | A TLV is its tag, a field that announces its content, and that |
| BerStandard.TlvReadExactly | bridge-core/src/snmp.rs:160-200 | The reader follows every such field of at most four further octets, and its error says what is wrong with any other |
| BerStandard.IntegerReadExactly | bridge-core/src/snmp.rs:206-225 | One to four octets are read as the two's-complement number they say, others refused |
| BerStandard.IntegerWritten | bridge-core/src/snmp.rs:356-366 | An integer is written as octets that say it, the first nine bits not all alike (X.690 section 8.3.2) |
| BerStandard.UnsignedIsIntegerExactly | bridge-core/src/snmp.rs:481-504 | A counter, gauge or tick count is written as the integer it has to be by RFC 2578 if and only if its shortest octets do not begin with a set bit or it is 2^31 or more |
| BerStandard.UnsignedReadExactly | bridge-core/src/snmp.rs:230-255 | One to four octets, or five of which the first is zero, are read as the unsigned number they say, others refused |
| BerStandard.ArcIsLaidOut | bridge-core/src/snmp.rs:426-465 | The low seven bits of an arc's octets, most significant first, are its value |
| BerStandard.ArcReadExactly | bridge-core/src/snmp.rs:285-303 | An arc is read as what its octets say if it ends and is below 2^31; otherwise the error says which |
| BerStandard.IdentifierIsLaidOut | bridge-core/src/snmp.rs:397-423 | The first octet is 40 times the first arc and the second; the others follow each on its own (X.690 section 8.19.4) |
| BerStandard.IdentifierReadOn | bridge-core/src/snmp.rs:259-307 | The first octet stands for two arcs, each further one adds one, a seventeenth is refused |
| BerStandard.InternetManagement | bridge-core/src/snmp.rs:397-465 | 1.3.6.1.2.1 is written 2B 06 01 02 01 |
| Oid.Base128HighBits | bridge-core/src/snmp.rs:426-465 | The high bit is clear on the last octet of an arc and on no other, and no leading octet is padding (X.690 section 8.19.2) |
| Oid.ArcReadsBack | bridge-core/src/snmp.rs:285-303 | An arc below 2^31 reads back; a larger one is refused |
| Oid.OidReadsBackExactly | bridge-core/src/snmp.rs:259-307 | An identifier of 2 to 16 arcs round-trips if and only if its first two arcs fit one octet and decode apart, and later arcs are below 2^31 |
| SnmpDecoder.DecodeTlv | bridge-core/src/snmp.rs:160-200 | The length loop computes the specified span, inside the data |
| SnmpDecoder.DecodeInteger | bridge-core/src/snmp.rs:206-225 | The sign-extending shift loop computes the two's-complement value |
| SnmpDecoder.DecodeU32 | bridge-core/src/snmp.rs:230-255 | The shift loop computes the unsigned value |
| SnmpDecoder.DecodeOid | bridge-core/src/snmp.rs:259-307 | The nested arc loops compute the specified identifier |
| SnmpDecoder.DecodeBindingNames | bridge-core/src/snmp.rs:736-756 | The binding loop ends and collects the specified identifiers |
| SnmpDecoder.DecodeGetRequest | bridge-core/src/snmp.rs:664-764 | The whole decoder ends on every octet string, every nested slice inside its parent, with the specified result |
| SnmpTheorems.RequestReadsBack | bridge-core/src/snmp.rs:664-764 | Every well-formed request, in any length forms, reads as exactly what it says |
| SnmpTheorems.AcceptedIsWellFormed | bridge-core/src/snmp.rs:664-764 | Whatever is accepted is a well-formed request read as what it says |
| SnmpTheorems.RequestReadExactly | bridge-core/src/snmp.rs:664-764 | Accepted if and only if well-formed by a grammar with the identifier octets of X.680 and RFC 3416 |
| SnmpRefusals.OtherVersionRefused | bridge-core/src/snmp.rs:680-690 | A version other than 1 is refused as such, whatever follows |
| SnmpRefusals.LongCommunityRefused | bridge-core/src/snmp.rs:692-704 | A community of more than 32 octets is refused |
| SnmpRefusals.OtherPduRefused | bridge-core/src/snmp.rs:706-712 | Every PDU but a GetRequest and a GetNextRequest is refused |
| SnmpRefusals.OtherTagRefused | bridge-core/src/snmp.rs:664-764 | A field with another tag than its place asks for is refused |
| SnmpRefusals.NinthBindingRefused | bridge-core/src/snmp.rs:736-756 | More than eight bindings are refused, whatever follows |
| SnmpEncoder.EncodeTlvHeader | bridge-core/src/snmp.rs:315-350 | Tag and shortest length at the position, nothing else touched, or nothing written |
| SnmpEncoder.MinimalSignedByteLen | bridge-core/src/snmp.rs:784-800 | The redundant-octet loop finds the fewest octets that keep the value |
| SnmpEncoder.EncodeInteger | bridge-core/src/snmp.rs:356-366 | The integer in its fewest octets |
| SnmpEncoder.EncodeOctetString | bridge-core/src/snmp.rs:370-376 | The text under its header, exactly when it fits; over 65535 octets refused |
| SnmpEncoder.EncodeNull | bridge-core/src/snmp.rs:380-388 | Writes 05 00 exactly when two octets fit, nothing else touched |
| SnmpEncoder.EncodeU32App | bridge-core/src/snmp.rs:481-504 | The unsigned value, with a zero octet in front when the top bit is set |
| SnmpEncoder.EncodeBase128 | bridge-core/src/snmp.rs:426-465 | The digit loops write the arc most significant first |
| SnmpEncoder.EncodeOid | bridge-core/src/snmp.rs:397-423 | The identifier through a 128-octet staging buffer that cannot overrun; fewer than two arcs refused |
| SnmpEncoder.EncodeSnmpValue | bridge-core/src/snmp.rs:544-553 | Each kind of value under its own tag, exactly when it fits |
| SnmpEncoder.EncodeVarbind | bridge-core/src/snmp.rs:513-541 | Content staged four octets on and moved left in place against its header leaves exactly the binding |
| SnmpAgent.StageBindings | bridge-core/src/snmp.rs:588-593 | The bindings one behind the other, exactly when each has its room |
| SnmpAgent.StageList | bridge-core/src/snmp.rs:595-607 | The list moved right in place under its header |
| SnmpAgent.StagePdu | bridge-core/src/snmp.rs:609-625 | The PDU body, exactly when the scratch buffer holds it |
| SnmpAgent.StageMessage | bridge-core/src/snmp.rs:629-643 | The message body, exactly when the scratch buffer holds it and the community is no longer than a length field allows |
| SnmpAgent.EncodeGetResponse | bridge-core/src/snmp.rs:567-654 | The output is the nested message followed by its old octets, if and only if the staging buffers and the output hold it, and then walks back; otherwise the output is untouched |
| SnmpAgent.CarriedResponsesWalkBack | bridge-core/src/snmp.rs:567-654 | Bindings the codec carries, within the staging sizes, are encoded and walk back field by field |
| SnmpResponses.ResponseReadsBack | bridge-core/src/snmp.rs:567-654 | Walking a response by the identifier octets of X.680, RFC 2578 and RFC 3416 recovers every field and every binding in order |
| SnmpResponses.StagingLimits | bridge-core/src/snmp.rs:579-645 | What the 512-octet staging buffers hold, in octets of the bindings and of the message, both directions |
| MdnsNames.SplitThenJoin | bridge-core/src/mdns.rs:149-155 | Splitting at dots loses nothing and leaves no dot in a label |
| MdnsNames.SplitAtDot | bridge-core/src/mdns.rs:149-156 | The labels of a name completed by a domain are the labels of both |
| MdnsNames.EncodedLengthIsWire | bridge-core/src/mdns.rs:134-144 | The length checked beforehand is the wire length unless a label is empty, when it is too small |
| MdnsNames.LabelsReadBack | bridge-core/src/mdns.rs:230-246 | Labels read back up to whatever follows them |
| MdnsNames.CompressedReadsBack | bridge-core/src/mdns.rs:207-229 | Labels and a pointer to an earlier name stand for both, one hop dearer; the name ends after the pointer |
| MdnsNames.MoreHops | bridge-core/src/mdns.rs:225-228 | What is read within some number of hops is read the same with more |
| MdnsNames.ExpansionInside | bridge-core/src/mdns.rs:187-250 | On every packet the labels are non-empty and the name ends inside the packet, after its start |
| MdnsNames.CutShort | bridge-core/src/mdns.rs:149-162 | A name with an empty label reads back shorter than it was written |
| MdnsNames.NameReadsBackExactly | bridge-core/src/mdns.rs:121-250 | A written name reads back as its text, ending where the writer stopped, if and only if it is ASCII, has no empty label and is at most 128 octets long |
| MdnsReader.ReadName | bridge-core/src/mdns.rs:187-250 | The loop over position, hops and end ends on every packet and returns exactly the recursive expansion with at most eight backward pointers, or its error |
| MdnsReader.PushLabel | bridge-core/src/mdns.rs:237-244 | A separator unless the name is empty, then each octet as a character, while it fits 128 octets of UTF-8 |
| MdnsReader.TextGrows | bridge-core/src/mdns.rs:238-244 | A name once too long stays too long, so giving up early is right |
| MdnsReader.DecodeHeader | bridge-core/src/mdns.rs:76-89 | Twelve octets read as the header they encode |
| MdnsReader.DecodeQuery | bridge-core/src/mdns.rs:495-515 | The first question of a packet, or the specified error |
| MdnsReader.QueryReadsBack | bridge-core/src/mdns.rs:495-515 | Header, name, type and class of any encoded query come back, whatever follows |
| MdnsWriter.WriteLabel | bridge-core/src/mdns.rs:166-180 | The label behind its length exactly when it has at most 63 octets and fits; otherwise the buffer is untouched |
| MdnsWriter.MeasureName | bridge-core/src/mdns.rs:134-144 | The measuring loop computes the encoded length |
| MdnsWriter.WriteName | bridge-core/src/mdns.rs:121-163 | The wire form goes in at the position exactly when every label and the whole are short enough and it fits; a name too long writes nothing |
| MdnsAnswers.EncodeAResponse | bridge-core/src/mdns.rs:321-338 | The address answer goes in exactly when the name is writable and the message fits, later octets untouched |
| MdnsAnswers.EncodePtrResponse | bridge-core/src/mdns.rs:344-374 | The pointer answer, its length right though filled in afterwards, exactly when both names are writable and it fits |
| MdnsAnswers.EncodeSrvResponse | bridge-core/src/mdns.rs:381-415 | The service answer, its length right though filled in afterwards, exactly when both names are writable and it fits |
| MdnsAnswers.EncodeTxtResponse | bridge-core/src/mdns.rs:422-473 | The text answer, its length right though filled in afterwards, exactly when every pair has at most 255 octets and it fits |
| MdnsAnswers.Backfill | bridge-core/src/mdns.rs:404-413 | Overwriting two octets turns a head that announced 0 into one that announces the data behind it |
| MdnsRecords.AnswerHeader | bridge-core/src/mdns.rs:52-71 | The twelve octets in front of every answer: a response, authoritative, no question, one answer, no other record |
| MdnsRecords.AnswerReadsBack | bridge-core/src/mdns.rs:317-473 | A reader of sections 4.1.1 and 4.1.3 of RFC 1035 finds every answer behind its header, its announced length being that of the data that follows |
| MdnsRecords.AReadsBack | bridge-core/src/mdns.rs:317-338 | The address answer is a record of type 1, class 1 with the flush bit, 4500 seconds, for the host name under .local |
| MdnsRecords.PtrReadsBack | bridge-core/src/mdns.rs:344-374 | The pointer answer is a record of type 12, class 1, whose data is the instance's name |
| MdnsRecords.SrvReadsBack | bridge-core/src/mdns.rs:381-415 | The service answer is a record of type 33, class 1 with the flush bit, whose data is priority and weight 0, the port, and the host's name under .local |
| MdnsText.TxtReadsBack | bridge-core/src/mdns.rs:437-462 | Every string comes back, in order, by section 3.3.14 of RFC 1035 |
| MdnsText.PairReadsBackExactly | bridge-core/src/mdns.rs:439-461 | A pair comes back from its string, split at the first equals sign, if and only if its key has none |
| MdnsText.PairsReadBackExactly | bridge-core/src/mdns.rs:417-462 | All key and value pairs come back, in order, if and only if no key has an equals sign |
| MdnsText.TxtAnswerReadsBackExactly | bridge-core/src/mdns.rs:422-473 | The same from the whole answer, by the record that a reader finds in it, whatever follows |
| MdnsText.TwoPairsAlike | bridge-core/src/mdns.rs:439-461 | With an equals sign in a key, two different pairs are written alike |
| MdnsText.PairsFitExactly | bridge-core/src/mdns.rs:439-448 | A pair is written when key, equals sign and value have at most 255 octets |
| MdnsLimits.WritableExactly | bridge-core/src/mdns.rs:121-180 | A name without empty labels is written if and only if its labels have at most 63 octets and it has at most 253 |
| MdnsLimits.EightPointersExactly | bridge-core/src/mdns.rs:207-229 | A name that goes through eight pointers is read, one that goes through nine is refused |
| MdnsLimits.ForwardPointerRefused | bridge-core/src/mdns.rs:215-224 | A pointer that does not lead back is refused |
| MdnsLimits.CutNameRefused | bridge-core/src/mdns.rs:195-236 | A packet that ends before a name does is refused as such |
| MdnsLimits.LongNameRefused | bridge-core/src/mdns.rs:237-244 | A name whose text would take more than 128 octets is refused |
| MdnsLimits.HighOctetIsUtf8 | bridge-core/src/mdns.rs:241-244 | An octet from 80 on becomes the character of that number in UTF-8 |
| MdnsLimits.QueryRefused | bridge-core/src/mdns.rs:495-515 | A packet without a header, without a question, or that ends inside it, each with its error |
| MdnsLimits.HeaderIsLaidOut | bridge-core/src/mdns.rs:64-89 | The six header fields, each in two octets, most significant first |
| BridgeTable.ShortNamesKept | bridge-core/src/bridge.rs:171-173 | A stored name is the given one exactly when it fits 32 octets |
| BridgeState.Bridge.constructor | bridge-core/src/bridge.rs:137-144 | The table starts empty, in every slot |
| BridgeState.Bridge.FindDevice | bridge-core/src/bridge.rs:151-155 | The first slot with the identifier, or none |
| BridgeState.Bridge.UpsertDevice | bridge-core/src/bridge.rs:165-201 | Arrays after registering a device: known, new, or in place of slot 0; the slot returned holds it |
| BridgeState.Bridge.ReplacePoint | bridge-core/src/bridge.rs:225-234 | Overwriting one entry of the point array replaces that entry of the list it holds, and nothing else |
| BridgeState.Bridge.AddPoint | bridge-core/src/bridge.rs:236-248 | Writing behind the last entry and counting it appends to the list |
| BridgeState.Bridge.UpdatePoint | bridge-core/src/bridge.rs:212-249 | Arrays after a value: the point changed, added, or dropped when 64 are stored |
| BridgeState.Bridge.UpdatePointUnit | bridge-core/src/bridge.rs:292-305 | Only the unit of an existing point changes |
| BridgeState.Bridge.GetPointUnit | bridge-core/src/bridge.rs:309-322 | The point's unit, or 0 |
| BridgeState.Bridge.MarkClean | bridge-core/src/bridge.rs:334-341 | Only that point's dirty flag is cleared |
| BridgeMap.StaysTidyExactly | bridge-core/src/bridge.rs:165-341 | Distinct devices, distinct objects, contiguous slots and no points without a device are kept if and only if a point update names a tracked device's slot |
| BridgeMap.StepRefinesMap | bridge-core/src/bridge.rs:165-341 | One operation on slots is one event on a map of devices to maps of points; every other entry stays |
| BridgeMap.NewFirst | bridge-core/src/bridge.rs:183-200 | Eviction removes exactly slot 0's device and its points from the map |
| BridgeMap.HistoryRefinesMap | bridge-core/src/bridge.rs:165-341 | After any history the arrays are the nested map of its events |
| BridgeMap.PointShowsLastUpdate | bridge-core/src/bridge.rs:225-248 | A tracked point shows the value of its last update and is dirty exactly when not cleaned since |
| BridgeHistory.PointShowsLastUnit | bridge-core/src/bridge.rs:225-305 | And the unit of its last update or unit setting; its object; no name, no description, not writable |
| BridgeHistory.UnitExactly | bridge-core/src/bridge.rs:309-322 | The unit asked for is that of the tracked point, or 0 |
| BridgeHistory.DeviceShowsLastSeen | bridge-core/src/bridge.rs:165-201 | After any history a tracked device shows the station address of its last sighting and, cut as stored, the name of its last named one since it was new; every other field is as in an empty slot |
| BridgeHistory.NextCharacterExactly | bridge-core/src/bridge.rs:170-174 | One more character of a name is stored exactly when 32 octets of UTF-8 hold it with those stored before |
| BridgeHistory.AsciiCutAt32 | bridge-core/src/bridge.rs:170-174 | Of a name in ASCII the first 32 characters are stored |
| BridgeHistory.EightDevicesExactly | bridge-core/src/bridge.rs:178-189 | Eight devices are tracked at most; a new one beyond sends one away, and nothing else does |
| BridgeHistory.SixtyFourPointsExactly | bridge-core/src/bridge.rs:236-248 | Sixty-four points are kept of a device; a value for a new one beyond is dropped, and no other |
| BridgeMap.NewDeviceStartsEmptyExactly | bridge-core/src/bridge.rs:179-200 | A new device starts without points if and only if the table was full or its slot held none |
| BridgeMap.StrayPointsAreInherited | bridge-core/src/bridge.rs:219-248 | Points written to an unoccupied slot, which the code allows, turn up as the next new device's points |
| BridgeMap.FullTableKeepsSlots | bridge-core/src/bridge.rs:183-190 | Once eight devices are tracked, slots 1 to 7 keep theirs through every further history |
| BridgeMap.NewestIsEvicted | bridge-core/src/bridge.rs:183-190 | So eviction is not of the oldest: of two devices new to a full table the second displaces the first |
| Bacnet.RawReadsBackExactly | bridge-core/src/bacnet.rs:132-144 | An object identifier survives packing if and only if its instance has 22 bits |
| Bacnet.RawRepacks | bridge-core/src/bacnet.rs:137-144 | What unpacks packs again to the same word |
| Bacnet.PropertyReadsBackExactly | bridge-core/src/bacnet.rs:177-205 | A property survives its code unless it is a named one given by number |
| Bacnet.CutAtBoundary | bridge-core/src/apdu.rs:420-427 | Well-formed UTF-8 cut at a character boundary stays well-formed |
| ApduValues.ValueReadsBack | bridge-core/src/apdu.rs:182-448 | Every application value decodes to itself at any offset in any surroundings and advances by its encoded length (object instances reduced to 22 bits) |
| Utf8.ValidExactly | bridge-core/src/apdu.rs:418-419 | Octets are taken for text if and only if they are some characters encoded by RFC 3629 |
| Utf8.BoundaryExactly | bridge-core/src/apdu.rs:423-426 | A character boundary is where some of the text's characters end |
| ApduForms.TagReadExactly | bridge-core/src/apdu.rs:294-353 | Every tag of clause 20.2.1 of ASHRAE 135 is read as what it says, and nothing else is but two reserved kinds |
| ApduForms.ValueInAnyForm | bridge-core/src/apdu.rs:379-449 | A value in any form of tag and of any length is read as what it says: numbers modulo 2^32, text cut at the last character that 64 octets hold, unknown tags passed over |
| ApduForms.ValueCut | bridge-core/src/apdu.rs:356-449 | A value whose content the data ends before is refused for that or for its length; a null or unknown one leads beyond the end |
| ApduForms.BooleanInAnyForm | bridge-core/src/apdu.rs:388-393 | A Boolean is its length, and has no content |
| ApduForms.ContextIsNoValue | bridge-core/src/apdu.rs:380-384 | A context tag is no value |
| ApduValues.TagReadsBack | bridge-core/src/apdu.rs:294-353 | A tag in any form of clause 20.2.1 of ASHRAE 135, number and length extended or not, reads back with its size |
| ApduReach.StopsExactly | bridge-core/src/apdu.rs:869-1141 | Decoding indexes out of range if and only if it comes to a read that does: a value where an empty signed integer's tag ends the data, or something read whose position, header and length add up to 2^32 or more, or a tag at the last 32-bit position |
| ApduLimits.AllOrderlyExactly | bridge-core/src/apdu.rs:269-508 | Every read decoding comes to stays in range (but for an empty signed integer at the end) and moves forward past the tag it met, if and only if nothing it comes to wraps |
| ApduLimits.StopsOnlyAtEmptySigned | bridge-core/src/apdu.rs:367-376 | If nothing wraps, decoding indexes out of range if and only if a value is read where an empty signed integer's tag ends the data |
| ApduLimits.NoHugeLengthNothingWraps | bridge-core/src/apdu.rs:321-345 | Nothing wraps in a message without an octet 255 followed by a number of 2^31 or more |
| ApduLimits.ExcessiveIsMore | bridge-core/src/apdu.rs:335-341 | In particular in one whose four-octet lengths do not exceed the data |
| ApduLimits.StopsOnlyOnSuspectEnd | bridge-core/src/apdu.rs:869-948 | Such a message whose last octet is none of 00, 03 and 30 is decoded or refused without indexing out of range |
| ApduLoop.EndlessExactly | bridge-core/src/apdu.rs:1113-1132 | Decoding runs for ever if and only if its list loop comes back to a position it has been at, which shows within as many rounds as there are octets |
| ApduLoop.LoopEndlessExactly | bridge-core/src/apdu.rs:1118-1130 | The same for the loop alone, from any position |
| ApduLoop.EndedIsFinal | bridge-core/src/apdu.rs:869-948 | A result, once there, does not depend on how many rounds the loop was followed |
| ApduLoop.EntryMoves | bridge-core/src/apdu.rs:1118-1130 | An accepted entry in which nothing wraps moves the position forward by at least four octets |
| ApduLoop.LoopEnds | bridge-core/src/apdu.rs:1118-1130 | A loop in which nothing wraps ends after at most a quarter as many rounds as there are octets left |
| ApduLoop.EndsUnlessSomethingWraps | bridge-core/src/apdu.rs:869-948 | So decoding ends on every message unless it comes to something that wraps |
| ApduExamples.CirclingIsEndless | bridge-core/src/apdu.rs:440-447 | A notification on which decoding runs for ever: a value passed over wraps the position back to an earlier closing tag |
| ApduExamples.HugeLengthsStop | bridge-core/src/apdu.rs:269-275 | A value, and a whole Who-Is, whose length wraps past the bound check |
| ApduExamples.EmptySignedStops | bridge-core/src/apdu.rs:371 | A three-octet I-Am that stops the decoder |
| ApduExamples.HugeLengthRefused | bridge-core/src/apdu.rs:440-444 | A length that wraps and does no harm: the message is refused as invalid |
| ApduExamples.LastPositionStops | bridge-core/src/apdu.rs:294-296 | A length that does not wrap and does harm: it leads to the last position, where the next bound check wraps |
| ApduStops.OutOfRangeExactly | bridge-core/src/apdu.rs:379-449 | The value reader indexes out of range if and only if an empty signed integer's tag ends the data, or it reads a value whose position, header and length add up to 2^32 or more |
| ApduStops.NumberStopsExactly | bridge-core/src/apdu.rs:452-468 | The context number reader does if and only if the tag is the one wanted and its length wraps |
| ApduStops.BracketStopsExactly | bridge-core/src/apdu.rs:491-508 | The bracket readers do at the last 32-bit position only |
| ApduStops.PlainStopsExactly | bridge-core/src/apdu.rs:921-935 | The reader of error numbers does if and only if the length wraps |
| ApduStops.OrderlyExactly | bridge-core/src/apdu.rs:269-508 | A read stays in range and moves forward if and only if nothing it adds up wraps |
| ApduStops.ValueMoves | bridge-core/src/apdu.rs:379-449 | A value that is read moves the position past its tag unless it is passed over unread and its length wraps; then it moves it back |
| ApduValues.ContextUnsignedReadsBack | bridge-core/src/apdu.rs:452-468 | A context number reads back under its tag |
| ApduValues.ContextObjectReadsBack | bridge-core/src/apdu.rs:471-488 | A context object identifier reads back under its tag |
| ApduValues.BracketsReadBack | bridge-core/src/apdu.rs:491-520 | Opening and closing tags are recognised, and an opening one is not taken for the end of a list |
| ApduMessages.ListKeepsFirstEight | bridge-core/src/apdu.rs:1113-1132 | Whenever the list loop ends, it ends inside the data and has kept exactly the first eight of its entries |
| ApduMessages.NormalExactly | bridge-core/src/apdu.rs:656-860 | A message is its own normal form if and only if it is canonical |
| ApduTheorems.ApduReadsBack | bridge-core/src/apdu.rs:656-1141 | For every service message, decoding what is encoded gives its normal form |
| ApduTheorems.ApduReadsBackExactly | bridge-core/src/apdu.rs:656-1141 | Decoding inverts encoding if and only if the message is canonical: 22-bit instances, named properties by name, a Who-Is with both limits or none |
| ApduStandard.StandardIsRead | bridge-core/src/apdu.rs:869-1141 | Every message laid out as clauses 20.1 and 21 of ASHRAE 135 have it, in any forms of tags and lengths, is decoded as what it says |
| ApduWritten.WrittenIsStandard | bridge-core/src/apdu.rs:656-860 | Every message encoded, read by those clauses with their own numbers, is the message in normal form |
| ApduWritten.ValueWritten | bridge-core/src/apdu.rs:182-255 | Every value is encoded under the application tag, and in the form, that clause 20.2 gives it |
| ApduLenient.TooShort | bridge-core/src/apdu.rs:869-948 | A message without the fixed octets of its PDU type is cut short |
| ApduLenient.OtherTypesReported | bridge-core/src/apdu.rs:943-947 | A PDU type of no service is reported with the octet behind it, or 0 |
| ApduLenient.FlagsAreIgnored | bridge-core/src/apdu.rs:874-930 | Flags beside the PDU type, and what a request says its sender can take, make no difference |
| ApduLenient.IAmTruncates | bridge-core/src/apdu.rs:968-1004 | Segmentation is kept modulo 256 and vendor modulo 65536 |
| ApduLenient.IAmOfOtherKinds | bridge-core/src/apdu.rs:968-1004 | The first of its four values that is of another kind is refused |
| ApduLenient.PriorityTruncates | bridge-core/src/apdu.rs:1060-1072 | A priority is kept modulo 256 |
| ApduLenient.ErrorIsLenient | bridge-core/src/apdu.rs:915-942 | Class and code of an error may stand under any tags or be missing |
| ApduLenient.ListMayBeMissing | bridge-core/src/apdu.rs:1108-1112 | A notification may end before its list |
| ApduLenient.AnyFlagConfirms | bridge-core/src/apdu.rs:1074-1098 | Any number but 0 asks for confirmed notifications |
| ApduLenient.MissingField | bridge-core/src/apdu.rs:1007-1022 | A field that must be there and is not is refused |
| ApduCanonical.DecodedIsCanonical | bridge-core/src/apdu.rs:869-1141 | Whatever octets are decoded, the message is canonical unless it is a Who-Is with a single limit |
| ApduCanonical.DecodableExactly | bridge-core/src/apdu.rs:869-1141 | What decoding can yield at all, octets unrestricted: exactly the canonical messages, every Who-Is, and reports of PDU types and services it does not know |
| ApduCanonical.RewrittenReadsBack | bridge-core/src/apdu.rs:656-1141 | A decoded message, encoded and decoded again, is the same message if and only if it is not a Who-Is with a single limit; that one comes back without limits, and then stays so |
| ApduCanonical.OneLimitReads | bridge-core/src/apdu.rs:950-966 | A Who-Is with a single limit, either one, is read though it is never written |
| ApduCanonical.EntriesArePlain | bridge-core/src/apdu.rs:1113-1132 | Every entry that the list loop has kept, however long it ran, has a plain property and value |
| ApduTheorems.EntriesReadBack | bridge-core/src/apdu.rs:1118-1130 | Entries of a value list come back in order |
| ApduDecoder.DecodeTag | bridge-core/src/apdu.rs:294-353 | Equals the specified tag reading, of which every form of a tag is read back |
| ApduDecoder.DecodeLvt | bridge-core/src/apdu.rs:308-352 | The four ways of giving a length, branch by branch, equal the specified reading |
| ApduDecoder.DecodeUnsigned | bridge-core/src/apdu.rs:356-364 | The wrapping shift loop computes the number modulo 2^32, or runs out of the data past a wrapped bound check |
| ApduDecoder.DecodeSigned | bridge-core/src/apdu.rs:367-376 | The sign-extending wrapping loop computes the i32, or indexes out of range |
| ApduDecoder.SafeEnd | bridge-core/src/apdu.rs:420-427 | The backing-up loop finds the last character boundary within 64 octets |
| ApduDecoder.DecodeAppValue | bridge-core/src/apdu.rs:379-449 | Equals the specified value reading, of which every encoded value is read back at any offset |
| ApduDecoder.DecodeContextUnsigned | bridge-core/src/apdu.rs:452-468 | Absent at the end or before another tag, else the number; the position moves only past what was taken |
| ApduDecoder.DecodeContextObjectId | bridge-core/src/apdu.rs:471-488 | Absent at the end or before another tag or length, else the identifier; the position moves only past what was taken |
| ApduDecoder.ExpectBracket | bridge-core/src/apdu.rs:491-508 | Moves past the bracket asked for and refuses everything else |
| ApduDecoder.DecodeList | bridge-core/src/apdu.rs:1113-1132 | The list loop, followed for any number of rounds, has reached what is specified for that many |
| ApduDecoder.DecodeApdu | bridge-core/src/apdu.rs:869-948 | Followed for any number of rounds of its list loop, the decoder has reached what is specified for that many; every encoded message is read back in normal form |
| ApduEncoder.EncodeUnsigned | bridge-core/src/apdu.rs:27-57 | The number in its fewest octets behind a tag (also for lines 59-95 and 132-163) |
| ApduEncoder.EncodeAppObjectId | bridge-core/src/apdu.rs:98-112 | The identifier goes in exactly when five octets fit, nothing else touched |
| ApduEncoder.EncodeContextObjectId | bridge-core/src/apdu.rs:115-130 | The same under a context tag |
| ApduEncoder.EncodeSigned | bridge-core/src/apdu.rs:197-213 | The low one, two or four octets of the number |
| ApduEncoder.EncodeAppValue | bridge-core/src/apdu.rs:182-255 | The value, exactly when it fits, nothing else touched |
| ApduEncoder.EncodeWhoIs | bridge-core/src/apdu.rs:656-673 | The message goes in exactly when the buffer holds it, later octets untouched |
| ApduEncoder.EncodeIAm | bridge-core/src/apdu.rs:676-690 | The same for I-Am |
| ApduEncoder.EncodeReadProperty | bridge-core/src/apdu.rs:693-713 | The same for ReadProperty |
| ApduEncoder.EncodeReadPropertyAck | bridge-core/src/apdu.rs:716-740 | The same for its acknowledgement |
| ApduEncoder.EncodeWriteProperty | bridge-core/src/apdu.rs:743-772 | The same for WriteProperty |
| ApduEncoder.EncodeSimpleAck | bridge-core/src/apdu.rs:775-781 | The same for Simple-ACK |
| ApduEncoder.EncodeError | bridge-core/src/apdu.rs:784-802 | The same for Error |
| ApduEncoder.EncodeSubscribeCov | bridge-core/src/apdu.rs:805-829 | The same for SubscribeCOV |
| ApduEncoder.EncodeUcovNotification | bridge-core/src/apdu.rs:832-860 | The same for the notification and its list of values |
| Npdu.NpduReadsBack | bridge-core/src/npdu.rs:88-254 | Decoding an encoded packet gives the header in normal form and the payload |
| Npdu.NpduReadsBackExactly | bridge-core/src/npdu.rs:88-254 | The header itself comes back if and only if it is canonical: version 1, two-bit priority, absent fields zero, addresses padded with zeros |
| Npdu.RewrittenExactly | bridge-core/src/npdu.rs:173-254 | Encoding a decoded packet clears its reserved control bits, so reproduces it if and only if they are zero |
| NpduStandard.StandardHeaderIsRead | bridge-core/src/npdu.rs:173-254 | Every header laid out as clause 6.2 of ASHRAE 135 has it is decoded as what it says |
| NpduStandard.WrittenIsStandard | bridge-core/src/npdu.rs:88-168 | Every header encoded, read by that clause bit by bit, is the header in normal form |
| NpduStandard.HeaderRefused | bridge-core/src/npdu.rs:173-254 | A header cut short, another version, an address refused, each with its error |
| NpduStandard.AddressRefused | bridge-core/src/npdu.rs:208-243 | An address cut short, or of more than seven octets |
| NpduCodec.EncodeNpdu | bridge-core/src/npdu.rs:88-168 | The packet goes in exactly when it fits; an address length over 7, or too little space, writes nothing |
| NpduCodec.DecodeNpdu | bridge-core/src/npdu.rs:173-254 | The header filled in field by field is the specified one |
| Bvlc.EncodeBvlc | bridge-core/src/bvlc.rs:50-66 | The frame goes in exactly when it fits; over 65535 octets it is refused |
| Bvlc.DecodeBvlc | bridge-core/src/bvlc.rs:73-101 | Equals the specified frame reading on every input |
| Bvlc.BvlcReadsBackExactly | bridge-core/src/bvlc.rs:50-101 | A frame comes back, whatever follows it, if and only if it is not of the forwarded kind; of those the first six octets are lost |
| Bvlc.FrameIsLaidOut | bridge-core/src/bvlc.rs:50-66 | Type 81, the function, the length of the whole frame, the packet |
| Bvlc.FrameReadExactly | bridge-core/src/bvlc.rs:73-101 | What a frame of any octets is read as, or which of the errors it gives |
| Bvlc.BvlcOutOfRangeExactly | bridge-core/src/bvlc.rs:82-100 | The decoder slices out of range if and only if a frame not forwarded announces fewer than four octets |
| Bvlc.PacketReadsBack | bridge-core/src/bvlc.rs:50-101 | Frame, network header and service together come back in normal form, whatever follows them |
| Bvlc.PacketReadsBackExactly | bridge-core/src/bvlc.rs:50-101 | And unchanged if and only if header and service are canonical |
| Mqtt.SizeIsExact | bridge-core/src/mqtt.rs:145-155 | The size computed beforehand is the number of octets written |
| Mqtt.LengthReadsBack | bridge-core/src/mqtt.rs:122-193 | Every remaining length up to 268435455 reads back, whatever follows it |
| Mqtt.ReadIsWrittenExactly | bridge-core/src/mqtt.rs:171-193 | What is read fits, and is what would be written if and only if it does not end in an idle zero octet |
| Mqtt.FourContinuationsRejected | bridge-core/src/mqtt.rs:182-190 | Four continuation octets are always refused |
| Mqtt.PacketAnnouncesItsLength | bridge-core/src/mqtt.rs:210-321 | Every packet written announces exactly the octets that follow its fixed header |
| Mqtt.PublishReadsBack | bridge-core/src/mqtt.rs:286-321 | Topic and payload come back by section 3.3 of MQTT 3.1.1 |
| Mqtt.ConnectReadsBack | bridge-core/src/mqtt.rs:210-278 | Client, keep-alive, user name and password come back by section 3.1 of MQTT 3.1.1 |
| MqttStandard.LengthReadExactly | bridge-core/src/mqtt.rs:171-193 | The loop finds exactly the length that the algorithm of section 2.2.3 of MQTT 3.1.1 finds |
| MqttStandard.CutLengthRefused | bridge-core/src/mqtt.rs:176-181 | A length field cut short is refused as such |
| MqttStandard.PublishableExactly | bridge-core/src/mqtt.rs:292-300 | A topic of at most 65535 octets and a length that four octets hold |
| MqttStandard.TextFitsExactly | bridge-core/src/mqtt.rs:109-116 | A text is written behind its length exactly when it has at most 65535 octets |
| MqttStandard.PacketTypeExactly | bridge-core/src/mqtt.rs:358-366 | The type is the high half of the first octet; a missing octet, a length cut short or of more than four octets, each with its error |
| MqttStandard.PublishPacketReadsBack | bridge-core/src/mqtt.rs:286-321 | A whole PUBLISH packet, read by section 3.3 bit by bit, says topic, payload and retention, whatever follows |
| MqttStandard.ConnectPacketReadsBackExactly | bridge-core/src/mqtt.rs:210-278 | A whole CONNECT packet, read by section 3.1 bit by bit, says client, keep-alive and credentials if and only if there is no password without a user name |
| MqttCodec.WriteRemainingLength | bridge-core/src/mqtt.rs:122-142 | The shift loop writes the specified octets |
| MqttCodec.DecodeRemainingLength | bridge-core/src/mqtt.rs:171-193 | The multiplier loop computes the specified length and ends |
| MqttCodec.DecodePacketType | bridge-core/src/mqtt.rs:358-366 | Equals the specified reading: every packet written is recognised with the length that follows |
| MqttCodec.EncodePublish | bridge-core/src/mqtt.rs:286-321 | The packet goes in exactly when topic and length are in range and it fits |
| MqttCodec.EncodeConnect | bridge-core/src/mqtt.rs:210-278 | The packet goes in exactly when its texts are in range and it fits |

## Left out
- RingMachine.Run: memory is sequentially consistent, the fences taken to order each core's accesses in program order; weak-memory effects are not modelled.
- Crc.HeaderStep: the two check functions are in a library outside the repository and are taken from Annex G of ASHRAE 135.
- MstpPort.Receiver: the UART is a sequence of octets; pins, timers, direction switching, LED and busy-waits are not modelled, and neither is the ring's answer to a full push.
- TokenPoll.Poller.Pass: the wait for a station's reply after a grant is not modelled; the clock is a parameter.
- SnmpEncoder.EncodeU32App: the octets are not always those of the integer that RFC 2578 asks for; `BerStandard.UnsignedIsIntegerExactly` says when they are.
- SnmpDecoder.DecodeTlv: positions are unbounded; the code adds the length with a check, so they cannot wrap. Nor can those of the name, network and frame readers, whose lengths have at most 16 bits.
- ApduDecoder.DecodeApdu: takes the number of rounds its list loop is followed for, since the code's loop may not end.
- ApduTheorems.ApduReadsBack: a `Real` is its 32 bits, and Unknown messages, which no encoder writes, are not covered; `ApduCanonical.DecodableExactly` covers them.
- BridgeState.Bridge: fields the firmware sets directly (vendor, online, last seen, points loaded) are carried but no operation here writes them after creation.
- The value pipeline and scale conversions: floating-point arithmetic whose reverse undoes one step only.
- The wiring of the rings into the router: it adds producers and consumers beyond the ring's stated contract.
- The flash-pause handshake between the cores: it gives up on a timeout.
- The HTTP, DNS, MQTT and BACnet/IP services of the firmware, and `main`: asynchronous networking.
- Authentication, TLS, configuration, time, logging and updates: single checks, fixed layouts, or code outside the repository.
- Home Assistant discovery texts, engineering-unit tables, CONNACK, PINGREQ and DISCONNECT: fixed formats and finite tables.
- ReadPropertyMultiple: the code only names its service number.
