/** The two MS/TP cyclic redundancy checks of ASHRAE 135 Annex G, as csrc/mstp_port.c uses them.
    Octets are bit vectors here because the checks work on bits. */
module Crc {

  const HEADER_INIT: bv8 := 0xFF
  const HEADER_RESIDUE: bv8 := 0x55
  const DATA_INIT: bv16 := 0xFFFF
  const DATA_RESIDUE: bv16 := 0xF0B8

  /** Header CRC of one more octet (clause G.1). */
  function HeaderStep(data: bv8, crc: bv8): bv8 {
    HeaderFold(crc ^ data)
  }

  function HeaderFold(z: bv8): bv8 {
    var x := z as bv16;
    var y := x ^ (x << 1) ^ (x << 2) ^ (x << 3) ^ (x << 4) ^ (x << 5) ^ (x << 6) ^ (x << 7);
    ((y & 0xFE) ^ ((y >> 8) & 1)) as bv8
  }

  /** Data CRC of one more octet (clause G.2). */
  function DataStep(data: bv8, crc: bv16): bv16 {
    var low := (crc & 0xFF) ^ (data as bv16);
    (crc >> 8) ^ (low << 8) ^ (low << 3) ^ (low << 12) ^ (low >> 4) ^ (low & 0x0F) ^ ((low & 0x0F) << 7)
  }

  // ------------------------------------------------------------------ the checks as polynomial division

  /** One bit of division by X^8 + X^7 + 1, least significant bit first: the bit shifted out
      is fed back at the two taps. */
  function HeaderBit(crc: bv8): bv8 {
    (crc >> 1) ^ ((crc & 1) << 7) ^ (crc & 1)
  }

  /** One bit of division by X^16 + X^12 + X^5 + 1, least significant bit first. */
  function DataBit(crc: bv16): bv16 {
    (crc >> 1) ^ ((crc & 1) << 15) ^ ((crc & 1) << 10) ^ ((crc & 1) << 3)
  }

  /** The shift form of the header step is eight bits of division. */
  lemma HeaderStepDivides(data: bv8, crc: bv8)
    ensures HeaderStep(data, crc) ==
            HeaderBit(HeaderBit(HeaderBit(HeaderBit(HeaderBit(HeaderBit(HeaderBit(HeaderBit(crc ^ data))))))))
  {
    HeaderFoldDivides(crc ^ data);
  }

  lemma HeaderFoldDivides(z: bv8)
    ensures HeaderFold(z) == HeaderBit(HeaderBit(HeaderBit(HeaderBit(HeaderBit(HeaderBit(HeaderBit(HeaderBit(z))))))))
  {
  }

  /** The shift form of the data step is eight bits of division. */
  lemma DataStepDivides(data: bv8, crc: bv16)
    ensures DataStep(data, crc) ==
            DataBit(DataBit(DataBit(DataBit(DataBit(DataBit(DataBit(DataBit(crc ^ (data as bv16)))))))))
  {
    var z := crc ^ (data as bv16);
    DataStepFolds(data, crc);
    DataFoldNibbles(z);
    NibbleDivides(z);
    NibbleDivides(DataNibble(z));
  }

  function DataFold(z: bv16): bv16 {
    var low := z & 0xFF;
    (z >> 8) ^ (low << 8) ^ (low << 3) ^ (low << 12) ^ (low >> 4) ^ (low & 0x0F) ^ ((low & 0x0F) << 7)
  }

  function DataNibble(z: bv16): bv16 {
    var n := z & 0x0F;
    (z >> 4) ^ (n << 12) ^ (n << 7) ^ n
  }

  lemma DataStepFolds(data: bv8, crc: bv16)
    ensures DataStep(data, crc) == DataFold(crc ^ (data as bv16))
  {
  }

  lemma DataFoldNibbles(z: bv16)
    ensures DataFold(z) == DataNibble(DataNibble(z))
  {
  }

  lemma NibbleDivides(z: bv16)
    ensures DataNibble(z) == DataBit(DataBit(DataBit(DataBit(z))))
  {
  }

  // ------------------------------------------------------------------ injectivity

  lemma HeaderFoldInjective(y: bv8, z: bv8)
    ensures HeaderFold(y) == HeaderFold(z) ==> y == z
  {
  }

  lemma DataFoldInjective(y: bv16, z: bv16)
    ensures DataFold(y) == DataFold(z) ==> y == z
  {
  }

  lemma Xor8(a: bv8, b: bv8, x: bv8)
    ensures a ^ x == b ^ x ==> a == b
    ensures x ^ a == x ^ b ==> a == b
  {
  }

  lemma Xor16(a: bv16, b: bv16, x: bv16)
    ensures a ^ x == b ^ x ==> a == b
  {
  }

  lemma XorOctet(a: bv8, b: bv8, x: bv16)
    ensures x ^ (a as bv16) == x ^ (b as bv16) ==> a == b
  {
  }

  /** The header step loses nothing of the octet, nor of the CRC so far. */
  lemma HeaderStepInjective(d: bv8, e: bv8, c: bv8)
    ensures HeaderStep(d, c) == HeaderStep(e, c) ==> d == e
    ensures HeaderStep(c, d) == HeaderStep(c, e) ==> d == e
  {
    HeaderFoldInjective(c ^ d, c ^ e);
    HeaderFoldInjective(d ^ c, e ^ c);
    Xor8(d, e, c);
  }

  /** The data step loses nothing of the octet. */
  lemma DataStepInjectiveInData(d: bv8, e: bv8, c: bv16)
    ensures DataStep(d, c) == DataStep(e, c) ==> d == e
  {
    DataStepFolds(d, c);
    DataStepFolds(e, c);
    DataFoldInjective(c ^ (d as bv16), c ^ (e as bv16));
    XorOctet(d, e, c);
  }

  /** The data step loses nothing of the CRC so far. */
  lemma DataStepInjectiveInCrc(d: bv8, c: bv16, c': bv16)
    ensures DataStep(d, c) == DataStep(d, c') ==> c == c'
  {
    DataStepFolds(d, c);
    DataStepFolds(d, c');
    DataFoldInjective(c ^ (d as bv16), c' ^ (d as bv16));
    Xor16(c, c', d as bv16);
  }

  /** The only octet that completes a header is the complement of its CRC. */
  lemma HeaderTrailer(b: bv8, crc: bv8)
    ensures HeaderStep(b, crc) == HEADER_RESIDUE <==> b == !crc
  {
  }

  /** The only two octets that complete a payload are the complement of its CRC, low octet first. */
  lemma DataTrailer(lo: bv8, hi: bv8, crc: bv16)
    ensures DataStep(hi, DataStep(lo, crc)) == DATA_RESIDUE <==> lo == LowOctet(!crc) && hi == HighOctet(!crc)
  {
    hide *;
    DataTrailerCompletes(crc);
    var lo', hi' := LowOctet(!crc), HighOctet(!crc);
    if DataStep(hi, DataStep(lo, crc)) == DATA_RESIDUE {
      TwoStepsInjective(lo, hi, lo', hi', crc);
    }
  }

  lemma DataTrailerCompletes(crc: bv16)
    ensures DataStep(HighOctet(!crc), DataStep(LowOctet(!crc), crc)) == DATA_RESIDUE
  {
  }

  lemma TwoStepsInjective(a: bv8, b: bv8, a': bv8, b': bv8, crc: bv16)
    requires DataStep(b, DataStep(a, crc)) == DataStep(b', DataStep(a', crc))
    ensures a == a' && b == b'
  {
    hide *;
    TwoOctets(a, b, crc);
    TwoOctets(a', b', crc);
    var w, w' := Word(a, b), Word(a', b');
    DataFoldInjective(DataFold(crc ^ w), DataFold(crc ^ w'));
    DataFoldInjective(crc ^ w, crc ^ w');
    WordInjective(a, b, a', b', crc);
  }

  function Word(lo: bv8, hi: bv8): bv16 {
    (lo as bv16) ^ ((hi as bv16) << 8)
  }

  lemma TwoOctets(a: bv8, b: bv8, crc: bv16)
    ensures DataStep(b, DataStep(a, crc)) == DataFold(DataFold(crc ^ Word(a, b)))
  {
    hide *;
    var z := crc ^ (a as bv16);
    DataStepFolds(a, crc);
    DataStepFolds(b, DataFold(z));
    FoldOfHigh(z, b);
    WordXor(a, b, crc);
  }

  lemma WordXor(a: bv8, b: bv8, crc: bv16)
    ensures crc ^ Word(a, b) == (crc ^ (a as bv16)) ^ ((b as bv16) << 8)
  {
  }

  lemma FoldOfHigh(z: bv16, b: bv8)
    ensures DataFold(z ^ ((b as bv16) << 8)) == DataFold(z) ^ (b as bv16)
  {
  }

  lemma WordInjective(a: bv8, b: bv8, a': bv8, b': bv8, crc: bv16)
    ensures crc ^ Word(a, b) == crc ^ Word(a', b') ==> a == a' && b == b'
  {
  }

  function LowOctet(w: bv16): bv8 {
    (w & 0xFF) as bv8
  }

  function HighOctet(w: bv16): bv8 {
    (w >> 8) as bv8
  }

  // ------------------------------------------------------------------ over octet strings

  function HeaderCrc(s: seq<bv8>, init: bv8): bv8 {
    if s == [] then init else HeaderStep(s[|s| - 1], HeaderCrc(s[..|s| - 1], init))
  }

  function DataCrc(s: seq<bv8>, init: bv16): bv16 {
    if s == [] then init else DataStep(s[|s| - 1], DataCrc(s[..|s| - 1], init))
  }

  /** `t` is `s` with the one octet at `i` changed. */
  predicate OneOctetChanged(s: seq<bv8>, t: seq<bv8>, i: nat) {
    i < |s| && |t| == |s| && t[i] != s[i] && t == s[i := t[i]]
  }

  /** A changed octet always changes the header CRC. */
  lemma {:induction false} HeaderCrcDetects(s: seq<bv8>, t: seq<bv8>, i: nat, init: bv8)
    requires OneOctetChanged(s, t, i)
    ensures HeaderCrc(s, init) != HeaderCrc(t, init)
  {
    var n := |s| - 1;
    if i == n {
      assert s[..n] == t[..n];
      HeaderStepInjective(s[n], t[n], HeaderCrc(s[..n], init));
    } else {
      assert t[..n] == s[..n][i := t[i]];
      HeaderCrcDetects(s[..n], t[..n], i, init);
      HeaderStepInjective(HeaderCrc(s[..n], init), HeaderCrc(t[..n], init), s[n]);
    }
  }

  /** A changed octet always changes the data CRC. */
  lemma {:induction false} DataCrcDetects(s: seq<bv8>, t: seq<bv8>, i: nat, init: bv16)
    requires OneOctetChanged(s, t, i)
    ensures DataCrc(s, init) != DataCrc(t, init)
  {
    var n := |s| - 1;
    if i == n {
      assert s[..n] == t[..n];
      DataStepInjectiveInData(s[n], t[n], DataCrc(s[..n], init));
    } else {
      assert t[..n] == s[..n][i := t[i]];
      DataCrcDetects(s[..n], t[..n], i, init);
      DataStepInjectiveInCrc(s[n], DataCrc(s[..n], init), DataCrc(t[..n], init));
    }
  }
}
