/** The token round-robin of the core 1 loop: who is granted the token, and when.
    csrc/core1_entry.c. */
module TokenPoll {
  import opened Words
  import opened MstpFrames
  import opened MstpPort

  const MAX_POLL_MAC: byte := 127
  const POLL_INTERVAL_US: u32 := 200_000

  /** `poll_next_mac++`, back to 0 past the last address. */
  function Next(mac: byte): byte {
    if mac + 1 > MAX_POLL_MAC then 0 else mac + 1
  }

  /** The address granted when `next` is the stored one. */
  function Granted(own: byte, next: byte): byte {
    if next == own then Next(next) else next
  }

  /** The stored address after `k` grants. */
  function Stored(own: byte, next: byte, k: nat): byte {
    if k == 0 then next else Next(Granted(own, Stored(own, next, k - 1)))
  }

  /** The address of grant number `k`, counting from 0. */
  function Grant(own: byte, next: byte, k: nat): byte {
    Granted(own, Stored(own, next, k))
  }

  /** How far past our own address a station is, going round; 0 to 126 for the others. */
  function Distance(own: byte, mac: byte): int {
    (mac - own - 1) % 128
  }

  lemma DistanceInjective(own: byte, a: byte, b: byte)
    requires own <= 127 && a <= 127 && b <= 127
    ensures Distance(own, a) == Distance(own, b) ==> a == b
    ensures Distance(own, a) == 127 <==> a == own
  {
  }

  lemma {:induction false} GrantDistance(own: byte, next: byte, k: nat)
    requires own <= 127 && next <= 127
    ensures Stored(own, next, k) <= 127 && Grant(own, next, k) <= 127
    ensures Distance(own, Grant(own, next, k)) == (Distance(own, Grant(own, next, 0)) + k) % 127
  {
    hide Distance, Granted, Next;
    if k == 0 {
      FirstGrant(own, next);
    } else {
      GrantDistance(own, next, k - 1);
      OtherStation(own, Grant(own, next, k - 1));
      NextGrant(own, Grant(own, next, k - 1));
      NextTurn(Distance(own, Grant(own, next, 0)) + k - 1);
    }
  }

  lemma FirstGrant(own: byte, next: byte)
    requires own <= 127 && next <= 127
    ensures Granted(own, next) <= 127 && Distance(own, Granted(own, next)) % 127 == Distance(own, Granted(own, next))
  {
    OtherStation(own, Granted(own, next));
  }

  /** The own address is 127 away, every other one nearer. */
  lemma OtherStation(own: byte, mac: byte)
    requires own <= 127 && mac <= 127
    ensures 0 <= Distance(own, mac) <= 127 && (Distance(own, mac) == 127 <==> mac == own)
    ensures Distance(own, mac) < 127 ==> Next(mac) <= 127
  {
  }

  lemma NextTurn(x: int)
    ensures (x % 127 + 1) % 127 == (x + 1) % 127
  {
  }

  lemma NextGrant(own: byte, mac: byte)
    requires own <= 127 && mac <= 127 && mac != own
    ensures Granted(own, Next(mac)) <= 127 && Granted(own, Next(mac)) != own
    ensures Distance(own, Granted(own, Next(mac))) == (Distance(own, mac) + 1) % 127
  {
    hide Distance;
    DistanceIs(own, mac);
    DistanceIs(own, Granted(own, Next(mac)));
  }

  lemma DistanceIs(own: byte, mac: byte)
    requires own <= 127 && mac <= 127
    ensures Distance(own, mac) == if mac > own then mac - own - 1 else mac - own + 127
  {
  }

  /** The token is never granted to ourselves. */
  lemma NeverOwn(own: byte, next: byte, k: nat)
    requires own <= 127 && next <= 127
    ensures Grant(own, next, k) <= 127 && Grant(own, next, k) != own
  {
    GrantDistance(own, next, k);
  }

  /** From any reachable state, any 127 grants in a row address every other station exactly once. */
  lemma EachStationOnce(own: byte, next: byte, k: nat, mac: byte) returns (turn: nat)
    requires own <= 127 && next <= 127 && mac <= 127 && mac != own
    ensures k <= turn < k + 127 && Grant(own, next, turn) == mac
    ensures forall j :: k <= j < k + 127 && Grant(own, next, j) == mac ==> j == turn
  {
    hide Grant, Distance;
    var d, e := Distance(own, Grant(own, next, 0)), Distance(own, mac);
    OtherStation(own, mac);
    turn := k + (e - d - k) % 127;
    GrantDistance(own, next, turn);
    TurnReaches(d, e, k);
    DistanceInjective(own, Grant(own, next, turn), mac);
    forall j: nat | k <= j < k + 127 && Grant(own, next, j) == mac
      ensures j == turn
    {
      GrantDistance(own, next, j);
      TurnUnique(d + turn, d + j);
    }
  }

  lemma TurnReaches(d: int, e: int, k: int)
    requires 0 <= e < 127
    ensures (d + (k + (e - d - k) % 127)) % 127 == e
  {
  }

  lemma TurnUnique(x: int, y: int)
    requires x % 127 == y % 127 && -127 < x - y < 127
    ensures x == y
  {
  }

  // ------------------------------------------------------------------ when the token is granted

  /** On a wrapping microsecond counter. */
  predicate Due(last: u32, now: u32) {
    (now - last) % WRAP >= POLL_INTERVAL_US
  }

  /** The passes of the loop, at these times, that grant the token. */
  function GrantTimes(start: u32, passes: seq<u32>): (g: seq<u32>)
    ensures |g| <= |passes|
  {
    if passes == [] then []
    else
      var n := |passes| - 1;
      var g := GrantTimes(start, passes[..n]);
      if Due(LastOr(start, g), passes[n]) then g + [passes[n]] else g
  }

  function LastOr(start: u32, g: seq<u32>): u32 {
    if g == [] then start else g[|g| - 1]
  }

  lemma OnePass(start: u32, passes: seq<u32>, now: u32)
    ensures var g := GrantTimes(start, passes);
            GrantTimes(start, passes + [now]) == if Due(LastOr(start, g), now) then g + [now] else g
  {
    hide Due;
    assert (passes + [now])[..|passes|] == passes;
  }

  lemma {:induction false} GrantsWhenDue(start: u32, passes: seq<u32>)
    ensures var g := GrantTimes(start, passes);
            && (forall k :: 0 < k < |g| ==> Due(g[k - 1], g[k])) && (g != [] ==> Due(start, g[0]))
            && (passes != [] ==> !Due(LastOr(start, g), passes[|passes| - 1]))
  {
    hide Due;
    if passes != [] {
      GrantsWhenDue(start, passes[..|passes| - 1]);
      NotDueAtOnce(passes[|passes| - 1]);
    }
  }

  lemma NotDueAtOnce(now: u32)
    ensures !Due(now, now)
  {
  }

  /** Microseconds from one reading of the 32-bit counter to another. */
  function Elapsed(last: u32, now: u32): u32 {
    if now >= last then now - last else now + 0x1_0000_0000 - last
  }

  lemma DueIs(last: u32, now: u32)
    ensures Due(last, now) <==> Elapsed(last, now) >= 200_000
  {
    ElapsedWraps(last, now);
  }

  lemma ElapsedWraps(last: u32, now: u32)
    ensures (now - last) % WRAP == Elapsed(last, now)
  {
  }

  /** However often the loop passes, grants are at least 200 ms apart, and a pass that grants nothing
      comes sooner after the last one than that. */
  lemma GrantsAreSpaced(start: u32, passes: seq<u32>)
    ensures var g := GrantTimes(start, passes);
            && (forall k :: 0 < k < |g| ==> Elapsed(g[k - 1], g[k]) >= 200_000)
            && (g != [] ==> Elapsed(start, g[0]) >= 200_000)
            && (passes != [] ==> Elapsed(LastOr(start, g), passes[|passes| - 1]) < 200_000)
  {
    hide Due, Elapsed, GrantTimes;
    var g := GrantTimes(start, passes);
    GrantsWhenDue(start, passes);
    forall k | 0 < k < |g|
      ensures Elapsed(g[k - 1], g[k]) >= 200_000
    {
      DueIs(g[k - 1], g[k]);
    }
    if g != [] {
      DueIs(start, g[0]);
    }
    if passes != [] {
      DueIs(LastOr(start, g), passes[|passes| - 1]);
    }
  }

  /** A station address as it goes on the wire. */
  function Octet(mac: byte): bv8 {
    mac as bv8
  }

  lemma StoredNext(own: byte, k: nat)
    ensures Stored(own, 0, k + 1) == Next(Grant(own, 0, k))
  {
  }

  class Poller {
    const own: byte
    var pollNextMac: byte
    var lastPollUs: u32
    const port: Transmitter
    /** When the loop started, when it passed since, and the addresses granted so far. */
    ghost const started: u32
    ghost var passes: seq<u32>
    ghost var granted: seq<byte>

    /** The loop's state after the grants made so far, all counted from address 0. */
    ghost predicate Valid()
      reads this
    {
      && pollNextMac == Stored(own, 0, |granted|) <= MAX_POLL_MAC
      && |granted| == |GrantTimes(started, passes)| && lastPollUs == LastOr(started, GrantTimes(started, passes))
      && forall k :: 0 <= k < |granted| ==> granted[k] == Grant(own, 0, k)
    }

    constructor (own: byte, port: Transmitter, now: u32)
      ensures Valid() && granted == [] && this.own == own && this.port == port && started == now && passes == []
    {
      this.own, this.port, started := own, port, now;
      pollNextMac, lastPollUs, granted, passes := 0, now, [], [];
    }

    /** The token part of one pass of the loop: nothing until 200 ms after the last grant,
        measured on a wrapping microsecond counter; then one token frame. */
    method Pass(now: u32)
      requires Valid()
      modifies this, port
      ensures Valid() && passes == old(passes) + [now]
      ensures Elapsed(old(lastPollUs), now) < 200_000 ==>
                granted == old(granted) && port.line == old(port.line) && lastPollUs == old(lastPollUs)
      ensures Elapsed(old(lastPollUs), now) >= 200_000 ==>
                var mac := Grant(own, 0, |old(granted)|);
                && granted == old(granted) + [mac] && lastPollUs == now
                && port.line == old(port.line) + Frame(0x00, Octet(mac), Octet(own), [])
    {
      hide Frame, Stored, Bump, Octet, GrantTimes;
      OnePass(started, passes, now);
      passes := passes + [now];
      ElapsedWraps(lastPollUs, now);
      hide Elapsed;
      if (now - lastPollUs) % WRAP >= POLL_INTERVAL_US {
        StoredNext(own, |granted|);
        lastPollUs := now;
        if pollNextMac == own {
          pollNextMac := pollNextMac + 1;
          if pollNextMac > MAX_POLL_MAC {
            pollNextMac := 0;
          }
        }
        port.SendToken(Octet(pollNextMac), Octet(own));
        granted := granted + [pollNextMac];
        pollNextMac := pollNextMac + 1;
        if pollNextMac > MAX_POLL_MAC {
          pollNextMac := 0;
        }
      }
    }
  }
}
