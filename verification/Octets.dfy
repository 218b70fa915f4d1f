/** Octet strings in buffers: writing at a position, big-endian numbers, overlapping moves. */
module Octets {
  import opened Words

  // ------------------------------------------------------------------ sequences

  lemma Regroup<T>(x: seq<T>, y: seq<T>, z: seq<T>)
    ensures x + y + z == x + (y + z)
  {
  }

  lemma LastOf<T>(s: seq<T>)
    requires |s| > 0
    ensures s == s[..|s| - 1] + [s[|s| - 1]]
  {
  }

  // ------------------------------------------------------------------ writing into a buffer

  /** `was` with `x` written over it at `pos`. */
  function Splice(was: seq<byte>, pos: nat, x: seq<byte>): (now: seq<byte>)
    requires pos + |x| <= |was|
    ensures |now| == |was|
  {
    was[..pos] + x + was[pos + |x|..]
  }

  /** The contract shared by the encoders: `x` goes in at `pos` and nothing else changes, exactly
      when it fits; otherwise the buffer is said to be too small, and the octets before `pos` are still as
      they were. */
  ghost predicate Puts(r: Result<nat, EncodeError>, was: seq<byte>, now: seq<byte>, pos: nat, x: seq<byte>) {
    && |now| == |was|
    && if pos + |x| <= |was| then r == Success(pos + |x|) && now == Splice(was, pos, x)
       else r == Failure(BufferTooSmall) && SameBefore(was, now, pos)
  }

  ghost predicate SameBefore(was: seq<byte>, now: seq<byte>, pos: nat)
    requires |now| == |was|
  {
    forall k :: 0 <= k < pos && k < |was| ==> now[k] == was[k]
  }

  lemma SpliceTwice(was: seq<byte>, pos: nat, x: seq<byte>, y: seq<byte>)
    requires pos + |x| + |y| <= |was|
    ensures Splice(Splice(was, pos, x), pos + |x|, y) == Splice(was, pos, x + y)
  {
  }

  /** Writing `x`, then `y` right after it, writes `x + y`. */
  lemma PutsThen(r: Result<nat, EncodeError>, was: seq<byte>, mid: seq<byte>, now: seq<byte>, pos: nat,
                 x: seq<byte>, y: seq<byte>)
    requires Puts(Success(pos + |x|), was, mid, pos, x) && Puts(r, mid, now, pos + |x|, y)
    ensures Puts(r, was, now, pos, x + y)
  {
    if pos + |x| + |y| <= |was| {
      SpliceTwice(was, pos, x, y);
    }
  }

  /** What does not fit in part does not fit in whole. */
  lemma FailsEarly(r: Result<nat, EncodeError>, was: seq<byte>, now: seq<byte>, pos: nat, x: seq<byte>, y: seq<byte>)
    requires Puts(r, was, now, pos, x) && r.Failure? && |x| <= |y|
    ensures Puts(r, was, now, pos, y)
  {
  }

  lemma PutsAt(r: Result<nat, EncodeError>, was: seq<byte>, now: seq<byte>, pos: nat, x: seq<byte>)
    requires Puts(r, was, now, pos, x) && r.Success?
    ensures r == Success(pos + |x|) && pos + |x| <= |was| == |now|
  {
  }

  lemma NotPut(r: Result<nat, EncodeError>, was: seq<byte>, now: seq<byte>, pos: nat, x: seq<byte>)
    requires Puts(r, was, now, pos, x) && r.Failure?
    ensures |now| == |was| && SameBefore(was, now, pos)
  {
  }

  lemma FitsEasily(r: Result<nat, EncodeError>, was: seq<byte>, now: seq<byte>, pos: nat, x: seq<byte>)
    requires Puts(r, was, now, pos, x) && pos + |x| <= |was|
    ensures r == Success(pos + |x|) && |now| == |was|
  {
  }

  lemma FitsThere(r: Result<nat, EncodeError>, was: seq<byte>, now: seq<byte>, pos: nat, x: seq<byte>)
    requires Puts(r, was, now, pos, x) && r.Success?
    ensures r.value <= |was| == |now|
  {
  }

  /** One more element of `whole`: written behind what is there, or the whole does not fit. */
  lemma Next(r: Result<nat, EncodeError>, was: seq<byte>, mid: seq<byte>, now: seq<byte>, pos: nat, x: seq<byte>,
             y: seq<byte>,
             whole: seq<byte>)
    requires Puts(Success(pos + |x|), was, mid, pos, x) && Puts(r, mid, now, pos + |x|, y) && |x| + |y| <= |whole|
    ensures r.Success? ==> r == Success(pos + |x + y|) && Puts(r, was, now, pos, x + y)
    ensures r.Failure? ==> Puts(r, was, now, pos, whole)
  {
    hide Puts;
    PutsThen(r, was, mid, now, pos, x, y);
    if r.Failure? {
      FailsEarly(r, was, now, pos, x + y, whole);
    } else {
      PutsAt(r, was, now, pos, x + y);
    }
  }

  /** The first element of `whole`. */
  lemma First(r: Result<nat, EncodeError>, was: seq<byte>, now: seq<byte>, pos: nat, y: seq<byte>, whole: seq<byte>)
    requires Puts(r, was, now, pos, y) && |y| <= |whole|
    ensures r.Success? ==> r == Success(pos + |y|)
    ensures r.Failure? ==> Puts(r, was, now, pos, whole)
  {
  }

  lemma SplicedPart(was: seq<byte>, pos: nat, x: seq<byte>)
    requires pos + |x| <= |was|
    ensures Splice(was, pos, x)[pos..pos + |x|] == x
    ensures Splice(was, pos, x)[..pos] == was[..pos]
    ensures Splice(was, pos, x)[pos + |x|..] == was[pos + |x|..]
  {
  }

  /** Check for space, then write: the shape of every fixed-size field. */
  method Put(buf: array<byte>, pos: nat, x: seq<byte>) returns (r: Result<nat, EncodeError>)
    modifies buf
    ensures Puts(r, old(buf[..]), buf[..], pos, x)
    ensures r.Failure? ==> r.error == BufferTooSmall && buf[..] == old(buf[..])
  {
    if pos + |x| > buf.Length {
      return Failure(BufferTooSmall);
    }
    var i := 0;
    while i < |x|
      invariant 0 <= i <= |x|
      invariant forall k :: 0 <= k < i ==> buf[pos + k] == x[k]
      invariant forall k :: 0 <= k < buf.Length && !(pos <= k < pos + i) ==> buf[k] == old(buf[k])
    {
      buf[pos + i] := x[i];
      i := i + 1;
    }
    assert buf[..] == Splice(old(buf[..]), pos, x);
    return Success(pos + |x|);
  }

  /** `copy_within`: move `buf[lo..hi]` to `dest`, where the two stretches may overlap. */
  method CopyWithin(buf: array<byte>, lo: nat, hi: nat, dest: nat)
    requires lo <= hi <= buf.Length && dest + (hi - lo) <= buf.Length
    modifies buf
    ensures buf[..] == Splice(old(buf[..]), dest, old(buf[lo..hi]))
  {
    ghost var was := buf[..];
    var n := hi - lo;
    if dest <= lo {
      var i := 0;
      while i < n
        invariant 0 <= i <= n
        invariant forall k :: dest <= k < dest + i ==> buf[k] == was[k - dest + lo]
        invariant forall k :: 0 <= k < buf.Length && !(dest <= k < dest + i) ==> buf[k] == was[k]
      {
        buf[dest + i] := buf[lo + i];
        i := i + 1;
      }
    } else {
      var i := n;
      while i > 0
        invariant 0 <= i <= n
        invariant forall k :: dest + i <= k < dest + n ==> buf[k] == was[k - dest + lo]
        invariant forall k :: 0 <= k < buf.Length && !(dest + i <= k < dest + n) ==> buf[k] == was[k]
      {
        i := i - 1;
        buf[dest + i] := buf[lo + i];
      }
    }
    MovedIsSplice(was, buf[..], lo, hi, dest);
  }

  lemma MovedIsSplice(was: seq<byte>, now: seq<byte>, lo: nat, hi: nat, dest: nat)
    requires lo <= hi <= |was| == |now| && dest + (hi - lo) <= |was|
    requires forall k :: dest <= k < dest + (hi - lo) ==> now[k] == was[k - dest + lo]
    requires forall k :: 0 <= k < |now| && !(dest <= k < dest + (hi - lo)) ==> now[k] == was[k]
    ensures now == Splice(was, dest, was[lo..hi])
  {
  }

  // ------------------------------------------------------------------ reading from a buffer

  /** `x` stands in `data` at `pos`. */
  ghost predicate HasAt(data: seq<byte>, pos: nat, x: seq<byte>) {
    pos + |x| <= |data| && data[pos..pos + |x|] == x
  }

  lemma HasFits(data: seq<byte>, pos: nat, x: seq<byte>)
    requires HasAt(data, pos, x)
    ensures pos + |x| <= |data|
  {
  }

  lemma HasConcat(data: seq<byte>, pos: nat, x: seq<byte>, y: seq<byte>)
    ensures HasAt(data, pos, x + y) <==> HasAt(data, pos, x) && HasAt(data, pos + |x|, y)
  {
    if pos + |x| + |y| <= |data| {
      var z := data[pos..pos + |x| + |y|];
      assert z[..|x|] == data[pos..pos + |x|] && z[|x|..] == data[pos + |x|..pos + |x| + |y|];
      assert (x + y)[..|x|] == x && (x + y)[|x|..] == y;
      assert z == z[..|x|] + z[|x|..];
    }
  }

  lemma HasPart(data: seq<byte>, pos: nat, x: seq<byte>, lo: nat, hi: nat)
    requires HasAt(data, pos, x) && lo <= hi <= |x|
    ensures HasAt(data, pos + lo, x[lo..hi])
  {
    assert x == x[..lo] + (x[lo..hi] + x[hi..]);
    HasConcat(data, pos, x[..lo], x[lo..hi] + x[hi..]);
    HasConcat(data, pos + lo, x[lo..hi], x[hi..]);
  }

  lemma HasIndex(data: seq<byte>, pos: nat, x: seq<byte>, k: nat)
    requires HasAt(data, pos, x) && k < |x|
    ensures data[pos + k] == x[k]
  {
    assert data[pos..pos + |x|][k] == data[pos + k];
  }

  lemma HasSlice(data: seq<byte>, pos: nat, x: seq<byte>)
    requires HasAt(data, pos, x)
    ensures pos + |x| <= |data| && data[pos..pos + |x|] == x
  {
  }

  lemma HasWhole(data: seq<byte>)
    ensures HasAt(data, 0, data)
  {
    assert data[0..|data|] == data;
  }

  lemma HasFront(x: seq<byte>, y: seq<byte>)
    ensures HasAt(x + y, 0, x) && HasAt(x + y, |x|, y)
  {
    HasWhole(x + y);
    HasConcat(x + y, 0, x, y);
  }

  /** Five stretches, one behind the other. */
  lemma FiveParts(a: seq<byte>, b: seq<byte>, c: seq<byte>, d: seq<byte>, e: seq<byte>)
    ensures var data := a + b + c + d + e;
            && HasAt(data, 0, a) && HasAt(data, |a|, b) && HasAt(data, |a| + |b|, c)
            && HasAt(data, |a| + |b| + |c|, d) && HasAt(data, |a| + |b| + |c| + |d|, e)
            && data[|a| + |b| + |c| + |d|..] == e && |data| == |a| + |b| + |c| + |d| + |e|
  {
    hide HasAt;
    var data := a + b + c + d + e;
    HasFront(a + b + c + d, e);
    HasConcat(data, 0, a + b + c, d);
    HasConcat(data, 0, a + b, c);
    HasConcat(data, 0, a, b);
  }
}
