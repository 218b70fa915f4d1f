/** Machine words and the outcome types shared by the model's modules.
    Octets and words are bounded integers; a wrapping operation is written out. */
module Words {

  type byte = x: int | 0 <= x < 0x100
  type u16 = x: int | 0 <= x < 0x1_0000
  type u32 = x: int | 0 <= x < 0x1_0000_0000
  type i32 = x: int | -0x8000_0000 <= x < 0x8000_0000

  /** 2 to the 32nd: the number of values of a `u32` index. */
  const WRAP: int := 0x1_0000_0000

  datatype Option<+T> = None | Some(value: T)

  /** `EncodeError` of bridge-core/src/error.rs. */
  datatype EncodeError = BufferTooSmall | StringTooLong | InvalidValue

  /** A slice: no longer than half the address space of the 32-bit target. */
  type Slice = s: seq<byte> | |s| < 0x8000_0000

  /** Addition of `usize` values, which have 32 bits on the target and wrap in a release build. */
  function Plus(pos: nat, n: nat): u32 {
    (pos + n) % WRAP
  }

  /** `DecodeError` of bridge-core/src/error.rs. The last two are no values of the source: `OutOfRange`
      stands for an index outside its slice, on which the program stops, `Endless` for a loop that
      is still running. */
  datatype DecodeError =
    | UnexpectedEnd | InvalidData | InvalidVersion | LengthOutOfBounds | InvalidNamePointer
    | OutOfRange | Endless

  /** A failure-compatible result, so that `:-` plays the part of the source's `?`. */
  datatype Result<+T, +E> = Success(value: T) | Failure(error: E) {
    predicate IsFailure() {
      Failure?
    }

    function PropagateFailure<U>(): Result<U, E>
      requires Failure?
    {
      Failure(error)
    }

    function Extract(): T
      requires Success?
    {
      value
    }
  }

  /** A number below 256 survives as a bit vector. */
  lemma {:induction false} OctetRoundTrip(n: nat)
    requires n < 256
    ensures (n as bv8) as int == n
  {
    if n > 0 {
      OctetRoundTrip(n - 1);
      NextOctet((n - 1) as bv8);
      assert n as bv8 == (n - 1) as bv8 + 1;
    }
  }

  lemma NextOctet(b: bv8)
    requires b < 255
    ensures (b + 1) as int == b as int + 1
  {
  }
}
