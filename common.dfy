/** Shared vocabulary of the model: bytes, the crate's error result, and a byte vector
    that a callee may overwrite through a mutable reference. */
module Common {

  /** Rust's `u8`. */
  newtype u8 = x: int | 0 <= x < 256

  /** The failures the modelled code reports through its `FResult`. */
  datatype Error =
    | BlockFailed               // a cipher answered `Ok(false)`: "Failed to encrypt or decrypt block"
    | CipherFailure(reason: string)  // a cipher returned an error of its own

  /** `FResult<T>`; failure-compatible, so `:-` propagates an error as `?` does. */
  datatype Result<T> = Ok(value: T) | Err(error: Error) {
    predicate IsFailure() { Err? }
    function PropagateFailure<U>(): Result<U> requires Err? { Err(error) }
    function Extract(): T requires Ok? { value }
  }

  /** `vec![0; n]`. */
  function Zeros(n: nat): (r: seq<u8>)
    ensures |r| == n
    ensures forall i :: 0 <= i < n ==> r[i] == 0
  {
    seq(n, _ => 0)
  }

  /** The bytes of `blocks`, one block after the other. */
  function Concat(blocks: seq<seq<u8>>): seq<u8>
  {
    if blocks == [] then [] else blocks[0] + Concat(blocks[1..])
  }

  lemma {:induction false} ConcatAppend(a: seq<seq<u8>>, b: seq<seq<u8>>)
    ensures Concat(a + b) == Concat(a) + Concat(b)
  {
    if a == [] {
      assert a + b == b;
    } else {
      assert (a + b)[1..] == a[1..] + b;
      ConcatAppend(a[1..], b);
    }
  }

  /** A `Vec<u8>` handed to a callee as `&mut Vec<u8>`: the callee may replace its contents. */
  class ByteVec {
    var bytes: seq<u8>

    constructor (init: seq<u8>)
      ensures bytes == init
    {
      bytes := init;
    }
  }
}
