/** Shared vocabulary of the archiver: bytes, 32-bit codes, the error-carrying
    result type and sequence flattening. */
module Base {

  /** One symbol of the input: a `char` of a `std::string`, read as 0..255. */
  type Byte = b: int | 0 <= b < 256

  /** A code as it is stored on disk: a signed 32-bit integer. */
  type Int32 = x: int | -0x8000_0000 <= x < 0x8000_0000

  /** Number of chunks the input is cut into; fixed by the archiver. */
  const NumChunks: nat := 16

  /** Either a value or the error that stopped the computation. */
  datatype Result<+T, +E> = Success(value: T) | Failure(error: E)

  /** `s[0]` on a `std::string`: reading position 0 of an empty string yields
      the terminating '\0' character. */
  function Head(s: seq<Byte>): Byte
  {
    if |s| == 0 then 0 else s[0]
  }

  /** Concatenation of the parts, in order. */
  function Concat<T>(parts: seq<seq<T>>): seq<T>
  {
    if |parts| == 0 then [] else Concat(parts[..|parts| - 1]) + parts[|parts| - 1]
  }

  /** The indices 0 .. n-1 in increasing order. */
  function Iota(n: nat): (r: seq<int>)
    ensures |r| == n
    ensures forall i :: 0 <= i < n ==> r[i] == i
  {
    seq(n, i => i)
  }

  /** Either nothing or one value. */
  datatype Option<+T> = None | Some(value: T)

  /** Where the i-th of a row of blocks of size `step` starts, as a sum of
      i steps. The dispatch loop advances its index this way; the splitter
      multiplies instead, and `OffsetIsProduct` shows the two agree. */
  function Offset(step: nat, i: nat): nat
  {
    if i == 0 then 0 else Offset(step, i - 1) + step
  }

  /** The repeated addition is the product `i * step`. */
  lemma {:induction false} OffsetIsProduct(step: nat, i: nat)
    ensures Offset(step, i) == i * step
  {
    if i > 0 {
      OffsetIsProduct(step, i - 1);
      assert i * step == (i - 1) * step + step;
    }
  }

  /** Offsets never move backwards. */
  lemma {:induction false} OffsetMonotone(step: nat, i: nat, j: nat)
    requires i <= j
    ensures Offset(step, i) <= Offset(step, j)
  {
    if i < j {
      OffsetMonotone(step, i, j - 1);
    }
  }
}
