/** Shared value types of the signature scanner model. */
module Types {

  /** `uint8_t`: one byte of scanned memory or of a pattern. */
  newtype byte = x: int | 0 <= x < 0x100

  /** `std::optional`, and the success/failure of an OS call that yields a value. */
  datatype Option<T> = None | Some(value: T)

  function Min(a: nat, b: nat): nat
  {
    if a < b then a else b
  }

  /** Strictly ascending: addresses or offsets in increasing order, no repeats. */
  predicate Ascending(s: seq<nat>)
  {
    forall i, j :: 0 <= i < j < |s| ==> s[i] < s[j]
  }

  function Max(a: nat, b: nat): nat
  {
    if a < b then b else a
  }
}
