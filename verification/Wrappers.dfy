/** Values that may be absent, and blocks of memory that grow. */
module Wrappers {

  datatype Maybe<T> = None | Some(value: T)

  /** realloc to a block that is not shorter: what is gained holds anything. */
  method Realloc<T(0)>(block: array<T>, n: nat) returns (r: array<T>)
    requires block.Length <= n
    ensures fresh(r) && r.Length == n
    ensures r[..block.Length] == block[..]
  {
    r := new T[n];
    for i := 0 to block.Length
      invariant r[..i] == block[..i]
    {
      r[i] := block[i];
    }
  }
}
