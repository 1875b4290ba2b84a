/** Shared types and small functions. */
module Common {

  type byte = x: int | 0 <= x < 256

  const INT_MAX: int := 0x7fff_ffff

  type int32 = x: int | -0x8000_0000 <= x < 0x8000_0000

  /** An int in two's complement. */
  function Wrap(x: int): int32 {
    (x + 0x8000_0000) % 0x1_0000_0000 - 0x8000_0000
  }

  /** The source's error returns: no value, or a value. */
  datatype Option<T> = None | Some(value: T)

  function Min(a: nat, b: nat): nat {
    if a < b then a else b
  }

  /** 2^k. */
  function Two(k: nat): (r: nat)
    ensures r > 0
  {
    if k == 0 then 1 else 2 * Two(k - 1)
  }

  /** The pieces of a stream put together. */
  function Flatten<T>(chunks: seq<seq<T>>): seq<T> {
    if chunks == [] then [] else Flatten(chunks[..|chunks| - 1]) + chunks[|chunks| - 1]
  }
}
