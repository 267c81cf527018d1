/** Machine-level vocabulary shared by every model: bytes, 32-bit unsigned arithmetic, buffers. */
module Machine {
  type byte = b: int | 0 <= b < 256

  const TWO_32 := 0x1_0000_0000
  const TWO_31 := 0x8000_0000

  type u32 = n: int | 0 <= n < TWO_32

  /** Unsigned subtraction as the C code performs it: modulo 2^32. */
  function Sub32(a: u32, b: u32): u32 {
    if a >= b then a - b else a - b + TWO_32
  }

  /** Unsigned addition, modulo 2^32. */
  function Add32(a: nat, b: nat): u32 {
    (a + b) % TWO_32
  }

  datatype Option<+T> = None | Some(value: T)

  function Min(a: nat, b: nat): nat {
    if a < b then a else b
  }

  function Max(a: nat, b: nat): nat {
    if a < b then b else a
  }

  /** The last `n` elements of `s`, or all of them when there are fewer. */
  function LastN<T>(s: seq<T>, n: nat): seq<T> {
    if |s| <= n then s else s[|s| - n..]
  }

  /** `s` with the elements from `off` on replaced by `data`: what memcpy does to a buffer. */
  function Splice<T>(s: seq<T>, off: nat, data: seq<T>): (r: seq<T>)
    requires off + |data| <= |s|
    ensures |r| == |s|
  {
    s[..off] + data + s[off + |data|..]
  }
}
