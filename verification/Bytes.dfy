/**
 Octets as the wire layer sees them, and the constants it compares against and returns.
 */
module Bytes {
  type byte = b: int | 0 <= b < 256

  const TAB: byte := 9
  const LF: byte := 10
  const CR: byte := 13
  const SP: byte := 32
  const SEMICOLON: byte := 59

  const CRLF: seq<byte> := [CR, LF]

  // The longest request target, and the buffer a path is normalized into.
  const MAX_URI_SIZE: nat := 4096

  const TWO_TO_THE_32: nat := 0x1_0000_0000
  const TWO_TO_THE_64: nat := 0x1_0000_0000_0000_0000

  // Linux error numbers, returned negated.
  const EAGAIN: int := 11
  const EINVAL: int := 22
  const ENOSPC: int := 28

  predicate IsBlank(b: byte) { b == SP || b == TAB }

  function Lower(b: byte): byte {
    if 65 <= b <= 90 then b + 32 else b
  }

  function Flatten(frags: seq<seq<byte>>): seq<byte> {
    if frags == [] then [] else frags[0] + Flatten(frags[1..])
  }

  /** Unsigned 64-bit arithmetic. */
  function Wrap64(x: int): nat {
    x % TWO_TO_THE_64
  }

  lemma AddMultiple(x: int, k: int, n: int)
    requires n > 0
    ensures (x + n * k) % n == x % n
  {
    var q, r, q', r' := x / n, x % n, (x + n * k) / n, (x + n * k) % n;
    var e := q + k - q';
    assert r' - r == n * e;
    assert e >= 1 ==> n * e >= n;
    assert e <= -1 ==> n * e <= -n;
  }
}
