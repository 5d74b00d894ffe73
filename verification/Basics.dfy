/** Definitions that the other modules share. */
module Basics {
  type byte = x: int | 0 <= x < 256

  const WORD32: nat := 0x1_0000_0000

  /** A value, or the reason why there is none. */
  datatype Outcome<+T> = Ok(value: T) | Error(why: string)

  function Max(a: int, b: int): int {
    if a < b then b else a
  }

  function Min(a: int, b: int): int {
    if a < b then a else b
  }

  /** A value kept in an unsigned 16-bit variable. */
  function Uword(x: nat): (w: nat)
    ensures w < 0x10000
    ensures x < 0x10000 ==> w == x
  {
    x % 0x10000
  }

  /** Pieces put together. */
  function Joined(chunks: seq<seq<byte>>): seq<byte> {
    if chunks == [] then [] else chunks[0] + Joined(chunks[1..])
  }

  lemma Append(a: seq<byte>, b: seq<byte>, c: seq<byte>, bc: seq<byte>, all: seq<byte>)
    requires a + bc == all && bc == b + c
    ensures (a + b) + c == all
  {
  }

  lemma SmallMultiple(n: int, m: int)
    requires m > 0
    ensures n >= 1 ==> n * m >= m
    ensures n <= -1 ==> n * m <= -m
  {
    if n >= 1 {
      assert n * m == m + (n - 1) * m;
    } else if n <= -1 {
      assert n * m == -m + (n + 1) * m;
    }
  }

  /** A remainder is the only one in its range. */
  lemma Remainder(x: int, q: int, r: nat, m: nat)
    requires x == q * m + r && r < m
    ensures x % m == r
  {
    var q1, r1 := x / m, x % m;
    assert x == q1 * m + r1;
    assert (q1 - q) * m == r - r1;
    SmallMultiple(q1 - q, m);
  }
}
