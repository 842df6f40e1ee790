/** Bytes, pages of them, and little-endian numbers in byte sequences. */
module Bytes {
  type byte = x: int | 0 <= x < 256

  const PAGE: nat := 4096

  /** The `n`-byte little-endian number at `at`. */
  function Le(f: seq<byte>, at: nat, n: nat): nat
    requires at + n <= |f|
    decreases n
  {
    if n == 0 then 0 else f[at] + 256 * Le(f, at + 1, n - 1)
  }

  /** The low `n` bytes of `v`, lowest first. */
  function LeBytes(v: nat, n: nat): (r: seq<byte>)
    ensures |r| == n
    decreases n
  {
    if n == 0 then [] else [v % 256] + LeBytes(v / 256, n - 1)
  }

  function Pow256(n: nat): nat {
    if n == 0 then 1 else 256 * Pow256(n - 1)
  }

  /** Reading back a written number. */
  lemma {:induction false} LeRoundTrip(f: seq<byte>, at: nat, v: nat, n: nat)
    requires at + n <= |f| && f[at..at + n] == LeBytes(v, n) && v < Pow256(n)
    ensures Le(f, at, n) == v
    decreases n
  {
    if n > 0 {
      assert f[at] == f[at..at + n][0] == v % 256;
      assert f[at + 1..at + n] == f[at..at + n][1..] == LeBytes(v / 256, n - 1);
      LeRoundTrip(f, at + 1, v / 256, n - 1);
    }
  }

  /** A number depends on its own bytes only. */
  lemma {:induction false} LeFrame(f: seq<byte>, g: seq<byte>, at: nat, n: nat)
    requires at + n <= |f| && at + n <= |g| && f[at..at + n] == g[at..at + n]
    ensures Le(f, at, n) == Le(g, at, n)
    decreases n
  {
    if n > 0 {
      assert f[at] == f[at..at + n][0] && g[at] == g[at..at + n][0];
      assert f[at + 1..at + n] == f[at..at + n][1..] && g[at + 1..at + n] == g[at..at + n][1..];
      LeFrame(f, g, at + 1, n - 1);
    }
  }

  /** A number determines its bytes. */
  lemma {:induction false} LeUnique(f: seq<byte>, g: seq<byte>, at: nat, n: nat)
    requires at + n <= |f| && at + n <= |g| && Le(f, at, n) == Le(g, at, n)
    ensures f[at..at + n] == g[at..at + n]
    decreases n
  {
    if n > 0 {
      LowByte(f[at], Le(f, at + 1, n - 1), g[at], Le(g, at + 1, n - 1));
      LeUnique(f, g, at + 1, n - 1);
      assert f[at..at + n] == [f[at]] + f[at + 1..at + n] && g[at..at + n] == [g[at]] + g[at + 1..at + n];
    }
  }

  lemma LowByte(a: byte, b: nat, c: byte, d: nat)
    requires a + 256 * b == c + 256 * d
    ensures a == c && b == d
  {
  }

  /** A number with room to spare has a zero top byte. */
  lemma {:induction false} LeTopZero(v: nat, n: nat)
    requires n > 0 && v < Pow256(n - 1)
    ensures LeBytes(v, n)[n - 1] == 0
    decreases n
  {
    if n > 1 {
      LeTopZero(v / 256, n - 1);
    }
  }
}
