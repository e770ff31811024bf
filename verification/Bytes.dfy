/** Octets and the little-endian integers that the file format is made of. */
module Bytes {

  type byte = b: int | 0 <= b < 256

  /** The range of C's uint32_t: unsigned sums wrap at this value. */
  const UINT32_RANGE := 0x1_0000_0000

  function Min(a: int, b: int): int { if a <= b then a else b }

  /** The little-endian value of the n bytes at s[at..]. */
  function ReadLE(s: seq<byte>, at: nat, n: nat): (v: nat)
    requires at + n <= |s|
    decreases |s|, n
  {
    if n == 0 then 0 else s[at] + 256 * ReadLE(s, at + 1, n - 1)
  }

  /** The n-byte little-endian image of v; what does not fit is dropped. */
  function WriteLE(v: nat, n: nat): (s: seq<byte>)
    ensures |s| == n
    decreases n, v
  {
    if n == 0 then [] else [v % 256] + WriteLE(v / 256, n - 1)
  }

  function Pow256(n: nat): nat { if n == 0 then 1 else 256 * Pow256(n - 1) }

  function Pow2(n: nat): (p: nat)
    ensures p > 0
  {
    if n == 0 then 1 else 2 * Pow2(n - 1)
  }

  lemma {:induction false} HalfOfRemainder(n: nat, p: nat)
    requires p > 0
    ensures n % (2 * p) % 2 == n % 2 && n % (2 * p) / 2 == n / 2 % p
  {
    var q, r := n / 2 / p, n / 2 % p;
    assert n / 2 == q * p + r;
    var low := 2 * r + n % 2;
    assert n == q * (2 * p) + low;
    Remainder(n, 2 * p, q, low);
  }

  lemma {:induction false} Remainder(n: nat, m: nat, q: nat, r: nat)
    requires n == q * m + r && r < m
    ensures n % m == r
  {
    var d: int := n / m - q;
    assert n == (n / m) * m + n % m;
    assert (q + d) * m == q * m + d * m;
    assert d >= 1 ==> d * m >= m;
    assert d <= -1 ==> d * m + m <= 0;
  }

  lemma {:induction false} TwoBytes(s: seq<byte>, at: nat)
    requires at + 2 <= |s|
    ensures ReadLE(s, at, 2) == s[at] + 0x100 * (s[at + 1] as int)
  {
    assert ReadLE(s, at + 1, 1) == s[at + 1] + 256 * ReadLE(s, at + 2, 0);
  }

  /** The byte at the higher place counts more. */
  lemma {:induction false} MoreBytes(s: seq<byte>, at: nat, n: nat)
    requires at + n < |s|
    ensures ReadLE(s, at, 0) == 0
    ensures ReadLE(s, at, n + 1) == ReadLE(s, at, n) + Pow256(n) * s[at + n]
    decreases n
  {
    if n > 0 {
      MoreBytes(s, at + 1, n - 1);
      TimesThree(256, Pow256(n - 1), s[at + n]);
    }
  }

  lemma {:induction false} TimesThree(a: nat, b: nat, c: nat)
    ensures a * (b * c) == (a * b) * c
  {
  }

  lemma {:induction false} FourBytes(s: seq<byte>, at: nat)
    requires at + 4 <= |s|
    ensures ReadLE(s, at, 4) == s[at] + 0x100 * (s[at + 1] as int) + 0x1_0000 * (s[at + 2] as int) + 0x100_0000 * (s[at + 3] as int)
  {
    TwoBytes(s, at);
    TwoBytes(s, at + 2);
    assert ReadLE(s, at, 4) == s[at] + 256 * ReadLE(s, at + 1, 3);
    assert ReadLE(s, at + 1, 3) == s[at + 1] + 256 * ReadLE(s, at + 2, 2);
  }

  lemma {:induction false} DivBelow(v: nat, m: nat)
    requires v < 256 * m
    ensures v / 256 < m
  {
  }

  lemma {:induction false} ReadAfterWrite(pre: seq<byte>, v: nat, n: nat, post: seq<byte>)
    requires v < Pow256(n)
    ensures ReadLE(pre + WriteLE(v, n) + post, |pre|, n) == v
    decreases n
  {
    if n > 0 {
      var low, high := [v % 256], WriteLE(v / 256, n - 1);
      DivBelow(v, Pow256(n - 1));
      ReadAfterWrite(pre + low, v / 256, n - 1, post);
      assert pre + WriteLE(v, n) + post == (pre + low) + high + post;
    }
  }
}
