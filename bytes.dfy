/** Bytes and the big-endian integers of the PNG format (section 7.1 of the
    PNG Specification, Second Edition: "all integers that require more than
    one byte shall be in network byte order"). */
module Bytes {

  /** An `unsigned char`. */
  type byte = x: int | 0 <= x < 256

  const TwoTo31: int := 0x8000_0000
  const TwoTo32: int := 0x1_0000_0000

  /** A value a 32-bit C `int` can hold. */
  predicate IsInt32(v: int) {
    -TwoTo31 <= v < TwoTo31
  }

  /** 256 to the power k. */
  function Pow256(k: nat): (p: nat)
    ensures p >= 1
  {
    if k == 0 then 1 else 256 * Pow256(k - 1)
  }

  /** The left-to-right fold `acc = (acc << 8) | s[j]` that readpng.c uses for
      chunk lengths and IHDR fields, written with `* 256 +`: both agree as long
      as each element is a byte and the accumulator does not overflow. */
  function BigEndian(s: seq<int>): int
  {
    if |s| == 0 then 0 else BigEndian(s[..|s| - 1]) * 256 + s[|s| - 1]
  }

  /** A fold of bytes stays below 256^|s|, so four bytes fit an unsigned 32-bit integer. */
  lemma {:induction false} BigEndianBound(s: seq<int>)
    requires forall k :: 0 <= k < |s| ==> 0 <= s[k] < 256
    ensures 0 <= BigEndian(s) < Pow256(|s|)
  {
    if |s| > 0 {
      BigEndianBound(s[..|s| - 1]);
    }
  }

  /** The fold of four bytes written out. */
  lemma BigEndianFour(s: seq<int>)
    requires |s| == 4
    ensures BigEndian(s) == s[0] * 0x100_0000 + s[1] * 0x1_0000 + s[2] * 0x100 + s[3]
  {
    assert BigEndian(s[..1]) == s[0] by { assert s[..1][..0] == []; }
    assert BigEndian(s[..2]) == s[0] * 256 + s[1] by { assert s[..2][..1] == s[..1]; }
    assert BigEndian(s[..3]) == (s[0] * 256 + s[1]) * 256 + s[2] by { assert s[..3][..2] == s[..2]; }
    assert s[..4][..3] == s[..3] && s[..4] == s;
  }

  /** What a signed 32-bit `int` reads after its 32 bits were set to `v`
      (two's complement, as every platform the program targets does it). */
  function ToInt32(v: int): (r: int)
    requires 0 <= v < TwoTo32
    ensures IsInt32(r)
    ensures r % TwoTo32 == v
    ensures 0 <= r <==> v < TwoTo31
  {
    if v < TwoTo31 then v else v - TwoTo32
  }
}
