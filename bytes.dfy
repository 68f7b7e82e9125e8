/** Fixed-width unsigned integers and their big-endian byte encoding, as used by
    the length and checksum fields of a log frame (Go's encoding/binary.BigEndian). */
module Bytes {

  type byte = x: int | 0 <= x < 0x100
  type uint32 = x: int | 0 <= x < 0x1_0000_0000
  type uint64 = x: int | 0 <= x < 0x1_0000_0000_0000_0000

  const Uint64Limit: nat := 0x1_0000_0000_0000_0000

  function Pow256(n: nat): (r: nat)
    ensures r >= 1
  {
    if n == 0 then 1 else 256 * Pow256(n - 1)
  }

  lemma Pow256Widths()
    ensures Pow256(4) == 0x1_0000_0000
    ensures Pow256(8) == Uint64Limit
  {
  }

  /** `x` written as `width` bytes, most significant first. Like a Go conversion to a
      fixed-width unsigned integer, only `x` modulo 256^width is kept. */
  function BigEndian(x: nat, width: nat): (r: seq<byte>)
    ensures |r| == width
  {
    if width == 0 then [] else BigEndian(x / 256, width - 1) + [x % 256]
  }

  /** The unsigned integer whose big-endian encoding is `s`. */
  function FromBigEndian(s: seq<byte>): (r: nat)
    ensures r < Pow256(|s|)
  {
    if s == [] then 0
    else
      var hi := FromBigEndian(s[..|s| - 1]);
      assert hi * 256 <= (Pow256(|s| - 1) - 1) * 256;
      hi * 256 + s[|s| - 1]
  }

  lemma DivModUnique(x: int, m: int, q: int, d: int)
    requires m > 0 && 0 <= d < m && x == q * m + d
    ensures x / m == q && x % m == d
  {
    var q', d' := x / m, x % m;
    assert (q - q') * m == d' - d;
    if q > q' {
      MulAtLeast(q - q', m);
    } else if q < q' {
      MulAtLeast(q' - q, m);
    }
  }

  lemma MulAtLeast(k: int, m: int)
    requires k >= 1 && m > 0
    ensures k * m >= m
  {
  }

  /** Splitting x modulo 256*p into its low byte and the rest. */
  lemma ModSplit(x: nat, p: nat)
    requires p > 0
    ensures x % (256 * p) == (x / 256 % p) * 256 + x % 256
  {
    var q, d := x / 256, x % 256;
    var a, b := q / p, q % p;
    assert x == (256 * p) * a + (b * 256 + d) by {
      assert x == q * 256 + d;
      assert q == a * p + b;
    }
    DivModUnique(x, 256 * p, a, b * 256 + d);
  }

  /** Decoding undoes encoding, up to the truncation to `width` bytes. */
  lemma {:induction false} FromBigEndianOfBigEndian(x: nat, width: nat)
    ensures FromBigEndian(BigEndian(x, width)) == x % Pow256(width)
  {
    if width > 0 {
      var s := BigEndian(x, width);
      assert s[..width - 1] == BigEndian(x / 256, width - 1);
      FromBigEndianOfBigEndian(x / 256, width - 1);
      ModSplit(x, Pow256(width - 1));
    }
  }

  /** Encoding undoes decoding. */
  lemma {:induction false} BigEndianOfFromBigEndian(s: seq<byte>)
    ensures BigEndian(FromBigEndian(s), |s|) == s
  {
    if s != [] {
      var k := |s|;
      var hi := FromBigEndian(s[..k - 1]);
      DivModUnique(FromBigEndian(s), 256, hi, s[k - 1]);
      BigEndianOfFromBigEndian(s[..k - 1]);
      assert s == s[..k - 1] + [s[k - 1]];
    }
  }

  lemma BigEndianRoundTrip(x: nat, width: nat)
    requires x < Pow256(width)
    ensures FromBigEndian(BigEndian(x, width)) == x
  {
    FromBigEndianOfBigEndian(x, width);
  }
}
