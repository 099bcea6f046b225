/** Fixed-width unsigned integers and their big-endian byte encoding, as used
    by the TLS wire format (section 3.3 of RFC 8446: multi-byte values are in
    network byte order). */
module Bytes {

  type uint8 = x: int | 0 <= x < 0x100
  type uint16 = x: int | 0 <= x < 0x1_0000
  type uint32 = x: int | 0 <= x < 0x1_0000_0000

  /** 256 to the power k: the number of values a k-byte field can hold. */
  function Pow256(k: nat): (p: nat)
    ensures p >= 1
  {
    if k == 0 then 1 else 256 * Pow256(k - 1)
  }

  lemma Pow256Values()
    ensures Pow256(1) == 0x100 && Pow256(2) == 0x1_0000
    ensures Pow256(3) == 0x100_0000 && Pow256(4) == 0x1_0000_0000
  {
  }

  /** The unsigned value of `s` read most significant byte first. */
  function FromBigEndian(s: seq<uint8>): (n: nat)
    ensures n < Pow256(|s|)
  {
    if |s| == 0 then 0 else FromBigEndian(s[..|s| - 1]) * 256 + s[|s| - 1]
  }

  /** The k-byte big-endian encoding of `n`. */
  function ToBigEndian(n: nat, k: nat): (s: seq<uint8>)
    requires n < Pow256(k)
    ensures |s| == k
  {
    if k == 0 then [] else ToBigEndian(n / 256, k - 1) + [n % 256]
  }

  /** Encoding then decoding a value that fits gives the value back. */
  lemma {:induction false} FromToBigEndian(n: nat, k: nat)
    requires n < Pow256(k)
    ensures FromBigEndian(ToBigEndian(n, k)) == n
  {
    if k > 0 {
      var s := ToBigEndian(n, k);
      assert s[..k - 1] == ToBigEndian(n / 256, k - 1);
      FromToBigEndian(n / 256, k - 1);
    }
  }

  /** Decoding then re-encoding at the same width gives the bytes back. */
  lemma {:induction false} ToFromBigEndian(s: seq<uint8>)
    ensures ToBigEndian(FromBigEndian(s), |s|) == s
  {
    if |s| > 0 {
      var n := FromBigEndian(s);
      var init := s[..|s| - 1];
      assert n / 256 == FromBigEndian(init);
      assert n % 256 == s[|s| - 1];
      ToFromBigEndian(init);
      assert s == init + [s[|s| - 1]];
    }
  }

  /** The two-byte case spelled out: what `ReadUint16` computes. */
  lemma BigEndian16(s: seq<uint8>)
    requires |s| == 2
    ensures FromBigEndian(s) == (s[0] as int) * 256 + s[1] as int
  {
    assert s[..1][..0] == [];
  }
}
