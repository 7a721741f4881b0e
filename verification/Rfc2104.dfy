/** HMAC as RFC 2104 section 2 defines it, over SHA-256 with its blocks of 64 octets. */
module Rfc2104 {
  import opened Bytes
  import F = Fips180

  const IPAD: Byte := 0x36
  const OPAD: Byte := 0x5c

  /** Step (1): the key, hashed first when it is longer than a block, filled up with zeros. */
  function KeyBlock(key: seq<Byte>): (k: seq<Byte>)
    ensures |k| == 64
  {
    var short := if |key| > 64 then F.Sha256(key) else key;
    short + Zeros(64 - |short|)
  }

  /** Steps (2) and (5): a block exclusive-ored with a repeated octet. */
  function Masked(block: seq<Byte>, pad: Byte): (k: seq<Byte>)
    ensures |k| == |block|
  {
    XorSeq(block, seq(|block|, i => pad))
  }

  function Hmac(key: seq<Byte>, text: seq<Byte>): (d: seq<Byte>)
    ensures |d| == 32
  {
    var k := KeyBlock(key);
    F.Sha256(Masked(k, OPAD) + F.Sha256(Masked(k, IPAD) + text))
  }

  /** A key of at most a block is used as it is, a longer one through its hash; the rest is zero. */
  lemma KeyBlockForms(key: seq<Byte>)
    ensures |key| <= 64 ==> key <= KeyBlock(key) && forall i :: |key| <= i < 64 ==> KeyBlock(key)[i] == 0x00
    ensures |key| > 64 ==> F.Sha256(key) <= KeyBlock(key) && forall i :: 32 <= i < 64 ==> KeyBlock(key)[i] == 0x00
  {
    hide F.Sha256;
  }
}
