/** Octets, 32-bit words and the big-endian conversions that the hash code and the
    WebSocket code share. */
module Bytes {

  type Byte = bv8
  type Word = bv32

  const TWO_TO_THE_32: nat := 0x1_0000_0000
  const TWO_TO_THE_64: nat := 0x1_0000_0000_0000_0000

  /** be32enc: four octets, most significant first. */
  function Be32Enc(w: Word): (b: seq<Byte>)
    ensures |b| == 4
  {
    [((w >> 24) & 0xFF) as Byte, ((w >> 16) & 0xFF) as Byte, ((w >> 8) & 0xFF) as Byte, (w & 0xFF) as Byte]
  }

  /** be32dec: the word that four octets denote, most significant first. */
  function Be32Dec(b: seq<Byte>): Word
    requires |b| == 4
  {
    ((b[0] as Word) << 24) | ((b[1] as Word) << 16) | ((b[2] as Word) << 8) | (b[3] as Word)
  }

  /** Addition modulo 2^32, the sum of the standard and of uint32_t. */
  function Add(x: Word, y: Word): Word { x + y }

  /** In twice the width the sum keeps its carry, which the addition of words drops. */
  lemma AddDropsCarry(x: Word, y: Word)
    ensures Add(x, y) as bv64 == ((x as bv64) + (y as bv64)) & 0xFFFF_FFFF
  {
  }

  /** The first octet counts for most. */
  lemma Be32Order(b: seq<Byte>)
    requires |b| == 4
    ensures Be32Dec(b) == 0x100_0000 * (b[0] as Word) + 0x1_0000 * (b[1] as Word)
                          + 0x100 * (b[2] as Word) + (b[3] as Word)
  {
  }

  lemma Be32Inverse(w: Word, b: seq<Byte>)
    requires |b| == 4
    ensures Be32Dec(Be32Enc(w)) == w
    ensures Be32Enc(Be32Dec(b)) == b
  {
  }

  /** The octet with a given value, and the value of an octet. */
  function Octet(n: nat): Byte
    requires n < 256
  {
    n as Byte
  }

  function Value(b: Byte): (v: nat)
    ensures v < 256
  {
    b as nat
  }

  lemma OctetInverse(n: nat, b: Byte)
    requires n < 256
    ensures Value(Octet(n)) == n
    ensures Octet(Value(b)) == b
  {
    OctetIsResidue(n);
    ResidueIsSmall(n);
  }

  lemma OctetIsResidue(n: nat)
    requires n < 256
    ensures (n as Byte) as nat == n % 256
  {
  }

  lemma ResidueIsSmall(n: nat)
    requires n < 256
    ensures n % 256 == n
  {
  }

  /** The k low octets of n, most significant first (be64enc is k == 8). */
  function BigEndian(n: nat, k: nat): (b: seq<Byte>)
    ensures |b| == k
  {
    if k == 0 then [] else BigEndian(n / 256, k - 1) + [Octet(n % 256)]
  }

  /** The number that an octet string denotes, most significant octet first. */
  function BigEndianValue(b: seq<Byte>): nat {
    if b == [] then 0 else 256 * BigEndianValue(b[..|b| - 1]) + Value(b[|b| - 1])
  }

  function Pow256(k: nat): (p: nat)
    ensures p > 0
  {
    if k == 0 then 1 else 256 * Pow256(k - 1)
  }

  lemma {:induction false} BigEndianRoundTrip(n: nat, k: nat)
    requires n < Pow256(k)
    ensures BigEndianValue(BigEndian(n, k)) == n
  {
    hide Octet, Value;
    if k > 0 {
      BigEndianRoundTrip(n / 256, k - 1);
      OctetInverse(n % 256, 0);
      var b, init := BigEndian(n, k), BigEndian(n / 256, k - 1);
      assert b == init + [Octet(n % 256)] && b[..|b| - 1] == init;
      hide BigEndian;
      assert 256 * (n / 256) + n % 256 == n;
    }
  }

  lemma {:induction false} BigEndianValueBound(b: seq<Byte>)
    ensures BigEndianValue(b) < Pow256(|b|)
  {
    hide Octet, Value;
    if b != [] {
      BigEndianValueBound(b[..|b| - 1]);
    }
  }

  lemma {:induction false} BigEndianOfValue(b: seq<Byte>)
    ensures BigEndian(BigEndianValue(b), |b|) == b
  {
    hide Octet, Value;
    if b != [] {
      var init, last := b[..|b| - 1], b[|b| - 1];
      BigEndianOfValue(init);
      OctetInverse(0, last);
      var n := BigEndianValue(init);
      assert BigEndianValue(b) == 256 * n + Value(last);
      hide BigEndianValue;
      LastDigit(n, Value(last));
      assert BigEndian(256 * n + Value(last), |b|) == BigEndian(n, |b| - 1) + [last];
      assert b == init + [last];
    }
  }

  lemma LastDigit(n: nat, d: nat)
    requires d < 256
    ensures (256 * n + d) % 256 == d && (256 * n + d) / 256 == n
  {
  }

  /** The first octet counts for most: this fixes the order, which the round trips leave open. */
  lemma {:induction false} FirstOctetCounts(first: Byte, b: seq<Byte>)
    ensures BigEndianValue([first] + b) == Value(first) * Pow256(|b|) + BigEndianValue(b)
    decreases |b|
  {
    hide Value;
    var all := [first] + b;
    if b == [] {
      assert all[..|all| - 1] == [];
    } else {
      var init := b[..|b| - 1];
      assert all[..|all| - 1] == [first] + init;
      FirstOctetCounts(first, init);
      Distribute(Value(first), Pow256(|init|), BigEndianValue(init));
    }
  }

  lemma Distribute(v: nat, p: nat, n: nat)
    ensures 256 * (v * p + n) == v * (256 * p) + 256 * n
  {
  }

  /** The two octets of a small number, most significant first. */
  lemma TwoOctets(n: nat)
    requires n < 0x1_0000
    ensures BigEndian(n, 2) == [Octet(n / 256), Octet(n % 256)]
  {
    hide Octet;
    assert n / 256 % 256 == n / 256;
    assert BigEndian(n / 256, 1) == BigEndian(n / 256 / 256, 0) + [Octet(n / 256 % 256)];
  }

  lemma Pow256Values()
    ensures Pow256(2) == 0x1_0000
    ensures Pow256(8) == TWO_TO_THE_64
  {
    assert Pow256(1) == 256;
    assert Pow256(3) == 0x100_0000;
    assert Pow256(4) == 0x1_0000_0000;
    assert Pow256(5) == 0x100_0000_0000;
    assert Pow256(6) == 0x1_0000_0000_0000;
    assert Pow256(7) == 0x100_0000_0000_0000;
  }

  /** n zero octets. */
  function Zeros(n: nat): (z: seq<Byte>)
    ensures |z| == n && forall i :: 0 <= i < n ==> z[i] == 0x00
  {
    seq(n, i => 0)
  }

  /** Octet-wise exclusive or of two strings of one length. */
  function XorSeq(a: seq<Byte>, b: seq<Byte>): (x: seq<Byte>)
    requires |a| == |b|
    ensures |x| == |a|
  {
    seq(|a|, i requires 0 <= i < |a| => a[i] ^ b[i])
  }

  /** Concatenation of a list of strings. */
  function Flatten<T>(pieces: seq<seq<T>>): seq<T> {
    if pieces == [] then [] else pieces[0] + Flatten(pieces[1..])
  }

  lemma {:induction false} FlattenSnoc<T>(pieces: seq<seq<T>>, last: seq<T>)
    ensures Flatten(pieces + [last]) == Flatten(pieces) + last
  {
    if pieces == [] {
      assert [last][1..] == [];
    } else {
      assert (pieces + [last])[1..] == pieces[1..] + [last];
      FlattenSnoc(pieces[1..], last);
    }
  }
}
