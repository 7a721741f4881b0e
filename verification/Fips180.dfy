/** SHA-256 as FIPS 180-4 defines it: the functions of section 4.1.2, the constants of
    sections 4.2.2 and 5.3.3, the padding of section 5.1.1 and the hash computation of
    section 6.2.  Messages are octet strings. */
module Fips180 {
  import opened Bytes

  // Section 4.1.2

  function Ch(x: Word, y: Word, z: Word): Word { (x & y) ^ (!x & z) }

  function Maj(x: Word, y: Word, z: Word): Word { (x & y) ^ (x & z) ^ (y & z) }

  function BigSigma0(x: Word): Word { x.RotateRight(2) ^ x.RotateRight(13) ^ x.RotateRight(22) }

  function BigSigma1(x: Word): Word { x.RotateRight(6) ^ x.RotateRight(11) ^ x.RotateRight(25) }

  function SmallSigma0(x: Word): Word { x.RotateRight(7) ^ x.RotateRight(18) ^ (x >> 3) }

  function SmallSigma1(x: Word): Word { x.RotateRight(17) ^ x.RotateRight(19) ^ (x >> 10) }

  // Section 4.2.2

  function K(t: nat): Word
    requires t < 64
  {
    match t
    case 0 => 0x428a2f98 case 1 => 0x71374491 case 2 => 0xb5c0fbcf case 3 => 0xe9b5dba5
    case 4 => 0x3956c25b case 5 => 0x59f111f1 case 6 => 0x923f82a4 case 7 => 0xab1c5ed5
    case 8 => 0xd807aa98 case 9 => 0x12835b01 case 10 => 0x243185be case 11 => 0x550c7dc3
    case 12 => 0x72be5d74 case 13 => 0x80deb1fe case 14 => 0x9bdc06a7 case 15 => 0xc19bf174
    case 16 => 0xe49b69c1 case 17 => 0xefbe4786 case 18 => 0x0fc19dc6 case 19 => 0x240ca1cc
    case 20 => 0x2de92c6f case 21 => 0x4a7484aa case 22 => 0x5cb0a9dc case 23 => 0x76f988da
    case 24 => 0x983e5152 case 25 => 0xa831c66d case 26 => 0xb00327c8 case 27 => 0xbf597fc7
    case 28 => 0xc6e00bf3 case 29 => 0xd5a79147 case 30 => 0x06ca6351 case 31 => 0x14292967
    case 32 => 0x27b70a85 case 33 => 0x2e1b2138 case 34 => 0x4d2c6dfc case 35 => 0x53380d13
    case 36 => 0x650a7354 case 37 => 0x766a0abb case 38 => 0x81c2c92e case 39 => 0x92722c85
    case 40 => 0xa2bfe8a1 case 41 => 0xa81a664b case 42 => 0xc24b8b70 case 43 => 0xc76c51a3
    case 44 => 0xd192e819 case 45 => 0xd6990624 case 46 => 0xf40e3585 case 47 => 0x106aa070
    case 48 => 0x19a4c116 case 49 => 0x1e376c08 case 50 => 0x2748774c case 51 => 0x34b0bcb5
    case 52 => 0x391c0cb3 case 53 => 0x4ed8aa4a case 54 => 0x5b9cca4f case 55 => 0x682e6ff3
    case 56 => 0x748f82ee case 57 => 0x78a5636f case 58 => 0x84c87814 case 59 => 0x8cc70208
    case 60 => 0x90befffa case 61 => 0xa4506ceb case 62 => 0xbef9a3f7 case _ => 0xc67178f2
  }

  // Section 5.3.3

  function InitialHash(): HashValue {
    [0x6A09E667, 0xBB67AE85, 0x3C6EF372, 0xA54FF53A,
     0x510E527F, 0x9B05688C, 0x1F83D9AB, 0x5BE0CD19]
  }

  type HashValue = h: seq<Word> | |h| == 8 witness seq(8, i => 0)
  type Block = b: seq<Byte> | |b| == 64 witness seq(64, i => 0)

  // Section 6.2.2

  /** W_t of step 1, the message schedule. */
  function MessageWord(block: Block, t: nat): Word {
    if t < 16 then
      Be32Dec(block[4 * t..4 * t + 4])
    else
      Add(Add(Add(SmallSigma1(MessageWord(block, t - 2)), MessageWord(block, t - 7)),
              SmallSigma0(MessageWord(block, t - 15))),
          MessageWord(block, t - 16))
  }

  datatype Registers = Registers(a: Word, b: Word, c: Word, d: Word, e: Word, f: Word, g: Word, h: Word)

  /** The five-term sum T_1 of step 3. */
  function FirstSum(h: Word, s: Word, c: Word, k: Word, w: Word): Word { h + s + c + k + w }

  /** One turn of step 3: every register moves on by one place. */
  function Round(r: Registers, k: Word, w: Word): Registers {
    var t1 := FirstSum(r.h, BigSigma1(r.e), Ch(r.e, r.f, r.g), k, w);
    var t2 := Add(BigSigma0(r.a), Maj(r.a, r.b, r.c));
    Registers(Add(t1, t2), r.a, r.b, r.c, Add(r.d, t1), r.e, r.f, r.g)
  }

  /** The registers after the first t turns of step 3. */
  function Rounds(r: Registers, block: Block, t: nat): Registers
    requires t <= 64
  {
    if t == 0 then r else Round(Rounds(r, block, t - 1), K(t - 1), MessageWord(block, t - 1))
  }

  function Load(h: HashValue): Registers {
    Registers(h[0], h[1], h[2], h[3], h[4], h[5], h[6], h[7])
  }

  /** Steps 1 to 4 for one message block. */
  function Compress(h: HashValue, block: Block): HashValue {
    var r := Rounds(Load(h), block, 64);
    [Add(h[0], r.a), Add(h[1], r.b), Add(h[2], r.c), Add(h[3], r.d),
     Add(h[4], r.e), Add(h[5], r.f), Add(h[6], r.g), Add(h[7], r.h)]
  }

  /** The hash value after all whole 64-octet blocks of a message prefix. */
  function Absorb(h: HashValue, m: seq<Byte>): HashValue
    requires |m| % 64 == 0
  {
    if m == [] then h else Compress(Absorb(h, m[..|m| - 64]), m[|m| - 64..])
  }

  // Section 5.1.1

  /** The least number of zero octets for which marker, zeros and length field fill whole blocks. */
  function ZeroCount(length: nat): nat {
    (119 - length % 64) % 64
  }

  /** The length of a message in bits.  The standard covers messages below 2^64 bits; beyond
      them only the low 64 bits are kept. */
  function BitCount(length: nat): (c: nat)
    ensures c < TWO_TO_THE_64
    ensures 8 * length < TWO_TO_THE_64 ==> c == 8 * length
  {
    8 * length % TWO_TO_THE_64
  }

  /** The padded message: marker, zeros and length field. */
  function Pad(m: seq<Byte>): (p: seq<Byte>)
    ensures |p| % 64 == 0
  {
    PaddedLength(|m|);
    m + [0x80] + Zeros(ZeroCount(|m|)) + BigEndian(BitCount(|m|), 8)
  }

  /** The concatenation of words, as octets. */
  function EncodeWords(words: seq<Word>): (d: seq<Byte>)
    ensures |d| == 4 * |words|
  {
    if words == [] then [] else EncodeWords(words[..|words| - 1]) + Be32Enc(words[|words| - 1])
  }

  /** SHA-256 of an octet string. */
  function Sha256(m: seq<Byte>): (d: seq<Byte>)
    ensures |d| == 32
  {
    EncodeWords(Absorb(InitialHash(), Pad(m)))
  }

  /** ZeroCount is the k of section 5.1.1 in octets: the smallest solution of its congruence
      (l + 1 + k congruent to 448 modulo 512 in bits, the marker octet being the one and seven zeros). */
  lemma ZeroCountIsLeast(length: nat, k: nat)
    ensures (8 * length + 8 + 8 * ZeroCount(length)) % 512 == 448
    ensures (8 * length + 8 + 8 * k) % 512 == 448 ==> ZeroCount(length) <= k
  {
    var n := length + 1 + ZeroCount(length);
    BitsModBlock(n);
    ZeroCountFills(length);
    BitsModBlock(length + 1 + k);
    if (8 * length + 8 + 8 * k) % 512 == 448 {
      ZeroCountLeast(length, k);
    }
  }

  lemma ZeroCountFills(length: nat)
    ensures (length + 1 + ZeroCount(length)) % 64 == 56
  {
  }

  lemma PaddedLength(length: nat)
    ensures (length + 1 + ZeroCount(length) + 8) % 64 == 0
  {
    ZeroCountFills(length);
  }

  lemma ZeroCountLeast(length: nat, k: nat)
    requires (length + 1 + k) % 64 == 56
    ensures ZeroCount(length) <= k
  {
  }

  lemma BitsModBlock(n: nat)
    ensures (8 * n) % 512 == 8 * (n % 64)
  {
    assert 8 * n == 512 * (n / 64) + 8 * (n % 64);
  }

  /** Within the standard's domain the length field states the exact bit length, so distinct
      messages have distinct padded forms. */
  lemma PadInjective(m: seq<Byte>, n: seq<Byte>)
    requires 8 * |m| < TWO_TO_THE_64 && 8 * |n| < TWO_TO_THE_64
    requires Pad(m) == Pad(n)
    ensures m == n
  {
    PadParts(m);
    PadParts(n);
    Pow256Values();
    BigEndianRoundTrip(8 * |m|, 8);
    BigEndianRoundTrip(8 * |n|, 8);
  }

  lemma PadParts(m: seq<Byte>)
    requires 8 * |m| < TWO_TO_THE_64
    ensures |Pad(m)| >= 8 + |m|
    ensures Pad(m)[..|m|] == m
    ensures Pad(m)[|Pad(m)| - 8..] == BigEndian(8 * |m|, 8)
  {
    var body := m + [0x80] + Zeros(ZeroCount(|m|));
    assert Pad(m) == body + BigEndian(8 * |m|, 8);
    assert |Pad(m)| - 8 == |body|;
  }

  /** Absorbing two runs of whole blocks one after the other. */
  lemma {:induction false} AbsorbAppend(h: HashValue, m: seq<Byte>, n: seq<Byte>)
    requires |m| % 64 == 0 && |n| % 64 == 0
    ensures Absorb(h, m + n) == Absorb(Absorb(h, m), n)
  {
    if n == [] {
      assert m + n == m;
    } else {
      var front, last := n[..|n| - 64], n[|n| - 64..];
      AbsorbAppend(h, m, front);
      assert (m + n)[..|m + n| - 64] == m + front;
      assert (m + n)[|m + n| - 64..] == last;
    }
  }

  lemma AbsorbBlock(h: HashValue, m: seq<Byte>, block: Block)
    requires |m| % 64 == 0
    ensures Absorb(h, m + block) == Compress(Absorb(h, m), block)
  {
    assert (m + block)[..|m + block| - 64] == m;
    assert (m + block)[|m + block| - 64..] == block;
  }
}
