/** The streaming interface of sha256.c: a context with a hash value, a bit counter of 64 bits
    and a buffer for the block under way. */
module Sha256Stream {
  import opened Bytes
  import F = Fips180
  import T = Sha256Transform

  /** The table PAD: one marker octet, then zeros. */
  function PadTable(): (p: seq<Byte>)
    ensures |p| == 64
  {
    [0x80] + Zeros(63)
  }

  /** memcpy of a byte string to a place inside a buffer. */
  method CopyBytes(dst: array<Byte>, at: nat, src: seq<Byte>)
    requires at + |src| <= dst.Length
    modifies dst
    ensures dst[..] == old(dst[..at]) + src + old(dst[at + |src|..])
  {
    for i := 0 to |src|
      invariant forall k :: 0 <= k < i ==> dst[at + k] == src[k]
      invariant forall k :: 0 <= k < dst.Length && !(at <= k < at + i) ==> dst[k] == old(dst[k])
    {
      dst[at + i] := src[i];
    }
    assert dst[at..at + |src|] == src;
    assert dst[..at] == old(dst[..at]) && dst[at + |src|..] == old(dst[at + |src|..]);
    assert dst[..] == dst[..at] + dst[at..at + |src|] + dst[at + |src|..];
  }

  method CopyWords(dst: array<Word>, src: seq<Word>)
    requires dst.Length == |src|
    modifies dst
    ensures dst[..] == src
  {
    for i := 0 to |src|
      invariant forall j :: 0 <= j < i ==> dst[j] == src[j]
    {
      dst[i] := src[i];
    }
  }

  /** The whole blocks of a message, and what is left of it. */
  function Whole(m: seq<Byte>): (w: seq<Byte>)
    ensures |w| % 64 == 0
  {
    m[..|m| - |m| % 64]
  }

  function Tail(m: seq<Byte>): (t: seq<Byte>)
    ensures |t| == |m| % 64
  {
    m[|m| - |m| % 64..]
  }

  lemma WholeAndTail(m: seq<Byte>)
    ensures Whole(m) + Tail(m) == m
  {
  }

  /** The low bits of the counter give the fill of the buffer, even after the counter has wrapped. */
  lemma CounterFill(n: nat)
    ensures F.BitCount(n) / 8 % 64 == n % 64
  {
    var q := 8 * n / TWO_TO_THE_64;
    var low := n - 0x2000_0000_0000_0000 * q;
    assert F.BitCount(n) == 8 * low;
    assert 8 * low / 8 == low;
    BlocksDropped(n, 0x80_0000_0000_0000 * q);
  }

  lemma BlocksDropped(n: nat, blocks: int)
    requires n - 64 * blocks >= 0
    ensures (n - 64 * blocks) % 64 == n % 64
  {
  }

  lemma CounterSum(n: nat, k: nat)
    ensures (F.BitCount(n) + 8 * k) % TWO_TO_THE_64 == F.BitCount(n + k)
  {
    var q := 8 * n / TWO_TO_THE_64;
    assert 8 * n == TWO_TO_THE_64 * q + F.BitCount(n);
    WrapsDropped(F.BitCount(n) + 8 * k, q);
  }

  lemma WrapsDropped(n: nat, wraps: nat)
    ensures (TWO_TO_THE_64 * wraps + n) % TWO_TO_THE_64 == n % TWO_TO_THE_64
  {
  }

  lemma StaysInBlock(m: seq<Byte>, input: seq<Byte>)
    requires |m| % 64 + |input| < 64
    ensures Whole(m + input) == Whole(m)
    ensures Tail(m + input) == Tail(m) + input
  {
    assert |m + input| % 64 == |m| % 64 + |input|;
  }

  lemma FillsUp(n: nat, k: nat)
    requires n % 64 + k == 64
    ensures (n + k) % 64 == 0
  {
  }

  lemma CompletesBlock(m: seq<Byte>, piece: seq<Byte>)
    requires |m| % 64 + |piece| == 64
    ensures |m + piece| % 64 == 0
    ensures F.Absorb(F.InitialHash(), m + piece)
            == F.Compress(F.Absorb(F.InitialHash(), Whole(m)), Tail(m) + piece)
  {
    hide F.InitialHash, F.BitCount, F.Absorb, F.Compress, Whole, Tail;
    FillsUp(|m|, |piece|);
    var whole, tail := Whole(m), Tail(m);
    WholeAndTail(m);
    var block := tail + piece;
    assert whole + tail + piece == whole + block;
    F.AbsorbBlock(F.InitialHash(), whole, block);
  }

  lemma EndsAt(all: seq<Byte>, n: nat)
    requires n % 64 == 0 && n <= |all| < n + 64
    ensures Whole(all) == all[..n] && Tail(all) == all[n..]
  {
    assert |all| % 64 == |all| - n;
  }

  lemma PadTablePrefix(n: nat, k: nat)
    requires 1 <= n <= 64
    ensures PadTable()[..n] == [0x80] + Zeros(n - 1)
    ensures Zeros(n - 1) + Zeros(k) == Zeros(n - 1 + k)
  {
  }

  /** Section 5.1.1 when the marker and the length field still fit into the last block. */
  lemma OneBlockPadding(m: seq<Byte>)
    requires |m| % 64 < 56
    ensures F.Absorb(F.InitialHash(), F.Pad(m))
            == F.Compress(F.Absorb(F.InitialHash(), Whole(m)),
                          Tail(m) + PadTable()[..56 - |m| % 64] + BigEndian(F.BitCount(|m|), 8))
  {
    hide F.InitialHash, F.BitCount, F.Absorb, F.Compress, BigEndian, PadTable, Zeros, Whole, Tail;
    var size := BigEndian(F.BitCount(|m|), 8);
    var block := Tail(m) + PadTable()[..56 - |m| % 64] + size;
    PadTablePrefix(56 - |m| % 64, 0);
    WholeAndTail(m);
    assert F.Pad(m) == Whole(m) + block;
    F.AbsorbBlock(F.InitialHash(), Whole(m), block);
  }

  /** Section 5.1.1 when the length field needs a block of its own. */
  lemma TwoBlockPadding(m: seq<Byte>)
    requires |m| % 64 >= 56
    ensures F.Absorb(F.InitialHash(), F.Pad(m))
            == F.Compress(F.Compress(F.Absorb(F.InitialHash(), Whole(m)),
                                     Tail(m) + PadTable()[..64 - |m| % 64]),
                          Zeros(56) + BigEndian(F.BitCount(|m|), 8))
  {
    hide F.InitialHash, F.BitCount, F.Absorb, F.Compress, BigEndian, PadTable, Zeros, Whole, Tail;
    TwoBlocks(m);
    F.AbsorbBlock(F.InitialHash(), Whole(m), Tail(m) + PadTable()[..64 - |m| % 64]);
    F.AbsorbBlock(F.InitialHash(), Whole(m) + (Tail(m) + PadTable()[..64 - |m| % 64]),
                  Zeros(56) + BigEndian(F.BitCount(|m|), 8));
  }

  lemma TwoBlocks(m: seq<Byte>)
    requires |m| % 64 >= 56
    ensures F.Pad(m) == Whole(m) + (Tail(m) + PadTable()[..64 - |m| % 64])
                        + (Zeros(56) + BigEndian(F.BitCount(|m|), 8))
  {
    hide F.BitCount, BigEndian, PadTable, Zeros, Whole, Tail;
    PadTablePrefix(64 - |m| % 64, 56);
    WholeAndTail(m);
  }

  lemma NothingAbsorbed()
    ensures Whole([]) == [] && Tail([]) == []
    ensures F.Absorb(F.InitialHash(), []) == F.InitialHash()
  {
  }

  /** be32enc_vect: encode a vector of words, one at a time. */
  method Be32EncVect(dst: array<Byte>, src: seq<Word>)
    requires dst.Length == 4 * |src|
    modifies dst
    ensures dst[..] == F.EncodeWords(src)
  {
    hide Be32Enc;
    for i := 0 to |src|
      invariant dst[..4 * i] == F.EncodeWords(src[..i])
    {
      CopyBytes(dst, 4 * i, Be32Enc(src[i]));
      assert src[..i + 1][..i] == src[..i];
    }
    assert src[..|src|] == src;
  }

  /** The loop of _SHA256_Update over complete blocks. */
  method TransformBlocks(state: array<Word>, input: seq<Byte>, from: nat, tmp32: array<Word>, ghost m: seq<Byte>)
    returns (src: nat)
    requires state.Length == 8 && tmp32.Length == T.SCRATCH && state != tmp32
    requires from <= |input| && (|m| + from) % 64 == 0
    requires state[..] == F.Absorb(F.InitialHash(), m + input[..from])
    modifies state, tmp32
    ensures from <= src <= |input| < src + 64 && (|m| + src) % 64 == 0
    ensures state[..] == F.Absorb(F.InitialHash(), (m + input)[..|m| + src])
  {
    hide F.InitialHash, F.Absorb, F.Compress;
    src := from;
    assert (m + input)[..|m| + src] == m + input[..src];
    while |input| - src >= 64
      invariant from <= src <= |input| && (|m| + src) % 64 == 0
      invariant state[..] == F.Absorb(F.InitialHash(), (m + input)[..|m| + src])
    {
      F.AbsorbBlock(F.InitialHash(), (m + input)[..|m| + src], input[src..src + 64]);
      assert (m + input)[..|m| + src + 64] == (m + input)[..|m| + src] + input[src..src + 64];
      T.Transform(state, input[src..src + 64], tmp32);
      src := src + 64;
    }
  }

  class Sha256Ctx {
    const state: array<Word>
    var count: nat
    const buf: array<Byte>

    ghost function Repr(): set<object> {
      {this, state, buf}
    }

    ghost predicate Shape() {
      state.Length == 8 && buf.Length == 64
    }

    /** The context stands for the message absorbed so far: the hash value covers its whole
        blocks, the buffer begins with the rest, and the counter is its bit length modulo 2^64. */
    ghost predicate Represents(m: seq<Byte>)
      reads this, state, buf
      ensures Represents(m) ==> Shape()
    {
      && Shape()
      && count == F.BitCount(|m|)
      && state[..] == F.Absorb(F.InitialHash(), Whole(m))
      && buf[..|m| % 64] == Tail(m)
    }

    constructor ()
      ensures Shape() && fresh(Repr())
    {
      state := new Word[8];
      count := 0;
      buf := new Byte[64];
    }

    /** SHA256_Init */
    method Init()
      requires Shape()
      modifies this, state
      ensures Represents([])
    {
      hide F.InitialHash, F.Absorb;
      count := 0;
      CopyWords(state, F.InitialHash());
      NothingAbsorbed();
    }

    /** _SHA256_Update */
    method Update(input: seq<Byte>, tmp32: array<Word>, ghost m: seq<Byte>)
      requires Represents(m)
      requires tmp32.Length == T.SCRATCH && tmp32 != state
      modifies this, state, buf, tmp32
      ensures Represents(m + input)
    {
      hide F.InitialHash, F.BitCount, F.Absorb, F.Compress, Whole, Tail;
      if |input| == 0 {
        assert m + input == m;
        return;
      }
      CounterFill(|m|);
      var r := count / 8 % 64;
      count := (count + 8 * |input|) % TWO_TO_THE_64;
      CounterSum(|m|, |input|);
      if |input| < 64 - r {
        CopyBytes(buf, r, input);
        StaysInBlock(m, input);
        return;
      }

      CopyBytes(buf, r, input[..64 - r]);
      CompletesBlock(m, input[..64 - r]);
      assert buf[..] == Tail(m) + input[..64 - r];
      var src := 64 - r;
      T.Transform(state, buf[..], tmp32);
      src := TransformBlocks(state, input, src, tmp32, m);
      CopyBytes(buf, 0, input[src..]);
      EndsAt(m + input, |m| + src);
      assert (m + input)[|m| + src..] == input[src..];
    }

    /** SHA256_Pad */
    method Pad(tmp32: array<Word>, ghost m: seq<Byte>)
      requires Represents(m)
      requires tmp32.Length == T.SCRATCH && tmp32 != state
      modifies state, buf, tmp32
      ensures Shape() && state[..] == F.Absorb(F.InitialHash(), F.Pad(m))
    {
      hide F.InitialHash, F.BitCount, F.Absorb, F.Compress, F.Pad, Whole, Tail, BigEndian;
      CounterFill(|m|);
      var r := count / 8 % 64;
      if r < 56 {
        CopyBytes(buf, r, PadTable()[..56 - r]);
        OneBlockPadding(m);
        assert buf[..56] == Tail(m) + PadTable()[..56 - r];
      } else {
        CopyBytes(buf, r, PadTable()[..64 - r]);
        assert buf[..] == Tail(m) + PadTable()[..64 - r];
        TwoBlockPadding(m);
        T.Transform(state, buf[..], tmp32);
        CopyBytes(buf, 0, Zeros(56));
        assert buf[..56] == Zeros(56);
      }
      ghost var front := buf[..56];
      CopyBytes(buf, 56, BigEndian(count, 8));
      assert buf[..] == front + BigEndian(count, 8);
      T.Transform(state, buf[..], tmp32);
    }

    /** _SHA256_Final */
    method Final(digest: array<Byte>, tmp32: array<Word>, ghost m: seq<Byte>)
      requires Represents(m)
      requires tmp32.Length == T.SCRATCH && tmp32 != state
      requires digest.Length == 32 && digest != buf
      modifies state, buf, tmp32, digest
      ensures Shape() && digest[..] == F.Sha256(m)
    {
      Pad(tmp32, m);
      Be32EncVect(digest, state[..]);
    }

    ghost predicate SameAs(src: Sha256Ctx)
      reads this, state, buf, src, src.state, src.buf
    {
      && count == src.count && state[..] == src.state[..] && buf[..] == src.buf[..]
    }

    /** memcpy of a whole context. */
    method CopyFrom(src: Sha256Ctx)
      requires Shape() && src.Shape() && Repr() !! src.Repr()
      modifies this, state, buf
      ensures SameAs(src)
    {
      count := src.count;
      CopyWords(state, src.state[..]);
      CopyBytes(buf, 0, src.buf[..]);
    }

    /** A copied context carries on from the same message. */
    lemma CopyRepresents(src: Sha256Ctx, m: seq<Byte>)
      requires Shape() && SameAs(src) && src.Represents(m)
      ensures Represents(m)
    {
      assert buf[..|m| % 64] == buf[..][..|m| % 64];
    }
  }

  /** SHA256_Buf */
  method Sha256Buf(input: seq<Byte>) returns (digest: array<Byte>)
    ensures fresh(digest) && digest[..] == F.Sha256(input)
  {
    hide F.Sha256;
    var ctx := new Sha256Ctx();
    var tmp32 := new Word[72];
    ctx.Init();
    ctx.Update(input, tmp32, []);
    assert [] + input == input;
    digest := new Byte[32];
    ctx.Final(digest, tmp32, input);
  }

  /** Any sequence of SHA256_Update calls between SHA256_Init and SHA256_Final: how the message is
      cut into pieces does not matter. */
  method HashPieces(pieces: seq<seq<Byte>>) returns (digest: array<Byte>)
    ensures fresh(digest) && digest[..] == F.Sha256(Flatten(pieces))
  {
    hide F.Sha256;
    var ctx := new Sha256Ctx();
    var tmp32 := new Word[72];
    ctx.Init();
    for i := 0 to |pieces|
      invariant ctx.Represents(Flatten(pieces[..i]))
      invariant fresh(ctx.Repr())
    {
      FlattenSnoc(pieces[..i], pieces[i]);
      assert pieces[..i + 1] == pieces[..i] + [pieces[i]];
      ctx.Update(pieces[i], tmp32, Flatten(pieces[..i]));
    }
    assert pieces[..|pieces|] == pieces;
    digest := new Byte[32];
    ctx.Final(digest, tmp32, Flatten(pieces));
  }
}
