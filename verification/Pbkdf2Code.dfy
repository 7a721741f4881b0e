/** PBKDF2_SHA256 of sha256.c: the context keyed with the password, and the one that has absorbed
    the salt as well, are computed once and copied for every use. */
module Pbkdf2Code {
  import opened Bytes
  import H = Rfc2104
  import R = Rfc8018
  import T = Sha256Transform
  import opened Sha256Stream
  import opened HmacStream

  const UINT64_MAX: nat := 0xFFFF_FFFF_FFFF_FFFF

  /** The inner loop that mixes U_j into T. */
  method XorInto(t: array<Byte>, u: array<Byte>)
    requires t.Length == u.Length && t != u
    modifies t
    ensures t[..] == XorSeq(old(t[..]), u[..])
  {
    for k := 0 to t.Length
      invariant forall n :: 0 <= n < k ==> t[n] == old(t[n]) ^ u[n]
      invariant forall n :: k <= n < t.Length ==> t[n] == old(t[n])
    {
      t[k] := t[k] ^ u[k];
    }
    assert forall n :: 0 <= n < t.Length ==> t[..][n] == XorSeq(old(t[..]), u[..])[n];
  }

  /** One use of the pseudorandom function from a prepared context: copy, absorb, finish. */
  method Prf(prepared: HmacCtx, hctx: HmacCtx, input: seq<Byte>, u: array<Byte>, tmp32: array<Word>,
             tmp8: array<Byte>, ghost key: seq<Byte>, ghost text: seq<Byte>)
    requires prepared.Represents(key, text) && hctx.Shape() && prepared.Repr !! hctx.Repr
    requires tmp32.Length == T.SCRATCH && u.Length == 32 && tmp8.Length == 32 && u != tmp8
    requires tmp32 !in hctx.Repr && u !in hctx.Repr && tmp8 !in hctx.Repr
    modifies hctx.Repr, tmp32, u, tmp8
    ensures hctx.Shape() && u[..] == H.Hmac(key, text + input)
  {
    hide H.Hmac, HmacCtx.Represents, HmacCtx.SameAs;
    hctx.CopyFrom(prepared);
    hctx.CopyRepresents(prepared, key, text);
    hctx.Update(input, tmp32, key, text);
    hctx.Final(u, tmp32, tmp8, key, text + input);
  }

  /** The 32-bit block counter never wraps. */
  lemma CounterFits(i: nat)
    requires i + 1 < TWO_TO_THE_32
    ensures Be32Enc(((i + 1) % TWO_TO_THE_32) as Word) == R.Int(i + 1)
  {
    hide Be32Enc;
    assert (i + 1) % TWO_TO_THE_32 == i + 1;
  }

  /** U_1 of block i + 1, and T starting from it. */
  method FirstIterate(pshctx: HmacCtx, hctx: HmacCtx, i: nat, u: array<Byte>, t: array<Byte>, tmp32: array<Word>,
                      tmp8: array<Byte>, ghost password: seq<Byte>, ghost salt: seq<Byte>)
    requires pshctx.Represents(password, salt) && hctx.Shape() && pshctx.Repr !! hctx.Repr
    requires i + 1 < TWO_TO_THE_32
    requires tmp32.Length == T.SCRATCH && u.Length == t.Length == tmp8.Length == 32
    requires u != tmp8 && t != u && t != tmp8
    requires tmp32 !in hctx.Repr && u !in hctx.Repr && t !in hctx.Repr && tmp8 !in hctx.Repr
    modifies hctx.Repr, tmp32, u, t, tmp8
    ensures hctx.Shape()
    ensures u[..] == t[..] == R.Iterate(password, salt, i + 1, 1)
  {
    hide H.Hmac, HmacCtx.Represents, HmacCtx.Shape, Be32Enc, R.Int;
    var ivec := Be32Enc(((i + 1) % TWO_TO_THE_32) as Word);
    CounterFits(i);
    Prf(pshctx, hctx, ivec, u, tmp32, tmp8, password, salt);
    CopyBytes(t, 0, u[..]);
  }

  lemma OneIterate(password: seq<Byte>, salt: seq<Byte>, i: nat)
    requires i < TWO_TO_THE_32
    ensures R.DerivedBlock(password, salt, 1, i) == R.Iterate(password, salt, i, 1)
  {
  }

  /** U_j from the iterate before, mixed into T. */
  method NextIterate(phctx: HmacCtx, hctx: HmacCtx, i: nat, j: nat, u: array<Byte>, t: array<Byte>,
                     tmp32: array<Word>, tmp8: array<Byte>, ghost password: seq<Byte>, ghost salt: seq<Byte>)
    requires phctx.Represents(password, []) && hctx.Shape() && phctx.Repr !! hctx.Repr
    requires i + 1 < TWO_TO_THE_32 && j >= 2
    requires tmp32.Length == T.SCRATCH && u.Length == t.Length == tmp8.Length == 32
    requires u != tmp8 && t != u && t != tmp8
    requires tmp32 !in hctx.Repr && u !in hctx.Repr && t !in hctx.Repr && tmp8 !in hctx.Repr
    requires u[..] == R.Iterate(password, salt, i + 1, j - 1)
    requires t[..] == R.DerivedBlock(password, salt, j - 1, i + 1)
    modifies hctx.Repr, tmp32, u, t, tmp8
    ensures hctx.Shape()
    ensures u[..] == R.Iterate(password, salt, i + 1, j)
    ensures t[..] == R.DerivedBlock(password, salt, j, i + 1)
  {
    hide H.Hmac, HmacCtx.Represents, HmacCtx.Shape, R.Int, XorSeq;
    assert [] + u[..] == u[..];
    Prf(phctx, hctx, u[..], u, tmp32, tmp8, password, []);
    XorInto(t, u);
  }

  /** The body of the block loop up to the copy into the output: t becomes T_{i+1}. */
  method DeriveBlock(phctx: HmacCtx, pshctx: HmacCtx, hctx: HmacCtx, i: nat, c: nat, u: array<Byte>,
                     t: array<Byte>, tmp32: array<Word>, tmp8: array<Byte>,
                     ghost password: seq<Byte>, ghost salt: seq<Byte>)
    requires phctx.Represents(password, []) && pshctx.Represents(password, salt) && hctx.Shape()
    requires phctx.Repr !! hctx.Repr && pshctx.Repr !! hctx.Repr
    requires i + 1 < TWO_TO_THE_32 && c < UINT64_MAX
    requires tmp32.Length == T.SCRATCH && u.Length == t.Length == tmp8.Length == 32
    requires u != tmp8 && t != u && t != tmp8
    requires tmp32 !in phctx.Repr + hctx.Repr && u !in phctx.Repr + hctx.Repr
    requires t !in phctx.Repr + hctx.Repr && tmp8 !in phctx.Repr + hctx.Repr
    modifies hctx.Repr, tmp32, u, t, tmp8
    ensures hctx.Shape()
    ensures t[..] == R.DerivedBlock(password, salt, if c == 0 then 1 else c, i + 1)
  {
    hide H.Hmac, HmacCtx.Represents, HmacCtx.Shape, R.Int, R.Iterate, R.DerivedBlock, XorSeq;
    OneIterate(password, salt, i + 1);
    FirstIterate(pshctx, hctx, i, u, t, tmp32, tmp8, password, salt);
    var j := 2;
    while j <= c
      invariant 2 <= j <= UINT64_MAX && (j <= c + 1 || j == 2)
      invariant hctx.Shape()
      invariant phctx.Represents(password, [])
      invariant u[..] == R.Iterate(password, salt, i + 1, j - 1)
      invariant t[..] == R.DerivedBlock(password, salt, j - 1, i + 1)
      decreases c + 1 - j
    {
      NextIterate(phctx, hctx, i, j, u, t, tmp32, tmp8, password, salt);
      j := j + 1;
    }
  }

  /** How many output octets are final once i blocks have been derived. */
  function Done(i: nat, dkLen: nat): nat {
    if 32 * i < dkLen then 32 * i else dkLen
  }

  /** The output once i blocks have been derived: as much of them as is wanted, and what was there behind. */
  function Written(blocks: seq<Byte>, before: seq<Byte>, i: nat, dkLen: nat): seq<Byte>
    requires |blocks| == 32 * i && dkLen <= |before|
  {
    blocks[..Done(i, dkLen)] + before[Done(i, dkLen)..]
  }

  /** The copy of block i, truncated if it is the last, into the output. */
  method WriteBlock(buf: array<Byte>, i: nat, dkLen: nat, t: array<Byte>,
                    ghost blocks: seq<Byte>, ghost before: seq<Byte>)
    requires 32 * i < dkLen <= buf.Length == |before| && t.Length == 32 && |blocks| == 32 * i && t != buf
    requires buf[..] == Written(blocks, before, i, dkLen)
    modifies buf
    ensures buf[..] == Written(blocks + t[..], before, i + 1, dkLen)
  {
    var clen := dkLen - i * 32;
    if clen > 32 {
      clen := 32;
    }
    CopyBytes(buf, i * 32, t[..clen]);
  }

  /** The contexts that every block starts from: the password absorbed, and the salt as well. */
  method Prepare(password: seq<Byte>, salt: seq<Byte>, tmp32: array<Word>, pad: array<Byte>, khash: array<Byte>)
    returns (phctx: HmacCtx, pshctx: HmacCtx)
    requires tmp32.Length == T.SCRATCH && pad.Length == 64 && khash.Length == 32 && pad != khash
    modifies tmp32, pad, khash
    ensures fresh(phctx.Repr) && fresh(pshctx.Repr)
    ensures phctx.Represents(password, []) && pshctx.Represents(password, salt)
  {
    hide H.Hmac, HmacCtx.Represents, HmacCtx.SameAs;
    phctx := new HmacCtx();
    pshctx := new HmacCtx();
    phctx.Init(password, tmp32, pad, khash);
    pshctx.CopyFrom(phctx);
    pshctx.CopyRepresents(phctx, password, []);
    pshctx.Update(salt, tmp32, password, []);
    assert [] + salt == salt;
  }

  /** The body of the loop over the blocks. */
  method NextBlock(phctx: HmacCtx, pshctx: HmacCtx, hctx: HmacCtx, i: nat, c: nat, buf: array<Byte>, dkLen: nat,
                   u: array<Byte>, t: array<Byte>, tmp32: array<Word>, tmp8: array<Byte>,
                   ghost password: seq<Byte>, ghost salt: seq<Byte>, ghost blocks: seq<Byte>,
                   ghost before: seq<Byte>)
    requires phctx.Represents(password, []) && pshctx.Represents(password, salt) && hctx.Shape()
    requires phctx.Repr !! hctx.Repr && pshctx.Repr !! hctx.Repr
    requires i + 1 < TWO_TO_THE_32 && c < UINT64_MAX && 32 * i < dkLen <= buf.Length == |before|
    requires tmp32.Length == T.SCRATCH && u.Length == t.Length == tmp8.Length == 32
    requires u != tmp8 && t != u && t != tmp8 && buf != u && buf != t && buf != tmp8
    requires tmp32 !in phctx.Repr + hctx.Repr && u !in phctx.Repr + hctx.Repr
    requires t !in phctx.Repr + hctx.Repr && tmp8 !in phctx.Repr + hctx.Repr && buf !in hctx.Repr
    requires blocks == R.Blocks(password, salt, if c == 0 then 1 else c, i)
    requires buf[..] == Written(blocks, before, i, dkLen)
    modifies hctx.Repr, tmp32, u, t, tmp8, buf
    ensures hctx.Shape()
    ensures blocks + t[..] == R.Blocks(password, salt, if c == 0 then 1 else c, i + 1)
    ensures buf[..] == Written(blocks + t[..], before, i + 1, dkLen)
  {
    hide H.Hmac, HmacCtx.Represents, HmacCtx.Shape, R.DerivedBlock, R.Blocks, Written;
    DeriveBlock(phctx, pshctx, hctx, i, c, u, t, tmp32, tmp8, password, salt);
    WriteBlock(buf, i, dkLen, t, blocks, before);
    R.BlocksStep(password, salt, if c == 0 then 1 else c, i + 1);
  }

  /** The loop over the blocks. */
  method DeriveBlocks(phctx: HmacCtx, pshctx: HmacCtx, c: nat, buf: array<Byte>, dkLen: nat, tmp32: array<Word>,
                      tmp8: array<Byte>, ghost password: seq<Byte>, ghost salt: seq<Byte>)
    requires phctx.Represents(password, []) && pshctx.Represents(password, salt)
    requires dkLen <= 32 * (TWO_TO_THE_32 - 1) && dkLen <= buf.Length
    requires c < UINT64_MAX || dkLen == 0
    requires tmp32.Length == T.SCRATCH && tmp8.Length == 32 && tmp8 != buf
    requires tmp32 !in phctx.Repr + pshctx.Repr && tmp8 !in phctx.Repr + pshctx.Repr
    requires buf !in phctx.Repr + pshctx.Repr
    modifies buf, tmp32, tmp8
    ensures buf[..] == R.Pbkdf2(password, salt, if c == 0 then 1 else c, dkLen) + old(buf[dkLen..])
  {
    hide H.Hmac, HmacCtx.Represents, HmacCtx.Shape, R.DerivedBlock, R.Blocks, R.BlockCount;
    var u, t := new Byte[32], new Byte[32];
    var hctx := new HmacCtx();
    ghost var rounds := if c == 0 then 1 else c;
    ghost var before := buf[..];
    ghost var blocks := [];
    R.BlocksStep(password, salt, rounds, 0);
    var i := 0;
    while i * 32 < dkLen
      invariant i <= R.BlockCount(dkLen)
      invariant hctx.Shape()
      invariant phctx.Represents(password, []) && pshctx.Represents(password, salt)
      invariant blocks == R.Blocks(password, salt, rounds, i)
      invariant buf[..] == Written(blocks, before, i, dkLen)
      decreases dkLen - i * 32
    {
      NextBlock(phctx, pshctx, hctx, i, c, buf, dkLen, u, t, tmp32, tmp8, password, salt, blocks, before);
      blocks := blocks + t[..];
      i := i + 1;
    }
    assert i == R.BlockCount(dkLen);
  }

  /** The uint64_t counter j of the inner loop after a number of increments. */
  function Counter(increments: nat): nat {
    (2 + increments) % TWO_TO_THE_64
  }

  /** The inner loop ends for every c but one: only with c == UINT64_MAX does its guard hold for ever. */
  lemma LoopEnds(c: nat)
    requires c <= UINT64_MAX
    ensures (forall increments: nat :: Counter(increments) <= c) <==> c == UINT64_MAX
  {
    if c < UINT64_MAX {
      assert Counter(UINT64_MAX - 2) == UINT64_MAX;
    }
  }

  /** PBKDF2_SHA256.  The bound on dkLen is the assertion of the source; c is a uint64_t, and the one value
      for which the inner loop does not end is left out when there is a block to derive. */
  method Pbkdf2Sha256(password: seq<Byte>, salt: seq<Byte>, c: nat, buf: array<Byte>, dkLen: nat)
    requires dkLen <= 32 * (TWO_TO_THE_32 - 1) && dkLen <= buf.Length
    requires c <= UINT64_MAX && (c < UINT64_MAX || dkLen == 0)
    modifies buf
    ensures buf[..dkLen] == R.Pbkdf2(password, salt, if c == 0 then 1 else c, dkLen)
    ensures buf[dkLen..] == old(buf[dkLen..])
  {
    hide H.Hmac, HmacCtx.Represents, HmacCtx.Shape, R.Pbkdf2;
    var tmp32, tmp8, pad := new Word[72], new Byte[32], new Byte[64];
    var phctx, pshctx := Prepare(password, salt, tmp32, pad, tmp8);
    DeriveBlocks(phctx, pshctx, c, buf, dkLen, tmp32, tmp8, password, salt);
  }
}
