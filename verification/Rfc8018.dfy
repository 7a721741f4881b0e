/** PBKDF2 as RFC 8018 section 5.2 defines it, with HMAC-SHA-256 as the pseudorandom function. */
module Rfc8018 {
  import opened Bytes
  import H = Rfc2104

  const HASH_LENGTH: nat := 32
  const MAX_KEY_LENGTH: nat := (TWO_TO_THE_32 - 1) * HASH_LENGTH

  /** INT(i), four octets, most significant first. */
  function Int(i: nat): seq<Byte>
    requires i < TWO_TO_THE_32
  {
    Be32Enc(i as Word)
  }

  /** U_j of block i. */
  function Iterate(password: seq<Byte>, salt: seq<Byte>, i: nat, j: nat): (u: seq<Byte>)
    requires i < TWO_TO_THE_32 && j >= 1
    ensures |u| == HASH_LENGTH
    decreases j
  {
    if j == 1 then H.Hmac(password, salt + Int(i))
    else H.Hmac(password, Iterate(password, salt, i, j - 1))
  }

  /** F(P, S, c, i), the exclusive or of the first c iterates. */
  function DerivedBlock(password: seq<Byte>, salt: seq<Byte>, c: nat, i: nat): (t: seq<Byte>)
    requires i < TWO_TO_THE_32 && c >= 1
    ensures |t| == HASH_LENGTH
    decreases c
  {
    if c == 1 then Iterate(password, salt, i, 1)
    else XorSeq(DerivedBlock(password, salt, c - 1, i), Iterate(password, salt, i, c))
  }

  /** T_1 || ... || T_l. */
  function Blocks(password: seq<Byte>, salt: seq<Byte>, c: nat, l: nat): (t: seq<Byte>)
    requires l < TWO_TO_THE_32 && c >= 1
    ensures |t| == HASH_LENGTH * l
    decreases l
  {
    if l == 0 then [] else Blocks(password, salt, c, l - 1) + DerivedBlock(password, salt, c, l)
  }

  lemma BlocksStep(password: seq<Byte>, salt: seq<Byte>, c: nat, l: nat)
    requires l < TWO_TO_THE_32 && c >= 1
    ensures Blocks(password, salt, c, l)
            == if l == 0 then [] else Blocks(password, salt, c, l - 1) + DerivedBlock(password, salt, c, l)
  {
  }

  /** The number of blocks, CEIL(dkLen / hLen). */
  function BlockCount(dkLen: nat): (l: nat)
    ensures HASH_LENGTH * l >= dkLen
    ensures l > 0 ==> HASH_LENGTH * (l - 1) < dkLen
  {
    (dkLen + HASH_LENGTH - 1) / HASH_LENGTH
  }

  /** The derived key: the first dkLen octets of the blocks. */
  function Pbkdf2(password: seq<Byte>, salt: seq<Byte>, c: nat, dkLen: nat): (dk: seq<Byte>)
    requires c >= 1 && dkLen <= MAX_KEY_LENGTH
    ensures |dk| == dkLen
  {
    Blocks(password, salt, c, BlockCount(dkLen))[..dkLen]
  }

  /** A shorter key is a prefix of a longer one with the same inputs. */
  lemma {:induction false} BlocksPrefix(password: seq<Byte>, salt: seq<Byte>, c: nat, k: nat, l: nat)
    requires k <= l < TWO_TO_THE_32 && c >= 1
    ensures Blocks(password, salt, c, k) == Blocks(password, salt, c, l)[..HASH_LENGTH * k]
    decreases l
  {
    hide DerivedBlock;
    var all := Blocks(password, salt, c, l);
    if k == l {
      assert all[..HASH_LENGTH * l] == all;
    } else {
      BlocksPrefix(password, salt, c, k, l - 1);
      assert all[..HASH_LENGTH * (l - 1)] == Blocks(password, salt, c, l - 1);
    }
  }

  lemma KeyPrefix(password: seq<Byte>, salt: seq<Byte>, c: nat, short: nat, long: nat)
    requires c >= 1 && short <= long <= MAX_KEY_LENGTH
    ensures Pbkdf2(password, salt, c, short) == Pbkdf2(password, salt, c, long)[..short]
  {
    BlocksPrefix(password, salt, c, BlockCount(short), BlockCount(long));
  }
}
