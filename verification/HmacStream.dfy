/** The HMAC contexts of sha256.c: two hash contexts, each with one key block absorbed. */
module HmacStream {
  import opened Bytes
  import F = Fips180
  import H = Rfc2104
  import T = Sha256Transform
  import opened Sha256Stream

  /** memset(pad, octet, 64) and the loop that mixes the key in. */
  method MaskKey(pad: array<Byte>, key: seq<Byte>, octet: Byte)
    requires pad.Length == 64 && |key| <= 64
    modifies pad
    ensures pad[..] == H.Masked(key + Zeros(64 - |key|), octet)
  {
    for i := 0 to 64
      invariant forall j :: 0 <= j < i ==> pad[j] == octet
    {
      pad[i] := octet;
    }
    for i := 0 to |key|
      invariant forall j :: 0 <= j < i ==> pad[j] == key[j] ^ octet
      invariant forall j :: i <= j < 64 ==> pad[j] == octet
    {
      XorCommutes(pad[i], key[i]);
      pad[i] := pad[i] ^ key[i];
    }
    ZeroMasked(octet);
    assert forall j :: 0 <= j < 64 ==> pad[..][j] == H.Masked(key + Zeros(64 - |key|), octet)[j];
  }

  lemma XorCommutes(a: Byte, b: Byte)
    ensures a ^ b == b ^ a
  {
  }

  lemma ZeroMasked(octet: Byte)
    ensures (0 as Byte) ^ octet == octet
  {
  }

  class HmacCtx {
    const ictx: Sha256Ctx
    const octx: Sha256Ctx

    ghost const Repr: set<object>

    ghost predicate Shape() {
      && Repr == {this} + ictx.Repr() + octx.Repr()
      && ictx.Shape() && octx.Shape()
      && ictx.Repr() !! octx.Repr()
      && this !in ictx.Repr() + octx.Repr()
    }

    /** The context stands for HMAC under the key with this much text absorbed. */
    ghost predicate Represents(key: seq<Byte>, text: seq<Byte>)
      reads Repr
      ensures Represents(key, text) ==> Shape()
    {
      && Shape()
      && ictx.Represents(H.Masked(H.KeyBlock(key), H.IPAD) + text)
      && octx.Represents(H.Masked(H.KeyBlock(key), H.OPAD))
    }

    constructor ()
      ensures Shape() && fresh(Repr)
    {
      var inner := new Sha256Ctx();
      var outer := new Sha256Ctx();
      ictx, octx := inner, outer;
      Repr := {this} + inner.Repr() + outer.Repr();
    }

    /** _HMAC_SHA256_Init */
    method Init(key: seq<Byte>, tmp32: array<Word>, pad: array<Byte>, khash: array<Byte>)
      requires Shape()
      requires tmp32.Length == T.SCRATCH && pad.Length == 64 && khash.Length == 32 && pad != khash
      requires tmp32 !in Repr && pad !in Repr && khash !in Repr
      modifies Repr, tmp32, pad, khash
      ensures Represents(key, [])
    {
      hide F.Sha256, Sha256Ctx.Represents, H.Masked;
      var k := key;
      if |key| > 64 {
        ictx.Init();
        ictx.Update(key, tmp32, []);
        assert [] + key == key;
        ictx.Final(khash, tmp32, key);
        k := khash[..];
      }
      ghost var block := k + Zeros(64 - |k|);

      ictx.Init();
      MaskKey(pad, k, 0x36);
      ictx.Update(pad[..], tmp32, []);
      assert [] + pad[..] == H.Masked(block, H.IPAD) == H.Masked(block, H.IPAD) + [];

      octx.Init();
      MaskKey(pad, k, 0x5c);
      octx.Update(pad[..], tmp32, []);
      assert [] + pad[..] == H.Masked(block, H.OPAD);
    }

    /** _HMAC_SHA256_Update */
    method Update(input: seq<Byte>, tmp32: array<Word>, ghost key: seq<Byte>, ghost text: seq<Byte>)
      requires Represents(key, text)
      requires tmp32.Length == T.SCRATCH && tmp32 !in Repr
      modifies Repr, tmp32
      ensures Represents(key, text + input)
    {
      hide F.Sha256, Sha256Ctx.Represents, H.Masked, H.KeyBlock;
      ghost var k := H.Masked(H.KeyBlock(key), H.IPAD);
      ictx.Update(input, tmp32, k + text);
      assert k + text + input == k + (text + input);
    }

    /** _HMAC_SHA256_Final */
    method Final(digest: array<Byte>, tmp32: array<Word>, ihash: array<Byte>,
                 ghost key: seq<Byte>, ghost text: seq<Byte>)
      requires Represents(key, text)
      requires tmp32.Length == T.SCRATCH && digest.Length == 32 && ihash.Length == 32 && digest != ihash
      requires tmp32 !in Repr && digest !in Repr && ihash !in Repr
      modifies Repr, tmp32, digest, ihash
      ensures Shape() && digest[..] == H.Hmac(key, text)
    {
      hide F.Sha256, Sha256Ctx.Represents, H.Masked, H.KeyBlock;
      ghost var k := H.KeyBlock(key);
      ictx.Final(ihash, tmp32, H.Masked(k, H.IPAD) + text);
      octx.Update(ihash[..], tmp32, H.Masked(k, H.OPAD));
      octx.Final(digest, tmp32, H.Masked(k, H.OPAD) + ihash[..]);
    }

    /** memcpy of a whole context. */
    method CopyFrom(src: HmacCtx)
      requires Shape() && src.Shape() && Repr !! src.Repr
      modifies Repr
      ensures Shape() && SameAs(src)
    {
      ictx.CopyFrom(src.ictx);
      octx.CopyFrom(src.octx);
    }

    ghost predicate SameAs(src: HmacCtx)
      requires Shape() && src.Shape()
      reads Repr, src.Repr
    {
      ictx.SameAs(src.ictx) && octx.SameAs(src.octx)
    }

    /** A copied context carries on from the same key and text. */
    lemma CopyRepresents(src: HmacCtx, key: seq<Byte>, text: seq<Byte>)
      requires Shape() && src.Represents(key, text) && SameAs(src)
      ensures Represents(key, text)
    {
      hide Sha256Ctx.Represents, Sha256Ctx.SameAs, H.Masked, H.KeyBlock;
      ictx.CopyRepresents(src.ictx, H.Masked(H.KeyBlock(key), H.IPAD) + text);
      octx.CopyRepresents(src.octx, H.Masked(H.KeyBlock(key), H.OPAD));
    }
  }

  /** HMAC_SHA256_Buf */
  method HmacBuf(key: seq<Byte>, input: seq<Byte>) returns (digest: array<Byte>)
    ensures fresh(digest) && digest[..] == H.Hmac(key, input)
  {
    hide F.Sha256, Sha256Ctx.Represents, HmacCtx.Represents, H.Masked, H.KeyBlock, H.Hmac;
    var ctx := new HmacCtx();
    var tmp32, pad, khash := new Word[72], new Byte[64], new Byte[32];
    ctx.Init(key, tmp32, pad, khash);
    ctx.Update(input, tmp32, key, []);
    assert [] + input == input;
    digest := new Byte[32];
    ctx.Final(digest, tmp32, khash, key, input);
  }
}
