/** HMAC with SHA-256: RFC 2104 section 2, and the context that computes it piece by piece. */
module Hmac {
  import opened HashBytes
  import opened Sha256
  import opened Sha256Code

  const IPAD: bv8 := 0x36
  const OPAD: bv8 := 0x5c

  /** The key as long as a block: hashed first if it is longer, then filled up with zeros. */
  function BlockKey(key: Bytes): (k: Bytes)
    ensures |k| == 64
  {
    var used := if |key| > 64 then Digest(key) else key;
    used + Zeros(64 - |used|)
  }

  function Xored(k: Bytes, pad: bv8): (r: Bytes)
    ensures |r| == |k|
  {
    seq(|k|, i requires 0 <= i < |k| => k[i] ^ pad)
  }

  function Mac(key: Bytes, text: Bytes): Bytes {
    Digest(Xored(BlockKey(key), OPAD) + Digest(Xored(BlockKey(key), IPAD) + text))
  }

  lemma DigestSize(m: Bytes)
    ensures |Digest(m)| == 32
  {
    hide CompressAll, Padded;
  }

  /** Section 2 of RFC 2104: the key filled up to a block, or its digest when it is longer than a block. */
  ghost predicate FillsBlock(k: Bytes, key: Bytes) {
    var used := if |key| <= 64 then key else Digest(key);
    |k| == 64 && |used| <= 64 && k[..|used|] == used && forall j :: |used| <= j < 64 ==> k[j] == 0
  }

  /** The code of a text: the outer hash of the inner one, each fed the filled key with its own constant added. */
  ghost predicate CodeOf(code: Bytes, key: Bytes, text: Bytes) {
    exists k, inner, outer :: FillsBlock(k, key) && |inner| == 64 && |outer| == 64
      && (forall j :: 0 <= j < 64 ==> inner[j] == k[j] ^ 0x36)
      && (forall j :: 0 <= j < 64 ==> outer[j] == k[j] ^ 0x5c)
      && code == Digest(outer + Digest(inner + text))
  }

  lemma MacIsCode(key: Bytes, text: Bytes)
    ensures CodeOf(Mac(key, text), key, text)
  {
    DigestSize(key);
    hide Digest;
    var k := BlockKey(key);
    var inner, outer := Xored(k, IPAD), Xored(k, OPAD);
    assert FillsBlock(k, key);
    assert Mac(key, text) == Digest(outer + Digest(inner + text));
  }

  /** The pads of `hmac_sha256_init`. */
  method Pad(key: Bytes, pad: bv8) returns (block: array<bv8>)
    requires |key| < 0x2000_0000
    ensures fresh(block) && block[..] == Xored(BlockKey(key), pad)
  {
    block := new bv8[64];
    var used := key;
    if |key| > 64 {
      used := Hash(key);
      DigestSize(key);
    }
    var num := |used|;
    for i := num to 64
      invariant forall j :: num <= j < i ==> block[j] == pad
    {
      block[i] := pad;
    }
    for i := 0 to num
      invariant forall j :: num <= j < 64 ==> block[j] == pad
      invariant forall j :: 0 <= j < i ==> block[j] == used[j] ^ pad
    {
      block[i] := used[i] ^ pad;
    }
    hide Digest;
    assert (0 as bv8) ^ pad == pad;
    assert block[..] == Xored(BlockKey(key), pad);
  }

  /** A context that has absorbed a padded key. */
  method Begin(key: Bytes, pad: bv8) returns (ctx: Context)
    requires |key| < 0x2000_0000
    ensures fresh(ctx) && fresh(ctx.h) && fresh(ctx.block) && ctx.Valid() && ctx.fed == Xored(BlockKey(key), pad)
  {
    hide Absorbed, Xored, BlockKey;
    var block := Pad(key, pad);
    ctx := new Context();
    ctx.Update(block[..]);
    assert [] + block[..] == block[..];
  }

  method Copy(other: Context) returns (ctx: Context)
    requires other.Valid()
    ensures fresh(ctx) && fresh(ctx.h) && fresh(ctx.block) && ctx.Valid() && ctx.fed == other.fed
  {
    hide Absorbed;
    ctx := new Context();
    ctx.CopyFrom(other);
  }

  ghost predicate Apart(a: Context, b: Context) {
    a != b && a.h != b.h && a.block != b.block
  }

  /** `hmac_sha256_ctx`: the two hashes at work, and the two to start again from. */
  class HmacContext {
    const inside: Context
    const outside: Context
    const insideAgain: Context
    const outsideAgain: Context
    ghost const key: Bytes

    /** The arrays and records that make up the context. */
    ghost function Parts(): set<object>
    {
      {inside, inside.h, inside.block, outside, outside.h, outside.block,
       insideAgain, insideAgain.h, insideAgain.block, outsideAgain, outsideAgain.h, outsideAgain.block}
    }

    ghost predicate Separate() {
      Apart(inside, outside) && Apart(inside, insideAgain) && Apart(inside, outsideAgain)
      && Apart(outside, insideAgain) && Apart(outside, outsideAgain) && Apart(insideAgain, outsideAgain)
    }

    /** Ready for more text, after the given text. */
    ghost predicate Ready(text: Bytes)
      reads Parts()
    {
      Separate()
      && inside.Valid() && inside.fed == Xored(BlockKey(key), IPAD) + text
      && outside.Valid() && outside.fed == Xored(BlockKey(key), OPAD)
      && CanRestart()
    }

    /** What `reinit` needs is intact. */
    ghost predicate CanRestart()
      reads Parts()
    {
      Separate()
      && inside.h.Length == 8 && inside.block.Length == 128 && outside.h.Length == 8 && outside.block.Length == 128
      && insideAgain.Valid() && insideAgain.fed == Xored(BlockKey(key), IPAD)
      && outsideAgain.Valid() && outsideAgain.fed == Xored(BlockKey(key), OPAD)
    }

    /** `hmac_sha256_init`. */
    constructor (key: Bytes)
      requires |key| < 0x2000_0000
      ensures Ready([]) && this.key == key && fresh(Parts())
    {
      hide Xored, BlockKey, Absorbed;
      var a := Begin(key, IPAD);
      var b := Begin(key, OPAD);
      var c := Copy(a);
      var d := Copy(b);
      inside, outside, insideAgain, outsideAgain, this.key := a, b, c, d, key;
      new;
      assert Xored(BlockKey(key), IPAD) + [] == Xored(BlockKey(key), IPAD);
    }

    /** `hmac_sha256_reinit`: as after a fresh init with the same key, whatever happened in between. */
    method Reinit()
      requires CanRestart()
      modifies inside, inside.h, inside.block, outside, outside.h, outside.block
      ensures Ready([])
    {
      hide Xored, BlockKey, Absorbed;
      inside.CopyFrom(insideAgain);
      outside.CopyFrom(outsideAgain);
      assert Xored(BlockKey(key), IPAD) + [] == Xored(BlockKey(key), IPAD);
    }

    /** `hmac_sha256_update`. */
    method Update(message: Bytes, ghost text: Bytes)
      requires Ready(text) && |message| < 0x8000_0000
      modifies inside, inside.h, inside.block
      ensures Ready(text + message)
    {
      hide Xored, BlockKey, Absorbed;
      inside.Update(message);
      assert Xored(BlockKey(key), IPAD) + text + message == Xored(BlockKey(key), IPAD) + (text + message);
    }

    /** `hmac_sha256_final`: the first macSize bytes of the code. */
    method Final(macSize: nat, ghost text: Bytes) returns (mac: Bytes)
      requires Ready(text) && macSize <= 32 && |text| < 0x2000_0000 - 64
      modifies inside, inside.h, inside.block, outside, outside.h, outside.block
      ensures mac == Mac(key, text)[..macSize] && CanRestart()
    {
      hide Xored, BlockKey, Digest, Absorbed, Output, CompressAll, CodePadded, Initial;
      KeySize(key);
      var digestInside := inside.Final();
      DigestSize(Xored(BlockKey(key), IPAD) + text);
      outside.Update(digestInside);
      var temp := outside.Final();
      DigestSize(Xored(BlockKey(key), OPAD) + digestInside);
      mac := temp[..macSize];
    }
  }

  lemma KeySize(key: Bytes)
    ensures |Xored(BlockKey(key), IPAD)| == 64 && |Xored(BlockKey(key), OPAD)| == 64
    ensures |Mac(key, [])| == 32
  {
    DigestSize(Xored(BlockKey(key), OPAD) + Digest(Xored(BlockKey(key), IPAD) + []));
  }

  /** Text handed over in pieces: the code is RFC 2104's for all of it; a restarted context computes the same again. */
  method MacOfPieces(key: Bytes, pieces: seq<Bytes>) returns (mac: Bytes, again: Bytes)
    requires |key| < 0x2000_0000 && |Joined(pieces, |pieces|)| < 0x2000_0000 - 64
    ensures mac == again == Mac(key, Joined(pieces, |pieces|)) && CodeOf(mac, key, Joined(pieces, |pieces|))
  {
    MacIsCode(key, Joined(pieces, |pieces|));
    hide Mac, Joined, CodeOf;
    var ctx := new HmacContext(key);
    MacSize(key, Joined(pieces, |pieces|));
    mac := FeedPieces(ctx, pieces);
    ctx.Reinit();
    again := FeedPieces(ctx, pieces);
  }

  lemma MacSize(key: Bytes, text: Bytes)
    ensures |Mac(key, text)| == 32
  {
    DigestSize(Xored(BlockKey(key), OPAD) + Digest(Xored(BlockKey(key), IPAD) + text));
  }

  method FeedPieces(ctx: HmacContext, pieces: seq<Bytes>) returns (mac: Bytes)
    requires ctx.Ready([]) && |Joined(pieces, |pieces|)| < 0x2000_0000 - 64
    modifies ctx.Parts()
    ensures mac == Mac(ctx.key, Joined(pieces, |pieces|)) && ctx.CanRestart()
  {
    hide Mac, Absorbed, Joined;
    JoinedNone(pieces);
    for i := 0 to |pieces|
      invariant ctx.Ready(Joined(pieces, i))
    {
      JoinedGrows(pieces, i + 1);
      JoinedNext(pieces, i);
      ctx.Update(pieces[i], Joined(pieces, i));
    }
    MacSize(ctx.key, Joined(pieces, |pieces|));
    mac := ctx.Final(32, Joined(pieces, |pieces|));
  }
}
