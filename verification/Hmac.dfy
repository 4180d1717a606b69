/** HMAC-SHA-256: the definition of RFC 2104, the backend's one-shot hash and MAC,
    and the boot loader's MAC. */
module Hmac {
  import opened Sha256Spec
  import opened Sha256Stream

  function Xor(x: byte, y: byte): byte { x ^ y }

  function XorPad(k: seq<byte>, c: byte): (p: seq<byte>)
    ensures |p| == |k|
  {
    seq(|k|, i requires 0 <= i < |k| => Xor(k[i], c))
  }

  /** The key block of RFC 2104, section 2: a long key is hashed first. */
  function KeyBlock(key: seq<byte>): (k: seq<byte>)
    ensures |k| == BLOCK
  {
    if |key| > BLOCK then Hash(key) + Zeros(BLOCK - DIGEST) else key + Zeros(BLOCK - |key|)
  }

  /** The boot loader's key block: a long key is cut. */
  function CutKeyBlock(key: seq<byte>): (k: seq<byte>)
    ensures |k| == BLOCK
  {
    if |key| > BLOCK then key[..BLOCK] else key + Zeros(BLOCK - |key|)
  }

  function MacWith(k: seq<byte>, text: seq<byte>): (mac: seq<byte>)
    requires |k| == BLOCK
    ensures |mac| == DIGEST
  {
    Hash(XorPad(k, 0x5c) + Hash(XorPad(k, 0x36) + text))
  }

  /** RFC 2104, section 2. */
  function Rfc2104(key: seq<byte>, text: seq<byte>): (mac: seq<byte>)
    ensures |mac| == DIGEST
  {
    MacWith(KeyBlock(key), text)
  }

  /** Whatever blocks differ from the key block by 0x36 and by 0x5c in every byte:
      the first starts the inner hash, the second the outer one. */
  lemma PadsDetermineMac(k: seq<byte>, inner: seq<byte>, outer: seq<byte>, text: seq<byte>)
    requires |k| == |inner| == |outer| == BLOCK
    requires forall i :: 0 <= i < BLOCK ==> inner[i] ^ k[i] == 0x36 && outer[i] ^ k[i] == 0x5c
    ensures MacWith(k, text) == Hash(outer + Hash(inner + text))
  {
    hide Hash, Xor;
    forall i | 0 <= i < BLOCK
      ensures inner[i] == Xor(k[i], 0x36) && outer[i] == Xor(k[i], 0x5c)
    {
      XorBack(inner[i], k[i], 0x36);
      XorBack(outer[i], k[i], 0x5c);
    }
    assert inner == XorPad(k, 0x36) && outer == XorPad(k, 0x5c);
  }

  lemma XorBack(x: byte, k: byte, c: byte)
    requires x ^ k == c
    ensures x == Xor(k, c)
  {
  }

  /** Two laws of the standard's keys: a short key may be filled up with zero bytes,
      and a long one stands for its hash. */
  lemma EquivalentKeys(key: seq<byte>, n: nat, text: seq<byte>)
    ensures |key| + n <= BLOCK ==> Rfc2104(key + Zeros(n), text) == Rfc2104(key, text)
    ensures |key| > BLOCK ==> Rfc2104(key, text) == Rfc2104(Hash(key), text)
  {
    hide Hash, MacWith;
    if |key| + n <= BLOCK {
      assert key + Zeros(n) + Zeros(BLOCK - |key| - n) == key + Zeros(BLOCK - |key|);
    }
  }

  /** The one-shot hash: digest := SHA-256(data[..len]). */
  method HashOnce(data: array<byte>, len: nat, digest: array<byte>)
    requires len <= data.Length && digest.Length >= DIGEST
    modifies digest
    ensures digest[..DIGEST] == Hash(old(data[..len]))
    ensures digest[DIGEST..] == old(digest[DIGEST..])
  {
    hide Hash;
    var ctx := new Context();
    ctx.Init();
    ctx.Update(data, len);
    assert ctx.fed == old(data[..len]);
    ctx.Final(digest);
  }

  method MakePads(k: array<byte>) returns (ipad: array<byte>, opad: array<byte>)
    requires k.Length == BLOCK
    ensures fresh(ipad) && fresh(opad) && ipad.Length == opad.Length == BLOCK
    ensures ipad[..BLOCK] == XorPad(k[..], 0x36) && opad[..BLOCK] == XorPad(k[..], 0x5c)
  {
    hide Xor;
    ipad, opad := new byte[BLOCK], new byte[BLOCK];
    for i := 0 to BLOCK
      invariant forall j :: 0 <= j < i ==> ipad[j] == Xor(k[j], 0x36) && opad[j] == Xor(k[j], 0x5c)
    {
      ipad[i] := Xor(k[i], 0x36);
      opad[i] := Xor(k[i], 0x5c);
    }
  }

  /** The inner and the outer hash; outMac carries the inner digest into the outer
      hash and then receives the result. It may even be the data array. */
  method MacFromBlock(k: array<byte>, data: array<byte>, dataLen: nat, outMac: array<byte>)
    requires k.Length == BLOCK && dataLen <= data.Length && outMac.Length >= DIGEST
    modifies outMac
    ensures outMac[..DIGEST] == MacWith(old(k[..]), old(data[..dataLen]))
    ensures outMac[DIGEST..] == old(outMac[DIGEST..])
  {
    hide Hash, XorPad, Represents;
    ghost var k0, text := k[..], data[..dataLen];
    var ipad, opad := MakePads(k);
    var ctx := new Context();
    ctx.Init();
    ctx.Update(ipad, BLOCK);
    ctx.Update(data, dataLen);
    assert ctx.fed == XorPad(k0, 0x36) + text;
    ctx.Final(outMac);
    ctx.Init();
    ctx.Update(opad, BLOCK);
    ctx.Update(outMac, DIGEST);
    assert ctx.fed == XorPad(k0, 0x5c) + Hash(XorPad(k0, 0x36) + text);
    ctx.Final(outMac);
  }

  /** The backend's MAC is RFC 2104 for every key and data length. */
  method BackendMac(key: array<byte>, keyLen: nat, data: array<byte>, dataLen: nat, outMac: array<byte>) returns (status: int)
    requires keyLen <= key.Length && dataLen <= data.Length && outMac.Length >= DIGEST
    modifies outMac
    ensures status == 0
    ensures outMac[..DIGEST] == Rfc2104(old(key[..keyLen]), old(data[..dataLen]))
    ensures outMac[DIGEST..] == old(outMac[DIGEST..])
  {
    hide Hash;
    ghost var key0, text := key[..keyLen], data[..dataLen];
    var k := new byte[BLOCK](_ => 0);
    if keyLen > BLOCK {
      HashOnce(key, keyLen, k);
      assert k[..] == k[..DIGEST] + k[DIGEST..];
    } else {
      forall i | 0 <= i < keyLen {
        k[i] := key[i];
      }
    }
    assert k[..] == KeyBlock(key0) && data[..dataLen] == text;
    MacFromBlock(k, data, dataLen, outMac);
    status := 0;
  }

  /** The boot loader's MAC is the same function of the cut key block. */
  method BootMac(key: array<byte>, keyLen: nat, data: array<byte>, dataLen: nat, outMac: array<byte>) returns (ok: bool)
    requires keyLen <= key.Length && dataLen <= data.Length && outMac.Length >= DIGEST
    modifies outMac
    ensures ok
    ensures outMac[..DIGEST] == MacWith(CutKeyBlock(old(key[..keyLen])), old(data[..dataLen]))
    ensures keyLen <= BLOCK ==> outMac[..DIGEST] == Rfc2104(old(key[..keyLen]), old(data[..dataLen]))
    ensures outMac[DIGEST..] == old(outMac[DIGEST..])
  {
    hide Hash;
    var k := new byte[BLOCK];
    for i := 0 to BLOCK
      invariant key[..] == old(key[..]) && data[..] == old(data[..]) && outMac[..] == old(outMac[..])
      invariant forall j :: 0 <= j < i ==> k[j] == if j < keyLen then key[j] else 0
    {
      k[i] := if i < keyLen then key[i] else 0;
    }
    assert k[..] == CutKeyBlock(key[..keyLen]);
    MacFromBlock(k, data, dataLen, outMac);
    ok := true;
  }

  /** A long key enters the boot loader's MAC only through its first 64 bytes. */
  lemma BootMacOfLongKey(key: seq<byte>, text: seq<byte>)
    requires |key| > BLOCK
    ensures MacWith(CutKeyBlock(key), text) == Rfc2104(key[..BLOCK], text)
  {
    hide Hash, XorPad;
    assert key[..BLOCK] + Zeros(0) == key[..BLOCK];
  }

  function Flatten(pieces: seq<seq<byte>>): seq<byte> {
    if |pieces| == 0 then [] else Flatten(pieces[..|pieces| - 1]) + pieces[|pieces| - 1]
  }

  method UpdateWith(ctx: Context, piece: seq<byte>)
    requires ctx.Valid()
    modifies ctx, ctx.state, ctx.buffer
    ensures ctx.Valid() && ctx.fed == old(ctx.fed) + piece
  {
    var data := new byte[|piece|](j requires 0 <= j < |piece| => piece[j]);
    assert data[..|piece|] == piece;
    ctx.Update(data, |piece|);
  }

  /** Streaming refines the one-shot definition: however the message is cut into
      updates, the digest is that of the whole. */
  method HashPieces(pieces: seq<seq<byte>>) returns (digest: seq<byte>)
    ensures digest == Hash(Flatten(pieces))
  {
    hide Hash, Represents;
    var ctx := new Context();
    ctx.Init();
    for i := 0 to |pieces|
      invariant ctx.Valid() && fresh(ctx) && fresh(ctx.state) && fresh(ctx.buffer)
      invariant ctx.fed == Flatten(pieces[..i])
    {
      UpdateWith(ctx, pieces[i]);
      assert pieces[..i + 1][..i] == pieces[..i];
    }
    assert pieces[..|pieces|] == pieces;
    var out := new byte[DIGEST];
    ctx.Final(out);
    digest := out[..DIGEST];
  }
}
