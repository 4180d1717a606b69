/** The streaming SHA-256 of the boot loader. The backend's copy is the same code
    under other names. The ghost field `fed` is the message absorbed so far. */
module Sha256Stream {
  import opened Arith
  import opened Sha256Spec

  const WORD64: nat := 0x1_0000_0000_0000_0000

  class Context {
    const state: array<word>
    const buffer: array<byte>
    var bufferOffset: nat
    var bitCount: nat
    ghost var fed: seq<byte>

    ghost predicate Shape()
      reads this
    {
      state.Length == 8 && buffer.Length == BLOCK
    }

    /** The whole blocks of `fed` are compressed into the state, the rest waits in
        the buffer, and the bit counter is a wrapping 64-bit count. */
    ghost predicate Valid()
      reads this, state, buffer
    {
      && Shape()
      && bufferOffset == |fed| % BLOCK
      && Represents(fed, buffer[..bufferOffset], state[..])
      && bitCount == 8 * |fed| % WORD64
    }

    constructor ()
      ensures Shape() && fresh(state) && fresh(buffer)
    {
      state := new word[8];
      buffer := new byte[BLOCK];
    }

    method Init()
      requires Shape()
      modifies this, state
      ensures Valid() && fed == []
    {
      forall i | 0 <= i < 8 {
        state[i] := H0[i];
      }
      bitCount := 0;
      bufferOffset := 0;
      fed := [];
      assert state[..] == H0 == HashBlocks(fed[..0]) && buffer[..0] == fed[0..];
    }

    /** The message schedule of the block in the buffer. */
    method Schedule() returns (w: array<word>)
      requires Shape()
      ensures fresh(w) && w.Length == 64 && forall t :: 0 <= t < 64 ==> w[t] == W(buffer[..], t)
    {
      hide Add, JoinBytes, SmallSigma0, SmallSigma1, W;
      ghost var block := buffer[..];
      w := new word[64];
      for i := 0 to 16
        invariant buffer[..] == block
        invariant forall t :: 0 <= t < i ==> w[t] == W(block, t)
      {
        FirstWords(block, i);
        w[i] := JoinBytes(buffer[4 * i], buffer[4 * i + 1], buffer[4 * i + 2], buffer[4 * i + 3]);
      }
      for i := 16 to 64
        invariant buffer[..] == block
        invariant forall t :: 0 <= t < i ==> w[t] == W(block, t)
      {
        LaterWords(block, i);
        w[i] := Add(Add(Add(SmallSigma1(w[i - 2]), w[i - 7]), SmallSigma0(w[i - 15])), w[i - 16]);
      }
    }

    /** Compresses the block in the buffer into the state. */
    method Transform()
      requires Shape()
      modifies state
      ensures state[..] == Compress(old(state[..]), buffer[..])
    {
      hide Add, BigSigma0, BigSigma1, Ch, Maj, W;
      ghost var block, s0, v0 := buffer[..], state[..], Load(state[..]);
      var w := Schedule();
      var a, b, c, d := state[0], state[1], state[2], state[3];
      var e, f, g, h := state[4], state[5], state[6], state[7];
      for i := 0 to 64
        invariant state[..] == s0
        invariant Vars(a, b, c, d, e, f, g, h) == Rounds(v0, block, i)
      {
        var t1 := Add(Add(Add(Add(h, BigSigma1(e)), Ch(e, f, g)), K[i]), w[i]);
        var t2 := Add(BigSigma0(a), Maj(a, b, c));
        h := g;
        g := f;
        f := e;
        e := Add(d, t1);
        d := c;
        c := b;
        b := a;
        a := Add(t1, t2);
      }
      var sum := AddVars(state[..], Vars(a, b, c, d, e, f, g, h));
      forall i | 0 <= i < 8 {
        state[i] := sum[i];
      }
      assert state[..] == sum && s0 == old(state[..]) && buffer[..] == block;
    }

    /** Absorbs data[..len], one byte at a time. */
    method Update(data: array<byte>, len: nat)
      requires Valid() && len <= data.Length && data != buffer
      modifies this, state, buffer
      ensures Valid() && fed == old(fed) + old(data[..len])
    {
      hide Represents;
      ghost var input := data[..len];
      ghost var fed0 := fed;
      for i := 0 to len
        invariant Valid() && data[..len] == input && fed == fed0 + input[..i]
      {
        Absorb(data[i]);
        assert input[..i + 1] == input[..i] + [data[i]];
      }
    }

    /** Pads, compresses the last one or two blocks and writes the digest. */
    method Final(digest: array<byte>)
      requires Valid() && digest.Length >= DIGEST && digest != buffer
      modifies this, state, buffer, digest
      ensures Shape()
      ensures digest[..DIGEST] == Hash(old(fed))
      ensures digest[DIGEST..] == old(digest[DIGEST..])
    {
      hide Compress, HashBlocks, Digest, Zeros, BigEndian;
      ghost var m, tail, s, rest := fed, buffer[..bufferOffset], state[..], digest[DIGEST..];
      LastBlocks(m, tail, s);
      buffer[bufferOffset] := 0x80;
      bufferOffset := bufferOffset + 1;
      assert buffer[..bufferOffset] == tail + [0x80];
      if bufferOffset > 56 {
        ZeroTo(BLOCK);
        assert buffer[..] == buffer[..BLOCK];
        Transform();
        bufferOffset := 0;
        assert buffer[..0] == [];
      }
      ghost var waiting := buffer[..bufferOffset];
      ZeroTo(56);
      WriteBitCount(8 * |m|);
      assert waiting == [] ==> waiting + Zeros(56) == Zeros(56);
      Transform();
      assert state[..] == HashBlocks(Pad(m));
      WriteDigest(digest);
      assert digest[DIGEST..] == rest;
    }

    method ZeroTo(limit: nat)
      requires Shape() && bufferOffset <= limit <= BLOCK
      modifies this`bufferOffset, buffer
      ensures bufferOffset == limit
      ensures buffer[..limit] == old(buffer[..bufferOffset]) + Zeros(limit - old(bufferOffset))
    {
      ghost var start, before := bufferOffset, buffer[..bufferOffset];
      while bufferOffset < limit
        invariant start <= bufferOffset <= limit
        invariant buffer[..start] == before
        invariant forall k :: start <= k < bufferOffset ==> buffer[k] == 0
      {
        buffer[bufferOffset] := 0;
        bufferOffset := bufferOffset + 1;
      }
    }

    /** The 64-bit counter, most significant byte first, in bytes 56 to 63. */
    method WriteBitCount(ghost bits: nat)
      requires Shape() && bitCount == bits % WORD64
      modifies buffer
      ensures buffer[..] == old(buffer[..56]) + BigEndian(bits, 8)
    {
      ghost var before := buffer[..56];
      for i := 0 to 8
        invariant buffer[..56] == before
        invariant forall k :: 0 <= k < i ==> buffer[56 + k] == ShiftedByte(bitCount, 56 - 8 * k)
      {
        buffer[56 + i] := ShiftedByte(bitCount, 56 - 8 * i);
      }
      forall k | 0 <= k < 8
        ensures ShiftedByte(bitCount, 56 - 8 * k) == BigEndian(bits, 8)[k]
      {
        CounterByte(bits, k);
      }
      assert buffer[56..] == BigEndian(bits, 8);
      assert buffer[..] == buffer[..56] + buffer[56..];
    }

    method WriteDigest(digest: array<byte>)
      requires Shape() && digest.Length >= DIGEST
      modifies digest
      ensures digest[..DIGEST] == Digest(state[..])
      ensures digest[DIGEST..] == old(digest[DIGEST..])
    {
      hide WordBytes;
      ghost var s, rest := state[..], digest[DIGEST..];
      for i := 0 to 8
        invariant state[..] == s && digest[DIGEST..] == rest
        invariant digest[..4 * i] == Digest(s[..i])
      {
        ghost var before := digest[..4 * i];
        var b := WordBytes(state[i]);
        digest[4 * i], digest[4 * i + 1], digest[4 * i + 2], digest[4 * i + 3] := b[0], b[1], b[2], b[3];
        assert s[..i + 1][..i] == s[..i];
        assert digest[..4 * (i + 1)] == before + b;
      }
      assert s[..8] == s;
    }

    method Absorb(x: byte)
      requires Valid()
      modifies this, state, buffer
      ensures Valid() && fed == old(fed) + [x]
    {
      hide Compress, Represents;
      ghost var fed0, tail, s0 := fed, buffer[..bufferOffset], state[..];
      Count(|fed0|);
      AbsorbStep(fed0, tail, s0, x);
      buffer[bufferOffset] := x;
      bufferOffset := bufferOffset + 1;
      bitCount := (bitCount + 8) % WORD64;
      fed := fed + [x];
      assert buffer[..bufferOffset] == tail + [x];
      if bufferOffset == BLOCK {
        assert buffer[..] == tail + [x];
        Transform();
        bufferOffset := 0;
        assert buffer[..0] == [];
      }
    }
  }

  /** The message is whole blocks, compressed into s, and a waiting tail. */
  ghost predicate Represents(fed: seq<byte>, tail: seq<byte>, s: seq<word>) {
    && |tail| == |fed| % BLOCK
    && tail == fed[|fed| - |tail|..]
    && s == HashBlocks(fed[..|fed| - |tail|])
  }

  lemma AbsorbStep(fed: seq<byte>, tail: seq<byte>, s: seq<word>, x: byte)
    requires Represents(fed, tail, s)
    ensures |tail| + 1 < BLOCK ==> Represents(fed + [x], tail + [x], s)
    ensures |tail| + 1 == BLOCK ==> Represents(fed + [x], [], Compress(s, tail + [x]))
  {
    hide Compress, HashBlocks;
    var fed' := fed + [x];
    assert fed'[..|fed| - |tail|] == fed[..|fed| - |tail|];
    assert fed'[|fed| - |tail|..] == tail + [x];
    if |tail| + 1 == BLOCK {
      BlockFull(fed', tail + [x], s);
    }
  }

  lemma BlockFull(fed: seq<byte>, block: seq<byte>, s: seq<word>)
    requires |block| == BLOCK <= |fed| && |fed| % BLOCK == 0 && block == fed[|fed| - BLOCK..]
    requires s == HashBlocks(fed[..|fed| - BLOCK])
    ensures Represents(fed, [], Compress(s, block))
  {
    hide Compress;
    assert fed[..|fed|] == fed;
  }

  lemma FirstWords(block: seq<byte>, t: nat)
    requires |block| == BLOCK && t < 16
    ensures W(block, t) == JoinBytes(block[4 * t], block[4 * t + 1], block[4 * t + 2], block[4 * t + 3])
  {
    hide JoinBytes;
  }

  lemma LaterWords(block: seq<byte>, t: nat)
    requires |block| == BLOCK && t >= 16
    ensures W(block, t)
         == Add(Add(Add(SmallSigma1(W(block, t - 2)), W(block, t - 7)), SmallSigma0(W(block, t - 15))), W(block, t - 16))
  {
    hide Add, SmallSigma0, SmallSigma1;
  }

  // (UINT8)(x >> shift)
  function ShiftedByte(x: nat, shift: nat): byte {
    (x / Pow(2, shift) % 256) as byte
  }

  lemma {:induction false} BigEndianAt(x: nat, n: nat, i: nat)
    requires i < n
    ensures BigEndian(x, n)[i] == (x / Pow(256, n - 1 - i) % 256) as byte
  {
    if i < n - 1 {
      BigEndianAt(x / 256, n - 1, i);
      DivDiv(x, 256, Pow(256, n - 2 - i));
    }
  }

  /** The byte cut out of the wrapped counter is the byte of the true count. */
  lemma CounterByte(bits: nat, k: nat)
    requires k < 8
    ensures ShiftedByte(bits % WORD64, 56 - 8 * k) == BigEndian(bits, 8)[k]
  {
    var j := 7 - k;
    BigEndianAt(bits, 8, k);
    Pow256(j);
    PowAdd(256, j, k + 1);
    assert Pow(256, 8) == WORD64;
    WrappedByte(bits / WORD64, bits % WORD64, Pow(256, j), Pow(256, k));
  }

  lemma WrappedByte(h: nat, low: nat, p: nat, r: nat)
    requires p > 0
    ensures 0 <= h * (p * (256 * r)) + low
    ensures (h * (p * (256 * r)) + low) / p % 256 == low / p % 256
  {
    var k := (h * r) * 256;
    calc {
      h * (p * (256 * r));
      { assert p * (256 * r) == (r * 256) * p; }
      h * ((r * 256) * p);
      { MulAssoc(h, r * 256, p); MulAssoc(h, r, 256); }
      k * p;
    }
    MulDistrib(low / p, k, p);
    ModUnique(k * p + low, low / p + k, low % p, p);
    ModShift(low / p, h * r, 256);
  }

  lemma {:induction false} Pow256(j: nat)
    ensures Pow(2, 8 * j) == Pow(256, j)
  {
    if j > 0 {
      Pow256(j - 1);
      PowAdd(2, 8, 8 * (j - 1));
      assert Pow(2, 8) == 256;
    }
  }

  /** Whether one or two blocks remain, the padded message ends in exactly the
      blocks that `Final` builds. */
  lemma LastBlocks(m: seq<byte>, tail: seq<byte>, s: seq<word>)
    requires Represents(m, tail, s)
    ensures |tail| <= 55 ==>
              HashBlocks(Pad(m)) == Compress(s, tail + [0x80] + Zeros(55 - |tail|) + BigEndian(8 * |m|, 8))
    ensures |tail| > 55 ==>
              HashBlocks(Pad(m)) == Compress(Compress(s, tail + [0x80] + Zeros(63 - |tail|)), Zeros(56) + BigEndian(8 * |m|, 8))
  {
    hide Compress, BigEndian, Pad, HashBlocks, Zeros;
    var blocks, end := m[..|m| - |tail|], BigEndian(8 * |m|, 8);
    assert m == blocks + tail;
    ModUnique(|blocks|, |m| / BLOCK, 0, BLOCK);
    PadIs(m);
    if |tail| <= 55 {
      OneBlock(blocks, tail, end);
    } else {
      TwoBlocks(blocks, tail, end);
    }
  }

  lemma OneBlock(blocks: seq<byte>, tail: seq<byte>, end: seq<byte>)
    requires |blocks| % BLOCK == 0 && |tail| <= 55 && |end| == 8
    ensures var p := blocks + tail + ([0x80] + Zeros(55 - |tail|) + end);
      |p| % BLOCK == 0 && HashBlocks(p) == Compress(HashBlocks(blocks), tail + [0x80] + Zeros(55 - |tail|) + end)
  {
    hide Compress, HashBlocks, Zeros;
    var last := tail + [0x80] + Zeros(55 - |tail|) + end;
    assert |last| == BLOCK;
    assert blocks + tail + ([0x80] + Zeros(55 - |tail|) + end) == blocks + last;
    HashSnoc(blocks, last);
  }

  lemma TwoBlocks(blocks: seq<byte>, tail: seq<byte>, end: seq<byte>)
    requires |blocks| % BLOCK == 0 && 55 < |tail| < BLOCK && |end| == 8
    ensures var p := blocks + tail + ([0x80] + Zeros(119 - |tail|) + end);
      |p| % BLOCK == 0
      && HashBlocks(p) == Compress(Compress(HashBlocks(blocks), tail + [0x80] + Zeros(63 - |tail|)), Zeros(56) + end)
  {
    hide Compress, HashBlocks;
    var first, last := tail + [0x80] + Zeros(63 - |tail|), Zeros(56) + end;
    assert Zeros(119 - |tail|) == Zeros(63 - |tail|) + Zeros(56);
    assert blocks + tail + ([0x80] + Zeros(119 - |tail|) + end) == (blocks + first) + last;
    HashSnoc(blocks, first);
    HashSnoc(blocks + first, last);
  }

  lemma PadIs(m: seq<byte>)
    ensures var r := |m| % BLOCK;
      Pad(m) == m + ([0x80] + Zeros(if r <= 55 then 55 - r else 119 - r) + BigEndian(8 * |m|, 8))
  {
    hide BigEndian, Zeros;
  }

  lemma HashSnoc(blocks: seq<byte>, block: seq<byte>)
    requires |blocks| % BLOCK == 0 && |block| == BLOCK
    ensures |blocks + block| % BLOCK == 0
    ensures HashBlocks(blocks + block) == Compress(HashBlocks(blocks), block)
  {
  }

  lemma Count(n: nat)
    ensures (n + 1) % BLOCK == if n % BLOCK + 1 == BLOCK then 0 else n % BLOCK + 1
    ensures (8 * n % WORD64 + 8) % WORD64 == 8 * (n + 1) % WORD64
  {
    var q, r := n / BLOCK, n % BLOCK;
    ModUnique(n + 1, if r + 1 == BLOCK then q + 1 else q, if r + 1 == BLOCK then 0 else r + 1, BLOCK);
    ModShift(8 * n % WORD64 + 8, 8 * n / WORD64, WORD64);
  }
}
