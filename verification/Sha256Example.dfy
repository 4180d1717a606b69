/** SHA-256 of "abc", the one-block example that accompanies FIPS 180-4, derived
    from the definitions: every schedule word and the state after every round. */
module Sha256Example {
  import opened Arith
  import opened Sha256Spec

  const ABC: seq<byte> := [0x61, 0x62, 0x63]

  const ABC_DIGEST: seq<byte> :=
    [0xba, 0x78, 0x16, 0xbf] + [0x8f, 0x01, 0xcf, 0xea]
    + [0x41, 0x41, 0x40, 0xde] + [0x5d, 0xae, 0x22, 0x23]
    + [0xb0, 0x03, 0x61, 0xa3] + [0x96, 0x17, 0x7a, 0x9c]
    + [0xb4, 0x10, 0xff, 0x61] + [0xf2, 0x00, 0x15, 0xad]

  function Block(): (b: seq<byte>)
    ensures |b| == BLOCK
  {
    ABC + [0x80] + Zeros(52) + [0, 0, 0, 0, 0, 0, 0, 24]
  }

  lemma Padded()
    ensures Pad(ABC) == Block()
  {
    ZeroPrefix(7);
    assert BigEndian(24, 8) == BigEndian(0, 7) + [24];
    assert PadTail(3) == [0x80] + Zeros(52) + BigEndian(24, 8);
  }

  lemma {:induction false} ZeroPrefix(n: nat)
    ensures BigEndian(0, n) == Zeros(n)
  {
    if n > 0 {
      ZeroPrefix(n - 1);
    }
  }

  // ----- The message schedule -----

  predicate Row0(b: seq<byte>)
    requires |b| == BLOCK
  {
    && W(b, 0) == 0x61626380 && W(b, 1) == 0x00000000 && W(b, 2) == 0x00000000 && W(b, 3) == 0x00000000
    && W(b, 4) == 0x00000000 && W(b, 5) == 0x00000000 && W(b, 6) == 0x00000000 && W(b, 7) == 0x00000000
    && W(b, 8) == 0x00000000 && W(b, 9) == 0x00000000 && W(b, 10) == 0x00000000 && W(b, 11) == 0x00000000
    && W(b, 12) == 0x00000000 && W(b, 13) == 0x00000000 && W(b, 14) == 0x00000000 && W(b, 15) == 0x00000018
  }

  predicate Row1(b: seq<byte>)
    requires |b| == BLOCK
  {
    && W(b, 16) == 0x61626380 && W(b, 17) == 0x000f0000 && W(b, 18) == 0x7da86405 && W(b, 19) == 0x600003c6
    && W(b, 20) == 0x3e9d7b78 && W(b, 21) == 0x0183fc00 && W(b, 22) == 0x12dcbfdb && W(b, 23) == 0xe2e2c38e
    && W(b, 24) == 0xc8215c1a && W(b, 25) == 0xb73679a2 && W(b, 26) == 0xe5bc3909 && W(b, 27) == 0x32663c5b
    && W(b, 28) == 0x9d209d67 && W(b, 29) == 0xec8726cb && W(b, 30) == 0x702138a4 && W(b, 31) == 0xd3b7973b
  }

  predicate Row2(b: seq<byte>)
    requires |b| == BLOCK
  {
    && W(b, 32) == 0x93f5997f && W(b, 33) == 0x3b68ba73 && W(b, 34) == 0xaff4ffc1 && W(b, 35) == 0xf10a5c62
    && W(b, 36) == 0x0a8b3996 && W(b, 37) == 0x72af830a && W(b, 38) == 0x9409e33e && W(b, 39) == 0x24641522
    && W(b, 40) == 0x9f47bf94 && W(b, 41) == 0xf0a64f5a && W(b, 42) == 0x3e246a79 && W(b, 43) == 0x27333ba3
    && W(b, 44) == 0x0c4763f2 && W(b, 45) == 0x840abf27 && W(b, 46) == 0x7a290d5d && W(b, 47) == 0x065c43da
  }

  predicate Row3(b: seq<byte>)
    requires |b| == BLOCK
  {
    && W(b, 48) == 0xfb3e89cb && W(b, 49) == 0xcc7617db && W(b, 50) == 0xb9e66c34 && W(b, 51) == 0xa9993667
    && W(b, 52) == 0x84badedd && W(b, 53) == 0xc21462bc && W(b, 54) == 0x1487472c && W(b, 55) == 0xb20f7a99
    && W(b, 56) == 0xef57b9cd && W(b, 57) == 0xebe6b238 && W(b, 58) == 0x9fe3095e && W(b, 59) == 0x78bc8d4b
    && W(b, 60) == 0xa43fcf15 && W(b, 61) == 0x668b2ff8 && W(b, 62) == 0xeeaba2cc && W(b, 63) == 0x12b1edeb
  }

  lemma FirstRow()
    ensures Row0(Block())
  {
    hide JoinBytes;
    assert Zeros(52) == Zeros(51) + [0];
    JoinsAre();
    forall t: nat | t < 16
      ensures W(Block(), t) == if t == 0 then 0x61626380 else if t == 15 then 24 else 0
    {
    }
  }

  lemma JoinsAre()
    ensures JoinBytes(0x61, 0x62, 0x63, 0x80) == 0x61626380
    ensures JoinBytes(0, 0, 0, 0) == 0 && JoinBytes(0, 0, 0, 24) == 24
  {
  }

  lemma Word(b: seq<byte>, t: nat, w2: word, w7: word, w15: word, w16: word, w: word)
    requires |b| == BLOCK && t >= 16
    requires W(b, t - 2) == w2 && W(b, t - 7) == w7 && W(b, t - 15) == w15 && W(b, t - 16) == w16
    requires w == Add(Add(Add(SmallSigma1(w2), w7), SmallSigma0(w15)), w16)
    ensures W(b, t) == w
  {
    hide Add, SmallSigma0, SmallSigma1;
  }

  lemma Words1(b: seq<byte>)
    requires |b| == BLOCK && Row0(b)
    ensures Row1(b)
  {
    hide W;
    Word(b, 16, 0x00000000, 0x00000000, 0x00000000, 0x61626380, 0x61626380);
    Word(b, 17, 0x00000018, 0x00000000, 0x00000000, 0x00000000, 0x000f0000);
    Word(b, 18, 0x61626380, 0x00000000, 0x00000000, 0x00000000, 0x7da86405);
    Word(b, 19, 0x000f0000, 0x00000000, 0x00000000, 0x00000000, 0x600003c6);
    Word(b, 20, 0x7da86405, 0x00000000, 0x00000000, 0x00000000, 0x3e9d7b78);
    Word(b, 21, 0x600003c6, 0x00000000, 0x00000000, 0x00000000, 0x0183fc00);
    Word(b, 22, 0x3e9d7b78, 0x00000018, 0x00000000, 0x00000000, 0x12dcbfdb);
    Word(b, 23, 0x0183fc00, 0x61626380, 0x00000000, 0x00000000, 0xe2e2c38e);
    Word(b, 24, 0x12dcbfdb, 0x000f0000, 0x00000000, 0x00000000, 0xc8215c1a);
    Word(b, 25, 0xe2e2c38e, 0x7da86405, 0x00000000, 0x00000000, 0xb73679a2);
    Word(b, 26, 0xc8215c1a, 0x600003c6, 0x00000000, 0x00000000, 0xe5bc3909);
    Word(b, 27, 0xb73679a2, 0x3e9d7b78, 0x00000000, 0x00000000, 0x32663c5b);
    Word(b, 28, 0xe5bc3909, 0x0183fc00, 0x00000000, 0x00000000, 0x9d209d67);
    Word(b, 29, 0x32663c5b, 0x12dcbfdb, 0x00000000, 0x00000000, 0xec8726cb);
    Word(b, 30, 0x9d209d67, 0xe2e2c38e, 0x00000018, 0x00000000, 0x702138a4);
    Word(b, 31, 0xec8726cb, 0xc8215c1a, 0x61626380, 0x00000018, 0xd3b7973b);
  }

  lemma Words2(b: seq<byte>)
    requires |b| == BLOCK && Row1(b)
    ensures Row2(b)
  {
    hide W;
    Word(b, 32, 0x702138a4, 0xb73679a2, 0x000f0000, 0x61626380, 0x93f5997f);
    Word(b, 33, 0xd3b7973b, 0xe5bc3909, 0x7da86405, 0x000f0000, 0x3b68ba73);
    Word(b, 34, 0x93f5997f, 0x32663c5b, 0x600003c6, 0x7da86405, 0xaff4ffc1);
    Word(b, 35, 0x3b68ba73, 0x9d209d67, 0x3e9d7b78, 0x600003c6, 0xf10a5c62);
    Word(b, 36, 0xaff4ffc1, 0xec8726cb, 0x0183fc00, 0x3e9d7b78, 0x0a8b3996);
    Word(b, 37, 0xf10a5c62, 0x702138a4, 0x12dcbfdb, 0x0183fc00, 0x72af830a);
    Word(b, 38, 0x0a8b3996, 0xd3b7973b, 0xe2e2c38e, 0x12dcbfdb, 0x9409e33e);
    Word(b, 39, 0x72af830a, 0x93f5997f, 0xc8215c1a, 0xe2e2c38e, 0x24641522);
    Word(b, 40, 0x9409e33e, 0x3b68ba73, 0xb73679a2, 0xc8215c1a, 0x9f47bf94);
    Word(b, 41, 0x24641522, 0xaff4ffc1, 0xe5bc3909, 0xb73679a2, 0xf0a64f5a);
    Word(b, 42, 0x9f47bf94, 0xf10a5c62, 0x32663c5b, 0xe5bc3909, 0x3e246a79);
    Word(b, 43, 0xf0a64f5a, 0x0a8b3996, 0x9d209d67, 0x32663c5b, 0x27333ba3);
    Word(b, 44, 0x3e246a79, 0x72af830a, 0xec8726cb, 0x9d209d67, 0x0c4763f2);
    Word(b, 45, 0x27333ba3, 0x9409e33e, 0x702138a4, 0xec8726cb, 0x840abf27);
    Word(b, 46, 0x0c4763f2, 0x24641522, 0xd3b7973b, 0x702138a4, 0x7a290d5d);
    Word(b, 47, 0x840abf27, 0x9f47bf94, 0x93f5997f, 0xd3b7973b, 0x065c43da);
  }

  lemma Words3(b: seq<byte>)
    requires |b| == BLOCK && Row2(b)
    ensures Row3(b)
  {
    hide W;
    Word(b, 48, 0x7a290d5d, 0xf0a64f5a, 0x3b68ba73, 0x93f5997f, 0xfb3e89cb);
    Word(b, 49, 0x065c43da, 0x3e246a79, 0xaff4ffc1, 0x3b68ba73, 0xcc7617db);
    Word(b, 50, 0xfb3e89cb, 0x27333ba3, 0xf10a5c62, 0xaff4ffc1, 0xb9e66c34);
    Word(b, 51, 0xcc7617db, 0x0c4763f2, 0x0a8b3996, 0xf10a5c62, 0xa9993667);
    Word(b, 52, 0xb9e66c34, 0x840abf27, 0x72af830a, 0x0a8b3996, 0x84badedd);
    Word(b, 53, 0xa9993667, 0x7a290d5d, 0x9409e33e, 0x72af830a, 0xc21462bc);
    Word(b, 54, 0x84badedd, 0x065c43da, 0x24641522, 0x9409e33e, 0x1487472c);
    Word(b, 55, 0xc21462bc, 0xfb3e89cb, 0x9f47bf94, 0x24641522, 0xb20f7a99);
    Word(b, 56, 0x1487472c, 0xcc7617db, 0xf0a64f5a, 0x9f47bf94, 0xef57b9cd);
    Word(b, 57, 0xb20f7a99, 0xb9e66c34, 0x3e246a79, 0xf0a64f5a, 0xebe6b238);
    Word(b, 58, 0xef57b9cd, 0xa9993667, 0x27333ba3, 0x3e246a79, 0x9fe3095e);
    Word(b, 59, 0xebe6b238, 0x84badedd, 0x0c4763f2, 0x27333ba3, 0x78bc8d4b);
    Word(b, 60, 0x9fe3095e, 0xc21462bc, 0x840abf27, 0x0c4763f2, 0xa43fcf15);
    Word(b, 61, 0x78bc8d4b, 0x1487472c, 0x7a290d5d, 0x840abf27, 0x668b2ff8);
    Word(b, 62, 0xa43fcf15, 0xb20f7a99, 0x065c43da, 0x7a290d5d, 0xeeaba2cc);
    Word(b, 63, 0x668b2ff8, 0xef57b9cd, 0xfb3e89cb, 0x065c43da, 0x12b1edeb);
  }

  // ----- The rounds -----

  predicate Keys0() {
    && K[0] == 0x428a2f98 && K[1] == 0x71374491 && K[2] == 0xb5c0fbcf && K[3] == 0xe9b5dba5
    && K[4] == 0x3956c25b && K[5] == 0x59f111f1 && K[6] == 0x923f82a4 && K[7] == 0xab1c5ed5
    && K[8] == 0xd807aa98 && K[9] == 0x12835b01 && K[10] == 0x243185be && K[11] == 0x550c7dc3
    && K[12] == 0x72be5d74 && K[13] == 0x80deb1fe && K[14] == 0x9bdc06a7 && K[15] == 0xc19bf174
  }

  predicate Keys1() {
    && K[16] == 0xe49b69c1 && K[17] == 0xefbe4786 && K[18] == 0x0fc19dc6 && K[19] == 0x240ca1cc
    && K[20] == 0x2de92c6f && K[21] == 0x4a7484aa && K[22] == 0x5cb0a9dc && K[23] == 0x76f988da
    && K[24] == 0x983e5152 && K[25] == 0xa831c66d && K[26] == 0xb00327c8 && K[27] == 0xbf597fc7
    && K[28] == 0xc6e00bf3 && K[29] == 0xd5a79147 && K[30] == 0x06ca6351 && K[31] == 0x14292967
  }

  predicate Keys2() {
    && K[32] == 0x27b70a85 && K[33] == 0x2e1b2138 && K[34] == 0x4d2c6dfc && K[35] == 0x53380d13
    && K[36] == 0x650a7354 && K[37] == 0x766a0abb && K[38] == 0x81c2c92e && K[39] == 0x92722c85
    && K[40] == 0xa2bfe8a1 && K[41] == 0xa81a664b && K[42] == 0xc24b8b70 && K[43] == 0xc76c51a3
    && K[44] == 0xd192e819 && K[45] == 0xd6990624 && K[46] == 0xf40e3585 && K[47] == 0x106aa070
  }

  predicate Keys3() {
    && K[48] == 0x19a4c116 && K[49] == 0x1e376c08 && K[50] == 0x2748774c && K[51] == 0x34b0bcb5
    && K[52] == 0x391c0cb3 && K[53] == 0x4ed8aa4a && K[54] == 0x5b9cca4f && K[55] == 0x682e6ff3
    && K[56] == 0x748f82ee && K[57] == 0x78a5636f && K[58] == 0x84c87814 && K[59] == 0x8cc70208
    && K[60] == 0x90befffa && K[61] == 0xa4506ceb && K[62] == 0xbef9a3f7 && K[63] == 0xc67178f2
  }

  lemma Keys0Are()
    ensures Keys0()
  {
  }

  lemma Keys1Are()
    ensures Keys1()
  {
  }

  lemma Keys2Are()
    ensures Keys2()
  {
  }

  lemma Keys3Are()
    ensures Keys3()
  {
  }

  /** Round t turns the state after t rounds into the next one, given the words that
      it writes to a and e. */
  lemma Step(b: seq<byte>, t: nat, v: Vars, k: word, w: word, a: word, e: word) returns (next: Vars)
    requires |b| == BLOCK && t < 64 && Rounds(Load(H0), b, t) == v && W(b, t) == w && K[t] == k
    requires Round(v, k, w) == Vars(a, v.a, v.b, v.c, e, v.e, v.f, v.g)
    ensures next == Vars(a, v.a, v.b, v.c, e, v.e, v.f, v.g)
    ensures Rounds(Load(H0), b, t + 1) == next
  {
    hide Round, W;
    next := Round(v, k, w);
  }

  function State0(): Vars {
    Vars(0x6a09e667, 0xbb67ae85, 0x3c6ef372, 0xa54ff53a,
         0x510e527f, 0x9b05688c, 0x1f83d9ab, 0x5be0cd19)
  }

  function State8(): Vars {
    Vars(0x85a07b5f, 0xe5030380, 0x2b4209f5, 0x04409a6a,
         0x0c657a79, 0x9b27a401, 0x714260ad, 0x43ada245)
  }

  function State16(): Vars {
    Vars(0xb0fa238e, 0xc0645fde, 0xd932eb16, 0x87912990,
         0x07590dcd, 0x0b92f20c, 0x745a48de, 0x1e578218)
  }

  function State24(): Vars {
    Vars(0xc5d53d8d, 0xa7a3623f, 0xc2606d6d, 0x9dc68b63,
         0xaa47c347, 0x49f5114a, 0xe1257970, 0x8ada8930)
  }

  function State32(): Vars {
    Vars(0x73b33bf5, 0xea992a22, 0xa0060b30, 0x363482c9,
         0xba591112, 0x0109ab3a, 0xade79437, 0x6112a3b7)
  }

  function State40(): Vars {
    Vars(0x79ea687a, 0x6dc57a8a, 0x34df1604, 0x41a65cb1,
         0x1efbc0a0, 0xf0781bc8, 0xa507a53d, 0x0772a26b)
  }

  function State48(): Vars {
    Vars(0x4172328d, 0xa14c14b0, 0x72ab4b91, 0x26628815,
         0xfecf0bc6, 0xd57b94a9, 0xb7755da1, 0xa80f11f0)
  }

  function State56(): Vars {
    Vars(0x38cc9913, 0x3ec45cdb, 0xf5702fdb, 0x101fd28f,
         0x54cb266b, 0xe50e1b4f, 0x9f4787c3, 0x529e7d00)
  }

  function State64(): Vars {
    Vars(0x506e3058, 0xd39a2165, 0x04d24d6c, 0xb85e2ce9,
         0x5ef50f24, 0xfb121210, 0x948d25b6, 0x961f4894)
  }

  lemma Rounds0(b: seq<byte>)
    requires |b| == BLOCK && Row0(b) && Keys0()
    ensures Rounds(Load(H0), b, 8) == State8()
  {
    hide W, Rounds, K, Load;
    Start(b);
    var v := State0();
    v := Step(b, 0, v, 0x428a2f98, 0x61626380, 0x5d6aebcd, 0xfa2a4622);
    v := Step(b, 1, v, 0x71374491, 0x00000000, 0x5a6ad9ad, 0x78ce7989);
    v := Step(b, 2, v, 0xb5c0fbcf, 0x00000000, 0xc8c347a7, 0xf92939eb);
    v := Step(b, 3, v, 0xe9b5dba5, 0x00000000, 0xd550f666, 0x24e00850);
    v := Step(b, 4, v, 0x3956c25b, 0x00000000, 0x04409a6a, 0x43ada245);
    v := Step(b, 5, v, 0x59f111f1, 0x00000000, 0x2b4209f5, 0x714260ad);
    v := Step(b, 6, v, 0x923f82a4, 0x00000000, 0xe5030380, 0x9b27a401);
    v := Step(b, 7, v, 0xab1c5ed5, 0x00000000, 0x85a07b5f, 0x0c657a79);
  }

  lemma Rounds8(b: seq<byte>)
    requires |b| == BLOCK && Row0(b) && Keys0() && Rounds(Load(H0), b, 8) == State8()
    ensures Rounds(Load(H0), b, 16) == State16()
  {
    hide W, Rounds, K, Load;
    var v := State8();
    v := Step(b, 8, v, 0xd807aa98, 0x00000000, 0x8e04ecb9, 0x32ca2d8c);
    v := Step(b, 9, v, 0x12835b01, 0x00000000, 0x8c87346b, 0x1cc92596);
    v := Step(b, 10, v, 0x243185be, 0x00000000, 0x4798a3f4, 0x436b23e8);
    v := Step(b, 11, v, 0x550c7dc3, 0x00000000, 0xf71fc5a9, 0x816fd6e9);
    v := Step(b, 12, v, 0x72be5d74, 0x00000000, 0x87912990, 0x1e578218);
    v := Step(b, 13, v, 0x80deb1fe, 0x00000000, 0xd932eb16, 0x745a48de);
    v := Step(b, 14, v, 0x9bdc06a7, 0x00000000, 0xc0645fde, 0x0b92f20c);
    v := Step(b, 15, v, 0xc19bf174, 0x00000018, 0xb0fa238e, 0x07590dcd);
  }

  lemma Rounds16(b: seq<byte>)
    requires |b| == BLOCK && Row1(b) && Keys1() && Rounds(Load(H0), b, 16) == State16()
    ensures Rounds(Load(H0), b, 24) == State24()
  {
    hide W, Rounds, K, Load;
    var v := State16();
    v := Step(b, 16, v, 0xe49b69c1, 0x61626380, 0x21da9a9b, 0x8034229c);
    v := Step(b, 17, v, 0xefbe4786, 0x000f0000, 0xc2fbd9d1, 0x846ee454);
    v := Step(b, 18, v, 0x0fc19dc6, 0x7da86405, 0xfe777bbf, 0xcc899961);
    v := Step(b, 19, v, 0x240ca1cc, 0x600003c6, 0xe1f20c33, 0xb0638179);
    v := Step(b, 20, v, 0x2de92c6f, 0x3e9d7b78, 0x9dc68b63, 0x8ada8930);
    v := Step(b, 21, v, 0x4a7484aa, 0x0183fc00, 0xc2606d6d, 0xe1257970);
    v := Step(b, 22, v, 0x5cb0a9dc, 0x12dcbfdb, 0xa7a3623f, 0x49f5114a);
    v := Step(b, 23, v, 0x76f988da, 0xe2e2c38e, 0xc5d53d8d, 0xaa47c347);
  }

  lemma Rounds24(b: seq<byte>)
    requires |b| == BLOCK && Row1(b) && Keys1() && Rounds(Load(H0), b, 24) == State24()
    ensures Rounds(Load(H0), b, 32) == State32()
  {
    hide W, Rounds, K, Load;
    var v := State24();
    v := Step(b, 24, v, 0x983e5152, 0xc8215c1a, 0x1c2c2838, 0x2823ef91);
    v := Step(b, 25, v, 0xa831c66d, 0xb73679a2, 0xcde8037d, 0x14383d8e);
    v := Step(b, 26, v, 0xb00327c8, 0xe5bc3909, 0xb62ec4bc, 0xc74c6516);
    v := Step(b, 27, v, 0xbf597fc7, 0x32663c5b, 0x77d37528, 0xedffbff8);
    v := Step(b, 28, v, 0xc6e00bf3, 0x9d209d67, 0x363482c9, 0x6112a3b7);
    v := Step(b, 29, v, 0xd5a79147, 0xec8726cb, 0xa0060b30, 0xade79437);
    v := Step(b, 30, v, 0x06ca6351, 0x702138a4, 0xea992a22, 0x0109ab3a);
    v := Step(b, 31, v, 0x14292967, 0xd3b7973b, 0x73b33bf5, 0xba591112);
  }

  lemma Rounds32(b: seq<byte>)
    requires |b| == BLOCK && Row2(b) && Keys2() && Rounds(Load(H0), b, 32) == State32()
    ensures Rounds(Load(H0), b, 40) == State40()
  {
    hide W, Rounds, K, Load;
    var v := State32();
    v := Step(b, 32, v, 0x27b70a85, 0x93f5997f, 0x98e12507, 0x9cd9f5f6);
    v := Step(b, 33, v, 0x2e1b2138, 0x3b68ba73, 0xfe604df5, 0x59249dd3);
    v := Step(b, 34, v, 0x4d2c6dfc, 0xaff4ffc1, 0xa9a7738c, 0x085f3833);
    v := Step(b, 35, v, 0x53380d13, 0xf10a5c62, 0x65a0cfe4, 0xf4b002d6);
    v := Step(b, 36, v, 0x650a7354, 0x0a8b3996, 0x41a65cb1, 0x0772a26b);
    v := Step(b, 37, v, 0x766a0abb, 0x72af830a, 0x34df1604, 0xa507a53d);
    v := Step(b, 38, v, 0x81c2c92e, 0x9409e33e, 0x6dc57a8a, 0xf0781bc8);
    v := Step(b, 39, v, 0x92722c85, 0x24641522, 0x79ea687a, 0x1efbc0a0);
  }

  lemma Rounds40(b: seq<byte>)
    requires |b| == BLOCK && Row2(b) && Keys2() && Rounds(Load(H0), b, 40) == State40()
    ensures Rounds(Load(H0), b, 48) == State48()
  {
    hide W, Rounds, K, Load;
    var v := State40();
    v := Step(b, 40, v, 0xa2bfe8a1, 0x9f47bf94, 0xd6670766, 0x26352d63);
    v := Step(b, 41, v, 0xa81a664b, 0xf0a64f5a, 0xdf46652f, 0x838b2711);
    v := Step(b, 42, v, 0xc24b8b70, 0x3e246a79, 0x17aa0dfe, 0xdecd4715);
    v := Step(b, 43, v, 0xc76c51a3, 0x27333ba3, 0x9d4baf93, 0xfda24c2e);
    v := Step(b, 44, v, 0xd192e819, 0x0c4763f2, 0x26628815, 0xa80f11f0);
    v := Step(b, 45, v, 0xd6990624, 0x840abf27, 0x72ab4b91, 0xb7755da1);
    v := Step(b, 46, v, 0xf40e3585, 0x7a290d5d, 0xa14c14b0, 0xd57b94a9);
    v := Step(b, 47, v, 0x106aa070, 0x065c43da, 0x4172328d, 0xfecf0bc6);
  }

  lemma Rounds48(b: seq<byte>)
    requires |b| == BLOCK && Row3(b) && Keys3() && Rounds(Load(H0), b, 48) == State48()
    ensures Rounds(Load(H0), b, 56) == State56()
  {
    hide W, Rounds, K, Load;
    var v := State48();
    v := Step(b, 48, v, 0x19a4c116, 0xfb3e89cb, 0x05757ceb, 0xbd714038);
    v := Step(b, 49, v, 0x1e376c08, 0xcc7617db, 0xf11bfaa8, 0x6e5c390c);
    v := Step(b, 50, v, 0x2748774c, 0xb9e66c34, 0x7a0508a1, 0x52f1ccf7);
    v := Step(b, 51, v, 0x34b0bcb5, 0xa9993667, 0x886e7a22, 0x49231c1e);
    v := Step(b, 52, v, 0x391c0cb3, 0x84badedd, 0x101fd28f, 0x529e7d00);
    v := Step(b, 53, v, 0x4ed8aa4a, 0xc21462bc, 0xf5702fdb, 0x9f4787c3);
    v := Step(b, 54, v, 0x5b9cca4f, 0x1487472c, 0x3ec45cdb, 0xe50e1b4f);
    v := Step(b, 55, v, 0x682e6ff3, 0xb20f7a99, 0x38cc9913, 0x54cb266b);
  }

  lemma Rounds56(b: seq<byte>)
    requires |b| == BLOCK && Row3(b) && Keys3() && Rounds(Load(H0), b, 56) == State56()
    ensures Rounds(Load(H0), b, 64) == State64()
  {
    hide W, Rounds, K, Load;
    var v := State56();
    v := Step(b, 56, v, 0x748f82ee, 0xef57b9cd, 0xfcd1887b, 0x9b5e906c);
    v := Step(b, 57, v, 0x78a5636f, 0xebe6b238, 0xc062d46f, 0x7e44008e);
    v := Step(b, 58, v, 0x84c87814, 0x9fe3095e, 0xffb70472, 0x6d83bfc6);
    v := Step(b, 59, v, 0x8cc70208, 0x78bc8d4b, 0xb6ae8fff, 0xb21bad3d);
    v := Step(b, 60, v, 0x90befffa, 0xa43fcf15, 0xb85e2ce9, 0x961f4894);
    v := Step(b, 61, v, 0xa4506ceb, 0x668b2ff8, 0x04d24d6c, 0x948d25b6);
    v := Step(b, 62, v, 0xbef9a3f7, 0xeeaba2cc, 0xd39a2165, 0xfb121210);
    v := Step(b, 63, v, 0xc67178f2, 0x12b1edeb, 0x506e3058, 0x5ef50f24);
  }

  lemma Start(b: seq<byte>)
    requires |b| == BLOCK
    ensures Rounds(Load(H0), b, 0) == State0()
  {
  }

  // ----- The digest -----

  function Sum(): (s: seq<word>)
    ensures |s| == 8
  {
    [0xba7816bf, 0x8f01cfea, 0x414140de, 0x5dae2223,
     0xb00361a3, 0x96177a9c, 0xb410ff61, 0xf20015ad]
  }

  lemma SumIs()
    ensures AddVars(H0, State64()) == Sum()
  {
  }

  lemma {:induction false} DigestPrefix(s: seq<word>, k: nat)
    requires k < |s|
    ensures Digest(s[..k + 1]) == Digest(s[..k]) + WordBytes(s[k])
  {
    assert s[..k + 1][..k] == s[..k];
  }

  lemma BytesOfSum()
    ensures var s := Sum();
      ABC_DIGEST == WordBytes(s[0]) + WordBytes(s[1]) + WordBytes(s[2]) + WordBytes(s[3])
                    + WordBytes(s[4]) + WordBytes(s[5]) + WordBytes(s[6]) + WordBytes(s[7])
  {
  }

  lemma DigestOfSum()
    ensures Digest(Sum()) == ABC_DIGEST
  {
    hide Digest, WordBytes, Sum;
    var s := Sum();
    NoDigest();
    assert s[..0] == [] && s[..8] == s;
    DigestPrefix(s, 0);
    DigestPrefix(s, 1);
    DigestPrefix(s, 2);
    DigestPrefix(s, 3);
    DigestPrefix(s, 4);
    DigestPrefix(s, 5);
    DigestPrefix(s, 6);
    DigestPrefix(s, 7);
    assert [] + WordBytes(s[0]) == WordBytes(s[0]);
    BytesOfSum();
  }

  lemma NoDigest()
    ensures Digest([]) == []
  {
  }

  /** SHA-256("abc"). */
  lemma HashOfAbc()
    ensures Hash(ABC) == ABC_DIGEST
  {
    hide Rounds, K, AddVars, Digest, Pad, Block, W, Sum;
    var b := Block();
    Padded();
    FirstRow();
    Words1(b);
    Words2(b);
    Words3(b);
    Keys0Are();
    Keys1Are();
    Keys2Are();
    Keys3Are();
    Rounds0(b);
    Rounds8(b);
    Rounds16(b);
    Rounds24(b);
    Rounds32(b);
    Rounds40(b);
    Rounds48(b);
    Rounds56(b);
    SumIs();
    DigestOfSum();
    assert b[..0] == [] && b[0..] == b;
  }
}
