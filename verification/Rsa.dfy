/** The boot loader's RSA-2048 signature check and the standard it implements:
    RSASSA-PKCS1-v1_5 verification, sections 8.2.2 and 9.2 of RFC 8017. */
module Rsa {
  import opened Arith
  import opened Limbs
  import opened Octets
  import BigNum

  const KEY_SIZE: nat := 256
  const DIGEST_SIZE: nat := 32
  const F4: u32 := 0x10001

  // DER prefix of a SHA-256 DigestInfo.
  const DIGEST_INFO: seq<u8> :=
    [0x30, 0x31, 0x30, 0x0d, 0x06, 0x09, 0x60, 0x86, 0x48, 0x01, 0x65, 0x03, 0x04, 0x02, 0x01, 0x05, 0x00, 0x04, 0x20]

  /** The key structure: a fixed 256-octet modulus field beside a size field. */
  datatype PublicKey = PublicKey(modulus: seq<u8>, exponent: u32, modulusSize: nat) {
    predicate WellFormed() {
      |modulus| == KEY_SIZE
    }
  }

  datatype Encoding = TooShort | Encoded(em: seq<u8>)

  function Padding(n: nat): (ps: seq<u8>)
    ensures |ps| == n
  {
    seq(n, _ => 0xff)
  }

  /** A DER element of less than 128 content octets: tag, length, content. */
  function Tlv(tag: u8, content: seq<u8>): seq<u8>
    requires |content| < 128
  {
    [tag, |content| as u8] + content
  }

  /** Base-128 digits, most significant first; all but the last carry the top bit. */
  function Base128(x: nat, last: bool): seq<u8> {
    var digit := (x % 128 + if last then 0 else 128) as u8;
    (if x < 128 then [] else Base128(x / 128, false)) + [digit]
  }

  function Arcs(arcs: seq<nat>): seq<u8> {
    if |arcs| == 0 then [] else Arcs(arcs[..|arcs| - 1]) + Base128(arcs[|arcs| - 1], true)
  }

  /** An object identifier's content octets: its first two arcs share one number. */
  function Oid(first: nat, second: nat, arcs: seq<nat>): seq<u8> {
    Base128(40 * first + second, true) + Arcs(arcs)
  }

  // id-sha256
  function Sha256Oid(): seq<u8> {
    Oid(2, 16, [840, 1, 101, 3, 4, 2, 1])
  }

  lemma {:induction false} ArcsSnoc(arcs: seq<nat>, k: nat)
    requires k < |arcs|
    ensures Arcs(arcs[..k + 1]) == Arcs(arcs[..k]) + Base128(arcs[k], true)
  {
    assert arcs[..k + 1][..k] == arcs[..k];
  }

  lemma OneDigit(x: nat)
    requires x < 128
    ensures Base128(x, true) == [x as u8]
  {
  }

  lemma TwoDigits()
    ensures Base128(840, true) == [0x86, 0x48]
  {
    assert Base128(6, false) == [0x86];
  }

  lemma NoArcs()
    ensures Arcs([]) == []
  {
  }

  lemma Sha256OidIs()
    ensures Sha256Oid() == [0x60, 0x86, 0x48, 0x01, 0x65, 0x03, 0x04, 0x02, 0x01]
  {
    hide Base128, Arcs;
    var arcs: seq<nat> := [840, 1, 101, 3, 4, 2, 1];
    NoArcs();
    TwoDigits();
    forall x: nat | x < 128
      ensures Base128(x, true) == [x as u8]
    {
      OneDigit(x);
    }
    assert arcs[..0] == [] && arcs[..7] == arcs;
    ArcsSnoc(arcs, 0);
    ArcsSnoc(arcs, 1);
    ArcsSnoc(arcs, 2);
    ArcsSnoc(arcs, 3);
    ArcsSnoc(arcs, 4);
    ArcsSnoc(arcs, 5);
    ArcsSnoc(arcs, 6);
  }

  lemma AlgorithmIs()
    ensures |Sha256Oid()| == 9
    ensures Tlv(0x30, Tlv(0x06, Sha256Oid()) + Tlv(0x05, [])) ==
            [0x30, 0x0d, 0x06, 0x09, 0x60, 0x86, 0x48, 0x01, 0x65, 0x03, 0x04, 0x02, 0x01, 0x05, 0x00]
  {
    Sha256OidIs();
  }

  /** The prefix and a digest are the DER encoding of the DigestInfo that names
      SHA-256, 2.16.840.1.101.3.4.2.1, with a NULL parameter: a sequence of the
      algorithm identifier and the digest as an octet string. */
  lemma DigestInfoIsDer(hash: seq<u8>)
    requires |hash| == 32
    ensures |Sha256Oid()| == 9
    ensures DIGEST_INFO + hash ==
            Tlv(0x30, Tlv(0x30, Tlv(0x06, Sha256Oid()) + Tlv(0x05, [])) + Tlv(0x04, hash))
  {
    hide Sha256Oid;
    AlgorithmIs();
    assert Tlv(0x04, hash) == [0x04, 0x20] + hash;
  }

  /** EMSA-PKCS1-v1_5, section 9.2 of RFC 8017, for an already computed hash. */
  function Encode(hash: seq<u8>, emLen: nat): Encoding {
    var t := DIGEST_INFO + hash;
    if emLen < |t| + 11 then TooShort
    else Encoded([0x00, 0x01] + Padding(emLen - |t| - 3) + [0x00] + t)
  }

  /** The verification equation in k octets: signature^e mod n is the encoded hash. */
  predicate Satisfies(n: nat, e: nat, k: nat, hash: seq<u8>, signature: seq<u8>)
    requires n > 0
  {
    Encode(hash, k) == Encoded(I2OSP(Pow(OS2IP(signature), e) % n, k))
  }

  /** RSASSA-PKCS1-v1_5 verification, section 8.2.2 of RFC 8017: the equation, for
      a signature representative in range. */
  predicate Rfc8017Verify(n: nat, e: nat, k: nat, hash: seq<u8>, signature: seq<u8>)
    requires n > 0
  {
    |signature| == k && OS2IP(signature) < n && Satisfies(n, e, k, hash, signature)
  }

  /** The number the code divides by: a zero modulus only truncates to 2048 bits. */
  function ModulusOf(key: PublicKey): (m: nat)
    requires key.WellFormed()
    ensures m > 0
  {
    if OS2IP(key.modulus) == 0 then Pow(BASE, LIMBS) else OS2IP(key.modulus)
  }

  lemma EncodeShape(hash: seq<u8>, em: seq<u8>)
    requires |hash| == DIGEST_SIZE && |em| == KEY_SIZE
    ensures Encode(hash, KEY_SIZE) == Encoded(em) <==>
            && em[0] == 0x00 && em[1] == 0x01
            && (forall i :: 2 <= i < 204 ==> em[i] == 0xff)
            && em[204] == 0x00
            && em[205..224] == DIGEST_INFO
            && em[224..] == hash
  {
  }

  /** Whether t stands in em at position `at`. */
  method EqualAt(em: seq<u8>, at: nat, t: seq<u8>) returns (ok: bool)
    requires at + |t| <= |em|
    ensures ok <==> em[at..at + |t|] == t
  {
    for k := 0 to |t|
      invariant forall l :: 0 <= l < k ==> em[at + l] == t[l]
    {
      if em[at + k] != t[k] {
        assert em[at..at + |t|][k] != t[k];
        return false;
      }
    }
    return true;
  }

  /** The left-to-right scan of a recovered message: the count of FF octets, the
      separator, then the remaining length, the DigestInfo and the digest. It
      accepts exactly the one encoding of the digest. */
  method MatchesEncoding(em: seq<u8>, digest: seq<u8>) returns (ok: bool)
    requires |em| == KEY_SIZE && |digest| == DIGEST_SIZE
    ensures ok <==> Encode(digest, KEY_SIZE) == Encoded(em)
  {
    EncodeShape(digest, em);
    if em[0] != 0x00 || em[1] != 0x01 {
      return false;
    }
    var i, psLen := 2, 0;
    while i < KEY_SIZE && em[i] == 0xff
      invariant 2 <= i <= KEY_SIZE && psLen == i - 2
      invariant forall k :: 2 <= k < i ==> em[k] == 0xff
    {
      psLen := psLen + 1;
      i := i + 1;
    }
    if psLen < 8 {
      assert em[i] != 0xff;
      return false;
    }
    if i >= KEY_SIZE || em[i] != 0x00 {
      return false;
    }
    i := i + 1;
    if KEY_SIZE - i != |DIGEST_INFO| + DIGEST_SIZE {
      return false;
    }
    var prefixOk := EqualAt(em, i, DIGEST_INFO);
    if !prefixOk {
      return false;
    }
    ok := EqualAt(em, i + |DIGEST_INFO|, digest);
    assert em[224..256] == em[224..];
  }

  /** End to end: the accept bit is the standard's equation, for every key, digest
      and 256-octet signature, whether or not the signature is below the modulus.
      Below it the code decides as the standard does; from there on, every signature
      it accepts is one that the standard rejects. */
  method Verify(key: PublicKey, digest: seq<u8>, signature: seq<u8>) returns (ok: bool)
    requires key.WellFormed() && |signature| == KEY_SIZE
    ensures ok <==>
            && |digest| == 32
            && key.modulusSize == 256
            && key.exponent == 65537
            && Satisfies(ModulusOf(key), key.exponent as int, KEY_SIZE, digest, signature)
    ensures OS2IP(signature) < ModulusOf(key) ==>
              (ok <==>
               && |digest| == 32
               && key.modulusSize == 256
               && key.exponent == 65537
               && Rfc8017Verify(ModulusOf(key), key.exponent as int, KEY_SIZE, digest, signature))
    ensures OS2IP(signature) >= ModulusOf(key) && ok ==>
              !Rfc8017Verify(ModulusOf(key), key.exponent as int, KEY_SIZE, digest, signature)
  {
    if |digest| != DIGEST_SIZE {
      return false;
    }
    if key.modulusSize != KEY_SIZE || key.exponent != F4 {
      return false;
    }
    var em := Recover(key, signature);
    ok := MatchesEncoding(em, digest);
  }

  /** signature^exponent mod modulus, as 256 big-endian octets. */
  method Recover(key: PublicKey, signature: seq<u8>) returns (em: seq<u8>)
    requires key.WellFormed() && |signature| == KEY_SIZE && key.exponent > 0
    ensures em == I2OSP(Pow(OS2IP(signature), key.exponent as int) % ModulusOf(key), KEY_SIZE)
  {
    var n, s, m := new u32[LIMBS], new u32[LIMBS], new u32[LIMBS];
    var out := new u8[KEY_SIZE];
    FromBytes(n, key.modulus);
    FromBytes(s, signature);
    BigNum.ModExp(m, s, key.exponent, n);
    ToBytes(m, out);
    UnpackIsI2OSP(m[..]);
    em := out[..];
  }

  /** The equation only sees the signature modulo n. */
  lemma SatisfiesModN(n: nat, e: nat, k: nat, hash: seq<u8>, s: seq<u8>, s': seq<u8>)
    requires n > 0 && OS2IP(s) % n == OS2IP(s') % n
    ensures Satisfies(n, e, k, hash, s) == Satisfies(n, e, k, hash, s')
  {
    PowCongruent(OS2IP(s), OS2IP(s'), e, n);
  }

  /** The code leaves out the standard's range check. It accepts exactly the
      octet strings whose reduction modulo n the standard accepts. */
  lemma AcceptedIffReducedValid(n: nat, e: nat, k: nat, hash: seq<u8>, s: seq<u8>)
    requires 0 < n <= Pow(256, k)
    ensures Satisfies(n, e, k, hash, s) <==> Rfc8017Verify(n, e, k, hash, I2OSP(OS2IP(s) % n, k))
  {
    var r := OS2IP(s) % n;
    OS2IPInverse(r, k);
    ModUnique(r, 0, r, n);
    SatisfiesModN(n, e, k, hash, s, I2OSP(r, k));
  }

  ghost predicate AgreesWithStandard(n: nat, e: nat, k: nat, hash: seq<u8>)
    requires n > 0
  {
    forall s: seq<u8> :: |s| == k ==> (Satisfies(n, e, k, hash, s) <==> Rfc8017Verify(n, e, k, hash, s))
  }

  ghost predicate RoomAbove(n: nat, e: nat, k: nat, hash: seq<u8>, s: seq<u8>)
    requires n > 0
  {
    Rfc8017Verify(n, e, k, hash, s) && OS2IP(s) + n < Pow(256, k)
  }

  lemma ReducedHasRoom(n: nat, e: nat, k: nat, hash: seq<u8>, s: seq<u8>)
    requires 0 < n <= Pow(256, k) && |s| == k
    requires Satisfies(n, e, k, hash, s) && !Rfc8017Verify(n, e, k, hash, s)
    ensures RoomAbove(n, e, k, hash, I2OSP(OS2IP(s) % n, k))
  {
    AcceptedIffReducedValid(n, e, k, hash, s);
    OS2IPBound(s);
    OS2IPInverse(OS2IP(s) % n, k);
    ReductionLeavesRoom(OS2IP(s), n);
  }

  lemma RoomMeansDisagreement(n: nat, e: nat, k: nat, hash: seq<u8>, s: seq<u8>)
    requires n > 0 && RoomAbove(n, e, k, hash, s)
    ensures !AgreesWithStandard(n, e, k, hash)
  {
    hide Satisfies;
    TwinAccepted(n, e, k, hash, s);
    var twin := I2OSP(OS2IP(s) + n, k);
    assert |twin| == k;
  }

  /** When code and standard agree on every signature: exactly when no valid
      signature leaves room for adding n within k octets. */
  lemma AgreesIffNoRoomAbove(n: nat, e: nat, k: nat, hash: seq<u8>)
    requires 0 < n <= Pow(256, k)
    ensures AgreesWithStandard(n, e, k, hash) <==> forall s: seq<u8> :: !RoomAbove(n, e, k, hash, s)
  {
    if !AgreesWithStandard(n, e, k, hash) {
      var s: seq<u8> :| |s| == k && !(Satisfies(n, e, k, hash, s) <==> Rfc8017Verify(n, e, k, hash, s));
      ReducedHasRoom(n, e, k, hash, s);
    }
    if s: seq<u8> :| RoomAbove(n, e, k, hash, s) {
      RoomMeansDisagreement(n, e, k, hash, s);
    }
  }

  /** A valid signature plus the modulus still satisfies the equation. */
  lemma TwinAccepted(n: nat, e: nat, k: nat, hash: seq<u8>, s: seq<u8>)
    requires n > 0 && OS2IP(s) + n < Pow(256, k) && Satisfies(n, e, k, hash, s)
    ensures var twin := I2OSP(OS2IP(s) + n, k);
      Satisfies(n, e, k, hash, twin) && !Rfc8017Verify(n, e, k, hash, twin)
  {
    var x := OS2IP(s);
    OS2IPInverse(x + n, k);
    ModShift(x, 1, n);
    SatisfiesModN(n, e, k, hash, s, I2OSP(x + n, k));
  }

  lemma ReductionLeavesRoom(x: nat, n: nat)
    requires 0 < n <= x
    ensures x % n + n <= x
  {
  }

  // ----- A key on which the range check matters -----

  /** n - 1 is -1 modulo n: its odd powers are itself. */
  lemma {:induction false} PowMinusOne(n: nat, e: nat)
    requires n > 1
    ensures Pow(n - 1, e) % n == if e % 2 == 1 then n - 1 else 1
  {
    if e == 0 {
      ModUnique(1, 0, 1, n);
    } else {
      PowMinusOne(n, e - 1);
      var p := Pow(n - 1, e - 1);
      ModUnique(n - 1, 0, n - 1, n);
      if e % 2 == 1 {
        ModUnique(1, 0, 1, n);
        ModMulCongruent(n - 1, n - 1, p, 1, n);
      } else {
        ModMulCongruent(n - 1, n - 1, p, n - 1, n);
        assert (n - 1) * (n - 1) == (n - 2) * n + 1;
        ModUnique((n - 1) * (n - 1), n - 2, 1, n);
      }
    }
  }

  /** An encoding starts with 00 01, so it is positive and at most half the range. */
  lemma EncodingIsSmall(hash: seq<u8>, k: nat)
    requires Encode(hash, k).Encoded?
    ensures var x := OS2IP(Encode(hash, k).em);
      |Encode(hash, k).em| == k && 0 < x && 2 * x + 1 < Pow(256, k)
  {
    hide Pow;
    var em := Encode(hash, k).em;
    var low := em[2..];
    assert em == [0x00, 0x01] + low;
    OS2IPConcat([0x00, 0x01], low);
    OS2IPBound(low);
    TwoOctets(0x00, 0x01);
    TopOctets(k);
  }

  lemma TwoOctets(x: u8, y: u8)
    ensures OS2IP([x, y]) == x as int * 256 + y as int
  {
    assert [x, y][..1] == [x] && [x][..0] == [];
    assert OS2IP([x]) == OS2IP([]) * 256 + x as int;
  }

  lemma TopOctets(k: nat)
    requires k >= 2
    ensures Pow(256, k) == 65536 * Pow(256, k - 2) && Pow(256, k - 2) > 0
  {
  }

  /** For every digest and every odd exponent there is a modulus on which code and
      standard differ: one more than the encoding, which is then its own signature. */
  lemma RangeCheckMatters(hash: seq<u8>, e: nat, k: nat)
    requires Encode(hash, k).Encoded? && e % 2 == 1
    ensures var em := Encode(hash, k).em;
      var n := OS2IP(em) + 1;
      && n < Pow(256, k)
      && RoomAbove(n, e, k, hash, em)
      && !AgreesWithStandard(n, e, k, hash)
  {
    hide Encode, Pow;
    EncodingIsSmall(hash, k);
    var em := Encode(hash, k).em;
    var n := OS2IP(em) + 1;
    PowMinusOne(n, e);
    I2OSPInverse(em);
    RoomMeansDisagreement(n, e, k, hash, em);
  }

  /** So does the code with a key that holds this modulus: it accepts a signature
      that the standard rejects as out of range. */
  lemma DeviatingKey(hash: seq<u8>, exponent: u32) returns (key: PublicKey, signature: seq<u8>)
    requires |hash| == DIGEST_SIZE && exponent == F4
    ensures key.WellFormed() && key.modulusSize == KEY_SIZE && key.exponent == exponent && |signature| == KEY_SIZE
    ensures Satisfies(ModulusOf(key), exponent as int, KEY_SIZE, hash, signature)
    ensures !Rfc8017Verify(ModulusOf(key), exponent as int, KEY_SIZE, hash, signature)
  {
    hide Encode, Pow, Satisfies, I2OSP, OS2IP;
    var em := EncodingFits(hash);
    var n := OS2IP(em) + 1;
    RangeCheckMatters(hash, exponent as int, KEY_SIZE);
    key := PublicKey(I2OSP(n, KEY_SIZE), exponent, KEY_SIZE);
    OS2IPInverse(n, KEY_SIZE);
    TwinAccepted(n, exponent as int, KEY_SIZE, hash, em);
    signature := I2OSP(OS2IP(em) + n, KEY_SIZE);
  }

  lemma EncodingFits(hash: seq<u8>) returns (em: seq<u8>)
    requires |hash| == DIGEST_SIZE
    ensures Encode(hash, KEY_SIZE) == Encoded(em)
  {
    em := Encode(hash, KEY_SIZE).em;
  }
}
