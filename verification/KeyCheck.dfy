/** The checks imported key material must pass (`hks_check_paramset.c`). */
module KeyCheck {
  import opened CTypes
  import opened KeyMaterial

  const HKS_ALG_RSA := 1
  const HKS_ALG_ECC := 2
  const HKS_ALG_DSA := 3
  const HKS_ALG_X25519 := 101
  const HKS_ALG_ED25519 := 102
  const HKS_ALG_DH := 103
  const HKS_ALG_SM2 := 150

  const HKS_KEY_TYPE_KEY_PAIR := 2

  const HKS_RSA_KEY_SIZE_4096 := 4096
  const HKS_ECC_KEY_SIZE_521 := 521
  const MAX_KEY_SIZE := 2048
  const HKS_CURVE25519_KEY_SIZE_256 := 256
  const HKS_DH_KEY_SIZE_4096 := 4096

  /** No component may have more bytes than this (the numbers are key sizes in bits). */
  function Limit(f: Family): nat {
    match f
    case Rsa => HKS_RSA_KEY_SIZE_4096
    case Ecc => HKS_ECC_KEY_SIZE_521
    case Dsa => MAX_KEY_SIZE
    case Curve => HKS_CURVE25519_KEY_SIZE_256
    case Dh => HKS_DH_KEY_SIZE_4096
  }

  /** Component `i` may not be empty.  A private-key import may leave the public key out, but
      not the DSA domain parameters, and RSA needs all components. */
  predicate Needed(f: Family, keyType: u32, i: nat) {
    f.Rsa? || i == Private(f) || (f.Dsa? && i >= 2) || keyType == HKS_KEY_TYPE_KEY_PAIR
  }

  predicate SizeOk(f: Family, keyType: u32, i: nat, n: nat) {
    n <= Limit(f) && (Needed(f, keyType, i) ==> n > 0)
  }

  predicate SizesOk(f: Family, keyType: u32, ns: seq<nat>) {
    forall i :: 0 <= i < |ns| ==> SizeOk(f, keyType, i, ns[i])
  }

  /** The blob is an encoding of complete key material for the algorithm and key size. */
  ghost predicate IsMaterial(f: Family, alg: u32, keyType: u32, keyLen: u32, b: seq<byte>) {
    exists k, tail: seq<byte> {:trigger Encode(f, k) + tail} ::
      && Fits(f, k) && b == Encode(f, k) + tail
      && k.alg == alg && k.keySize == keyLen && SizesOk(f, keyType, Sizes(k.parts))
  }

  /** The same, read off the header. */
  predicate HeaderOk(f: Family, alg: u32, keyType: u32, keyLen: u32, b: seq<byte>) {
    && HeaderBytes(f) <= |b|
    && Word(b, 0) == alg && Word(b, 1) == keyLen
    && SizesOk(f, keyType, PartSizes(f, b))
    && HeaderBytes(f) + Sum(PartSizes(f, b)) <= |b|
  }

  lemma IsMaterialIff(f: Family, alg: u32, keyType: u32, keyLen: u32, b: seq<byte>)
    ensures IsMaterial(f, alg, keyType, keyLen, b) <==> HeaderOk(f, alg, keyType, keyLen, b)
  {
    if IsMaterial(f, alg, keyType, keyLen, b) {
      var k, tail: seq<byte> :| Fits(f, k) && b == Encode(f, k) + tail
                                && k.alg == alg && k.keySize == keyLen && SizesOk(f, keyType, Sizes(k.parts));
      EncodedHeader(f, k, tail);
      DecodeOfEncode(f, k, tail);
    }
    if HeaderOk(f, alg, keyType, keyLen, b) {
      EncodeOfDecode(f, b);
      assert SizesOk(f, keyType, Sizes(Decode(f, b).parts));
    }
  }

  lemma {:induction false} SumBelow(ns: seq<nat>, limit: nat)
    requires forall i :: 0 <= i < |ns| ==> ns[i] <= limit
    ensures Sum(ns) <= |ns| * limit
  {
    if ns != [] {
      SumBelow(ns[1..], limit);
      assert |ns| * limit == limit + |ns[1..]| * limit;
    }
  }

  /** Accepted sizes are so small that no 32-bit sum of them wraps. */
  lemma AcceptedSumFits(f: Family, keyType: u32, ns: seq<nat>)
    requires SizesOk(f, keyType, ns) && |ns| == PartCount(f)
    ensures HeaderBytes(f) + Sum(ns) < 0x4000
  {
    assert forall i :: 0 <= i < |ns| ==> SizeOk(f, keyType, i, ns[i]);
    SumBelow(ns, Limit(f));
  }

  lemma TwoSizes(f: Family, keyType: u32, ns: seq<nat>)
    requires |ns| == 2
    ensures Sum(ns) == ns[0] + ns[1]
    ensures SizesOk(f, keyType, ns) <==> SizeOk(f, keyType, 0, ns[0]) && SizeOk(f, keyType, 1, ns[1])
  {
    SumOfTwo(ns);
  }

  lemma ThreeSizes(f: Family, keyType: u32, ns: seq<nat>)
    requires |ns| == 3
    ensures Sum(ns) == ns[0] + ns[1] + ns[2]
    ensures SizesOk(f, keyType, ns) <==>
            SizeOk(f, keyType, 0, ns[0]) && SizeOk(f, keyType, 1, ns[1]) && SizeOk(f, keyType, 2, ns[2])
  {
    SumOfThree(ns);
  }

  lemma FiveSizes(f: Family, keyType: u32, ns: seq<nat>)
    requires |ns| == 5
    ensures Sum(ns) == ns[0] + ns[1] + ns[2] + ns[3] + ns[4]
    ensures SizesOk(f, keyType, ns) <==>
            SizeOk(f, keyType, 0, ns[0]) && SizeOk(f, keyType, 1, ns[1]) && SizeOk(f, keyType, 2, ns[2])
            && SizeOk(f, keyType, 3, ns[3]) && SizeOk(f, keyType, 4, ns[4])
  {
    SumOfFive(ns);
  }

  /** The tail of every check, after the sizes: the header and the components fit the blob. */
  lemma Decided(f: Family, alg: u32, keyType: u32, keyLen: u32, key: seq<byte>, keySize: u32)
    requires HeaderBytes(f) <= |key| && Word(key, 0) == alg && Word(key, 1) == keyLen
    requires SizesOk(f, keyType, PartSizes(f, key)) ==> keySize == Wrap32(HeaderBytes(f) + Sum(PartSizes(f, key)))
    ensures HeaderOk(f, alg, keyType, keyLen, key) <==> SizesOk(f, keyType, PartSizes(f, key)) && |key| >= keySize
  {
    if SizesOk(f, keyType, PartSizes(f, key)) {
      AcceptedSumFits(f, keyType, PartSizes(f, key));
    }
  }

  method CheckRsaKeyLen(alg: u32, keyType: u32, keyLen: u32, key: seq<byte>) returns (ret: Status)
    ensures ret == if HeaderOk(Rsa, alg, keyType, keyLen, key) then Success else InvalidKeyInfo
  {
    if |key| < HeaderBytes(Rsa) {
      return InvalidKeyInfo;
    }
    if Word(key, 0) != alg || Word(key, 1) != keyLen {
      return InvalidKeyInfo;
    }
    var nSize, eSize, dSize := Word(key, 2), Word(key, 3), Word(key, 4);
    ThreeSizes(Rsa, keyType, PartSizes(Rsa, key));
    if nSize > HKS_RSA_KEY_SIZE_4096 || nSize == 0 || dSize > HKS_RSA_KEY_SIZE_4096 || dSize == 0 ||
       eSize > HKS_RSA_KEY_SIZE_4096 || eSize == 0 {
      return InvalidKeyInfo;
    }
    var keySize := Wrap32(HeaderBytes(Rsa) + nSize + dSize + eSize);
    Decided(Rsa, alg, keyType, keyLen, key, keySize);
    ret := if |key| < keySize then InvalidKeyInfo else Success;
  }

  method CheckEccKeyLen(alg: u32, keyType: u32, keyLen: u32, key: seq<byte>) returns (ret: Status)
    ensures ret == if HeaderOk(Ecc, alg, keyType, keyLen, key) then Success else InvalidKeyInfo
  {
    if |key| < HeaderBytes(Ecc) {
      return InvalidKeyInfo;
    }
    if Word(key, 0) != alg || Word(key, 1) != keyLen {
      return InvalidKeyInfo;
    }
    var xSize, ySize, zSize := Word(key, 2), Word(key, 3), Word(key, 4);
    ThreeSizes(Ecc, keyType, PartSizes(Ecc, key));
    if xSize > HKS_ECC_KEY_SIZE_521 || ySize > HKS_ECC_KEY_SIZE_521 || zSize > HKS_ECC_KEY_SIZE_521 {
      return InvalidKeyInfo;
    }
    if zSize == 0 {
      return InvalidKeyInfo;
    }
    if keyType == HKS_KEY_TYPE_KEY_PAIR && (xSize == 0 || ySize == 0) {
      return InvalidKeyInfo;
    }
    var keySize := Wrap32(HeaderBytes(Ecc) + xSize + ySize + zSize);
    Decided(Ecc, alg, keyType, keyLen, key, keySize);
    ret := if |key| < keySize then InvalidKeyInfo else Success;
  }

  method CheckDsaKeyLen(alg: u32, keyType: u32, keyLen: u32, key: seq<byte>) returns (ret: Status)
    ensures ret == if HeaderOk(Dsa, alg, keyType, keyLen, key) then Success else InvalidKeyInfo
  {
    if |key| < HeaderBytes(Dsa) {
      return InvalidKeyInfo;
    }
    if Word(key, 0) != alg || Word(key, 1) != keyLen {
      return InvalidKeyInfo;
    }
    var xSize, ySize := Word(key, 2), Word(key, 3);
    var pSize, qSize, gSize := Word(key, 4), Word(key, 5), Word(key, 6);
    FiveSizes(Dsa, keyType, PartSizes(Dsa, key));
    if xSize > MAX_KEY_SIZE || ySize > MAX_KEY_SIZE || pSize > MAX_KEY_SIZE || qSize > MAX_KEY_SIZE ||
       gSize > MAX_KEY_SIZE {
      return InvalidKeyInfo;
    }
    if xSize == 0 || pSize == 0 || qSize == 0 || gSize == 0 {
      return InvalidKeyInfo;
    }
    if keyType == HKS_KEY_TYPE_KEY_PAIR && ySize == 0 {
      return InvalidKeyInfo;
    }
    var keySize := Wrap32(HeaderBytes(Dsa) + xSize + ySize + pSize + qSize + gSize);
    Decided(Dsa, alg, keyType, keyLen, key, keySize);
    ret := if |key| < keySize then InvalidKeyInfo else Success;
  }

  /** CheckCurve25519KeyLen and CheckDHKeyLen, which differ in the limit only. */
  method CheckKeyPairLen(f: Family, alg: u32, keyType: u32, keyLen: u32, key: seq<byte>) returns (ret: Status)
    requires f.Curve? || f.Dh?
    ensures ret == if HeaderOk(f, alg, keyType, keyLen, key) then Success else InvalidKeyInfo
  {
    if |key| < HeaderBytes(f) {
      return InvalidKeyInfo;
    }
    if Word(key, 0) != alg || Word(key, 1) != keyLen {
      return InvalidKeyInfo;
    }
    var pubKeySize, priKeySize := Word(key, 2), Word(key, 3);
    TwoSizes(f, keyType, PartSizes(f, key));
    if pubKeySize > Limit(f) || priKeySize > Limit(f) {
      return InvalidKeyInfo;
    }
    if priKeySize == 0 {
      return InvalidKeyInfo;
    }
    if keyType == HKS_KEY_TYPE_KEY_PAIR && pubKeySize == 0 {
      return InvalidKeyInfo;
    }
    var keySize := Wrap32(HeaderBytes(f) + pubKeySize + priKeySize);
    Decided(f, alg, keyType, keyLen, key, keySize);
    ret := if |key| < keySize then InvalidKeyInfo else Success;
  }

  function FamilyOf(alg: u32): Option<Family> {
    if alg == HKS_ALG_RSA then Some(Rsa)
    else if alg == HKS_ALG_ECC || alg == HKS_ALG_SM2 then Some(Ecc)
    else if alg == HKS_ALG_DSA then Some(Dsa)
    else if alg == HKS_ALG_X25519 || alg == HKS_ALG_ED25519 then Some(Curve)
    else if alg == HKS_ALG_DH then Some(Dh)
    else None
  }

  /** CheckKeyLen accepts exactly the encodings of complete material of the asked algorithm and
      size, with anything behind them. */
  method CheckKeyLen(alg: u32, keyType: u32, keyLen: u32, key: seq<byte>) returns (ret: Status)
    ensures ret == match FamilyOf(alg)
                   case None => InvalidAlgorithm
                   case Some(f) => if IsMaterial(f, alg, keyType, keyLen, key) then Success else InvalidKeyInfo
  {
    if FamilyOf(alg).Some? {
      IsMaterialIff(FamilyOf(alg).value, alg, keyType, keyLen, key);
    }
    if alg == HKS_ALG_RSA {
      ret := CheckRsaKeyLen(alg, keyType, keyLen, key);
    } else if alg == HKS_ALG_ECC || alg == HKS_ALG_SM2 {
      ret := CheckEccKeyLen(alg, keyType, keyLen, key);
    } else if alg == HKS_ALG_DSA {
      ret := CheckDsaKeyLen(alg, keyType, keyLen, key);
    } else if alg == HKS_ALG_X25519 || alg == HKS_ALG_ED25519 {
      ret := CheckKeyPairLen(Curve, alg, keyType, keyLen, key);
    } else if alg == HKS_ALG_DH {
      ret := CheckKeyPairLen(Dh, alg, keyType, keyLen, key);
    } else {
      ret := InvalidAlgorithm;
    }
  }
}
