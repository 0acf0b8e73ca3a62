/** 25519 keys packed as key material and unpacked again (`hks_crypto_adapter.c`). */
module Curve25519 {
  import opened CTypes
  import opened KeyMaterial
  import KeyCheck

  lemma CutTwo(b: seq<byte>, ns: seq<nat>)
    requires |ns| == 2 && Sum(ns) <= |b| && ns[0] + ns[1] <= |b|
    ensures Cut(b, ns)[0] == b[..ns[0]] && Cut(b, ns)[1] == b[ns[0]..][..ns[1]]
  {
    assert Cut(b[ns[0]..], ns[1..])[0] == b[ns[0]..][..ns[1]];
  }

  /** SetCurve25519KeyMaterial: one key packed, the other left empty.  The size is a sum in 32 bits;
      with a block shorter than the header memcpy_s refuses the header and clears the block, and
      the key as well. */
  method SetCurve25519KeyMaterial(isPubKey: bool, keyIn: seq<byte>, mallocOk: bool)
    returns (ret: Status, keyOut: seq<byte>)
    requires |keyIn| < U32_LIMIT
    ensures 20 + |keyIn| < U32_LIMIT ==>
              ret == if 20 + |keyIn| <= MAX_MALLOC_SIZE && mallocOk then Success else MallocFail
    ensures ret == Success && 20 + |keyIn| < U32_LIMIT ==> keyOut == Encode(Curve, Packed(isPubKey, keyIn))
    ensures 20 + |keyIn| >= U32_LIMIT ==>
              && ret == (if 20 + |keyIn| > U32_LIMIT && mallocOk then Success else MallocFail)
              && (ret == Success ==> keyOut == Zeros(20 + |keyIn| - U32_LIMIT))
  {
    var pubKeySize, priKeySize: u32;
    if isPubKey {
      pubKeySize, priKeySize := |keyIn|, 0;
    } else {
      pubKeySize, priKeySize := 0, |keyIn|;
    }
    var size := Wrap32(HeaderBytes(Curve) + pubKeySize + priKeySize);
    if 20 + |keyIn| >= U32_LIMIT {
      WrapIs(20 + |keyIn|, 1, 20 + |keyIn| - U32_LIMIT);
    }
    if size == 0 || size > MAX_MALLOC_SIZE || !mallocOk {
      return MallocFail, [];
    }
    if size < HeaderBytes(Curve) {
      return Success, Zeros(size);
    }
    var header := [KeyCheck.HKS_ALG_ED25519, KeyCheck.HKS_CURVE25519_KEY_SIZE_256, pubKeySize, priKeySize, 0];
    assert header == HeaderWords(Packed(isPubKey, keyIn));
    PackedBody(isPubKey, keyIn);
    keyOut := EncodeWords(header) + keyIn;
    ret := Success;
  }

  function Packed(isPubKey: bool, key: seq<byte>): (k: Material)
    requires |key| < U32_LIMIT
    ensures Fits(Curve, k)
  {
    Material(KeyCheck.HKS_ALG_ED25519, KeyCheck.HKS_CURVE25519_KEY_SIZE_256, if isPubKey then [key, []] else [[], key], [0])
  }

  lemma PackedBody(isPubKey: bool, key: seq<byte>)
    requires |key| < U32_LIMIT
    ensures Flatten(Packed(isPubKey, key).parts) == key
  {
    var parts := Packed(isPubKey, key).parts;
    assert Flatten(parts[1..]) == parts[1] + Flatten(parts[1..][1..]);
  }

  /** GetCurve25519FromKeyMaterial. */
  method GetCurve25519FromKeyMaterial(isPubKey: bool, keyMaterial: seq<byte>, mallocOk: bool)
    returns (ret: Status, keyOut: seq<byte>)
    requires |keyMaterial| < U32_LIMIT
    ensures Got25519(isPubKey, keyMaterial, mallocOk, ret, keyOut)
  {
    keyOut := [];
    if |keyMaterial| < 20 {
      return InvalidArgument, [];
    }
    var pubKeySize, priKeySize := Word(keyMaterial, 2), Word(keyMaterial, 3);
    SumOfTwo(PartSizes(Curve, keyMaterial));
    if |keyMaterial| < HeaderBytes(Curve) + pubKeySize + priKeySize {
      return InvalidArgument, [];
    }
    CutTwo(keyMaterial[20..], PartSizes(Curve, keyMaterial));
    var size := if isPubKey then pubKeySize else priKeySize;
    if size == 0 {
      return InvalidKeyInfo, [];
    }
    if size > MAX_MALLOC_SIZE || !mallocOk {
      return MallocFail, [];
    }
    var offset := if isPubKey then 20 else HeaderBytes(Curve) + pubKeySize;
    keyOut := keyMaterial[offset..offset + size];
    assert keyMaterial[20..][pubKeySize..][..priKeySize] == keyMaterial[20 + pubKeySize..20 + pubKeySize + priKeySize];
    ret := Success;
  }

  predicate Got25519(isPubKey: bool, b: seq<byte>, mallocOk: bool, ret: Status, keyOut: seq<byte>) {
    if |b| >= 20 && 20 + Sum(PartSizes(Curve, b)) <= |b| then
      var key := Decode(Curve, b).parts[if isPubKey then 0 else 1];
      if key == [] then ret == InvalidKeyInfo
      else if |key| <= MAX_MALLOC_SIZE && mallocOk then ret == Success && keyOut == key
      else ret == MallocFail
    else ret == InvalidArgument
  }

  /** Unpacking gives back the packed key, and an error for the key that was not packed; an
      empty key cannot be unpacked. */
  lemma UnpackOfPack(packPub: bool, key: seq<byte>, takePub: bool, ret: Status, keyOut: seq<byte>)
    requires 20 + |key| <= MAX_MALLOC_SIZE
    requires Got25519(takePub, Encode(Curve, Packed(packPub, key)), true, ret, keyOut)
    ensures ret == Success <==> packPub == takePub && key != []
    ensures ret == Success ==> keyOut == key
    ensures ret != Success ==> ret == InvalidKeyInfo
  {
    DecodeOfEncode(Curve, Packed(packPub, key), []);
    assert Encode(Curve, Packed(packPub, key)) + [] == Encode(Curve, Packed(packPub, key));
  }
}
