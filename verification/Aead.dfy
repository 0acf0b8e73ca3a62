/** AES-GCM and AES-CCM in the local engine: the size check (`hks_base_check.c`), the place of the
    tag and the cutting of the input (`hks_crypto_adapter.c`), and encryption and decryption
    (`hks_local_engine.c`) over a cipher of which only two laws are known. */
module Aead {
  import opened CTypes
  import opened ParamLayout
  import opened ParamTags

  const HKS_AE_TAG_LEN := 16
  const HKS_TAG_ASSOCIATED_DATA := 0x5000_0008
  const HKS_TAG_NONCE := 0x5000_0009

  const HKS_TAG_ALGORITHM := 0x2000_0001
  const HKS_TAG_PURPOSE := 0x2000_0002
  const HKS_TAG_PADDING := 0x2000_0005
  const HKS_TAG_BLOCK_MODE := 0x2000_0006

  const HKS_ALG_AES := 20
  const HKS_ALG_RSA := 1
  const HKS_MODE_ECB := 1
  const HKS_MODE_CBC := 2
  const HKS_MODE_CTR := 3
  const HKS_MODE_CCM := 31
  const HKS_MODE_GCM := 32
  const HKS_PADDING_NONE := 0
  const HKS_PADDING_PKCS7 := 5
  const HKS_KEY_PURPOSE_ENCRYPT := 1
  const HKS_KEY_PURPOSE_DECRYPT := 2

  const HKS_AES_CCM_AAD_LEN_MIN := 4
  const HKS_AES_CCM_NONCE_LEN_MIN := 7
  const HKS_AES_CCM_NONCE_LEN_MAX := 13
  const HKS_AES_GCM_NONCE_LEN_MIN := 12

  datatype Mode = Gcm | Ccm

  /** Authenticated encryption: key, nonce, associated data and text give a cipher text and a
      tag; opening gives the text, or nothing. */
  datatype Cipher = Cipher(seal: (Bytes, Bytes, Bytes, Bytes) -> (Bytes, Bytes),
                           open: (Bytes, Bytes, Bytes, Bytes, Bytes) -> Option<Bytes>)

  ghost predicate Lawful(c: Cipher) {
    && (forall k, n, d, p :: |c.seal(k, n, d, p).0| == |p| && |c.seal(k, n, d, p).1| == HKS_AE_TAG_LEN)
    && (forall k, n, d, p :: c.open(k, n, d, c.seal(k, n, d, p).0, c.seal(k, n, d, p).1) == Some(p))
    && (forall k, n, d, t, g :: c.open(k, n, d, t, g).Some? ==> |c.open(k, n, d, t, g).value| == |t|)
  }

  /** A blob of the caller: `size` is the room it offers, and afterwards what was written. */
  class Blob {
    var size: u32
    const data: array<byte>

    constructor (data: array<byte>)
      requires data.Length < U32_LIMIT
      ensures this.data == data && size == data.Length
    {
      this.data := data;
      size := data.Length;
    }

    ghost predicate Valid()
      reads this
    {
      size <= data.Length
    }
  }

  datatype Command = Encrypt | Decrypt | OtherCommand

  function BlobOf(l: Lookup): Bytes {
    if l.Found? && l.value.Octets? then l.value.content else []
  }

  /** The 32-bit value of a parameter with a number. */
  function WordOf(es: seq<Entry>, tag: u32): Option<u32> {
    var l := Find(es, tag);
    if l.Found? && l.value.Scalar? then Some(Wrap32(l.value.word)) else None
  }

  function ModeOf(es: seq<Entry>): Option<Mode> {
    match WordOf(es, HKS_TAG_BLOCK_MODE)
    case Some(mode) => if mode == HKS_MODE_GCM then Some(Gcm) else if mode == HKS_MODE_CCM then Some(Ccm) else None
    case None => None
  }

  /** The parameters ask for a cipher outside this model: RSA, or AES in a mode without a tag. */
  predicate OtherCipher(es: seq<Entry>) {
    var alg, mode := WordOf(es, HKS_TAG_ALGORITHM), WordOf(es, HKS_TAG_BLOCK_MODE);
    || alg == Some(HKS_ALG_RSA)
    || (alg == Some(HKS_ALG_AES) && mode.Some? && mode.value in {HKS_MODE_CBC, HKS_MODE_CTR, HKS_MODE_ECB})
  }

  predicate PaddingOk(es: seq<Entry>) {
    WordOf(es, HKS_TAG_PADDING) in {None, Some(HKS_PADDING_NONE)}
  }

  predicate HasPurpose(isEncrypt: bool, es: seq<Entry>) {
    var purpose := WordOf(es, HKS_TAG_PURPOSE);
    purpose.Some? && purpose.value / (if isEncrypt then HKS_KEY_PURPOSE_ENCRYPT else HKS_KEY_PURPOSE_DECRYPT) % 2 == 1
  }

  /** Algorithm, mode, padding and purpose suit the command. */
  predicate CommandOk(isEncrypt: bool, es: seq<Entry>) {
    && WordOf(es, HKS_TAG_ALGORITHM) == Some(HKS_ALG_AES) && ModeOf(es).Some?
    && PaddingOk(es) && HasPurpose(isEncrypt, es)
  }

  /** The nonce and the associated data of the parameter set suit the mode: GCM may go without
      associated data, CCM may not. */
  predicate MaterialOk(mode: Mode, es: seq<Entry>) {
    var nonce, aad := Find(es, HKS_TAG_NONCE), Find(es, HKS_TAG_ASSOCIATED_DATA);
    var n := |BlobOf(nonce)|;
    && nonce.Found? && !aad.EmptyBlob?
    && (mode.Gcm? ==> HKS_AES_GCM_NONCE_LEN_MIN <= n)
    && (mode.Ccm? ==> HKS_AES_CCM_NONCE_LEN_MIN <= n <= HKS_AES_CCM_NONCE_LEN_MAX)
    && (mode.Ccm? ==> aad.Found? && HKS_AES_CCM_AAD_LEN_MIN <= |BlobOf(aad)|)
  }

  /** CheckCipherAeMaterial: the associated data is checked before the nonce. */
  method CheckCipherAeMaterial(mode: Mode, es: seq<Entry>) returns (ret: Status)
    ensures ret == Success <==> MaterialOk(mode, es)
    ensures ret in {Success, GetAadFail, InvalidAad, GetNonceFail, InvalidNonce}
    ensures ret == GetAadFail <==> !Find(es, HKS_TAG_ASSOCIATED_DATA).Found? &&
                                   !(mode.Gcm? && Find(es, HKS_TAG_ASSOCIATED_DATA).Missing?)
    ensures ret == InvalidAad ==> mode.Ccm? && |BlobOf(Find(es, HKS_TAG_ASSOCIATED_DATA))| < HKS_AES_CCM_AAD_LEN_MIN
    ensures ret == GetNonceFail ==> !Find(es, HKS_TAG_NONCE).Found?
    ensures ret == InvalidNonce ==> Find(es, HKS_TAG_NONCE).Found?
  {
    var aad := Find(es, HKS_TAG_ASSOCIATED_DATA);
    if !(mode.Gcm? && aad.Missing?) {
      if !aad.Found? {
        return GetAadFail;
      }
      if mode.Ccm? && |BlobOf(aad)| < HKS_AES_CCM_AAD_LEN_MIN {
        return InvalidAad;
      }
    }
    var nonce := Find(es, HKS_TAG_NONCE);
    if !nonce.Found? {
      return GetNonceFail;
    }
    var n := |BlobOf(nonce)|;
    if mode.Gcm? && n < HKS_AES_GCM_NONCE_LEN_MIN {
      return InvalidNonce;
    }
    if mode.Ccm? && (n < HKS_AES_CCM_NONCE_LEN_MIN || n > HKS_AES_CCM_NONCE_LEN_MAX) {
      return InvalidNonce;
    }
    return Success;
  }

  /** CheckAesAeCipherData: the sizes fit, as numbers without a width. */
  method CheckAesAeCipherData(cmd: Command, inSize: u32, outSize: u32) returns (ret: Status)
    ensures ret == Success <==> match cmd
                                case Encrypt => inSize + HKS_AE_TAG_LEN <= outSize
                                case Decrypt => HKS_AE_TAG_LEN <= inSize <= outSize + HKS_AE_TAG_LEN
                                case OtherCommand => false
    ensures ret == InvalidArgument <==> cmd.OtherCommand? || (cmd.Encrypt? && inSize + HKS_AE_TAG_LEN > U32_MAX)
    ensures ret in {Success, InvalidArgument, BufferTooSmall}
  {
    match cmd
    case Encrypt =>
      if inSize > U32_MAX - HKS_AE_TAG_LEN {
        return InvalidArgument;
      }
      if outSize < inSize + HKS_AE_TAG_LEN {
        return BufferTooSmall;
      }
      return Success;
    case Decrypt =>
      if inSize < HKS_AE_TAG_LEN || outSize < inSize - HKS_AE_TAG_LEN {
        return BufferTooSmall;
      }
      return Success;
    case OtherCommand =>
      return InvalidArgument;
  }

  /** HksGetEncryptAeTag: where in the output the tag goes; no tag outside the AE modes. */
  method HksGetEncryptAeTag(isAe: bool, inSize: u32, outSize: u32) returns (ret: Status, tagOff: u32, tagSize: u32)
    ensures inSize + HKS_AE_TAG_LEN <= outSize ==> ret == Success
    ensures isAe ==> (ret == Success <==> Wrap32(inSize + HKS_AE_TAG_LEN) <= outSize)
    ensures ret == Success && isAe ==> tagOff == inSize && tagSize == HKS_AE_TAG_LEN
    ensures ret == Success && isAe && inSize + HKS_AE_TAG_LEN < U32_LIMIT ==> tagOff + tagSize <= outSize
    ensures !isAe ==> ret == Success && tagSize == 0
    ensures ret in {Success, InvalidArgument}
  {
    if !isAe {
      return Success, 0, 0;
    }
    if outSize < Wrap32(inSize + HKS_AE_TAG_LEN) {
      return InvalidArgument, 0, 0;
    }
    return Success, inSize, HKS_AE_TAG_LEN;
  }

  datatype AeadParam = AeadParam(nonce: Bytes, aad: Bytes, tagDec: Bytes)

  /** The parameter set has what the AE modes need: a nonce, and no empty associated data. */
  predicate ParamsOk(es: seq<Entry>) {
    Find(es, HKS_TAG_NONCE).Found? && !Find(es, HKS_TAG_ASSOCIATED_DATA).EmptyBlob?
  }

  /** HksFillAeadParam: for decryption it cuts the tag off the end of the input, of which `inSize`
      bytes are left. */
  method HksFillAeadParam(es: seq<Entry>, input: Bytes, isEncrypt: bool, mallocOk: bool)
    returns (ret: Status, param: AeadParam, inSize: nat)
    ensures ret == Success <==> ParamsOk(es) && (isEncrypt || |input| > HKS_AE_TAG_LEN) && mallocOk
    ensures ret == ParamNotExist <==> Find(es, HKS_TAG_NONCE).Missing?
    ensures ret == MallocFail <==> ParamsOk(es) && (isEncrypt || |input| > HKS_AE_TAG_LEN) && !mallocOk
    ensures ret == Success ==>
              && param.nonce == BlobOf(Find(es, HKS_TAG_NONCE))
              && param.aad == BlobOf(Find(es, HKS_TAG_ASSOCIATED_DATA))
              && inSize <= |input|
              && input == input[..inSize] + param.tagDec
              && |param.tagDec| == if isEncrypt then 0 else HKS_AE_TAG_LEN
  {
    param, inSize := AeadParam([], [], []), |input|;
    var nonce := Find(es, HKS_TAG_NONCE);
    if !nonce.Found? {
      return if nonce.Missing? then ParamNotExist else InvalidArgument, param, inSize;
    }
    var aad := Find(es, HKS_TAG_ASSOCIATED_DATA);
    if aad.EmptyBlob? {
      return InvalidArgument, param, inSize;
    }
    if !isEncrypt {
      if inSize <= HKS_AE_TAG_LEN {
        return InvalidArgument, param, inSize;
      }
      inSize := inSize - HKS_AE_TAG_LEN;
    }
    if !mallocOk {
      return MallocFail, param, inSize;
    }
    param := AeadParam(BlobOf(nonce), BlobOf(aad), input[inSize..]);
    ret := Success;
  }

  // ----- The engine -----

  /** Writes `bytes` at `off`. */
  method Write(out: Blob, off: nat, bytes: Bytes)
    requires off + |bytes| <= out.data.Length
    modifies out.data
    ensures out.data[..] == old(out.data[..])[..off] + bytes + old(out.data[..])[off + |bytes|..]
  {
    forall i | 0 <= i < |bytes| {
      out.data[off + i] := bytes[i];
    }
  }

  /** HksCryptoHalEncrypt in an AE mode, if the engine works: cipher text to the front, tag to
      its slot. */
  method HalEncrypt(c: Cipher, key: Bytes, param: AeadParam, input: Bytes, out: Blob, tagOff: u32)
    requires Lawful(c) && |input| == tagOff && tagOff + HKS_AE_TAG_LEN <= out.data.Length
    modifies out, out.data
    ensures out.size == |input|
    ensures var (text, tag) := c.seal(key, param.nonce, param.aad, input);
            out.data[..] == text + tag + old(out.data[..])[tagOff + HKS_AE_TAG_LEN..]
  {
    var (text, tag) := c.seal(key, param.nonce, param.aad, input);
    Write(out, 0, text);
    Write(out, tagOff, tag);
    out.size := |input|;
  }

  /** CipherEncrypt: room for text and tag is tested in 32 bits, and a sum that wraps puts the tag
      behind the output. */
  method CipherEncrypt(c: Cipher, key: Bytes, param: AeadParam, input: Bytes, out: Blob, engineOk: bool)
    returns (end: Ended)
    requires Lawful(c) && out.Valid() && |input| < U32_LIMIT && out.data.Length < U32_LIMIT
    modifies out, out.data
    ensures end == if |input| + HKS_AE_TAG_LEN <= out.size then Returned(if engineOk then Success else OtherError(0))
                   else if Wrap32(|input| + HKS_AE_TAG_LEN) <= out.size then WrotePastEnd
                   else Returned(InvalidArgument)
    ensures end == Returned(Success) ==>
              var (text, tag) := c.seal(key, param.nonce, param.aad, input);
              && out.size == |input| + HKS_AE_TAG_LEN <= out.data.Length
              && out.data[..] == text + tag + old(out.data[..])[out.size..]
    ensures end.Returned? && end.ret == InvalidArgument ==> out.size == old(out.size) && out.data[..] == old(out.data[..])
  {
    var ret, tagOff, tagSize := HksGetEncryptAeTag(true, |input|, out.size);
    if ret != Success {
      return Returned(ret);
    }
    if tagOff + tagSize > out.size {
      return WrotePastEnd;
    }
    if !engineOk {
      return Returned(OtherError(0));
    }
    HalEncrypt(c, key, param, input, out, tagOff);
    out.size := out.size + tagSize;
    end := Returned(Success);
  }

  /** HksCryptoHalDecrypt in an AE mode: the text, if the tag is right. */
  method HalDecrypt(c: Cipher, key: Bytes, param: AeadParam, text: Bytes, out: Blob, engineOk: bool)
    returns (ret: Status)
    requires Lawful(c) && out.Valid() && |text| <= out.size
    modifies out, out.data
    ensures ret == Success <==> engineOk && c.open(key, param.nonce, param.aad, text, param.tagDec).Some?
    ensures ret == Success ==>
              var plain := c.open(key, param.nonce, param.aad, text, param.tagDec).value;
              out.size == |plain| == |text| && out.data[..] == plain + old(out.data[..])[|plain|..]
  {
    var plain := c.open(key, param.nonce, param.aad, text, param.tagDec);
    if !engineOk || plain.None? {
      return OtherError(0);
    }
    Write(out, 0, plain.value);
    out.size := |plain.value|;
    ret := Success;
  }

  // ----- The local engine -----

  /** What encryption leaves in the first bytes of the output. */
  function Sealed(c: Cipher, key: Bytes, es: seq<Entry>, plain: Bytes): Bytes {
    var (text, tag) := c.seal(key, BlobOf(Find(es, HKS_TAG_NONCE)), BlobOf(Find(es, HKS_TAG_ASSOCIATED_DATA)), plain);
    text + tag
  }

  /** What decryption makes of a cipher text with its tag. */
  function Opened(c: Cipher, key: Bytes, es: seq<Entry>, text: Bytes): Option<Bytes> {
    var n := |text| - HKS_AE_TAG_LEN;
    if n <= 0 then None
    else c.open(key, BlobOf(Find(es, HKS_TAG_NONCE)), BlobOf(Find(es, HKS_TAG_ASSOCIATED_DATA)), text[..n], text[n..])
  }

  /** The key has 128, 192 or 256 bits, counted in 32 bits. */
  predicate KeySizeOk(key: Bytes) {
    Wrap32(|key| * 8) in {128, 192, 256}
  }

  /** Whether the sizes, parameters and surroundings let a command go through. */
  predicate Accepted(isEncrypt: bool, key: Bytes, es: seq<Entry>, input: Bytes, room: nat, mallocOk: bool) {
    && KeySizeOk(key) && room > 0 && mallocOk && CommandOk(isEncrypt, es) && MaterialOk(ModeOf(es).value, es)
    && if isEncrypt then 0 < |input| && |input| + HKS_AE_TAG_LEN <= room
       else HKS_AE_TAG_LEN < |input| <= room + HKS_AE_TAG_LEN
  }

  /** CheckLocalCipherParams with HksLocalCheckCipherParams: blobs, algorithm, key size, purpose,
      padding and mode, material, sizes. */
  method CheckLocalCipherParams(isEncrypt: bool, key: Bytes, es: seq<Entry>, input: Bytes, room: u32)
    returns (ret: Status)
    requires |input| < U32_LIMIT && !OtherCipher(es)
    ensures ret == Success <==>
            && KeySizeOk(key) && input != [] && room > 0 && CommandOk(isEncrypt, es) && MaterialOk(ModeOf(es).value, es)
            && if isEncrypt then |input| + HKS_AE_TAG_LEN <= room
               else HKS_AE_TAG_LEN <= |input| <= room + HKS_AE_TAG_LEN
    ensures var given, alg := key != [] && input != [] && room > 0, WordOf(es, HKS_TAG_ALGORITHM);
            && (ret == GetAlgFail <==> given && alg == None)
            && (ret == InvalidAlgorithm <==> given && alg.Some? && alg.value != HKS_ALG_AES)
            && (ret == InvalidKeySize <==> given && alg == Some(HKS_ALG_AES) && !KeySizeOk(key))
            && (ret == GetPurposeFail <==> given && alg == Some(HKS_ALG_AES) && KeySizeOk(key)
                                           && WordOf(es, HKS_TAG_PURPOSE) == None)
    ensures ret == InvalidPadding ==> !PaddingOk(es)
    ensures ret == InvalidMode ==> ModeOf(es) == None
    ensures ret == InvalidPurpose ==> !HasPurpose(isEncrypt, es)
  {
    if key == [] || input == [] || room == 0 {
      return InvalidArgument;
    }
    ret := CheckAlgorithm(key, es);
    if ret != Success {
      return;
    }
    ret := CheckCommand(isEncrypt, es);
    if ret != Success {
      return;
    }
    ret := CheckCipherAeMaterial(ModeOf(es).value, es);
    if ret == Success {
      ret := CheckAesAeCipherData(if isEncrypt then Encrypt else Decrypt, |input|, room);
    }
  }

  method CheckAlgorithm(key: Bytes, es: seq<Entry>) returns (ret: Status)
    ensures var alg := WordOf(es, HKS_TAG_ALGORITHM);
            ret == if alg == None then GetAlgFail
                   else if alg.value != HKS_ALG_AES then InvalidAlgorithm
                   else if !KeySizeOk(key) then InvalidKeySize
                   else Success
  {
    var alg := WordOf(es, HKS_TAG_ALGORITHM);
    if alg.None? {
      return GetAlgFail;
    }
    if alg.value != HKS_ALG_AES {
      return InvalidAlgorithm;
    }
    var keySize := Wrap32(|key| * 8);
    ret := if keySize in {128, 192, 256} then Success else InvalidKeySize;
  }

  /** HksGetInputParmasByAlg, HksCheckFixedParams and HksCheckCipherMutableParams for AES: padding
      and mode may be missing, but without a mode there is no size check to pass. */
  method CheckCommand(isEncrypt: bool, es: seq<Entry>) returns (ret: Status)
    requires WordOf(es, HKS_TAG_ALGORITHM) == Some(HKS_ALG_AES) && !OtherCipher(es)
    ensures ret == Success <==> CommandOk(isEncrypt, es)
    ensures ret in {Success, GetPurposeFail, InvalidPadding, InvalidMode, InvalidPurpose}
    ensures ret == GetPurposeFail <==> WordOf(es, HKS_TAG_PURPOSE) == None
    ensures ret == InvalidPadding ==> !PaddingOk(es)
    ensures ret == InvalidMode ==> ModeOf(es) == None
    ensures ret == InvalidPurpose ==> !HasPurpose(isEncrypt, es)
  {
    var purpose, padding, mode := WordOf(es, HKS_TAG_PURPOSE), WordOf(es, HKS_TAG_PADDING), WordOf(es, HKS_TAG_BLOCK_MODE);
    if purpose.None? {
      return GetPurposeFail;
    }
    if padding.Some? && padding.value !in {HKS_PADDING_NONE, HKS_PADDING_PKCS7} {
      return InvalidPadding;
    }
    if mode.Some? && mode.value !in {HKS_MODE_CBC, HKS_MODE_CCM, HKS_MODE_CTR, HKS_MODE_ECB, HKS_MODE_GCM} {
      return InvalidMode;
    }
    if purpose.value / (if isEncrypt then HKS_KEY_PURPOSE_ENCRYPT else HKS_KEY_PURPOSE_DECRYPT) % 2 == 0 {
      return InvalidPurpose;
    }
    if mode.None? {
      return InvalidMode;
    }
    if padding.Some? && padding.value != HKS_PADDING_NONE {
      return InvalidPadding;
    }
    ret := Success;
  }

  /** EncryptAndDecrypt in an AE mode. */
  method EncryptAndDecrypt(isEncrypt: bool, c: Cipher, key: Bytes, es: seq<Entry>, input: Bytes, out: Blob,
                           mallocOk: bool, engineOk: bool)
    returns (ret: Status)
    requires Lawful(c) && out.Valid() && |input| < U32_LIMIT && out.data.Length < U32_LIMIT && !OtherCipher(es)
    modifies out, out.data
    ensures ret == Success <==>
            && Accepted(isEncrypt, key, es, input, old(out.size), mallocOk) && engineOk
            && (isEncrypt || Opened(c, key, es, input).Some?)
    ensures ret == Success ==>
              var result := if isEncrypt then Sealed(c, key, es, input) else Opened(c, key, es, input).value;
              && out.size == |result| <= old(out.size)
              && out.data[..] == result + old(out.data[..])[|result|..]
    ensures !Accepted(isEncrypt, key, es, input, old(out.size), mallocOk) ==>
              out.size == old(out.size) && out.data[..] == old(out.data[..])
  {
    ret := CheckLocalCipherParams(isEncrypt, key, es, input, out.size);
    if ret != Success {
      return;
    }
    var param, inSize;
    ret, param, inSize := HksFillAeadParam(es, input, isEncrypt, mallocOk);
    if ret != Success {
      return;
    }
    if isEncrypt {
      assert input[..inSize] == input;
      var end := CipherEncrypt(c, key, param, input[..inSize], out, engineOk);
      ret := end.ret;
    } else {
      assert inSize == |input| - HKS_AE_TAG_LEN && param.tagDec == input[inSize..];
      ret := HalDecrypt(c, key, param, input[..inSize], out, engineOk);
    }
  }

  /** The parameters of a decryption `es'` suit those of the encryption `es`: the same mode, nonce
      and associated data, and a purpose and padding of its own. */
  predicate Suits(es: seq<Entry>, es': seq<Entry>) {
    && CommandOk(false, es') && ModeOf(es') == ModeOf(es)
    && Find(es', HKS_TAG_NONCE) == Find(es, HKS_TAG_NONCE)
    && Find(es', HKS_TAG_ASSOCIATED_DATA) == Find(es, HKS_TAG_ASSOCIATED_DATA)
  }

  /** Decryption after encryption is the identity on non-empty texts: the cut gives back exactly
      cipher text and tag, and the sizes that fitted on the way in fit on the way out. */
  lemma DecryptInvertsEncrypt(c: Cipher, key: Bytes, es: seq<Entry>, es': seq<Entry>, plain: Bytes, room: nat, room': nat)
    requires Lawful(c) && Accepted(true, key, es, plain, room, true) && |plain| <= room' && Suits(es, es')
    ensures Opened(c, key, es', Sealed(c, key, es, plain)) == Some(plain)
    ensures Accepted(false, key, es', Sealed(c, key, es, plain), room', true)
  {
    var (text, tag) := c.seal(key, BlobOf(Find(es, HKS_TAG_NONCE)), BlobOf(Find(es, HKS_TAG_ASSOCIATED_DATA)), plain);
    assert (text + tag)[..|plain|] == text && (text + tag)[|plain|..] == tag;
  }

  /** Encryption and then decryption of what it left, each with the buffers a caller brings:
      the text comes back exactly if both commands are accepted and the engine works. */
  method SealAndOpen(c: Cipher, key: Bytes, es: seq<Entry>, es': seq<Entry>, plain: Bytes, cipherText: Blob, plainText: Blob)
    returns (ret: Status)
    requires Lawful(c) && cipherText.Valid() && plainText.Valid() && cipherText.data != plainText.data && cipherText != plainText
    requires |plain| < U32_LIMIT && cipherText.data.Length < U32_LIMIT && plainText.data.Length < U32_LIMIT
    requires !OtherCipher(es) && Suits(es, es') && |plain| <= plainText.size
    modifies cipherText, cipherText.data, plainText, plainText.data
    ensures ret == Success <==> Accepted(true, key, es, plain, old(cipherText.size), true)
    ensures ret == Success ==> plainText.size == |plain| && plainText.data[..plainText.size] == plain
  {
    ret := EncryptAndDecrypt(true, c, key, es, plain, cipherText, true, true);
    if ret != Success {
      return;
    }
    DecryptInvertsEncrypt(c, key, es, es', plain, old(cipherText.size), plainText.size);
    var text := cipherText.data[..cipherText.size];
    assert text == Sealed(c, key, es, plain);
    ret := EncryptAndDecrypt(false, c, key, es', text, plainText, true, true);
  }

  /** The size check lets a bare tag through, but no text is left to decrypt then and the
      command fails. */
  lemma BareTagIsRefused(c: Cipher, key: Bytes, es: seq<Entry>, input: Bytes, room: nat, mallocOk: bool)
    requires |input| <= HKS_AE_TAG_LEN
    ensures !Accepted(false, key, es, input, room, mallocOk)
    ensures Opened(c, key, es, input) == None
  {
  }
}
