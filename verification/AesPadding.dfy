/** Padding of AES-CBC texts (`cipher_aes.c`), compared with the padding of section 6.3 of RFC 5652,
    and encryption and decryption over a block cipher of which only size and inverse are known. */
module AesPadding {
  import opened CTypes
  import opened CText

  const AES_BLOCK_SIZE := 16

  function PadLength(n: nat): (p: nat)
    ensures 1 <= p <= AES_BLOCK_SIZE && (n + p) % AES_BLOCK_SIZE == 0
  {
    AES_BLOCK_SIZE - n % AES_BLOCK_SIZE
  }

  function Pad(p: byte): Bytes {
    Repeated(p, p)
  }

  /** The padding of the standard: always at least one byte. */
  function StandardPadded(t: Bytes): Bytes {
    t + Pad(PadLength(|t|))
  }

  /** The padding of the code: none for texts of whole blocks. */
  function Padded(t: Bytes): Bytes {
    if |t| % AES_BLOCK_SIZE == 0 then t else StandardPadded(t)
  }

  /** What unpadding comes to: a text, an error, or a read before the start of the data. */
  datatype Unpadding = Text(text: Bytes) | Refused | ReadBefore

  function Repeated(p: byte, n: nat): Bytes {
    seq(n, _ => p)
  }

  /** The text before the padding if the data ends in 1 to 15 bytes of that value; the last byte
      is read even if there is none, and bytes of that value are followed back past the start. */
  function Unpadded(s: Bytes): Unpadding {
    if s == [] then ReadBefore
    else
      var p := s[|s| - 1];
      if p == 0 || p >= AES_BLOCK_SIZE then Refused
      else if p > |s| then (if s == Repeated(p, |s|) then ReadBefore else Refused)
      else if s[|s| - p..] == Repeated(p, p) then Text(s[..|s| - p])
      else Refused
  }

  /** PaddingPkcs5 on a buffer that has room for the padding and holds a C string of `inSize` bytes. */
  method PaddingPkcs5(data: array<byte>, inSize: nat) returns (n: nat)
    requires inSize < data.Length
    requires inSize % AES_BLOCK_SIZE != 0 ==> inSize + PadLength(inSize) <= data.Length
    requires CString(data[..]) == data[..inSize]
    modifies data
    ensures n <= data.Length && data[..n] == Padded(old(data[..inSize]))
    ensures data[n..] == old(data[..])[n..]
  {
    ghost var was := data[..];
    if inSize % AES_BLOCK_SIZE == 0 {
      return |CString(data[..])|;
    }
    var paddingLen := AES_BLOCK_SIZE - inSize % AES_BLOCK_SIZE;
    n := paddingLen + inSize;
    for i := 0 to paddingLen
      invariant forall k :: 0 <= k < data.Length ==> data[k] == if inSize <= k < inSize + i then paddingLen else was[k]
    {
      data[inSize + i] := paddingLen;
    }
    assert data[..inSize] == was[..inSize] && data[inSize..n] == Pad(paddingLen);
    assert data[..n] == data[..inSize] + data[inSize..n];
  }

  /** What an int32_t keeps of `x`. */
  function Int32(x: nat): int {
    if x % U32_LIMIT < I32_LIMIT then x % U32_LIMIT else x % U32_LIMIT - U32_LIMIT
  }

  lemma RoundedUp(t: Bytes)
    ensures |Padded(t)| == if |t| % AES_BLOCK_SIZE != 0 then |t| / AES_BLOCK_SIZE * AES_BLOCK_SIZE + AES_BLOCK_SIZE else |t|
    ensures |t| <= |Padded(t)| < |t| + AES_BLOCK_SIZE && |Padded(t)| % AES_BLOCK_SIZE == 0
  {
  }

  /** A text of more whole blocks than an int32_t counts is refused: the length is negative, or
      what is left of it is less than the text. */
  lemma LongTextRefused(n: nat, rounded: nat)
    requires n <= rounded < n + AES_BLOCK_SIZE && rounded >= I32_LIMIT
    ensures Int32(rounded) + 1 <= 0 || n > Int32(rounded) + 1
  {
  }

  /** The length of the text in whole blocks, as an int32_t. */
  method WholeLength(text: Bytes) returns (wholeLen: int)
    ensures |text| <= |Padded(text)|
    ensures if |Padded(text)| < I32_LIMIT then wholeLen == |Padded(text)|
            else wholeLen + 1 <= 0 || |text| > wholeLen + 1
  {
    var rounded := if |text| % AES_BLOCK_SIZE != 0 then |text| / AES_BLOCK_SIZE * AES_BLOCK_SIZE + AES_BLOCK_SIZE else |text|;
    RoundedUp(text);
    if rounded >= I32_LIMIT {
      LongTextRefused(|text|, rounded);
    }
    wholeLen := Int32(rounded);
  }

  /** A zeroed buffer that starts with the text. */
  method ZeroedCopy(text: Bytes, size: nat) returns (data: array<byte>)
    requires |text| < size && 0 !in text
    ensures fresh(data) && data.Length == size && data[..|text|] == text && CString(data[..]) == text
  {
    data := new byte[size](_ => 0);
    forall i | 0 <= i < |text| {
      data[i] := text[i];
    }
    assert data[..|text|] == text && data[..][..|text|] == text;
    CStringAt(data[..], |text|);
  }

  /** The encryption half of InitAesCryptDataText: a zeroed buffer of whole blocks and one byte
      holds the text and its padding. */
  method InitEncryptText(memory: Bytes, mallocOk: bool) returns (ok: bool, data: array?<byte>, textLen: nat)
    ensures ok <==> mallocOk && |Padded(CString(memory))| < I32_LIMIT
    ensures ok ==> data != null && fresh(data) && textLen < data.Length && textLen % AES_BLOCK_SIZE == 0
    ensures ok ==> data[..textLen] == Padded(CString(memory))
  {
    var text := CString(memory);
    var wholeLen := WholeLength(text);
    if wholeLen + 1 <= 0 || !mallocOk {
      return false, null, 0;
    }
    if |text| > wholeLen + 1 {
      return false, null, 0;
    }
    data := ZeroedCopy(text, wholeLen + 1);
    RoundedUp(text);
    textLen := PaddingPkcs5(data, |text|);
    ok := true;
  }

  /** UnpaddingPkcs5: how it ends, with the length of the text; the padding of a text is
      overwritten with zeros. */
  method UnpaddingPkcs5(data: array<byte>, dataLen: nat) returns (end: Unpadding, length: nat)
    requires dataLen <= data.Length
    modifies data
    ensures end == Unpadded(old(data[..dataLen]))
    ensures end.Text? ==> length == |end.text| <= dataLen && data[..dataLen] == end.text + Zeros(dataLen - length)
  {
    ghost var was := data[..dataLen];
    if dataLen == 0 {
      return ReadBefore, 0;
    }
    var padLen := data[dataLen - 1];
    if padLen <= 0 || padLen >= AES_BLOCK_SIZE {
      return Refused, 0;
    }
    for i := 0 to padLen
      invariant i <= dataLen
      invariant forall k :: 0 <= k < dataLen ==> data[k] == if k < dataLen - i then was[k] else 0
      invariant forall k :: dataLen - i <= k < dataLen ==> was[k] == padLen
    {
      if i == dataLen {
        assert was == Repeated(padLen, dataLen);
        return ReadBefore, 0;
      }
      if data[dataLen - 1 - i] != padLen {
        StopsAt(was, dataLen - 1 - i);
        return Refused, 0;
      }
      data[dataLen - 1 - i] := 0;
    }
    length := dataLen - padLen;
    assert was[length..] == Repeated(padLen, padLen);
    assert data[..dataLen] == was[..length] + Zeros(padLen);
    end := Text(data[..length]);
  }

  /** A byte at `k`, among those the padding would cover, that is not the padding's. */
  lemma StopsAt(s: Bytes, k: nat)
    requires k < |s| && 0 < s[|s| - 1] < AES_BLOCK_SIZE && s[k] != s[|s| - 1] && |s| - k <= s[|s| - 1]
    ensures Unpadded(s) == Refused
  {
    var p := s[|s| - 1];
    if p <= |s| {
      assert s[|s| - p..][k - (|s| - p)] != p;
    }
  }

  /** Unpadding gives back the padded text exactly if its length is no multiple of 16; a text of
      whole blocks never comes back. */
  lemma UnpadOfPadIff(t: Bytes)
    requires t != []
    ensures |Padded(t)| >= AES_BLOCK_SIZE && |Padded(t)| % AES_BLOCK_SIZE == 0
    ensures Unpadded(Padded(t)) == Text(t) <==> |t| % AES_BLOCK_SIZE != 0
  {
    var p := PadLength(|t|);
    if |t| % AES_BLOCK_SIZE != 0 {
      assert (t + Pad(p))[|t|..] == Pad(p) && (t + Pad(p))[..|t|] == t;
    }
  }

  /** The code follows the standard exactly for such texts, and it refuses what the standard adds
      to the others. */
  lemma StandardIff(t: Bytes)
    ensures Padded(t) == StandardPadded(t) <==> |t| % AES_BLOCK_SIZE != 0
    ensures |t| % AES_BLOCK_SIZE == 0 ==> Unpadded(StandardPadded(t)) == Refused
  {
  }

  /** Data of whole blocks is read before its start exactly if there is no block at all. */
  lemma WholeBlocksReadBeforeIff(s: Bytes)
    requires |s| % AES_BLOCK_SIZE == 0
    ensures Unpadded(s) == ReadBefore <==> s == []
  {
  }

  // ----- Encryption and decryption -----

  /** The block cipher with its key and initial vector. */
  datatype Cbc = Cbc(encrypt: Bytes -> Bytes, decrypt: Bytes -> Bytes)

  ghost predicate Lawful(c: Cbc) {
    && (forall s {:trigger c.encrypt(s)} ::
          |s| % AES_BLOCK_SIZE == 0 ==> |c.encrypt(s)| == |s| && c.decrypt(c.encrypt(s)) == s)
    && (forall s {:trigger |c.decrypt(s)|} :: |s| % AES_BLOCK_SIZE == 0 ==> |c.decrypt(s)| == |s|)
  }

  function Encrypted(c: Cbc, base64: Base64, t: Bytes): Bytes {
    base64.encode(c.encrypt(Padded(t)))
  }

  function WholeBlocks(s: Bytes): (w: Bytes)
    ensures w <= s && |w| % AES_BLOCK_SIZE == 0 && |s| - |w| < AES_BLOCK_SIZE
    ensures |s| % AES_BLOCK_SIZE == 0 ==> w == s
  {
    s[..|s| - |s| % AES_BLOCK_SIZE]
  }

  /** Decryption works on the whole blocks of the decoded text, which may not be empty. */
  function Decrypted(c: Cbc, base64: Base64, s: Bytes): Unpadding {
    match base64.decode(s)
    case None => Refused
    case Some(raw) => if raw == [] then Refused else Unpadded(c.decrypt(WholeBlocks(raw)))
  }

  /** Decryption inverts encryption of non-empty texts exactly off the block boundaries. */
  lemma DecryptInvertsEncryptIff(c: Cbc, base64: Base64, t: Bytes)
    requires Lawful(c) && LawfulBase64(base64) && t != []
    ensures Decrypted(c, base64, Encrypted(c, base64, t)) == Text(t) <==> |t| % AES_BLOCK_SIZE != 0
  {
    UnpadOfPadIff(t);
    var padded := Padded(t);
    var raw := c.encrypt(padded);
    assert |raw| == |padded| && WholeBlocks(raw) == raw && c.decrypt(raw) == padded;
  }

  /** It reads before the start of its buffer exactly if the text decodes to 1 to 15 bytes. */
  lemma DecryptReadsBeforeIff(c: Cbc, base64: Base64, s: Bytes)
    requires Lawful(c)
    ensures Decrypted(c, base64, s) == ReadBefore <==>
            base64.decode(s).Some? && 0 < |base64.decode(s).value| < AES_BLOCK_SIZE
  {
    if base64.decode(s).Some? {
      var whole := WholeBlocks(base64.decode(s).value);
      assert |c.decrypt(whole)| == |whole|;
      WholeBlocksReadBeforeIff(c.decrypt(whole));
    }
  }
}
