/** RSA-OAEP over texts of any length (`cipher_rsa.c`): the size query, encryption block by block
    with a base64 text as the result, and decryption.  Block cipher and base64 are functions of
    which only sizes and inverses are known (section 7.1.1 of RFC 8017, section 4 of RFC 4648). */
module RsaCipher {
  import opened CTypes
  import opened CText

  /** What OAEP with SHA-256 adds to a block. */
  const RSA_KEY_BYTE := 66

  const U64_LIMIT := 0x1_0000_0000_0000_0000

  /** A key: the size of a block, and encryption (of one chunk, with the random data of the draw
      given by the number) and decryption, which can fail. */
  datatype Rsa = Rsa(len: nat, encrypt: (Bytes, nat) -> Option<Bytes>, decrypt: Bytes -> Option<Bytes>)

  ghost predicate LawfulRsa(rsa: Rsa) {
    && (forall c, r {:trigger |rsa.encrypt(c, r).value|} ::
          |c| + RSA_KEY_BYTE <= rsa.len && rsa.encrypt(c, r).Some? ==> |rsa.encrypt(c, r).value| == rsa.len)
    && (forall c, r {:trigger rsa.decrypt(rsa.encrypt(c, r).value)} ::
          |c| + RSA_KEY_BYTE <= rsa.len && rsa.encrypt(c, r).Some? ==> rsa.decrypt(rsa.encrypt(c, r).value) == Some(c))
  }

  // ----- Sizes -----

  /** The bytes of the encrypted blocks of `n` bytes of text: `len` for every chunk of `c`. */
  function RawLength(n: nat, c: nat, len: nat): nat
    requires c > 0
  {
    if n == 0 then 0 else if n < c then len else len + RawLength(n - c, c, len)
  }

  lemma {:induction false} RawLengthIs(n: nat, c: nat, len: nat, q: nat, r: nat)
    requires c > 0 && n == q * c + r && r < c
    ensures RawLength(n, c, len) == len * q + if r != 0 then len else 0
  {
    if q > 0 {
      assert q * c == (q - 1) * c + c && (q - 1) * c >= 0;
      RawLengthIs(n - c, c, len, q - 1, r);
      assert len * q == len * (q - 1) + len;
    }
  }

  lemma {:induction false} RawLengthGrows(m: nat, n: nat, c: nat, len: nat)
    requires c > 0 && m <= n
    ensures RawLength(m, c, len) <= RawLength(n, c, len)
  {
    if m >= c {
      RawLengthGrows(m - c, n - c, c, len);
    } else if n >= c {
      assert RawLength(m, c, len) <= len;
    }
  }

  // ----- What encryption and decryption compute -----

  /** Where the chunk that starts at `pos` ends: after `c` bytes, or at the end of the text. */
  function ChunkEnd(text: Bytes, c: nat, pos: nat): (next: nat)
    requires 0 < c && pos < |text|
    ensures pos < next <= |text| && next - pos <= c
  {
    if |text| - pos < c then |text| else pos + c
  }

  /** The chunks of the text from `pos` on, encrypted with the draws from `i` on; None if one
      fails. */
  function Sealed(rsa: Rsa, text: Bytes, c: nat, pos: nat, i: nat): Option<Bytes>
    requires 0 < c && pos <= |text|
    decreases |text| - pos
  {
    if pos == |text| then Some([])
    else
      var next := ChunkEnd(text, c, pos);
      var b, rest := rsa.encrypt(text[pos..next], i), Sealed(rsa, text, c, next, i + 1);
      if b.Some? && rest.Some? then Some(b.value + rest.value) else None
  }

  /** The base64 text for a text, None if encryption fails. */
  function Encrypted(rsa: Rsa, base64: Base64, text: Bytes): Option<Bytes> {
    if rsa.len <= RSA_KEY_BYTE || text == [] then None
    else match Sealed(rsa, text, rsa.len - RSA_KEY_BYTE, 0, 0)
      case None => None
      case Some(raw) => Some(base64.encode(raw))
  }

  /** The texts of the whole blocks of `raw`, None if one cannot be decrypted or there is no room
      for it; memcpy_s refuses even an empty text when no room at all is left, and any text when
      the room is more than RSIZE_MAX. */
  function Unsealed(rsa: Rsa, raw: Bytes, room: nat): Option<Bytes>
    requires rsa.len > 0
    decreases |raw|
  {
    if |raw| < rsa.len then Some([])
    else match rsa.decrypt(raw[..rsa.len])
      case None => None
      case Some(p) =>
        if room == 0 || room > RSIZE_MAX || |p| > room then None
        else match Unsealed(rsa, raw[rsa.len..], room - |p|)
          case None => None
          case Some(rest) => Some(p + rest)
  }

  /** Every chunk gives one block. */
  lemma {:induction false} SealedSize(rsa: Rsa, text: Bytes, c: nat, pos: nat, i: nat)
    requires LawfulRsa(rsa) && 0 < c && c + RSA_KEY_BYTE == rsa.len && pos <= |text|
    requires Sealed(rsa, text, c, pos, i).Some?
    ensures |Sealed(rsa, text, c, pos, i).value| == RawLength(|text| - pos, c, rsa.len) >= |text| - pos
    decreases |text| - pos
  {
    if pos < |text| {
      SealedSize(rsa, text, c, ChunkEnd(text, c, pos), i + 1);
    }
  }

  /** Decryption inverts encryption, chunk by chunk: the chunks tile the text. */
  lemma {:induction false} UnsealedOfSealed(rsa: Rsa, text: Bytes, c: nat, pos: nat, i: nat, room: nat)
    requires LawfulRsa(rsa) && 0 < c && c + RSA_KEY_BYTE == rsa.len && pos <= |text|
    requires Sealed(rsa, text, c, pos, i).Some? && |text| - pos <= room <= RSIZE_MAX
    ensures Unsealed(rsa, Sealed(rsa, text, c, pos, i).value, room) == Some(text[pos..])
    decreases |text| - pos
  {
    if pos < |text| {
      var next := ChunkEnd(text, c, pos);
      var b, rest := rsa.encrypt(text[pos..next], i).value, Sealed(rsa, text, c, next, i + 1).value;
      UnsealedOfSealed(rsa, text, c, next, i + 1, room - (next - pos));
      assert (b + rest)[..rsa.len] == b && (b + rest)[rsa.len..] == rest;
      assert text[pos..] == text[pos..next] + text[next..];
    } else {
      assert text[pos..] == [];
    }
  }

  // ----- The size query -----

  /** What the query answers for `total` raw bytes. */
  function QueryLength(total: nat): nat {
    (total / 3 + 1) * 4 + 1
  }

  lemma QueryLengthGrows(n: nat, total: nat)
    requires n <= total
    ensures QueryLength(n) <= QueryLength(total)
  {
  }

  /** The size of all blocks, computed from quotient and remainder. */
  method BlocksSize(rsaLen: nat, plainLen: nat, rsaContentLen: nat) returns (size: nat)
    requires rsaContentLen > 0
    ensures size == RawLength(plainLen, rsaContentLen, rsaLen)
  {
    var count, remain := plainLen / rsaContentLen, plainLen % rsaContentLen;
    RawLengthIs(plainLen, rsaContentLen, rsaLen, count, remain);
    size := rsaLen * count + if remain != 0 then rsaLen else 0;
  }

  /** The first call of RsaEncrypt, without an output buffer; sizes have 64 bits here. */
  method RsaEncryptSize(rsaLen: nat, plainLen: nat) returns (ok: bool, length: nat)
    requires rsaLen < I32_LIMIT && plainLen < I32_LIMIT
    ensures rsaLen > RSA_KEY_BYTE ==> ok && length == QueryLength(RawLength(plainLen, rsaLen - RSA_KEY_BYTE, rsaLen))
    ensures rsaLen < RSA_KEY_BYTE ==> ok && length == QueryLength(if plainLen == 0 then 0 else rsaLen)
    ensures ok <==> rsaLen != RSA_KEY_BYTE
  {
    var rsaContentLen := (rsaLen - RSA_KEY_BYTE) % U64_LIMIT;
    if rsaContentLen == 0 {
      return false, 0;
    }
    length := BlocksSize(rsaLen, plainLen, rsaContentLen);
    length := QueryLength(length);
    ok := true;
  }

  lemma EncryptedFits(rsa: Rsa, base64: Base64, text: Bytes, n: nat)
    requires LawfulRsa(rsa) && LawfulBase64(base64) && Encrypted(rsa, base64, text).Some?
    requires n == RawLength(|text|, rsa.len - RSA_KEY_BYTE, rsa.len)
    ensures |Encrypted(rsa, base64, text).value| + 1 <= QueryLength(n)
    ensures |Sealed(rsa, text, rsa.len - RSA_KEY_BYTE, 0, 0).value| < QueryLength(n)
  {
    SealedSize(rsa, text, rsa.len - RSA_KEY_BYTE, 0, 0);
  }

  /** The queried length is enough for the base64 text and the zero byte behind it, and so for
      the raw blocks, of every text (C string) in a buffer of the length that was asked about. */
  lemma QueryIsEnough(rsa: Rsa, base64: Base64, text: Bytes, plainLen: nat, length: nat)
    requires LawfulRsa(rsa) && LawfulBase64(base64) && rsa.len > RSA_KEY_BYTE
    requires Encrypted(rsa, base64, text).Some? && |text| <= plainLen
    requires length == QueryLength(RawLength(plainLen, rsa.len - RSA_KEY_BYTE, rsa.len))
    ensures |Encrypted(rsa, base64, text).value| + 1 <= length
    ensures |Sealed(rsa, text, rsa.len - RSA_KEY_BYTE, 0, 0).value| < length
  {
    var c := rsa.len - RSA_KEY_BYTE;
    EncryptedFits(rsa, base64, text, RawLength(|text|, c, rsa.len));
    RawLengthGrows(|text|, plainLen, c, rsa.len);
    QueryLengthGrows(RawLength(|text|, c, rsa.len), RawLength(plainLen, c, rsa.len));
  }

  // ----- Encryption -----

  /** memcpy_s of `block` to `at` with the room left there: it copies, or sets that room to zero
      unless it is more than RSIZE_MAX. */
  method CopyAt(dest: array<byte>, at: nat, block: Bytes) returns (ok: bool)
    requires at <= dest.Length
    modifies dest
    ensures ok <==> at < dest.Length && at + |block| <= dest.Length && dest.Length - at <= RSIZE_MAX
    ensures ok ==> dest[..] == old(dest[..])[..at] + block + old(dest[..])[at + |block|..]
    ensures !ok && dest.Length - at <= RSIZE_MAX ==> dest[..] == old(dest[..])[..at] + Zeros(dest.Length - at)
    ensures dest.Length - at > RSIZE_MAX ==> dest[..] == old(dest[..])
  {
    if dest.Length - at > RSIZE_MAX {
      return false;
    }
    if dest.Length <= at || dest.Length - at < |block| {
      forall i | at <= i < dest.Length {
        dest[i] := 0;
      }
      return false;
    }
    forall i | 0 <= i < |block| {
      dest[at + i] := block[i];
    }
    return true;
  }

  /** RsaEncryptBase64Encode: the raw bytes at the front are replaced by their base64 text. */
  method RsaEncryptBase64Encode(base64: Base64, cipherTotalLen: nat, cipherText: array<byte>, mallocOk: bool)
    returns (ok: bool)
    requires LawfulBase64(base64) && cipherTotalLen <= cipherText.Length
    modifies cipherText
    ensures ok <==> cipherTotalLen > 0 && mallocOk && 4 * ((cipherTotalLen + 2) / 3) + 1 <= cipherText.Length
    ensures ok ==> var s := base64.encode(old(cipherText[..cipherTotalLen]));
                   |s| <= cipherText.Length && cipherText[..] == s + Zeros(cipherText.Length - |s|)
  {
    if cipherTotalLen == 0 || !mallocOk {
      return false;
    }
    var tempBuf := cipherText[..cipherTotalLen];
    var text := base64.encode(tempBuf);
    forall i | 0 <= i < cipherText.Length {
      cipherText[i] := 0;
    }
    if |text| + 1 > cipherText.Length {
      return false;
    }
    ghost var zeros := cipherText[..];
    forall i | 0 <= i < |text| {
      cipherText[i] := text[i];
    }
    ok := true;
    assert cipherText[..] == text + zeros[|text|..];
    assert zeros[|text|..] == Zeros(cipherText.Length - |text|);
  }

  function Prepend(pre: Bytes, o: Option<Bytes>): Option<Bytes> {
    if o.None? then None else Some(pre + o.value)
  }

  /** `pos` bytes of the text are encrypted, in `i` blocks that make up `done`. */
  ghost predicate Midway(rsa: Rsa, text: Bytes, c: nat, pos: nat, i: nat, done: Bytes) {
    && 0 < c && c + RSA_KEY_BYTE == rsa.len && pos <= |text|
    && Sealed(rsa, text, c, 0, 0) == Prepend(done, Sealed(rsa, text, c, pos, i))
  }

  lemma MidwayStart(rsa: Rsa, text: Bytes, c: nat)
    requires 0 < c && c + RSA_KEY_BYTE == rsa.len
    ensures Midway(rsa, text, c, 0, 0, [])
  {
    var all := Sealed(rsa, text, c, 0, 0);
    assert all.Some? ==> [] + all.value == all.value;
  }

  lemma MidwayStep(rsa: Rsa, text: Bytes, c: nat, pos: nat, i: nat, done: Bytes)
    requires Midway(rsa, text, c, pos, i, done) && LawfulRsa(rsa) && pos < |text|
    ensures match rsa.encrypt(text[pos..ChunkEnd(text, c, pos)], i)
            case None => Sealed(rsa, text, c, 0, 0) == None
            case Some(b) =>
              && |b| == rsa.len && Midway(rsa, text, c, ChunkEnd(text, c, pos), i + 1, done + b)
              && (Sealed(rsa, text, c, 0, 0).Some? ==> |Sealed(rsa, text, c, 0, 0).value| >= |done| + rsa.len)
  {
    var next := ChunkEnd(text, c, pos);
    var b, rest := rsa.encrypt(text[pos..next], i), Sealed(rsa, text, c, next, i + 1);
    if b.Some? && rest.Some? {
      Concat3(done, b.value, rest.value);
    }
  }

  /** A chunk cannot be encrypted, or there is no room for the base64 text. */
  predicate CannotEncrypt(rsa: Rsa, base64: Base64, text: Bytes, room: nat) {
    Encrypted(rsa, base64, text).None? || |Encrypted(rsa, base64, text).value| >= room
  }

  /** How encryption ends: with the base64 text and zeros to the end of the buffer, or not at all. */
  ghost predicate EncryptOutcome(rsa: Rsa, base64: Base64, text: Bytes, room: nat, mallocOk: bool,
                                 ok: bool, buffer: Bytes) {
    && (ok <==> mallocOk && !CannotEncrypt(rsa, base64, text, room))
    && (ok ==> buffer == Encrypted(rsa, base64, text).value + Zeros(room - |Encrypted(rsa, base64, text).value|))
  }

  lemma EndsEarly(rsa: Rsa, base64: Base64, text: Bytes, c: nat, pos: nat, i: nat, done: Bytes, room: nat)
    requires LawfulRsa(rsa) && LawfulBase64(base64) && Midway(rsa, text, c, pos, i, done) && pos < |text|
    requires rsa.encrypt(text[pos..ChunkEnd(text, c, pos)], i).None? || |done| + rsa.len > room
    ensures CannotEncrypt(rsa, base64, text, room)
  {
    MidwayStep(rsa, text, c, pos, i, done);
  }

  lemma EndsHere(rsa: Rsa, base64: Base64, text: Bytes, c: nat, i: nat, done: Bytes, room: nat, ok: bool, buffer: Bytes)
    requires LawfulRsa(rsa) && LawfulBase64(base64) && Midway(rsa, text, c, |text|, i, done)
    requires text == [] <==> done == []
    requires ok <==> |done| > 0 && 4 * ((|done| + 2) / 3) + 1 <= room
    requires ok ==> |base64.encode(done)| <= room &&
                    buffer == base64.encode(done) + Zeros(room - |base64.encode(done)|)
    ensures EncryptOutcome(rsa, base64, text, room, true, ok, buffer)
  {
    assert done + [] == done;
  }

  /** The body of both encryption steps: one chunk is encrypted and copied behind the others. */
  method EncryptBlock(rsa: Rsa, ghost base64: Base64, text: Bytes, ghost c: nat, pos: nat, next: nat, i: nat,
                      cipherText: array<byte>, cipherTotalLen: nat, ghost done: Bytes)
    returns (ok: bool, ghost done': Bytes)
    requires LawfulRsa(rsa) && LawfulBase64(base64)
    requires cipherTotalLen <= cipherText.Length < I32_LIMIT && done == cipherText[..cipherTotalLen]
    requires Midway(rsa, text, c, pos, i, done) && pos < |text| && next == ChunkEnd(text, c, pos)
    modifies cipherText
    ensures ok ==> cipherTotalLen + rsa.len <= cipherText.Length && done' == cipherText[..cipherTotalLen + rsa.len]
                   && Midway(rsa, text, c, next, i + 1, done')
    ensures !ok ==> CannotEncrypt(rsa, base64, text, cipherText.Length)
  {
    done' := done;
    MidwayStep(rsa, text, c, pos, i, done);
    var block := rsa.encrypt(text[pos..next], i);
    if block.None? {
      EndsEarly(rsa, base64, text, c, pos, i, done, cipherText.Length);
      return false, done;
    }
    ok := CopyAt(cipherText, cipherTotalLen, block.value);
    if ok {
      done' := done + block.value;
      assert cipherText[..cipherTotalLen + rsa.len] == done';
    } else {
      EndsEarly(rsa, base64, text, c, pos, i, done, cipherText.Length);
    }
  }

  /** The loop of RsaEncryptMultipleBlock over the full blocks, as many as the text has. */
  method EncryptFullBlocks(rsa: Rsa, ghost base64: Base64, text: Bytes, rsaContentLen: nat, cipherText: array<byte>)
    returns (ok: bool, pos: nat, i: nat, cipherTotalLen: nat, ghost done: Bytes)
    requires LawfulRsa(rsa) && LawfulBase64(base64) && 0 < rsaContentLen && rsaContentLen + RSA_KEY_BYTE == rsa.len
    requires cipherText.Length < I32_LIMIT
    modifies cipherText
    ensures ok ==> cipherTotalLen <= cipherText.Length && done == cipherText[..cipherTotalLen]
                   && (pos == 0 <==> done == []) && |text| - pos < rsaContentLen
                   && Midway(rsa, text, rsaContentLen, pos, i, done)
    ensures !ok ==> CannotEncrypt(rsa, base64, text, cipherText.Length)
  {
    ok, pos, i, cipherTotalLen, done := true, 0, 0, 0, [];
    MidwayStart(rsa, text, rsaContentLen);
    while |text| - pos >= rsaContentLen
      invariant ok && pos <= |text| && cipherTotalLen <= cipherText.Length && (pos == 0 <==> done == [])
      invariant done == cipherText[..cipherTotalLen]
      invariant Midway(rsa, text, rsaContentLen, pos, i, done)
    {
      ok, done := EncryptBlock(rsa, base64, text, rsaContentLen, pos, pos + rsaContentLen, i, cipherText, cipherTotalLen, done);
      if !ok {
        return;
      }
      i, pos, cipherTotalLen := i + 1, pos + rsaContentLen, cipherTotalLen + rsa.len;
    }
  }

  /** All blocks: the full ones, and one for the rest of the text. */
  method EncryptBlocks(rsa: Rsa, ghost base64: Base64, text: Bytes, rsaContentLen: nat, cipherText: array<byte>)
    returns (ok: bool, cipherTotalLen: nat, ghost done: Bytes, ghost k: nat)
    requires LawfulRsa(rsa) && LawfulBase64(base64) && 0 < rsaContentLen && rsaContentLen + RSA_KEY_BYTE == rsa.len
    requires cipherText.Length < I32_LIMIT
    modifies cipherText
    ensures ok ==> cipherTotalLen <= cipherText.Length && cipherText[..cipherTotalLen] == done
                   && (text == [] <==> done == []) && Midway(rsa, text, rsaContentLen, |text|, k, done)
    ensures !ok ==> CannotEncrypt(rsa, base64, text, cipherText.Length)
  {
    var pos, i;
    ok, pos, i, cipherTotalLen, done := EncryptFullBlocks(rsa, base64, text, rsaContentLen, cipherText);
    k := i;
    if ok && |text| - pos > 0 {
      ok, done := EncryptBlock(rsa, base64, text, rsaContentLen, pos, |text|, i, cipherText, cipherTotalLen, done);
      k, cipherTotalLen := i + 1, cipherTotalLen + rsa.len;
    }
  }

  /** RsaEncryptMultipleBlock: block after block behind each other, as many full ones as the text
      has, then one for the rest, then the base64 step over all of it. */
  method RsaEncryptMultipleBlock(rsa: Rsa, base64: Base64, plainText: Bytes, cipherText: array<byte>, mallocOk: bool)
    returns (ok: bool)
    requires LawfulRsa(rsa) && LawfulBase64(base64) && rsa.len < I32_LIMIT && cipherText.Length < I32_LIMIT
    modifies cipherText
    ensures EncryptOutcome(rsa, base64, CString(plainText), cipherText.Length, mallocOk, ok, cipherText[..])
  {
    var text := CString(plainText);
    var rsaContentLen := rsa.len - RSA_KEY_BYTE;
    if rsaContentLen <= 0 || !mallocOk {
      return false;
    }
    var cipherTotalLen;
    ghost var done, i;
    ok, cipherTotalLen, done, i := EncryptBlocks(rsa, base64, text, rsaContentLen, cipherText);
    if !ok {
      return;
    }
    ok := RsaEncryptBase64Encode(base64, cipherTotalLen, cipherText, true);
    EndsHere(rsa, base64, text, rsaContentLen, i, done, cipherText.Length, ok, cipherText[..]);
  }

  // ----- Decryption -----

  /** RsaPkcs1Decrypt: the blocks of the decoded text decrypted one behind the other. */
  method RsaPkcs1Decrypt(rsa: Rsa, base64: Base64, cipher: Bytes, plain: array<byte>, mallocOk: bool)
    returns (ok: bool, plainLen: nat)
    ensures ok <==> rsa.len > 0 && cipher != [] && mallocOk && Decrypted(rsa, base64, cipher, plain.Length).Some?
    ensures ok ==> var text := Decrypted(rsa, base64, cipher, plain.Length).value;
                   plainLen == |text| <= plain.Length && plain[..] == text + old(plain[..])[|text|..]
    modifies plain
  {
    plainLen := 0;
    if rsa.len == 0 || cipher == [] || !mallocOk {
      return false, 0;
    }
    var decoded := base64.decode(cipher);
    if decoded.None? {
      return false, 0;
    }
    var tembuf := decoded.value;
    var total: nat, at: nat := 0, 0;
    ghost var was, done: Bytes := plain[..], [];
    UndoneStart(rsa, tembuf, plain.Length);
    while |tembuf| - at >= rsa.len
      invariant at <= |tembuf| && total == |done| <= plain.Length
      invariant plain[..] == done + was[total..]
      invariant Undone(rsa, tembuf, plain.Length, at, done)
    {
      UndoneStep(rsa, tembuf, plain.Length, at, done);
      var block := rsa.decrypt(tembuf[at..at + rsa.len]);
      if block.None? {
        return false, 0;
      }
      var copied := CopyAt(plain, total, block.value);
      if !copied {
        return false, 0;
      }
      done := done + block.value;
      total, at := total + |block.value|, at + rsa.len;
    }
    assert done + [] == done;
    return true, total;
  }

  /** `done` is decrypted, and from `at` on blocks are still to be decrypted. */
  ghost predicate Undone(rsa: Rsa, raw: Bytes, room: nat, at: nat, done: Bytes) {
    && rsa.len > 0 && at <= |raw| && |done| <= room
    && Unsealed(rsa, raw, room) == Prepend(done, Unsealed(rsa, raw[at..], room - |done|))
  }

  lemma UndoneStart(rsa: Rsa, raw: Bytes, room: nat)
    requires rsa.len > 0
    ensures Undone(rsa, raw, room, 0, [])
  {
    assert raw[0..] == raw;
    var all := Unsealed(rsa, raw, room);
    assert all.Some? ==> [] + all.value == all.value;
  }

  lemma UndoneStep(rsa: Rsa, raw: Bytes, room: nat, at: nat, done: Bytes)
    requires Undone(rsa, raw, room, at, done) && |raw| - at >= rsa.len
    ensures match rsa.decrypt(raw[at..at + rsa.len])
            case None => Unsealed(rsa, raw, room) == None
            case Some(p) => if |done| == room || room - |done| > RSIZE_MAX || |done| + |p| > room then Unsealed(rsa, raw, room) == None
                            else Undone(rsa, raw, room, at + rsa.len, done + p)
  {
    var rest := raw[at..];
    assert rest[..rsa.len] == raw[at..at + rsa.len] && rest[rsa.len..] == raw[at + rsa.len..];
    var p := rsa.decrypt(rest[..rsa.len]);
    if p.Some? && |done| < room <= |done| + RSIZE_MAX && |done| + |p.value| <= room {
      var next := Unsealed(rsa, rest[rsa.len..], room - |done| - |p.value|);
      if next.Some? {
        Concat3(done, p.value, next.value);
      }
    }
  }

  function Decrypted(rsa: Rsa, base64: Base64, cipher: Bytes, room: nat): Option<Bytes> {
    if rsa.len == 0 then None
    else match base64.decode(cipher)
      case None => None
      case Some(raw) => Unsealed(rsa, raw, room)
  }

  /** Decryption after encryption gives back the C string, for every text that encrypts at all,
      and a buffer as long as the base64 text, which is what the query for decryption answers;
      memcpy_s takes no buffer of more than RSIZE_MAX bytes. */
  lemma DecryptInvertsEncrypt(rsa: Rsa, base64: Base64, plain: Bytes, room: nat)
    requires LawfulRsa(rsa) && LawfulBase64(base64)
    requires Encrypted(rsa, base64, CString(plain)).Some?
    requires room >= |Encrypted(rsa, base64, CString(plain)).value|
    ensures Decrypted(rsa, base64, Encrypted(rsa, base64, CString(plain)).value, room)
            == if room <= RSIZE_MAX then Some(CString(plain)) else None
  {
    var text, c := CString(plain), rsa.len - RSA_KEY_BYTE;
    SealedSize(rsa, text, c, 0, 0);
    if room <= RSIZE_MAX {
      UnsealedOfSealed(rsa, text, c, 0, 0, room);
    } else {
      NoRoomAbove(rsa, Sealed(rsa, text, c, 0, 0).value, room, text, c);
    }
  }

  lemma NoRoomAbove(rsa: Rsa, raw: Bytes, room: nat, text: Bytes, c: nat)
    requires LawfulRsa(rsa) && 0 < c && c + RSA_KEY_BYTE == rsa.len && text != []
    requires Sealed(rsa, text, c, 0, 0) == Some(raw) && room > RSIZE_MAX
    ensures Unsealed(rsa, raw, room) == None
  {
    var next := ChunkEnd(text, c, 0);
    var b, rest := rsa.encrypt(text[0..next], 0).value, Sealed(rsa, text, c, next, 1).value;
    assert (b + rest)[..rsa.len] == b;
  }

  /** So the plain text comes back exactly if it has no zero byte, and the buffer is not too large. */
  lemma RoundTripIff(rsa: Rsa, base64: Base64, plain: Bytes, room: nat)
    requires LawfulRsa(rsa) && LawfulBase64(base64)
    requires Encrypted(rsa, base64, CString(plain)).Some?
    requires room >= |Encrypted(rsa, base64, CString(plain)).value|
    ensures Decrypted(rsa, base64, Encrypted(rsa, base64, CString(plain)).value, room) == Some(plain) <==>
            0 !in plain && room <= RSIZE_MAX
  {
    DecryptInvertsEncrypt(rsa, base64, plain, room);
    CStringIsAllIff(plain);
  }

  /** An input that does not come back: behind its zero byte a text is lost. */
  lemma TextIsCutAtZero(rsa: Rsa, base64: Base64, room: nat)
    requires LawfulRsa(rsa) && LawfulBase64(base64) && Encrypted(rsa, base64, [1]).Some?
    requires |Encrypted(rsa, base64, [1]).value| <= room <= RSIZE_MAX
    ensures CString([1, 0, 2]) == [1]
    ensures Decrypted(rsa, base64, Encrypted(rsa, base64, CString([1, 0, 2])).value, room) == Some([1])
  {
    assert [1, 0, 2][..1] == [1];
    CStringAt([1, 0, 2], 1);
    DecryptInvertsEncrypt(rsa, base64, [1, 0, 2], room);
  }

  // ----- As callers use it -----

  /** The length a caller is told to bring can be handed in; the second call takes an int32_t. */
  predicate LengthFits(rsa: Rsa, plainLen: nat) {
    rsa.len > RSA_KEY_BYTE && QueryLength(RawLength(plainLen, rsa.len - RSA_KEY_BYTE, rsa.len)) < I32_LIMIT
  }

  /** Both calls of RsaEncrypt: the length is asked for, and a buffer of that length is handed in.
      The room is always enough. */
  method QueryAndEncrypt(rsa: Rsa, base64: Base64, plainText: Bytes, mallocOk: bool) returns (ok: bool, cipherText: Bytes)
    requires LawfulRsa(rsa) && LawfulBase64(base64) && rsa.len < I32_LIMIT && |plainText| < I32_LIMIT
    ensures ok <==> LengthFits(rsa, |plainText|) && mallocOk && Encrypted(rsa, base64, CString(plainText)).Some?
    ensures ok ==> CString(cipherText) == Encrypted(rsa, base64, CString(plainText)).value
  {
    cipherText := [];
    var length;
    ok, length := RsaEncryptSize(rsa.len, |plainText|);
    if !ok || rsa.len < RSA_KEY_BYTE || length >= I32_LIMIT {
      return false, [];
    }
    var buffer := new byte[length](_ => 0);
    ok := RsaEncryptMultipleBlock(rsa, base64, plainText, buffer, mallocOk);
    cipherText := buffer[..];
    QueryAnswered(rsa, base64, CString(plainText), |plainText|, length, mallocOk, ok, cipherText);
  }

  lemma QueryAnswered(rsa: Rsa, base64: Base64, text: Bytes, plainLen: nat, length: nat, mallocOk: bool,
                      ok: bool, buffer: Bytes)
    requires LawfulRsa(rsa) && LawfulBase64(base64) && rsa.len > RSA_KEY_BYTE && |text| <= plainLen
    requires length == QueryLength(RawLength(plainLen, rsa.len - RSA_KEY_BYTE, rsa.len))
    requires EncryptOutcome(rsa, base64, text, length, mallocOk, ok, buffer)
    ensures ok <==> mallocOk && Encrypted(rsa, base64, text).Some?
    ensures ok ==> CString(buffer) == Encrypted(rsa, base64, text).value
  {
    if Encrypted(rsa, base64, text).Some? {
      QueryIsEnough(rsa, base64, text, plainLen, length);
      var s := Encrypted(rsa, base64, text).value;
      if ok {
        assert buffer[..|s|] == s && buffer[|s|] == 0;
        CStringAt(buffer, |s|);
      }
    }
  }

  /** And decryption of what came out, into a buffer as long as the base64 text: a text that
      encrypts comes back as the C string it is. */
  method EncryptAndDecrypt(rsa: Rsa, base64: Base64, plainText: Bytes, mallocOk: bool) returns (ok: bool, decrypted: Bytes)
    requires LawfulRsa(rsa) && LawfulBase64(base64) && rsa.len < I32_LIMIT && |plainText| < I32_LIMIT
    ensures ok <==> LengthFits(rsa, |plainText|) && mallocOk && Encrypted(rsa, base64, CString(plainText)).Some?
    ensures ok ==> decrypted == CString(plainText)
  {
    decrypted := [];
    var cipherText;
    ok, cipherText := QueryAndEncrypt(rsa, base64, plainText, mallocOk);
    if !ok {
      return;
    }
    var cipher := CString(cipherText);
    TextBack(rsa, base64, plainText);
    var plain := new byte[|cipher|](_ => 0);
    var plainLen;
    ok, plainLen := RsaPkcs1Decrypt(rsa, base64, cipher, plain, true);
    decrypted := plain[..plainLen];
  }

  lemma TextBack(rsa: Rsa, base64: Base64, plain: Bytes)
    requires LawfulRsa(rsa) && LawfulBase64(base64) && LengthFits(rsa, |plain|)
    requires Encrypted(rsa, base64, CString(plain)).Some?
    ensures var s := Encrypted(rsa, base64, CString(plain)).value;
            s != [] && Decrypted(rsa, base64, s, |s|) == Some(CString(plain))
  {
    var s := Encrypted(rsa, base64, CString(plain)).value;
    NotEmpty(rsa, base64, CString(plain));
    QueryIsEnough(rsa, base64, CString(plain), |plain|, QueryLength(RawLength(|plain|, rsa.len - RSA_KEY_BYTE, rsa.len)));
    assert |s| <= RSIZE_MAX;
    DecryptInvertsEncrypt(rsa, base64, plain, |s|);
  }

  lemma NotEmpty(rsa: Rsa, base64: Base64, text: Bytes)
    requires LawfulRsa(rsa) && LawfulBase64(base64) && Encrypted(rsa, base64, text).Some?
    ensures Encrypted(rsa, base64, text).value != []
  {
    SealedSize(rsa, text, rsa.len - RSA_KEY_BYTE, 0, 0);
    assert |Sealed(rsa, text, rsa.len - RSA_KEY_BYTE, 0, 0).value| >= 1;
  }
}
