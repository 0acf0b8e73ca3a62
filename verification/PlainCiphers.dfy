/** The ciphers once more, in numbers and bytes only. */
module PlainCiphers {
  import opened CTypes
  import opened CText
  import opened ParamLayout
  import opened ParamTags
  import R = RsaCipher
  import A = Aead
  import P = AesPadding

  // ----- RSA -----

  /** The raw length: one block for every started chunk. */
  lemma RawLengthPlainly(n: nat, c: nat, len: nat, blocks: nat)
    requires c > 0 && (blocks - 1) * c < n <= blocks * c
    ensures R.RawLength(n, c, len) == len * blocks
  {
    if n == blocks * c {
      R.RawLengthIs(n, c, len, blocks, 0);
    } else {
      R.RawLengthIs(n, c, len, blocks - 1, n - (blocks - 1) * c);
      assert len * (blocks - 1) + len == len * blocks;
    }
  }

  /** The queried length exceeds the base64 text with its zero byte by at most 4. */
  lemma QueryPlainly(total: nat)
    ensures 4 * ((total + 2) / 3) + 1 <= R.QueryLength(total) <= 4 * ((total + 2) / 3) + 5
    ensures R.QueryLength(total) == 4 * (total / 3) + 5
  {
  }

  /** A text of one block, and keys without room for any text. */
  lemma OneBlockPlainly(rsa: R.Rsa, base64: Base64, text: Bytes)
    ensures rsa.len <= 66 || text == [] ==> R.Encrypted(rsa, base64, text) == None
    ensures rsa.len > 66 && 0 < |text| <= rsa.len - 66 ==>
              R.Encrypted(rsa, base64, text) == match rsa.encrypt(text, 0)
                                                case None => None
                                                case Some(b) => Some(base64.encode(b))
  {
    if rsa.len > 66 && 0 < |text| <= rsa.len - 66 {
      assert text[0..|text|] == text;
      SealedPlainly(rsa, text, rsa.len - 66, 0, 0);
      SealedPlainly(rsa, text, rsa.len - 66, 0, 1);
      var b := rsa.encrypt(text, 0);
      assert b.Some? ==> b.value + [] == b.value;
    }
  }

  /** A longer text: its first chunk with draw `i`, and the rest with the draws after it. */
  lemma SealedPlainly(rsa: R.Rsa, text: Bytes, c: nat, pos: nat, i: nat)
    requires 0 < c && pos < |text|
    ensures R.Sealed(rsa, text, c, |text|, i) == Some([])
    ensures var next := if pos + c <= |text| then pos + c else |text|;
            var b, rest := rsa.encrypt(text[pos..next], i), R.Sealed(rsa, text, c, next, i + 1);
            R.Sealed(rsa, text, c, pos, i) == if b.Some? && rest.Some? then Some(b.value + rest.value) else None
  {
  }

  lemma EncryptedPlainly(rsa: R.Rsa, base64: Base64, text: Bytes)
    requires rsa.len > 66 && text != []
    ensures var raw := R.Sealed(rsa, text, rsa.len - 66, 0, 0);
            R.Encrypted(rsa, base64, text) == if raw.None? then None else Some(base64.encode(raw.value))
  {
  }

  /** How the second call of RsaEncrypt ends. */
  lemma EncryptsPlainly(rsa: R.Rsa, base64: Base64, text: Bytes, room: nat, mallocOk: bool, ok: bool, buffer: Bytes)
    requires R.EncryptOutcome(rsa, base64, text, room, mallocOk, ok, buffer)
    ensures var e := R.Encrypted(rsa, base64, text);
            && (ok <==> mallocOk && e.Some? && |e.value| + 1 <= room)
            && (ok ==> |buffer| == room && buffer[..|e.value|] == e.value &&
                       forall k :: |e.value| <= k < room ==> buffer[k] == 0)
  {
  }

  /** Decryption, block by block. */
  lemma DecryptedPlainly(rsa: R.Rsa, base64: Base64, cipher: Bytes, raw: Bytes, room: nat)
    requires rsa.len > 0 && base64.decode(cipher) == Some(raw)
    ensures R.Decrypted(rsa, base64, cipher, room) == R.Unsealed(rsa, raw, room)
    ensures |raw| < rsa.len ==> R.Unsealed(rsa, raw, room) == Some([])
    ensures |raw| >= rsa.len ==>
              var p := rsa.decrypt(raw[..rsa.len]);
              if p.None? || room == 0 || room > 0x7FFF_FFFF || |p.value| > room then R.Unsealed(rsa, raw, room) == None
              else var rest := R.Unsealed(rsa, raw[rsa.len..], room - |p.value|);
                   R.Unsealed(rsa, raw, room) == if rest.None? then None else Some(p.value + rest.value)
  {
  }

  // ----- AES-GCM and AES-CCM -----

  lemma NumbersPlainly(es: seq<Entry>, tag: u32, word: u64)
    ensures Find(es, tag) == Found(Scalar(word)) ==> A.WordOf(es, tag) == Some(word % 0x1_0000_0000)
    ensures Find(es, tag) == Missing ==> A.WordOf(es, tag) == None
  {
  }

  /** The parameters of a command: the numbers and blobs that stand under its tags. */
  predicate Holds(es: seq<Entry>, alg: u32, purpose: u32, padding: Option<u32>, mode: u32, nonce: Bytes, aad: Option<Bytes>) {
    && Find(es, 0x2000_0001) == Found(Scalar(alg))
    && Find(es, 0x2000_0002) == Found(Scalar(purpose))
    && Find(es, 0x2000_0005) == (if padding.Some? then Found(Scalar(padding.value)) else Missing)
    && Find(es, 0x2000_0006) == Found(Scalar(mode))
    && Find(es, 0x5000_0009) == Found(Octets(nonce))
    && Find(es, 0x5000_0008) == (if aad.Some? then Found(Octets(aad.value)) else Missing)
  }

  /** Exactly which commands are accepted. */
  lemma AcceptedPlainly(isEncrypt: bool, key: Bytes, es: seq<Entry>, input: Bytes, room: nat, mallocOk: bool,
                        alg: u32, purpose: u32, padding: Option<u32>, mode: u32, nonce: Bytes, aad: Option<Bytes>)
    requires Holds(es, alg, purpose, padding, mode, nonce, aad) && |key| < 0x2000_0000
    ensures A.Accepted(isEncrypt, key, es, input, room, mallocOk) <==>
            && alg == 20 && |key| in {16, 24, 32} && mallocOk && room > 0
            && (if isEncrypt then purpose % 2 == 1 else purpose / 2 % 2 == 1)
            && padding in {None, Some(0)}
            && (|| (mode == 32 && |nonce| >= 12)
                || (mode == 31 && 7 <= |nonce| <= 13 && aad.Some? && |aad.value| >= 4))
            && (if isEncrypt then 0 < |input| && |input| + 16 <= room else 16 < |input| <= room + 16)
  {
    NumbersPlainly(es, 0x2000_0001, alg);
    NumbersPlainly(es, 0x2000_0002, purpose);
    NumbersPlainly(es, 0x2000_0005, if padding.Some? then padding.value else 0);
    NumbersPlainly(es, 0x2000_0006, mode);
  }

  /** A number or the nonce missing, or a blob without bytes, and no command is accepted. */
  lemma RefusedPlainly(isEncrypt: bool, key: Bytes, es: seq<Entry>, input: Bytes, room: nat, mallocOk: bool)
    requires || Find(es, 0x2000_0001) == Missing || Find(es, 0x2000_0002) == Missing || Find(es, 0x2000_0006) == Missing
             || Find(es, 0x5000_0009) in {Missing, EmptyBlob} || Find(es, 0x5000_0008) == EmptyBlob
    ensures !A.Accepted(isEncrypt, key, es, input, room, mallocOk)
  {
  }

  /** What HksFillAeadParam needs. */
  lemma ParamsOkPlainly(es: seq<Entry>)
    ensures Find(es, 0x5000_0009) in {Missing, EmptyBlob} || Find(es, 0x5000_0008) == EmptyBlob ==> !A.ParamsOk(es)
    ensures Find(es, 0x5000_0009).Found? && Find(es, 0x5000_0008) != EmptyBlob ==> A.ParamsOk(es)
  {
  }

  /** What a command computes from them. */
  lemma SealsPlainly(c: A.Cipher, key: Bytes, es: seq<Entry>, input: Bytes,
                     alg: u32, purpose: u32, padding: Option<u32>, mode: u32, nonce: Bytes, aad: Option<Bytes>)
    requires Holds(es, alg, purpose, padding, mode, nonce, aad)
    ensures var a := if aad.Some? then aad.value else [];
            && A.Sealed(c, key, es, input) == c.seal(key, nonce, a, input).0 + c.seal(key, nonce, a, input).1
            && (|input| <= 16 ==> A.Opened(c, key, es, input) == None)
            && (|input| > 16 ==>
                  A.Opened(c, key, es, input) == c.open(key, nonce, a, input[..|input| - 16], input[|input| - 16..]))
  {
  }

  /** A parameter set for both directions, entry by entry. */
  function Parameters(mode: u32, nonce: Bytes, aad: Option<Bytes>): seq<Entry> {
    [Entry(0x2000_0001, Scalar(20)), Entry(0x2000_0002, Scalar(3)), Entry(0x2000_0006, Scalar(mode)),
     Entry(0x5000_0009, Octets(nonce))] + if aad.Some? then [Entry(0x5000_0008, Octets(aad.value))] else []
  }

  lemma ParametersHold(mode: u32, nonce: Bytes, aad: Option<Bytes>)
    requires nonce != [] && (aad.Some? ==> aad.value != [])
    ensures Holds(Parameters(mode, nonce, aad), 20, 3, None, mode, nonce, aad)
  {
    var es := Parameters(mode, nonce, aad);
    FindFirst(es, 0x2000_0001, 0);
    FindFirst(es, 0x2000_0002, 1);
    FindFirst(es, 0x2000_0006, 2);
    FindFirst(es, 0x5000_0009, 3);
    FindMissing(es, 0x2000_0005);
    FindMissing(es, 0x5000_0008);
    if aad.Some? {
      FindFirst(es, 0x5000_0008, 4);
    }
  }

  /** GCM goes without associated data; CCM takes 4 bytes of it or more, and does not go without. */
  lemma ModesPlainly(key: Bytes, nonce: Bytes, aad: Bytes, input: Bytes, room: nat)
    requires |key| == 16 && |nonce| == 12 && |aad| == 4
    ensures A.Accepted(true, key, Parameters(32, nonce, None), input, room, true) <==> input != [] && |input| + 16 <= room
    ensures A.Accepted(true, key, Parameters(31, nonce, Some(aad)), input, room, true) <==> input != [] && |input| + 16 <= room
    ensures !A.Accepted(true, key, Parameters(31, nonce, None), input, room, true)
  {
    ParametersHold(32, nonce, None);
    ParametersHold(31, nonce, Some(aad));
    ParametersHold(31, nonce, None);
    AcceptedPlainly(true, key, Parameters(32, nonce, None), input, room, true, 20, 3, None, 32, nonce, None);
    AcceptedPlainly(true, key, Parameters(31, nonce, Some(aad)), input, room, true, 20, 3, None, 31, nonce, Some(aad));
    AcceptedPlainly(true, key, Parameters(31, nonce, None), input, room, true, 20, 3, None, 31, nonce, None);
  }

  /** Which commands are for other ciphers. */
  lemma OtherCipherPlainly(es: seq<Entry>)
    ensures A.OtherCipher(es) <==>
            || A.WordOf(es, 0x2000_0001) == Some(1)
            || (A.WordOf(es, 0x2000_0001) == Some(20) && A.WordOf(es, 0x2000_0006) in {Some(1), Some(2), Some(3)})
  {
  }

  // ----- AES-CBC -----

  /** Padding fills the last block with its own length, and leaves whole blocks alone. */
  lemma PaddedPlainly(t: Bytes)
    ensures |t| % 16 == 0 ==> P.Padded(t) == t
    ensures |t| % 16 != 0 ==>
              var n := 16 - |t| % 16;
              |P.Padded(t)| == |t| + n && P.Padded(t)[..|t|] == t && forall k :: |t| <= k < |t| + n ==> P.Padded(t)[k] == n
  {
  }

  /** Unpadding gives `t` exactly for `t` followed by 1 to 15 bytes of that number. */
  lemma UnpaddedPlainly(s: Bytes, t: Bytes)
    ensures P.Unpadded(s) == P.Text(t) <==>
            var n := |s| - |t|;
            1 <= n <= 15 && s[..|t|] == t && forall k :: |t| <= k < |s| ==> s[k] == n
  {
    var n := |s| - |t|;
    if P.Unpadded(s) == P.Text(t) {
      var p := s[|s| - 1];
      assert n == p;
      assert forall k :: |t| <= k < |s| ==> s[k] == s[|s| - p..][k - |t|];
    }
    if 1 <= n <= 15 && s[..|t|] == t && forall k :: |t| <= k < |s| ==> s[k] == n {
      assert s[|s| - 1] == n;
      assert s[|s| - n..] == P.Repeated(n, n);
    }
  }

  /** It reads before the data exactly if there is none, or if all of it is padding that asks for more. */
  lemma ReadBeforePlainly(s: Bytes)
    ensures P.Unpadded(s) == P.ReadBefore <==>
            s == [] || (1 <= s[|s| - 1] <= 15 && |s| < s[|s| - 1] as int && forall k :: 0 <= k < |s| ==> s[k] == s[|s| - 1])
  {
    if s != [] && P.Unpadded(s) == P.ReadBefore {
      assert s == P.Repeated(s[|s| - 1], |s|);
    }
    if s != [] && forall k :: 0 <= k < |s| ==> s[k] == s[|s| - 1] {
      assert s == P.Repeated(s[|s| - 1], |s|);
    }
  }

  /** The two pipelines. */
  lemma PipelinesPlainly(c: P.Cbc, base64: Base64, t: Bytes, s: Bytes, raw: Bytes)
    ensures P.Encrypted(c, base64, t) == base64.encode(c.encrypt(P.Padded(t)))
    ensures base64.decode(s) == None || base64.decode(s) == Some([]) ==> P.Decrypted(c, base64, s) == P.Refused
    ensures raw != [] && base64.decode(s) == Some(raw) ==>
              P.Decrypted(c, base64, s) == P.Unpadded(c.decrypt(raw[..|raw| - |raw| % 16]))
  {
  }
}
