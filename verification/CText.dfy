/** What the cipher library (`crypto_lite`) shares: C strings and base64 (section 4 of RFC 4648), of
    which only sizes and inverses are known. */
module CText {
  import opened CTypes

  datatype Base64 = Base64(encode: Bytes -> Bytes, decode: Bytes -> Option<Bytes>)

  ghost predicate LawfulBase64(b: Base64) {
    && (forall x :: |b.encode(x)| == 4 * ((|x| + 2) / 3) && 0 !in b.encode(x))
    && (forall x :: b.decode(b.encode(x)) == Some(x))
  }

  /** The C string that starts the buffer: what strlen sees. */
  function CString(s: Bytes): (t: Bytes)
    ensures t <= s && 0 !in t && (t == s || s[|t|] == 0)
  {
    if s == [] || s[0] == 0 then [] else
      assert s == [s[0]] + s[1..];
      [s[0]] + CString(s[1..])
  }

  lemma CStringIsAllIff(s: Bytes)
    ensures CString(s) == s <==> 0 !in s
  {
    if CString(s) != s {
      assert s[|CString(s)|] == 0;
    }
  }

  lemma {:induction false} CStringAt(s: Bytes, n: nat)
    requires n < |s| && s[n] == 0 && 0 !in s[..n]
    ensures CString(s) == s[..n]
  {
    if n > 0 {
      assert s[0] in s[..n] && s[1..][..n - 1] == s[..n][1..] && s[..n] == [s[0]] + s[1..][..n - 1];
      CStringAt(s[1..], n - 1);
    }
  }
}
