/** The assumptions about foreign code can be met: base64 of section 4 of RFC 4648 itself, and for
    each cipher one (useless) function that has the sizes and inverses the real one has. */
module Instances {
  import opened CTypes
  import opened CText
  import R = RsaCipher
  import A = Aead
  import P = AesPadding

  // ----- Base64 -----

  function Letter(v: int): (b: byte)
    requires 0 <= v < 64
    ensures b != 0 && b != 61 && Position(b) == v
  {
    if v < 26 then v + 65 else if v < 52 then v + 71 else if v < 62 then v - 4 else if v == 62 then 43 else 47
  }

  function Position(b: byte): int {
    if 65 <= b <= 90 then b - 65
    else if 97 <= b <= 122 then b as int - 71
    else if 48 <= b <= 57 then b + 4
    else if b == 43 then 62
    else 63
  }

  /** Two numbers put together to one. */
  function Join(u: int, k: int, v: int): int {
    u * k + v
  }

  lemma Joined16(u: int, v: int)
    requires 0 <= u < 4 && 0 <= v < 16
    ensures 0 <= Join(u, 16, v) < 64 && Join(u, 16, v) / 16 == u && Join(u, 16, v) % 16 == v
  {
  }

  lemma Joined4(u: int, v: int)
    requires 0 <= u < 16 && 0 <= v < 4
    ensures 0 <= Join(u, 4, v) < 64 && Join(u, 4, v) / 4 == u && Join(u, 4, v) % 4 == v
  {
  }

  /** Three bytes are four letters; one or two are filled up with `=`. */
  function Group(x: Bytes): (s: Bytes)
    requires 1 <= |x| <= 3
    ensures |s| == 4 && 0 !in s
  {
    var a, b, c := x[0] as int, if |x| > 1 then x[1] as int else 0, if |x| > 2 then x[2] as int else 0;
    Joined16(a % 4, b / 16);
    Joined4(b % 16, c / 64);
    [Letter(a / 4), Letter(Join(a % 4, 16, b / 16)),
     if |x| > 1 then Letter(Join(b % 16, 4, c / 64)) else 61, if |x| > 2 then Letter(c % 64) else 61]
  }

  function Ungroup(s: Bytes): Bytes
    requires |s| == 4
  {
    var a, b, c, d := Position(s[0]), Position(s[1]), Position(s[2]), Position(s[3]);
    [Low(a * 4 + b / 16)] + (if s[2] == 61 then [] else [Low(b % 16 * 16 + c / 4)])
    + (if s[3] == 61 then [] else [Low(c % 4 * 64 + d)])
  }

  function Low(v: int): byte {
    v % 0x100
  }

  lemma UngroupOfGroup(x: Bytes)
    requires 1 <= |x| <= 3
    ensures Ungroup(Group(x)) == x
  {
    var a, b, c := x[0] as int, if |x| > 1 then x[1] as int else 0, if |x| > 2 then x[2] as int else 0;
    Joined16(a % 4, b / 16);
    Joined4(b % 16, c / 64);
    Parted(a, 4);
    Parted(b, 16);
    Parted(c, 64);
  }

  lemma Parted(a: byte, k: int)
    requires k in {4, 16, 64}
    ensures Low(a as int / k * k + a as int % k) == a
  {
  }

  function Encode(x: Bytes): Bytes {
    if x == [] then [] else if |x| <= 3 then Group(x) else Group(x[..3]) + Encode(x[3..])
  }

  function Decode(s: Bytes): Option<Bytes> {
    if |s| < 4 then (if s == [] then Some([]) else None)
    else
      var rest := Decode(s[4..]);
      if rest.None? then None else Some(Ungroup(s[..4]) + rest.value)
  }

  lemma {:induction false} LengthOfEncode(x: Bytes)
    ensures |Encode(x)| == 4 * ((|x| + 2) / 3) && 0 !in Encode(x)
  {
    if |x| > 3 {
      LengthOfEncode(x[3..]);
      GroupsAdd(Group(x[..3]), Encode(x[3..]), |x|);
    }
  }

  lemma GroupsAdd(g: Bytes, rest: Bytes, n: nat)
    requires |g| == 4 && 0 !in g && 0 !in rest && n > 3 && |rest| == 4 * ((n - 3 + 2) / 3)
    ensures |g + rest| == 4 * ((n + 2) / 3) && 0 !in g + rest
  {
  }

  lemma {:induction false} DecodeOfEncode(x: Bytes)
    ensures Decode(Encode(x)) == Some(x)
  {
    if 1 <= |x| <= 3 {
      UngroupOfGroup(x);
      assert Group(x)[..4] == Group(x) && Group(x)[4..] == [] && x + [] == x;
    } else if |x| > 3 {
      UngroupOfGroup(x[..3]);
      DecodeOfEncode(x[3..]);
      var g, rest := Group(x[..3]), Encode(x[3..]);
      assert (g + rest)[..4] == g && (g + rest)[4..] == rest && x == x[..3] + x[3..];
    }
  }

  lemma Base64IsLawful()
    ensures LawfulBase64(Base64(Encode, Decode))
  {
    forall x
      ensures |Encode(x)| == 4 * ((|x| + 2) / 3) && 0 !in Encode(x) && Decode(Encode(x)) == Some(x)
    {
      LengthOfEncode(x);
      DecodeOfEncode(x);
    }
  }

  /** `Man` and `M`. */
  lemma Base64Examples()
    ensures Encode([77, 97, 110]) == [84, 87, 70, 117] && Encode([77]) == [84, 81, 61, 61]
  {
  }

  // ----- Ciphers -----

  function Boxed(c: Bytes, draw: nat): Option<Bytes> {
    if |c| <= 34 then Some([|c|] + c + Zeros(99 - |c|)) else None
  }

  function Unboxed(b: Bytes): Option<Bytes> {
    if |b| == 100 && b[0] <= 34 then Some(b[1..1 + b[0] as int]) else None
  }

  lemma RsaIsLawful()
    ensures R.LawfulRsa(R.Rsa(100, Boxed, Unboxed))
    ensures forall c, r :: |c| <= 100 - 66 ==> Boxed(c, r).Some?
  {
    forall c: Bytes, r: nat | |c| <= 34
      ensures Unboxed(Boxed(c, r).value) == Some(c)
    {
      assert Boxed(c, r).value[1..1 + |c|] == c;
    }
  }

  lemma AeadIsLawful()
    ensures A.Lawful(A.Cipher((k, n, d, p) => (p, Zeros(16)), (k, n, d, t, g) => if |g| == 16 then Some(t) else None))
  {
  }

  lemma CbcIsLawful()
    ensures P.Lawful(P.Cbc(s => s, s => s))
  {
  }
}
