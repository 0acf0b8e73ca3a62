/** Key material: a header of 32-bit words (algorithm, key size, the sizes of the components)
    followed by the components.  It is checked on import (`hks_check_paramset.c`), cut into its
    components (`hks_client_service_adapter.c`) and, for 25519 keys, packed and unpacked
    (`hks_crypto_adapter.c`). */
module KeyMaterial {
  import opened CTypes

  /** The five struct layouts: which components, in header and body order, and whether a reserved
      word follows the sizes. */
  datatype Family =
    | Rsa      // n, e, d
    | Ecc      // x, y, z; also SM2
    | Dsa      // x, y, p, q, g
    | Curve    // public, private; X25519 and ED25519
    | Dh       // public, private

  function PartCount(f: Family): nat {
    match f
    case Rsa => 3
    case Ecc => 3
    case Dsa => 5
    case Curve => 2
    case Dh => 2
  }

  function ReservedCount(f: Family): nat {
    if f.Curve? || f.Dh? then 1 else 0
  }

  /** Which component is the private one. */
  function Private(f: Family): (i: nat)
    ensures i < PartCount(f)
  {
    match f
    case Rsa => 2
    case Ecc => 2
    case Dsa => 0
    case Curve => 1
    case Dh => 1
  }

  function HeaderBytes(f: Family): nat {
    if f.Dsa? then 28 else 20
  }

  datatype Material = Material(alg: u32, keySize: u32, parts: seq<seq<byte>>, reserved: seq<u32>)

  predicate Fits(f: Family, k: Material) {
    && |k.parts| == PartCount(f) && |k.reserved| == ReservedCount(f)
    && forall i :: 0 <= i < |k.parts| ==> |k.parts[i]| < U32_LIMIT
  }

  // ----- Words and components -----

  function EncodeWords(ws: seq<u32>): seq<byte> {
    if ws == [] then [] else StoreU32(ws[0]) + EncodeWords(ws[1..])
  }

  /** The header word `i` of a struct that lies at the start of `b`. */
  function Word(b: seq<byte>, i: nat): u32
    requires 4 * i + 4 <= |b|
  {
    LoadU32(b[4 * i..])
  }

  lemma {:induction false} WordOfEncode(ws: seq<u32>, rest: seq<byte>, i: nat)
    ensures |EncodeWords(ws)| == 4 * |ws|
    ensures i < |ws| ==> Word(EncodeWords(ws) + rest, i) == ws[i]
  {
    if ws != [] {
      var head, tail := StoreU32(ws[0]), EncodeWords(ws[1..]);
      WordOfEncode(ws[1..], rest, if i == 0 then 0 else i - 1);
      Concat3(head, tail, rest);
      var b := EncodeWords(ws) + rest;
      if i == 0 {
        assert b[4 * i..][..4] == head == head[..4];
      } else if i < |ws| {
        assert b[4 * i..] == (tail + rest)[4 * (i - 1)..];
      }
    }
  }

  lemma AllWordsOfEncode(ws: seq<u32>, rest: seq<byte>)
    ensures |EncodeWords(ws)| == 4 * |ws|
    ensures forall i :: 0 <= i < |ws| ==> Word(EncodeWords(ws) + rest, i) == ws[i]
  {
    WordOfEncode(ws, rest, 0);
    forall i | 0 <= i < |ws|
      ensures Word(EncodeWords(ws) + rest, i) == ws[i]
    {
      WordOfEncode(ws, rest, i);
    }
  }

  /** The first `n` words of a header. */
  function Words(b: seq<byte>, n: nat): (ws: seq<u32>)
    requires 4 * n <= |b|
    ensures |ws| == n
  {
    seq(n, i requires 0 <= i < n => Word(b, i))
  }

  lemma {:induction false} EncodeOfWords(b: seq<byte>, n: nat)
    requires 4 * n <= |b|
    ensures EncodeWords(Words(b, n)) == b[..4 * n]
  {
    if n > 0 {
      EncodeOfWords(b[4..], n - 1);
      StoreOfLoad(b);
      assert b[4 * 0..] == b;
      forall i | 0 <= i < n - 1
        ensures Words(b, n)[1..][i] == Words(b[4..], n - 1)[i]
      {
        assert b[4..][4 * i..] == b[4 * (i + 1)..];
      }
      assert Words(b, n)[1..] == Words(b[4..], n - 1) && Words(b, n)[0] == LoadU32(b);
      assert b[..4 * n] == b[..4] + b[4..][..4 * (n - 1)];
    }
  }

  function Flatten(parts: seq<seq<byte>>): seq<byte> {
    if parts == [] then [] else parts[0] + Flatten(parts[1..])
  }

  function Sizes(parts: seq<seq<byte>>): (ns: seq<nat>)
    ensures |ns| == |parts|
  {
    seq(|parts|, i requires 0 <= i < |parts| => |parts[i]|)
  }

  function Sum(ns: seq<nat>): nat {
    if ns == [] then 0 else ns[0] + Sum(ns[1..])
  }

  lemma SumOfTwo(ns: seq<nat>)
    requires |ns| == 2
    ensures Sum(ns) == ns[0] + ns[1]
  {
    assert Sum(ns[1..]) == ns[1] + Sum(ns[1..][1..]);
  }

  lemma SumOfThree(ns: seq<nat>)
    requires |ns| == 3
    ensures Sum(ns) == ns[0] + ns[1] + ns[2]
  {
    SumOfTwo(ns[1..]);
  }

  lemma SumOfFive(ns: seq<nat>)
    requires |ns| == 5
    ensures Sum(ns) == ns[0] + ns[1] + ns[2] + ns[3] + ns[4]
  {
    SumOfThree(ns[2..]);
    assert ns[1..][1..] == ns[2..];
    assert Sum(ns[1..]) == ns[1] + Sum(ns[2..]);
  }

  /** Consecutive slices of `b` of the given sizes. */
  function Cut(b: seq<byte>, ns: seq<nat>): (parts: seq<seq<byte>>)
    requires Sum(ns) <= |b|
    ensures |parts| == |ns|
  {
    if ns == [] then [] else [b[..ns[0]]] + Cut(b[ns[0]..], ns[1..])
  }

  lemma {:induction false} CutOfFlatten(parts: seq<seq<byte>>, rest: seq<byte>)
    ensures |Flatten(parts)| == Sum(Sizes(parts))
    ensures Cut(Flatten(parts) + rest, Sizes(parts)) == parts
  {
    if parts != [] {
      CutOfFlatten(parts[1..], rest);
      assert Sizes(parts)[1..] == Sizes(parts[1..]);
      var b := Flatten(parts) + rest;
      Concat3(parts[0], Flatten(parts[1..]), rest);
      assert b[..|parts[0]|] == parts[0] && b[|parts[0]|..] == Flatten(parts[1..]) + rest;
    }
  }

  lemma {:induction false} FlattenOfCut(b: seq<byte>, ns: seq<nat>)
    requires Sum(ns) <= |b|
    ensures Sizes(Cut(b, ns)) == ns && Flatten(Cut(b, ns)) == b[..Sum(ns)]
  {
    if ns != [] {
      FlattenOfCut(b[ns[0]..], ns[1..]);
      var parts := Cut(b, ns);
      assert parts[1..] == Cut(b[ns[0]..], ns[1..]);
      assert Sizes(parts) == [ns[0]] + Sizes(parts[1..]);
      assert b[..Sum(ns)] == b[..ns[0]] + b[ns[0]..][..Sum(ns[1..])];
    }
  }

  // ----- The format -----

  function HeaderWords(k: Material): (ws: seq<u32>)
    requires forall i :: 0 <= i < |k.parts| ==> |k.parts[i]| < U32_LIMIT
    ensures |ws| == 2 + |k.parts| + |k.reserved|
  {
    [k.alg, k.keySize] + seq(|k.parts|, i requires 0 <= i < |k.parts| => |k.parts[i]|) + k.reserved
  }

  function Encode(f: Family, k: Material): seq<byte>
    requires Fits(f, k)
  {
    EncodeWords(HeaderWords(k)) + Flatten(k.parts)
  }

  /** The component sizes a header says. */
  function PartSizes(f: Family, b: seq<byte>): (ns: seq<nat>)
    requires HeaderBytes(f) <= |b|
    ensures |ns| == PartCount(f) && forall i :: 0 <= i < |ns| ==> ns[i] == Word(b, 2 + i)
  {
    seq(PartCount(f), i requires 0 <= i < PartCount(f) => Word(b, 2 + i))
  }

  function Decode(f: Family, b: seq<byte>): (k: Material)
    requires HeaderBytes(f) <= |b| && HeaderBytes(f) + Sum(PartSizes(f, b)) <= |b|
  {
    Material(Word(b, 0), Word(b, 1), Cut(b[HeaderBytes(f)..], PartSizes(f, b)),
             if ReservedCount(f) == 0 then [] else [Word(b, 4)])
  }

  /** What the words of an encoded header are. */
  lemma EncodedHeader(f: Family, k: Material, tail: seq<byte>)
    requires Fits(f, k)
    ensures var b := Encode(f, k) + tail;
            && HeaderBytes(f) <= |b| && Word(b, 0) == k.alg && Word(b, 1) == k.keySize
            && PartSizes(f, b) == Sizes(k.parts)
            && b[..HeaderBytes(f)] == EncodeWords(HeaderWords(k))
            && b[HeaderBytes(f)..] == Flatten(k.parts) + tail
            && (ReservedCount(f) == 1 ==> Word(b, 4) == k.reserved[0])
  {
    var ws, rest := HeaderWords(k), Flatten(k.parts) + tail;
    Concat3(EncodeWords(ws), Flatten(k.parts), tail);
    AllWordsOfEncode(ws, rest);
    assert forall i :: 0 <= i < PartCount(f) ==> ws[2 + i] == |k.parts[i]|;
  }

  /** Decoding inverts encoding, whatever follows. */
  lemma DecodeOfEncode(f: Family, k: Material, tail: seq<byte>)
    requires Fits(f, k)
    ensures var b := Encode(f, k) + tail;
            && HeaderBytes(f) <= |b| && HeaderBytes(f) + Sum(PartSizes(f, b)) == |Encode(f, k)| <= |b|
            && Decode(f, b) == k
  {
    EncodedHeader(f, k, tail);
    CutOfFlatten(k.parts, tail);
  }

  lemma HeaderWordsAre(k: Material, b: seq<byte>)
    requires 4 * (2 + |k.parts| + |k.reserved|) <= |b| && |k.reserved| <= 1
    requires forall i :: 0 <= i < |k.parts| ==> |k.parts[i]| < U32_LIMIT && |k.parts[i]| == Word(b, 2 + i)
    requires k.alg == Word(b, 0) && k.keySize == Word(b, 1)
    requires |k.reserved| == 1 ==> k.reserved[0] == Word(b, 2 + |k.parts|)
    ensures HeaderWords(k) == Words(b, 2 + |k.parts| + |k.reserved|)
  {
    forall i | 0 <= i < |HeaderWords(k)|
      ensures HeaderWords(k)[i] == Words(b, |HeaderWords(k)|)[i]
    {
      assert 2 <= i < 2 + |k.parts| ==> |k.parts[i - 2]| == Word(b, 2 + (i - 2));
    }
  }

  lemma DecodedHeader(f: Family, b: seq<byte>)
    requires HeaderBytes(f) <= |b| && HeaderBytes(f) + Sum(PartSizes(f, b)) <= |b|
    ensures Fits(f, Decode(f, b)) && EncodeWords(HeaderWords(Decode(f, b))) == b[..HeaderBytes(f)]
    ensures Sizes(Decode(f, b).parts) == PartSizes(f, b)
    ensures Flatten(Decode(f, b).parts) == b[HeaderBytes(f)..][..Sum(PartSizes(f, b))]
  {
    var k, h := Decode(f, b), HeaderBytes(f);
    FlattenOfCut(b[h..], PartSizes(f, b));
    assert forall i :: 0 <= i < |k.parts| ==> |k.parts[i]| == Sizes(k.parts)[i];
    HeaderWordsAre(k, b);
    EncodeOfWords(b, h / 4);
  }

  /** And every blob with a consistent header is an encoding with something behind it. */
  lemma EncodeOfDecode(f: Family, b: seq<byte>)
    requires HeaderBytes(f) <= |b| && HeaderBytes(f) + Sum(PartSizes(f, b)) <= |b|
    ensures Fits(f, Decode(f, b)) && Sizes(Decode(f, b).parts) == PartSizes(f, b)
    ensures b == Encode(f, Decode(f, b)) + b[HeaderBytes(f) + Sum(PartSizes(f, b))..]
  {
    DecodedHeader(f, b);
    SplitTwice(b, HeaderBytes(f), Sum(PartSizes(f, b)));
  }

  lemma SplitTwice(b: seq<byte>, m: nat, n: nat)
    requires m + n <= |b|
    ensures b == b[..m] + b[m..][..n] + b[m + n..]
  {
  }
}
