/** The public part of key material: how it is made from generated material
    (`hks_crypto_adapter.c`), and how it is cut into components when it is translated to X.509
    (`hks_client_service_adapter.c`). */
module KeyPublic {
  import opened CTypes
  import opened Memory
  import opened KeyMaterial

  // ----- The public part -----

  /** The material without its private component. */
  function Public(f: Family, k: Material): (p: Material)
    requires Fits(f, k)
    ensures Fits(f, p)
  {
    k.(parts := k.parts[Private(f) := []])
  }

  /** How many bytes of components the public part has. */
  function PublicSize(f: Family, b: seq<byte>): nat
    requires HeaderBytes(f) <= |b|
  {
    Sum(PartSizes(f, b)[Private(f) := 0])
  }

  /** Where in the material the public components start: DSA has its private one in front. */
  function PublicStart(f: Family, b: seq<byte>): nat
    requires HeaderBytes(f) <= |b|
  {
    HeaderBytes(f) + if f.Dsa? then Word(b, 2) else 0
  }

  /** The header with a private size of zero, and the public components. */
  function PublicPart(f: Family, b: seq<byte>): (p: seq<byte>)
    requires HeaderBytes(f) <= |b| && PublicStart(f, b) + PublicSize(f, b) <= |b|
    ensures |p| == HeaderBytes(f) + PublicSize(f, b)
  {
    Overwrite(b[..HeaderBytes(f)], 4 * (2 + Private(f)), StoreU32(0)) +
    b[PublicStart(f, b)..][..PublicSize(f, b)]
  }

  lemma OverwriteRight(a: seq<byte>, b: seq<byte>, off: nat, c: seq<byte>)
    requires off + |c| <= |b|
    ensures Overwrite(a + b, |a| + off, c) == a + Overwrite(b, off, c)
  {
    assert (a + b)[..|a| + off] == a + b[..off];
    assert (a + b)[|a| + off + |c|..] == b[off + |c|..];
  }

  lemma {:induction false} WordsZeroed(ws: seq<u32>, i: nat)
    requires i < |ws|
    ensures |EncodeWords(ws)| == 4 * |ws|
    ensures Overwrite(EncodeWords(ws), 4 * i, StoreU32(0)) == EncodeWords(ws[i := 0])
  {
    WordOfEncode(ws, [], 0);
    var head, tail := StoreU32(ws[0]), EncodeWords(ws[1..]);
    if i == 0 {
      assert ws[0 := 0][1..] == ws[1..];
      assert (head + tail)[4..] == tail && (head + tail)[..0] == [];
    } else {
      WordsZeroed(ws[1..], i - 1);
      assert ws[i := 0][1..] == ws[1..][i - 1 := 0];
      OverwriteRight(head, tail, 4 * (i - 1), StoreU32(0));
    }
  }

  lemma {:induction false} FlattenSnoc(parts: seq<seq<byte>>, last: seq<byte>)
    ensures Flatten(parts + [last]) == Flatten(parts) + last
  {
    if parts == [] {
      assert Flatten([last][1..]) == [];
    } else {
      FlattenSnoc(parts[1..], last);
      assert (parts + [last])[1..] == parts[1..] + [last];
      Concat3(parts[0], Flatten(parts[1..]), last);
    }
  }

  /** The body of the public part inside the body of the material. */
  lemma PublicBody(f: Family, k: Material)
    requires Fits(f, k)
    ensures Flatten(k.parts) == if f.Dsa? then k.parts[0] + Flatten(Public(f, k).parts)
                                else Flatten(Public(f, k).parts) + k.parts[Private(f)]
  {
    var ps := Public(f, k).parts;
    if f.Dsa? {
      assert ps[1..] == k.parts[1..] && [] + Flatten(ps[1..]) == Flatten(ps[1..]);
    } else {
      var front := k.parts[..Private(f)];
      FlattenSnoc(front, k.parts[Private(f)]);
      FlattenSnoc(front, []);
      assert k.parts == front + [k.parts[Private(f)]] && ps == front + [[]];
      assert Flatten(front) + [] == Flatten(front);
    }
  }

  lemma PublicSizeIs(f: Family, k: Material, tail: seq<byte>)
    requires Fits(f, k)
    ensures HeaderBytes(f) <= |Encode(f, k) + tail|
    ensures PublicSize(f, Encode(f, k) + tail) == |Flatten(Public(f, k).parts)|
    ensures PublicStart(f, Encode(f, k) + tail) == HeaderBytes(f) + if f.Dsa? then |k.parts[0]| else 0
  {
    EncodedHeader(f, k, tail);
    CutOfFlatten(Public(f, k).parts, []);
    assert Sizes(Public(f, k).parts) == Sizes(k.parts)[Private(f) := 0];
    assert f.Dsa? ==> Word(Encode(f, k) + tail, 2) == Sizes(k.parts)[0];
  }

  lemma PublicHeader(f: Family, k: Material)
    requires Fits(f, k)
    ensures |EncodeWords(HeaderWords(k))| == HeaderBytes(f)
    ensures Overwrite(EncodeWords(HeaderWords(k)), 4 * (2 + Private(f)), StoreU32(0)) == EncodeWords(HeaderWords(Public(f, k)))
  {
    WordsZeroed(HeaderWords(k), 2 + Private(f));
    assert HeaderWords(k)[2 + Private(f) := 0] == HeaderWords(Public(f, k));
  }

  lemma SliceOfBody(b: seq<byte>, h: nat, before: seq<byte>, body: seq<byte>, after: seq<byte>)
    requires h <= |b| && b[h..] == before + body + after
    ensures h + |before| + |body| <= |b| && b[h + |before|..][..|body|] == body
  {
    assert b[h + |before|..][..|body|] == b[h..][|before|..|before| + |body|];
  }

  /** Either of two pieces of the body, found in the blob. */
  lemma SliceOfTwo(b: seq<byte>, h: nat, x: seq<byte>, y: seq<byte>, tail: seq<byte>)
    requires h <= |b| && b[h..] == x + y + tail
    ensures h + |x| + |y| <= |b| && b[h..][..|x|] == x && b[h + |x|..][..|y|] == y
  {
    SliceOfBody(b, h, x, y, tail);
  }

  lemma PublicSlice(f: Family, k: Material, b: seq<byte>, tail: seq<byte>)
    requires Fits(f, k) && HeaderBytes(f) <= |b| && b[HeaderBytes(f)..] == Flatten(k.parts) + tail
    ensures var start, n := HeaderBytes(f) + (if f.Dsa? then |k.parts[0]| else 0), |Flatten(Public(f, k).parts)|;
            start + n <= |b| && b[start..][..n] == Flatten(Public(f, k).parts)
  {
    PublicBody(f, k);
    if f.Dsa? {
      SliceOfTwo(b, HeaderBytes(f), k.parts[0], Flatten(Public(f, k).parts), tail);
    } else {
      SliceOfTwo(b, HeaderBytes(f), Flatten(Public(f, k).parts), k.parts[Private(f)], tail);
    }
  }

  /** The public part is the encoding of the material without its private component: private
      size zero, public components unchanged. */
  lemma PublicPartIs(f: Family, k: Material, tail: seq<byte>)
    requires Fits(f, k)
    ensures HeaderBytes(f) <= |Encode(f, k) + tail|
    ensures PublicStart(f, Encode(f, k) + tail) + PublicSize(f, Encode(f, k) + tail) <= |Encode(f, k) + tail|
    ensures PublicPart(f, Encode(f, k) + tail) == Encode(f, Public(f, k))
  {
    PublicSizeIs(f, k, tail);
    EncodedHeader(f, k, tail);
    PublicSlice(f, k, Encode(f, k) + tail, tail);
    PublicHeader(f, k);
  }

  // ----- Cutting the public part -----

  /** Where a component lies in a blob. */
  datatype Span = Span(off: u32, size: u32)

  predicate ShownAt(b: seq<byte>, off: nat, part: seq<byte>) {
    off + |part| <= |b| && b[off..off + |part|] == part
  }

  predicate Shows(b: seq<byte>, s: Span, part: seq<byte>) {
    s.size == |part| && ShownAt(b, s.off, part)
  }

  /** The slicing in TranslateToX509PublicKey. */
  method SlicePublicKey(publicKey: seq<byte>) returns (ret: Status, material1: Span, material2: Span)
    requires |publicKey| < U32_LIMIT
    ensures ret == if |publicKey| >= 20 && 20 + Word(publicKey, 2) + Word(publicKey, 3) <= |publicKey| then Success
                   else InvalidArgument
    ensures ret == Success ==> material1 == Span(20, Word(publicKey, 2))
                               && material2 == Span(20 + Word(publicKey, 2), Word(publicKey, 3))
  {
    material1, material2 := Span(0, 0), Span(0, 0);
    if |publicKey| < 20 {
      return InvalidArgument, material1, material2;
    }
    var offset: u32 := 20;
    var nOrXSize, eOrYSize := Word(publicKey, 2), Word(publicKey, 3);
    if |publicKey| - offset < nOrXSize {
      return InvalidArgument, material1, material2;
    }
    material1 := Span(offset, nOrXSize);
    offset := offset + nOrXSize;
    if |publicKey| - offset < eOrYSize {
      return InvalidArgument, material1, material2;
    }
    material2 := Span(offset, eOrYSize);
    ret := Success;
  }

  lemma {:induction false} FlattenSplit(parts: seq<seq<byte>>, i: nat)
    requires i <= |parts|
    ensures Flatten(parts) == Flatten(parts[..i]) + Flatten(parts[i..])
  {
    if i > 0 {
      FlattenSplit(parts[1..], i - 1);
      assert parts[..i][1..] == parts[1..][..i - 1] && parts[1..][i - 1..] == parts[i..];
      Concat3(parts[0], Flatten(parts[1..][..i - 1]), Flatten(parts[i..]));
    }
  }

  lemma FlattenAround(parts: seq<seq<byte>>, i: nat) returns (after: seq<byte>)
    requires i < |parts|
    ensures Flatten(parts) == Flatten(parts[..i]) + parts[i] + after
    ensures |Flatten(parts[..i + 1])| == |Flatten(parts[..i])| + |parts[i]|
  {
    FlattenSplit(parts, i);
    after := Flatten(parts[i..][1..]);
    Concat3(Flatten(parts[..i]), parts[i], after);
    FlattenSnoc(parts[..i], parts[i]);
    assert parts[..i + 1] == parts[..i] + [parts[i]];
  }

  lemma EncodedBody(f: Family, k: Material)
    requires Fits(f, k)
    ensures HeaderBytes(f) <= |Encode(f, k)| && Encode(f, k)[HeaderBytes(f)..] == Flatten(k.parts)
  {
    EncodedHeader(f, k, []);
    assert Encode(f, k) + [] == Encode(f, k) && Flatten(k.parts) + [] == Flatten(k.parts);
  }

  /** Component `i` of encoded material lies behind the header and the components before it. */
  lemma ComponentAt(f: Family, k: Material, i: nat)
    requires Fits(f, k) && i < PartCount(f)
    ensures ShownAt(Encode(f, k), HeaderBytes(f) + |Flatten(k.parts[..i])|, k.parts[i])
    ensures |Flatten(k.parts[..i + 1])| == |Flatten(k.parts[..i])| + |k.parts[i]|
  {
    var after := FlattenAround(k.parts, i);
    EncodedBody(f, k);
    SliceOfBody(Encode(f, k), HeaderBytes(f), Flatten(k.parts[..i]), k.parts[i], after);
  }

  /** Cutting the public part of RSA and EC material gives the two public components, of DH and
      25519 material the public key; for DSA it succeeds and GetDsaPubKeyParam does the work. */
  lemma SlicesOfPublicPart(f: Family, k: Material)
    requires Fits(f, k)
    ensures var b, p := Encode(f, Public(f, k)), Public(f, k).parts;
            && |b| >= 20 && Word(b, 2) == |p[0]| && Word(b, 3) == |p[1]| && 20 + Word(b, 2) + Word(b, 3) <= |b|
            && (!f.Dsa? ==> Shows(b, Span(20, Word(b, 2)), k.parts[0]))
            && (f.Rsa? || f.Ecc? ==> 20 + Word(b, 2) < U32_LIMIT ==>
                  Shows(b, Span(20 + Word(b, 2), Word(b, 3)), k.parts[1]))
  {
    var q := Public(f, k);
    EncodedHeader(f, q, []);
    assert Encode(f, q) + [] == Encode(f, q);
    assert Sizes(q.parts)[0] == |q.parts[0]| && Sizes(q.parts)[1] == |q.parts[1]|;
    ComponentAt(f, q, 0);
    ComponentAt(f, q, 1);
  }

  /** What GetDsaPubKeyParam finds; its sums are 32 bits wide. */
  predicate GotDsa(b: seq<byte>, ret: Status, y: Span, p: Span, q: Span, g: Span) {
    if |b| >= 28 && Wrap32(28 + Sum(PartSizes(Dsa, b))) <= |b| then
      && ret == Success
      && y == Span(Wrap32(28 + Word(b, 2)), Word(b, 3))
      && p == Span(Wrap32(y.off + y.size), Word(b, 4))
      && q == Span(Wrap32(p.off + p.size), Word(b, 5))
      && g == Span(Wrap32(q.off + q.size), Word(b, 6))
    else ret == InvalidArgument
  }

  method GetDsaPubKeyParam(publicKey: seq<byte>) returns (ret: Status, y: Span, p: Span, q: Span, g: Span)
    requires |publicKey| < U32_LIMIT
    ensures GotDsa(publicKey, ret, y, p, q, g)
  {
    y, p, q, g := Span(0, 0), Span(0, 0), Span(0, 0), Span(0, 0);
    if |publicKey| < HeaderBytes(Dsa) {
      return InvalidArgument, y, p, q, g;
    }
    var sizesFit := DsaSizesFit(publicKey);
    if !sizesFit {
      return InvalidArgument, y, p, q, g;
    }
    var xSize, ySize := Word(publicKey, 2), Word(publicKey, 3);
    var pSize, qSize, gSize := Word(publicKey, 4), Word(publicKey, 5), Word(publicKey, 6);
    y, p, q, g := FourSpans(Wrap32(HeaderBytes(Dsa) + xSize), ySize, pSize, qSize, gSize);
    ret := Success;
  }

  /** The size the header says, as a 32-bit sum, is not more than there is. */
  method DsaSizesFit(publicKey: seq<byte>) returns (ok: bool)
    requires 28 <= |publicKey|
    ensures ok <==> Wrap32(28 + Sum(PartSizes(Dsa, publicKey))) <= |publicKey|
  {
    SumOfFive(PartSizes(Dsa, publicKey));
    var keyMaterialSize := Wrap32(HeaderBytes(Dsa) + Word(publicKey, 2) + Word(publicKey, 3) + Word(publicKey, 4)
                                  + Word(publicKey, 5) + Word(publicKey, 6));
    ok := keyMaterialSize <= |publicKey|;
  }

  /** Four components one after the other, with 32-bit offsets. */
  method FourSpans(start: u32, ySize: u32, pSize: u32, qSize: u32, gSize: u32) returns (y: Span, p: Span, q: Span, g: Span)
    ensures y == Span(start, ySize) && p == Span(Wrap32(y.off + y.size), pSize)
    ensures q == Span(Wrap32(p.off + p.size), qSize) && g == Span(Wrap32(q.off + q.size), gSize)
  {
    var offset := start;
    y := Span(offset, ySize);
    offset := Wrap32(offset + ySize);
    p := Span(offset, pSize);
    offset := Wrap32(offset + pSize);
    q := Span(offset, qSize);
    offset := Wrap32(offset + qSize);
    g := Span(offset, gSize);
  }

  lemma WrapSmall(x: nat)
    requires x < U32_LIMIT
    ensures Wrap32(x) == x
  {
  }

  /** Four running offsets in 32 bits are the true ones if the end of the last is in range. */
  lemma OffsetsInOrder(x: u32, y: Span, p: Span, q: Span, g: Span)
    requires y.off == Wrap32(28 + x) && p.off == Wrap32(y.off + y.size)
    requires q.off == Wrap32(p.off + p.size) && g.off == Wrap32(q.off + q.size)
    requires 28 + x + y.size + p.size + q.size + g.size < U32_LIMIT
    ensures y.off == 28 + x && p.off == y.off + y.size && q.off == p.off + p.size && g.off == q.off + q.size
  {
    WrapSmall(28 + x);
    WrapSmall(y.off + y.size);
    WrapSmall(p.off + p.size);
    WrapSmall(q.off + q.size);
  }

  /** The four components are cut one after the other to the end of the material exactly if the
      sizes in the header do not wrap 32 bits. */
  lemma DsaCutIsInOrderIff(b: seq<byte>, y: Span, p: Span, q: Span, g: Span)
    requires |b| < U32_LIMIT && GotDsa(b, Success, y, p, q, g)
    ensures && y.off == 28 + Word(b, 2) && p.off == y.off + y.size && q.off == p.off + p.size
            && g.off == q.off + q.size && g.off + g.size <= |b|
            <==> 28 + Sum(PartSizes(Dsa, b)) < U32_LIMIT
  {
    SumOfFive(PartSizes(Dsa, b));
    var total := 28 + Sum(PartSizes(Dsa, b));
    if total < U32_LIMIT {
      OffsetsInOrder(Word(b, 2), y, p, q, g);
      WrapSmall(total);
    }
  }

  /** The header of DSA material without a private component. */
  lemma DsaHeader(k: Material)
    requires Fits(Dsa, k) && k.parts[0] == [] && |Encode(Dsa, k)| < U32_LIMIT
    ensures var b := Encode(Dsa, k);
            && |b| == 28 + |k.parts[1]| + |k.parts[2]| + |k.parts[3]| + |k.parts[4]|
            && Wrap32(28 + Sum(PartSizes(Dsa, b))) == |b|
            && Word(b, 2) == 0 && Word(b, 3) == |k.parts[1]| && Word(b, 4) == |k.parts[2]|
            && Word(b, 5) == |k.parts[3]| && Word(b, 6) == |k.parts[4]|
  {
    var b, ns := Encode(Dsa, k), Sizes(k.parts);
    assert b + [] == b;
    EncodedHeader(Dsa, k, []);
    DecodeOfEncode(Dsa, k, []);
    SumOfFive(ns);
    assert forall i :: 0 <= i < 5 ==> PartSizes(Dsa, b)[i] == Word(b, 2 + i);
    assert ns[0] == 0 && ns[1] == |k.parts[1]| && ns[2] == |k.parts[2]| && ns[3] == |k.parts[3]| && ns[4] == |k.parts[4]|;
    WrapSmall(|b|);
  }

  lemma DsaComponents(k: Material)
    requires Fits(Dsa, k) && k.parts[0] == []
    ensures var b, ps := Encode(Dsa, k), k.parts;
            && ShownAt(b, 28, ps[1]) && ShownAt(b, 28 + |ps[1]|, ps[2])
            && ShownAt(b, 28 + |ps[1]| + |ps[2]|, ps[3]) && ShownAt(b, 28 + |ps[1]| + |ps[2]| + |ps[3]|, ps[4])
  {
    assert k.parts[..0] == [] && Flatten(k.parts[..0]) == [];
    ComponentAt(Dsa, k, 0);
    ComponentAt(Dsa, k, 1);
    ComponentAt(Dsa, k, 2);
    ComponentAt(Dsa, k, 3);
    ComponentAt(Dsa, k, 4);
  }

  /** On the public part of DSA material it gives back the original y, p, q and g. */
  lemma DsaRoundTrip(k: Material, ret: Status, y: Span, p: Span, q: Span, g: Span)
    requires Fits(Dsa, k) && |Encode(Dsa, Public(Dsa, k))| < U32_LIMIT
    requires GotDsa(Encode(Dsa, Public(Dsa, k)), ret, y, p, q, g)
    ensures ret == Success
    ensures var b := Encode(Dsa, Public(Dsa, k));
            Shows(b, y, k.parts[1]) && Shows(b, p, k.parts[2]) && Shows(b, q, k.parts[3]) && Shows(b, g, k.parts[4])
  {
    var k' := Public(Dsa, k);
    DsaHeader(k');
    DsaComponents(k');
    OffsetsInOrder(0, y, p, q, g);
  }

  /** A header whose sizes wrap: x has 1 byte and y has 2^32 - 1. */
  function WrappingHeader(): (b: seq<byte>)
    ensures |b| == 28 && Word(b, 2) == 1 && Word(b, 3) == U32_MAX
    ensures Word(b, 4) == 0 && Word(b, 5) == 0 && Word(b, 6) == 0
  {
    var ws: seq<u32> := [3, 1024, 1, U32_MAX, 0, 0, 0];
    AllWordsOfEncode(ws, []);
    assert EncodeWords(ws) + [] == EncodeWords(ws);
    EncodeWords(ws)
  }

  /** It is accepted, and y is cut out far past its end. */
  lemma DsaSizesCanWrap()
    ensures 28 + Sum(PartSizes(Dsa, WrappingHeader())) == 28 + U32_LIMIT
    ensures GotDsa(WrappingHeader(), Success, Span(29, U32_MAX), Span(28, 0), Span(28, 0), Span(28, 0))
  {
    SumOfFive(PartSizes(Dsa, WrappingHeader()));
    WrapIs(28 + U32_LIMIT, 1, 28);
  }
}
