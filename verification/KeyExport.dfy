/** A generated key is handed out as a parameter set (`hks_crypto_adapter.c`), its public part is
    taken from that set (`hks_param.c`) and cut into components
    (`hks_client_service_adapter.c`): the components are those of the key. */
module KeyExport {
  import opened CTypes
  import opened Memory
  import opened ParamLayout
  import opened ParamRefresh
  import opened ParamTags
  import opened KeyMaterial
  import opened KeyPublic
  import opened KeyFormat
  import Curve25519

  // ----- Keys in a set -----

  /** Either key is found under its tag, unless it has no bytes. */
  lemma KeyIsFound(m: Blocks, ps: seq<Param>, block: nat, size: nat, pub: seq<byte>, pri: seq<byte>,
                   isPub: bool, ret: Status, index: nat)
    requires HoldsKeys(m, ps, block, size, pub, pri)
    requires Gets(ps, if isPub then HKS_TAG_ASYMMETRIC_PUBLIC_KEY_DATA else HKS_TAG_ASYMMETRIC_PRIVATE_KEY_DATA, ret, index)
    ensures var key := if isPub then pub else pri;
            && ret == (if key == [] then InvalidArgument else Success) && index < |ps|
            && (key != [] ==> InBounds(m, ps[index].data, BlobSize(ps[index])) &&
                              Read(m, ps[index].data, BlobSize(ps[index])) == key)
  {
    var tag := if isPub then HKS_TAG_ASYMMETRIC_PUBLIC_KEY_DATA else HKS_TAG_ASYMMETRIC_PRIVATE_KEY_DATA;
    var key := if isPub then pub else pri;
    GetsEntry(m, ps, tag, ret, index);
    FindFirst(Entries(m, ps), tag, if isPub then 0 else 1);
    if key != [] {
      assert Meaning(m, ps[index]) == Entry(tag, Octets(key));
    }
  }

  /** One of the two keys of a set, None if it has no bytes. */
  method TakeKey(h: Heap, s: ParamSet, isPub: bool, ghost pub: seq<byte>, ghost pri: seq<byte>)
    returns (key: Option<seq<byte>>)
    requires HoldsKeys(h.blocks, ListOf(s), s.block, s.paramSetSize, pub, pri)
    ensures key == NotEmpty(if isPub then pub else pri)
  {
    EntriesLength(h.blocks, ListOf(s));
    SizesOkIff(s.paramSetSize, s.paramsCnt, s.paramSetSize);
    var ret, index :=
      HksGetParam(s, if isPub then HKS_TAG_ASYMMETRIC_PUBLIC_KEY_DATA else HKS_TAG_ASYMMETRIC_PRIVATE_KEY_DATA);
    KeyIsFound(h.blocks, s.List(), s.block, s.paramSetSize, pub, pri, isPub, ret, index);
    if ret != Success {
      return None;
    }
    key := Some(Read(h.blocks, s.params[index].data, BlobSize(s.params[index])));
  }

  // ----- Material with a header of its own -----

  /** The material is complete: every component its header names lies in it. */
  predicate Complete(f: Family, key: seq<byte>) {
    HeaderBytes(f) <= |key| && HeaderBytes(f) + Sum(PartSizes(f, key)) <= |key|
  }

  /** Whether the set with the public part and the material can be handed out. */
  predicate CanHandOut(f: Family, key: seq<byte>, room: nat, env: Platform)
    requires Complete(f, key)
  {
    var n := HeaderBytes(f) + PublicSize(f, key);
    CanAllocate(env, n) && Room(n, |key|, room, env)
  }

  lemma CompleteIsCopied(f: Family, key: seq<byte>, env: Platform)
    requires Complete(f, key) && |key| < U32_LIMIT
    ensures Fits(f, Decode(f, key))
    ensures var pub := Encode(f, Public(f, Decode(f, key)));
            && |pub| == HeaderBytes(f) + PublicSize(f, key) <= |key|
            && CopyPublic(f, key, env) == if CanAllocate(env, |pub|) then Copied(pub) else Failed(Returned(MallocFail))
  {
    PublicPartOfMaterial(f, key);
    PublicPartIsCopied(f, key, env);
  }

  /** How handing out complete material ends. */
  lemma HandedOut(f: Family, key: seq<byte>, room: nat, env: Platform, m: Blocks,
                  end: Ended, m': Blocks, ps: seq<Param>, block: nat, size: nat)
    requires Complete(f, key) && |key| < U32_LIMIT
    requires FormatOutcome(f, key, room, env, m, end, m', ps, block, size)
    ensures end.Returned? && (end.ret == Success <==> CanHandOut(f, key, room, env))
    ensures Fits(f, Decode(f, key))
    ensures end.ret == Success ==> HoldsKeys(m', ps, block, size, Encode(f, Public(f, Decode(f, key))), key)
  {
    CompleteIsCopied(f, key, env);
  }

  /** FormatDsaKey, HksGetParam and GetDsaPubKeyParam one after the other give the components of
      the material other than the private one. */
  method HandOutDsaKey(h: Heap, keyIn: Ptr, keySize: u32, out: ParamSet, env: Platform)
    returns (ret: Status, pub: seq<byte>, y: Span, p: Span, q: Span, g: Span)
    requires h.Valid() && InBounds(h.blocks, keyIn, keySize) && Complete(Dsa, Read(h.blocks, keyIn, keySize))
    requires out.Live(h) && out.paramSetSize <= |h.blocks[out.block]|
    modifies h, out, out.params
    ensures ret == Success <==> old(CanHandOut(Dsa, Read(h.blocks, keyIn, keySize), out.paramSetSize, env))
    ensures ret == Success ==>
              var parts := Decode(Dsa, old(Read(h.blocks, keyIn, keySize))).parts;
              Shows(pub, y, parts[1]) && Shows(pub, p, parts[2]) && Shows(pub, q, parts[3]) && Shows(pub, g, parts[4])
  {
    ghost var m, room, key := h.blocks, out.paramSetSize, Read(h.blocks, keyIn, keySize);
    pub, y, p, q, g := [], Span(0, 0), Span(0, 0), Span(0, 0), Span(0, 0);
    var end := FormatDsaKey(h, keyIn, keySize, out, env);
    HandedOut(Dsa, key, room, env, m, end, h.blocks, ListOf(out), out.block, out.paramSetSize);
    ret := end.ret;
    if ret != Success {
      return;
    }
    ghost var k := Decode(Dsa, key);
    CompleteIsCopied(Dsa, key, env);
    var found := TakeKey(h, out, true, Encode(Dsa, Public(Dsa, k)), key);
    pub := found.value;
    ret, y, p, q, g := GetDsaPubKeyParam(pub);
    DsaRoundTrip(k, ret, y, p, q, g);
  }

  /** The same for RSA, EC and DH with FormatPrefixKey and the two slices: n and e, x and y, or
      the public key. */
  method HandOutPrefixKey(h: Heap, f: Family, keyIn: Ptr, keySize: u32, out: ParamSet, env: Platform)
    returns (ret: Status, pub: seq<byte>, material1: Span, material2: Span)
    requires f.Rsa? || f.Ecc? || f.Dh?
    requires h.Valid() && InBounds(h.blocks, keyIn, keySize) && Complete(f, Read(h.blocks, keyIn, keySize))
    requires out.Live(h) && out.paramSetSize <= |h.blocks[out.block]|
    modifies h, out, out.params
    ensures ret == Success <==> old(CanHandOut(f, Read(h.blocks, keyIn, keySize), out.paramSetSize, env))
    ensures ret == Success ==>
              var parts := Decode(f, old(Read(h.blocks, keyIn, keySize))).parts;
              Shows(pub, material1, parts[0]) && (!f.Dh? ==> Shows(pub, material2, parts[1]))
  {
    ghost var m, room, key := h.blocks, out.paramSetSize, Read(h.blocks, keyIn, keySize);
    pub, material1, material2 := [], Span(0, 0), Span(0, 0);
    var end := FormatPrefixKey(h, f, keyIn, keySize, out, env);
    HandedOut(f, key, room, env, m, end, h.blocks, ListOf(out), out.block, out.paramSetSize);
    ret := end.ret;
    if ret != Success {
      return;
    }
    CompleteIsCopied(f, key, env);
    var found := TakeKey(h, out, true, Encode(f, Public(f, Decode(f, key))), key);
    pub := found.value;
    ret, material1, material2 := CutPublicPart(f, pub, Decode(f, key));
  }

  method CutPublicPart(f: Family, pub: seq<byte>, ghost k: Material) returns (ret: Status, material1: Span, material2: Span)
    requires !f.Dsa? && Fits(f, k) && pub == Encode(f, Public(f, k)) && |pub| < U32_LIMIT
    ensures ret == Success && Shows(pub, material1, k.parts[0])
    ensures f.Rsa? || f.Ecc? ==> Shows(pub, material2, k.parts[1])
  {
    SlicesOfPublicPart(f, k);
    ret, material1, material2 := SlicePublicKey(pub);
  }

  // ----- 25519 -----

  /** FormatCurve25519Key and HksGetParam for both keys: the two slices behind the header. */
  method HandOutCurveKey(h: Heap, keyIn: Ptr, keySize: u32, out: ParamSet, env: Platform)
    returns (ret: Status, pub: Option<seq<byte>>, pri: Option<seq<byte>>)
    requires h.Valid() && InBounds(h.blocks, keyIn, keySize)
    requires out.Live(h) && out.paramSetSize <= |h.blocks[out.block]|
    modifies h, out, out.params
    ensures ret == Success <==> old(CurveReady(Read(h.blocks, keyIn, keySize), out.paramSetSize, env))
    ensures ret == Success ==>
              && pub == NotEmpty(CurveSlices(old(Read(h.blocks, keyIn, keySize))).0)
              && pri == NotEmpty(CurveSlices(old(Read(h.blocks, keyIn, keySize))).1)
  {
    ghost var m, room, key := h.blocks, out.paramSetSize, Read(h.blocks, keyIn, keySize);
    pub, pri := None, None;
    ret := FormatCurve25519Key(h, keyIn, keySize, out, env);
    CurveDecided(key, room, env, m, ret, h.blocks, ListOf(out), out.block, out.paramSetSize);
    if ret == Success {
      pub, pri := TakeBothKeys(h, out, CurveSlices(key).0, CurveSlices(key).1);
    }
  }

  /** The material is complete, with keys of at most 2048 bytes, and the set with them can be built. */
  predicate CurveReady(key: seq<byte>, room: nat, env: Platform) {
    && 20 <= |key| && 20 + Word(key, 2) as int + Word(key, 3) <= |key|
    && Word(key, 2) <= 2048 && Word(key, 3) <= 2048
    && Room(Word(key, 2), Word(key, 3), room, env)
  }

  /** The two slices behind the header. */
  function CurveSlices(key: seq<byte>): (seq<byte>, seq<byte>)
    requires 20 <= |key| && 20 + Word(key, 2) as int + Word(key, 3) <= |key|
  {
    var a := 20 + Word(key, 2) as int;
    (key[20..a], key[a..a + Word(key, 3)])
  }

  function NotEmpty(key: seq<byte>): Option<seq<byte>> {
    if key == [] then None else Some(key)
  }

  method TakeBothKeys(h: Heap, s: ParamSet, ghost pub: seq<byte>, ghost pri: seq<byte>)
    returns (pub': Option<seq<byte>>, pri': Option<seq<byte>>)
    requires HoldsKeys(h.blocks, ListOf(s), s.block, s.paramSetSize, pub, pri)
    ensures pub' == NotEmpty(pub) && pri' == NotEmpty(pri)
  {
    pub' := TakeKey(h, s, true, pub, pri);
    pri' := TakeKey(h, s, false, pub, pri);
  }

  /** How handing out 25519 material ends, from its header words. */
  lemma CurveDecided(key: seq<byte>, room: nat, env: Platform, m: Blocks,
                     ret: Status, m': Blocks, ps: seq<Param>, block: nat, size: nat)
    requires CurveOutcome(key, room, env, m, ret, m', ps, block, size)
    ensures ret == Success <==>
            && 20 <= |key| && 20 + Word(key, 2) as int + Word(key, 3) <= |key|
            && Word(key, 2) <= 2048 && Word(key, 3) <= 2048
            && Room(Word(key, 2), Word(key, 3), room, env)
    ensures |key| < 20 || 20 + Word(key, 2) as int + Word(key, 3) > |key| || Word(key, 2) > 2048 || Word(key, 3) > 2048 ==>
              ret == InvalidArgument && m' == m
    ensures 20 <= |key| && 20 + Word(key, 2) as int + Word(key, 3) <= |key| && Word(key, 2) <= 2048 && Word(key, 3) <= 2048 &&
            56 + Word(key, 2) as int + Word(key, 3) > room ==>
              ret == BufferTooSmall && m' == m
    ensures forall b :: b in m && b != block ==> b in m' && m'[b] == m[b]
    ensures ret == Success ==>
              var a, b := 20 + Word(key, 2) as int, 20 + Word(key, 2) as int + Word(key, 3);
              HoldsKeys(m', ps, block, size, key[20..a], key[a..b])
  {
    if |key| >= 20 {
      SumOfTwo(PartSizes(Curve, key));
      if 20 + Word(key, 2) as int + Word(key, 3) <= |key| {
        CurveParts(key);
      }
    }
  }

  lemma CurveParts(key: seq<byte>)
    requires 20 <= |key| && 20 + Word(key, 2) as int + Word(key, 3) <= |key|
    ensures 20 + Sum(PartSizes(Curve, key)) == 20 + Word(key, 2) as int + Word(key, 3)
    ensures var a, b := 20 + Word(key, 2) as int, 20 + Word(key, 2) as int + Word(key, 3);
            Decode(Curve, key).parts[0] == key[20..a] && Decode(Curve, key).parts[1] == key[a..b]
  {
    var ns := PartSizes(Curve, key);
    SumOfTwo(ns);
    Curve25519.CutTwo(key[20..], ns);
    assert key[20..][..ns[0]] == key[20..20 + ns[0]];
    assert key[20..][ns[0]..][..ns[1]] == key[20 + ns[0]..20 + ns[0] + ns[1]];
  }
}
