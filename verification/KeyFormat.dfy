/** Generated key material is handed out as a parameter set that holds a public and a private
    part (`hks_crypto_adapter.c`). */
module KeyFormat {
  import opened CTypes
  import opened Memory
  import opened ParamLayout
  import opened ParamRefresh
  import opened ParamBuild
  import opened ParamCopy
  import opened KeyMaterial
  import opened KeyPublic
  import Curve25519
  import KeyCheck

  const HKS_TAG_ASYMMETRIC_PUBLIC_KEY_DATA := 0x5000_4E22
  const HKS_TAG_ASYMMETRIC_PRIVATE_KEY_DATA := 0x5000_4E23

  // ----- The two parameters -----

  function KeyParams(pub: Ptr, pubSize: u32, pri: Ptr, priSize: u32): seq<Param> {
    [Param(HKS_TAG_ASYMMETRIC_PUBLIC_KEY_DATA, pubSize, pub), Param(HKS_TAG_ASYMMETRIC_PRIVATE_KEY_DATA, priSize, pri)]
  }

  function KeyEntries(pub: seq<byte>, pri: seq<byte>): seq<Entry> {
    [Entry(HKS_TAG_ASYMMETRIC_PUBLIC_KEY_DATA, Octets(pub)), Entry(HKS_TAG_ASYMMETRIC_PRIVATE_KEY_DATA, Octets(pri))]
  }

  lemma KeyParamsSizes(pub: Ptr, pubSize: u32, pri: Ptr, priSize: u32)
    ensures Total(KeyParams(pub, pubSize, pri, priSize)) == 56 + pubSize + priSize
    ensures NoEmptyAtEnd(KeyParams(pub, pubSize, pri, priSize), 56 + pubSize + priSize) <==> priSize > 0
  {
    var ps := KeyParams(pub, pubSize, pri, priSize);
    PrefixStep(ps, 0);
    PrefixStep(ps, 1);
    assert ps[..0] == [] && ps[..2] == ps;
    assert BlobSize(ps[0]) == pubSize && BlobSize(ps[1]) == priSize;
    assert EmptyAtEnd(ps, 1, 56 + pubSize + priSize) <==> priSize == 0;
  }

  lemma BlobMeans(m: Blocks, tag: u32, size: u32, data: Ptr)
    requires IsBytes(tag) && InBounds(m, data, size)
    ensures Readable(m, Param(tag, size, data))
    ensures Meaning(m, Param(tag, size, data)) == Entry(tag, Octets(Read(m, data, size)))
  {
  }

  lemma TwoEntries(m: Blocks, p: Param, q: Param)
    requires Readable(m, p) && Readable(m, q)
    ensures AllReadable(m, [p, q]) && Entries(m, [p, q]) == [Meaning(m, p), Meaning(m, q)]
  {
    EntriesSplit(m, [p], [], p);
    EntriesSplit(m, [p, q], [p], q);
  }

  lemma KeyParamsMean(m: Blocks, pub: Ptr, pubSize: u32, pri: Ptr, priSize: u32)
    requires InBounds(m, pub, pubSize) && InBounds(m, pri, priSize)
    ensures AllReadable(m, KeyParams(pub, pubSize, pri, priSize))
    ensures Entries(m, KeyParams(pub, pubSize, pri, priSize)) == KeyEntries(Read(m, pub, pubSize), Read(m, pri, priSize))
  {
    BlobMeans(m, HKS_TAG_ASYMMETRIC_PUBLIC_KEY_DATA, pubSize, pub);
    BlobMeans(m, HKS_TAG_ASYMMETRIC_PRIVATE_KEY_DATA, priSize, pri);
    TwoEntries(m, KeyParams(pub, pubSize, pri, priSize)[0], KeyParams(pub, pubSize, pri, priSize)[1]);
  }

  /** The set `ps` is finished and holds the two keys. */
  ghost predicate HoldsKeys(m: Blocks, ps: seq<Param>, block: nat, size: nat, pub: seq<byte>, pri: seq<byte>) {
    Built(m, ps, block, size) && AllReadable(m, ps) && Entries(m, ps) == KeyEntries(pub, pri)
  }

  lemma HoldsKeysWithout(m: Blocks, ps: seq<Param>, block: nat, size: nat, pub: seq<byte>, pri: seq<byte>, gone: nat)
    requires HoldsKeys(m, ps, block, size, pub, pri) && gone != block
    ensures HoldsKeys(m - {gone}, ps, block, size, pub, pri)
  {
    RelocationKeepsMeaning(m, ps, block, size, m - {gone}, block);
  }

  /** A set with keys of these sizes can be built and fits the buffer. */
  predicate Room(pubSize: nat, priSize: nat, room: nat, env: Platform) {
    && CanAllocate(env, DEFAULT_PARAM_SET_SIZE)
    && 56 + pubSize + priSize <= PARAM_SET_MAX_SIZE
    && (56 + pubSize + priSize > DEFAULT_PARAM_SET_SIZE ==> CanAllocate(env, 56 + pubSize + priSize))
    && (env.emptyCopyOk || priSize > 0)
    && 56 + pubSize + priSize <= room <= RSIZE_MAX
  }

  /** What handing out keys of these sizes comes to, if the set has at most 4 MiB. */
  function KeysResult(pubSize: nat, priSize: nat, room: nat, env: Platform): Status {
    var total := 56 + pubSize + priSize;
    if !CanAllocate(env, DEFAULT_PARAM_SET_SIZE) then MallocFail
    else if total > DEFAULT_PARAM_SET_SIZE && !CanAllocate(env, total) then MallocFail
    else if !env.emptyCopyOk && priSize == 0 then InsufficientMemory
    else if total > room || room > RSIZE_MAX then InsufficientMemory
    else Success
  }

  ghost function ListOf(s: ParamSet): seq<Param>
    reads s, s.params
  {
    if s.paramsCnt <= s.params.Length then s.List() else []
  }

  /** How handing out two keys ends: the buffer holds them, or it has failed, and no other block
      has changed. */
  ghost predicate KeysOutcome(pub: seq<byte>, pri: seq<byte>, room: nat, env: Platform, m: Blocks,
                              ret: Status, m': Blocks, ps: seq<Param>, block: nat, size: nat) {
    && (ret == Success <==> Room(|pub|, |pri|, room, env))
    && (56 + |pub| + |pri| <= PARAM_SET_MAX_SIZE ==> ret == KeysResult(|pub|, |pri|, room, env))
    && (ret == Success ==> HoldsKeys(m', ps, block, size, pub, pri))
    && AgreeOutside(m, m', block)
  }

  /** Whether the set of the two keys can be built, in terms of their sizes. */
  lemma KeysBuildable(pub: Ptr, pubSize: u32, pri: Ptr, priSize: u32, room: nat, env: Platform)
    ensures var params := KeyParams(pub, pubSize, pri, priSize);
            && Total(params) == 56 + pubSize + priSize
            && (Room(pubSize, priSize, room, env) <==>
                  CanAllocate(env, DEFAULT_PARAM_SET_SIZE) && Buildable(params, env) && Total(params) <= room <= RSIZE_MAX)
            && KeysResult(pubSize, priSize, room, env)
               == if FromResult(params, env) != Success then FromResult(params, env)
                  else if Total(params) > room || room > RSIZE_MAX then InsufficientMemory else Success
  {
    KeyParamsSizes(pub, pubSize, pri, priSize);
  }

  /** What BuildParamSetOut promises, in terms of the two keys. */
  lemma KeysEnd(m: Blocks, pub: Ptr, pubSize: u32, pri: Ptr, priSize: u32, room: nat, env: Platform,
                ret: Status, m': Blocks, ps: seq<Param>, block: nat, size: nat)
    requires InBounds(m, pub, pubSize) && InBounds(m, pri, priSize)
    requires var params := KeyParams(pub, pubSize, pri, priSize);
             && (ret == Success <==> CanAllocate(env, DEFAULT_PARAM_SET_SIZE) && Buildable(params, env) && Total(params) <= room <= RSIZE_MAX)
             && (Total(params) <= PARAM_SET_MAX_SIZE ==>
                   ret == if FromResult(params, env) != Success then FromResult(params, env)
                          else if Total(params) > room || room > RSIZE_MAX then InsufficientMemory else Success)
             && (ret == Success ==> Means(m, params, m', ps, block, size))
    requires AgreeOutside(m, m', block)
    ensures KeysOutcome(Read(m, pub, pubSize), Read(m, pri, priSize), room, env, m, ret, m', ps, block, size)
  {
    KeysBuildable(pub, pubSize, pri, priSize, room, env);
    KeyParamsMean(m, pub, pubSize, pri, priSize);
  }

  method FormatKeyInner(h: Heap, pub: Ptr, pubSize: u32, pri: Ptr, priSize: u32, out: ParamSet, env: Platform)
    returns (ret: Status)
    requires h.Valid() && InBounds(h.blocks, pub, pubSize) && InBounds(h.blocks, pri, priSize)
    requires out.Live(h) && out.paramSetSize <= |h.blocks[out.block]|
    modifies h, out, out.params
    ensures h.Valid()
    ensures KeysOutcome(old(Read(h.blocks, pub, pubSize)), old(Read(h.blocks, pri, priSize)), old(out.paramSetSize), env,
                        old(h.blocks), ret, h.blocks, ListOf(out), out.block, out.paramSetSize)
  {
    ghost var m, room := h.blocks, out.paramSetSize;
    KeyParamsMean(m, pub, pubSize, pri, priSize);
    ret := BuildParamSetOut(h, KeyParams(pub, pubSize, pri, priSize), out, env);
    KeysEnd(m, pub, pubSize, pri, priSize, room, env, ret, h.blocks, ListOf(out), out.block, out.paramSetSize);
  }

  // ----- RSA, EC, DH and DSA -----

  datatype Copy = Copied(pub: seq<byte>) | Failed(end: Ended)

  function EndOf(copy: Copy): Ended {
    if copy.Copied? then Returned(Success) else copy.end
  }

  /** The copy of DSA material, in a block of `n` bytes.  A refused memcpy_s has cleared a block
      shorter than the header, and in it the second one is refused for its destination size. */
  function DsaCopy(key: seq<byte>, n: u32): (copy: Copy)
    requires 28 <= |key|
    ensures copy.Copied? ==> |copy.pub| == n
  {
    var start := Wrap32(28 + Word(key, 2));
    if n < 12 then Failed(WrotePastEnd)
    else if n < 28 then Copied(Overwrite(Zeros(n), 8, StoreU32(0)))
    else if n > 28 && start + n - 28 > |key| then Failed(ReadPastEnd)
    else Copied(Overwrite(key[..28] + if n == 28 then [] else key[start..][..n - 28], 8, StoreU32(0)))
  }

  /** The copy of other material: the first `n` bytes, with the private size set to zero. */
  function PrefixCopy(f: Family, key: seq<byte>, n: u32): (copy: Copy)
    requires n <= |key|
    ensures copy.Copied? ==> |copy.pub| == n
  {
    if n < 4 * (3 + Private(f)) then Failed(WrotePastEnd)
    else Copied(Overwrite(key[..n], 4 * (2 + Private(f)), StoreU32(0)))
  }

  /** The size of the block for the public part: a sum in 32 bits. */
  function BlockSize(f: Family, key: seq<byte>): u32
    requires HeaderBytes(f) <= |key|
  {
    Wrap32(HeaderBytes(f) + PublicSize(f, key))
  }

  /** The public part as the format functions copy it. */
  function CopyPublic(f: Family, key: seq<byte>, env: Platform): (copy: Copy)
    ensures copy.Copied? ==> |key| >= HeaderBytes(f) && |copy.pub| == BlockSize(f, key)
  {
    if |key| < HeaderBytes(f) then Failed(Returned(InvalidArgument)) else
    var n := BlockSize(f, key);
    if |key| < n then Failed(Returned(InvalidKeyInfo))
    else if !CanAllocate(env, n) then Failed(Returned(MallocFail))
    else if f.Dsa? then DsaCopy(key, n)
    else PrefixCopy(f, key, n)
  }

  /** The public part is handed out if it lies inside the material and can be copied. */
  lemma PublicPartIsCopied(f: Family, key: seq<byte>, env: Platform)
    requires HeaderBytes(f) <= |key| < U32_LIMIT && PublicStart(f, key) + PublicSize(f, key) <= |key|
    ensures CopyPublic(f, key, env) == if CanAllocate(env, HeaderBytes(f) + PublicSize(f, key))
                                       then Copied(PublicPart(f, key)) else Failed(Returned(MallocFail))
  {
    CopyPublicIs(f, key);
  }

  /** On every material: the private size is written behind the new block exactly if the 32-bit size
      of that block does not reach that far, and the material is read past its end exactly if the
      copied part of DSA material has bytes and ends behind it, with its start in 32 bits as well. */
  lemma CopyPublicIff(f: Family, key: seq<byte>, env: Platform)
    requires |key| < U32_LIMIT
    ensures CopyPublic(f, key, env) == Failed(WrotePastEnd) <==>
            && HeaderBytes(f) <= |key| && CanAllocate(env, BlockSize(f, key))
            && BlockSize(f, key) < 4 * (3 + Private(f))
    ensures CopyPublic(f, key, env) == Failed(ReadPastEnd) <==>
            && f.Dsa? && 28 <= |key| && CanAllocate(env, BlockSize(f, key))
            && 28 < BlockSize(f, key) <= |key| < Wrap32(PublicStart(f, key)) + BlockSize(f, key) - 28
  {
  }

  /** A block is written past its end only if the sizes wrap. */
  lemma WritesOnlyIfWrapped(f: Family, key: seq<byte>, env: Platform)
    requires |key| < U32_LIMIT
    ensures CopyPublic(f, key, env) == Failed(WrotePastEnd) ==>
              HeaderBytes(f) <= |key| && HeaderBytes(f) + PublicSize(f, key) >= U32_LIMIT
  {
    CopyPublicIff(f, key, env);
    if HeaderBytes(f) <= |key| && HeaderBytes(f) + PublicSize(f, key) < U32_LIMIT {
      WrapIs(HeaderBytes(f) + PublicSize(f, key), 0, HeaderBytes(f) + PublicSize(f, key));
    }
  }

  /** Where nothing wraps, DSA material is read past its end exactly if it has room for its public
      bytes behind the header but not behind the private component. */
  lemma UnwrappedReadsIff(key: seq<byte>, env: Platform)
    requires 28 <= |key| < U32_LIMIT && PublicStart(Dsa, key) < U32_LIMIT && 28 + PublicSize(Dsa, key) < U32_LIMIT
    ensures CopyPublic(Dsa, key, env) == Failed(ReadPastEnd) <==>
            && 0 < PublicSize(Dsa, key) <= |key| - 28 < Word(key, 2) + PublicSize(Dsa, key)
            && CanAllocate(env, 28 + PublicSize(Dsa, key))
  {
    CopyPublicIff(Dsa, key, env);
    WrapIs(PublicStart(Dsa, key), 0, PublicStart(Dsa, key));
    WrapIs(28 + PublicSize(Dsa, key), 0, 28 + PublicSize(Dsa, key));
  }

  /** The block, if the public part lies inside the material. */
  lemma CopyPublicIs(f: Family, key: seq<byte>)
    requires HeaderBytes(f) <= |key| < U32_LIMIT && PublicStart(f, key) + PublicSize(f, key) <= |key|
    ensures BlockSize(f, key) == HeaderBytes(f) + PublicSize(f, key)
    ensures (if f.Dsa? then DsaCopy(key, BlockSize(f, key)) else PrefixCopy(f, key, BlockSize(f, key)))
            == Copied(PublicPart(f, key))
  {
    var n := HeaderBytes(f) + PublicSize(f, key);
    WrapIs(n, 0, n);
    if f.Dsa? {
      DsaCopyIs(key, n);
    } else {
      PrefixIsPublicPart(f, key, n);
    }
  }

  lemma DsaCopyIs(key: seq<byte>, n: u32)
    requires 28 <= n <= |key| < U32_LIMIT && n == 28 + PublicSize(Dsa, key) && PublicStart(Dsa, key) + n - 28 <= |key|
    ensures DsaCopy(key, n) == Copied(PublicPart(Dsa, key))
  {
    var start := PublicStart(Dsa, key);
    var body := key[start..][..n - 28];
    WrapIs(start, 0, start);
    assert PublicPart(Dsa, key) == Overwrite(key[..28], 8, StoreU32(0)) + body;
    assert DsaCopy(key, n) == Copied(Overwrite(key[..28] + body, 8, StoreU32(0)));
    OverwriteLeft(key[..28], body, 8, StoreU32(0));
  }

  /** How a format function ends: it hands out its copy of the public part and the whole material,
      or nothing has changed, or it has left its memory. */
  ghost predicate FormatOutcome(f: Family, key: seq<byte>, room: nat, env: Platform, m: Blocks,
                                end: Ended, m': Blocks, ps: seq<Param>, block: nat, size: nat) {
    match CopyPublic(f, key, env)
    case Copied(pub) => end.Returned? && KeysOutcome(pub, key, room, env, m, end.ret, m', ps, block, size)
    case Failed(e) => end == e && (e.Returned? ==> m' == m)
  }

  lemma PublicSizeWords(f: Family, key: seq<byte>)
    requires HeaderBytes(f) <= |key|
    ensures f.Rsa? || f.Ecc? ==> PublicSize(f, key) == Word(key, 2) + Word(key, 3)
    ensures f.Dh? ==> PublicSize(f, key) == Word(key, 2)
    ensures f.Dsa? ==> PublicSize(f, key) == Word(key, 3) + Word(key, 4) + Word(key, 5) + Word(key, 6)
  {
    var ns := PartSizes(f, key)[Private(f) := 0];
    match f
    case Rsa => SumOfThree(ns);
    case Ecc => SumOfThree(ns);
    case Dsa => SumOfFive(ns);
    case Curve =>
    case Dh => SumOfTwo(ns);
  }

  lemma OverwriteLeft(a: seq<byte>, b: seq<byte>, off: nat, c: seq<byte>)
    requires off + |c| <= |a|
    ensures Overwrite(a + b, off, c) == Overwrite(a, off, c) + b
  {
    assert (a + b)[off + |c|..] == a[off + |c|..] + b;
  }

  /** A prefix with its private size zeroed is the public part, if the public components are in
      front. */
  lemma PrefixIsPublicPart(f: Family, key: seq<byte>, n: nat)
    requires !f.Dsa? && HeaderBytes(f) <= n <= |key| && n == HeaderBytes(f) + PublicSize(f, key)
    ensures Overwrite(key[..n], 4 * (2 + Private(f)), StoreU32(0)) == PublicPart(f, key)
  {
    var head, body := key[..HeaderBytes(f)], key[HeaderBytes(f)..][..PublicSize(f, key)];
    assert key[..n] == head + body;
    OverwriteLeft(head, body, 4 * (2 + Private(f)), StoreU32(0));
  }

  /** The copy of a prefix, with the private size set to zero. */
  method CopyPrefix(h: Heap, f: Family, keyIn: Ptr, keySize: u32, n: u32, env: Platform) returns (end: Ended, block: nat)
    requires h.Valid() && InBounds(h.blocks, keyIn, keySize) && n <= keySize
    modifies h
    ensures h.Valid()
    ensures end == if !CanAllocate(env, n) then Returned(MallocFail)
                   else EndOf(PrefixCopy(f, old(Read(h.blocks, keyIn, keySize)), n))
    ensures end == Returned(MallocFail) ==> h.blocks == old(h.blocks)
    ensures end == Returned(Success) ==>
              && block !in old(h.blocks)
              && h.blocks == old(h.blocks)[block := PrefixCopy(f, old(Read(h.blocks, keyIn, keySize)), n).pub]
  {
    ReadPrefix(h.blocks, keyIn, n, keySize);
    var copy := h.MallocCopy(keyIn, n, env);
    if copy.None? {
      return Returned(MallocFail), 0;
    }
    if n < 4 * (3 + Private(f)) {
      return WrotePastEnd, 0;
    }
    block := copy.value;
    h.Put(block, 4 * (2 + Private(f)), StoreU32(0));
    end := Returned(Success);
  }

  /** The end of every format function: hand out the public part `pub`, which lies in the new
      block `block`, with the whole material, and free that block.  `m` is memory before. */
  method FormatAndFree(h: Heap, block: nat, n: u32, ghost pub: seq<byte>, keyIn: Ptr, keySize: u32, out: ParamSet,
                       ghost m: Blocks, env: Platform)
    returns (ret: Status)
    requires h.Valid() && InBounds(m, keyIn, keySize) && out.block in m && block !in m
    requires h.blocks == m[block := pub] && n == |pub|
    requires out.Live(h) && out.paramSetSize <= |h.blocks[out.block]|
    modifies h, out, out.params
    ensures h.Valid()
    ensures KeysOutcome(pub, Read(m, keyIn, keySize), old(out.paramSetSize), env,
                        m, ret, h.blocks, ListOf(out), out.block, out.paramSetSize)
  {
    ReadWhole(h.blocks, block);
    ret := FormatKeyInner(h, At(block, 0), n, keyIn, keySize, out, env);
    if ret == Success {
      HoldsKeysWithout(h.blocks, out.List(), out.block, out.paramSetSize, pub, Read(m, keyIn, keySize), block);
    }
    h.Free(block);
  }

  /** How every format function but that for 25519 starts: the size of the public part. */
  method PublicKeySize(f: Family, key: seq<byte>) returns (ret: Status, n: u32)
    requires !f.Curve? && |key| < U32_LIMIT
    ensures ret == if |key| < HeaderBytes(f) then InvalidArgument
                   else if |key| < BlockSize(f, key) then InvalidKeyInfo
                   else Success
    ensures ret == Success ==> n == BlockSize(f, key) <= |key|
  {
    n := 0;
    if |key| < HeaderBytes(f) {
      return InvalidArgument, 0;
    }
    PublicSizeWords(f, key);
    if f.Dsa? {
      n := Wrap32(HeaderBytes(f) + Word(key, 3) + Word(key, 4) + Word(key, 5) + Word(key, 6));
    } else if f.Dh? {
      n := Wrap32(HeaderBytes(f) + Word(key, 2));
    } else {
      n := Wrap32(HeaderBytes(f) + Word(key, 2) + Word(key, 3));
    }
    ret := if |key| < n then InvalidKeyInfo else Success;
  }

  /** Its first half: the copy in a new block. */
  method PreparePrefix(h: Heap, f: Family, keyIn: Ptr, keySize: u32, env: Platform)
    returns (end: Ended, block: nat, n: u32)
    requires !f.Curve? && !f.Dsa? && h.Valid() && InBounds(h.blocks, keyIn, keySize)
    modifies h
    ensures h.Valid()
    ensures end == EndOf(CopyPublic(f, old(Read(h.blocks, keyIn, keySize)), env))
    ensures end.Returned? && end.ret != Success ==> h.blocks == old(h.blocks)
    ensures end == Returned(Success) ==>
              var copy := CopyPublic(f, old(Read(h.blocks, keyIn, keySize)), env);
              && copy.Copied? && n == |copy.pub|
              && block !in old(h.blocks) && h.blocks == old(h.blocks)[block := copy.pub]
  {
    var key := Read(h.blocks, keyIn, keySize);
    var ret, size := PublicKeySize(f, key);
    if ret != Success {
      return Returned(ret), 0, 0;
    }
    end, block := CopyPrefix(h, f, keyIn, keySize, size, env);
    n := size;
  }

  /** FormatRsaKey, FormatEccKey and FormatDhKey: header and public components are in front, so a
      prefix is copied and the private size is set to zero. */
  method FormatPrefixKey(h: Heap, f: Family, keyIn: Ptr, keySize: u32, out: ParamSet, env: Platform)
    returns (end: Ended)
    requires f.Rsa? || f.Ecc? || f.Dh?
    requires h.Valid() && InBounds(h.blocks, keyIn, keySize)
    requires out.Live(h) && out.paramSetSize <= |h.blocks[out.block]|
    modifies h, out, out.params
    ensures h.Valid()
    ensures FormatOutcome(f, old(Read(h.blocks, keyIn, keySize)), old(out.paramSetSize), env, old(h.blocks),
                          end, h.blocks, ListOf(out), out.block, out.paramSetSize)
  {
    ghost var m, key := h.blocks, Read(h.blocks, keyIn, keySize);
    var block, publicKeySize;
    end, block, publicKeySize := PreparePrefix(h, f, keyIn, keySize, env);
    if end == Returned(Success) {
      var ret := FormatAndFree(h, block, publicKeySize, CopyPublic(f, key, env).pub, keyIn, keySize, out, m, env);
      end := Returned(ret);
    }
  }

  method CopyTwoParts(h: Heap, keyIn: Ptr, keySize: u32, outOffset: u32, n: u32, env: Platform)
    returns (copy: Option<nat>)
    requires h.Valid() && InBounds(h.blocks, keyIn, keySize) && 28 <= n && outOffset + n - 28 <= keySize && 28 <= keySize
    modifies h
    ensures h.Valid() && (copy.Some? <==> CanAllocate(env, n))
    ensures copy.None? ==> h.blocks == old(h.blocks)
    ensures copy.Some? ==>
              && copy.value !in old(h.blocks)
              && var key := old(Read(h.blocks, keyIn, keySize));
                 h.blocks == old(h.blocks)[copy.value := key[..28] + key[outOffset..][..n - 28]]
  {
    ReadPrefix(h.blocks, keyIn, 28, keySize);
    ReadPart(h.blocks, keyIn, outOffset, n - 28, keySize);
    copy := h.MallocCopyTwo(keyIn, 28, At(keyIn.block, keyIn.off + outOffset), n - 28, env);
  }

  /** The copy FormatDsaKey makes: the header, and what lies behind the private component. */
  method CopyAroundPrivate(h: Heap, keyIn: Ptr, keySize: u32, xSize: u32, n: u32, env: Platform)
    returns (end: Ended, block: nat)
    requires h.Valid() && InBounds(h.blocks, keyIn, keySize) && 28 <= keySize && n <= keySize
    requires xSize == Word(Read(h.blocks, keyIn, keySize), 2)
    modifies h
    ensures h.Valid()
    ensures end == if !CanAllocate(env, n) then Returned(MallocFail)
                   else EndOf(DsaCopy(old(Read(h.blocks, keyIn, keySize)), n))
    ensures end == Returned(MallocFail) ==> h.blocks == old(h.blocks)
    ensures end == Returned(Success) ==>
              && block !in old(h.blocks)
              && h.blocks == old(h.blocks)[block := DsaCopy(old(Read(h.blocks, keyIn, keySize)), n).pub]
  {
    ghost var key := Read(h.blocks, keyIn, keySize);
    var outOffset := Wrap32(28 + xSize);
    var copy;
    if n <= 28 {
      copy := h.Malloc(n, env);
    } else if outOffset + n - 28 <= keySize {
      copy := CopyTwoParts(h, keyIn, keySize, outOffset, n, env);
    } else {
      return if CanAllocate(env, n) then ReadPastEnd else Returned(MallocFail), 0;
    }
    if copy.None? {
      return Returned(MallocFail), 0;
    }
    if n < 12 {
      return WrotePastEnd, 0;
    }
    block := copy.value;
    if n == 28 {
      ReadPrefix(h.blocks, keyIn, 28, keySize);
      h.Store(block, 0, keyIn, 28);
      assert Overwrite(Zeros(28), 0, key[..28]) == key[..28] + [];
    }
    h.Put(block, 8, StoreU32(0));
    end := Returned(Success);
  }

  /** FormatDsaKey. */
  method FormatDsaKey(h: Heap, keyIn: Ptr, keySize: u32, out: ParamSet, env: Platform) returns (end: Ended)
    requires h.Valid() && InBounds(h.blocks, keyIn, keySize)
    requires out.Live(h) && out.paramSetSize <= |h.blocks[out.block]|
    modifies h, out, out.params
    ensures h.Valid()
    ensures FormatOutcome(Dsa, old(Read(h.blocks, keyIn, keySize)), old(out.paramSetSize), env, old(h.blocks),
                          end, h.blocks, ListOf(out), out.block, out.paramSetSize)
  {
    ghost var m := h.blocks;
    var key := Read(h.blocks, keyIn, keySize);
    var ret, publicKeySize := PublicKeySize(Dsa, key);
    if ret != Success {
      return Returned(ret);
    }
    var block;
    end, block := CopyAroundPrivate(h, keyIn, keySize, Word(key, 2), publicKeySize, env);
    if end != Returned(Success) {
      return;
    }
    ret := FormatAndFree(h, block, publicKeySize, CopyPublic(Dsa, key, env).pub, keyIn, keySize, out, m, env);
    end := Returned(ret);
  }

  /** What 29 bytes of DSA material say. */
  lemma DsaWords(ws: seq<u32>, b: byte)
    requires |ws| == 7
    ensures var key := EncodeWords(ws) + [b];
            && |key| == 29 && PublicStart(Dsa, key) == ws[2] as int + 28
            && PublicSize(Dsa, key) == ws[3] as int + ws[4] + ws[5] + ws[6]
  {
    AllWordsOfEncode(ws, [b]);
    PublicSizeWords(Dsa, EncodeWords(ws) + [b]);
  }

  /** Both ways out of the memory are reached: by DSA material with a private component of one byte
      and nothing behind it, whether the public sizes come to 1 or wrap to 1, and by an RSA header
      whose sizes wrap to a block of 8 bytes. */
  lemma DsaCanReadPastEnd(env: Platform)
    requires CanAllocate(env, 29)
    ensures CopyPublic(Dsa, EncodeWords([0, 0, 1, 1, 0, 0, 0]) + [0], env) == Failed(ReadPastEnd)
  {
    DsaWords([0, 0, 1, 1, 0, 0, 0], 0);
    CopyPublicIff(Dsa, EncodeWords([0, 0, 1, 1, 0, 0, 0]) + [0], env);
  }

  lemma WrappedDsaCanReadPastEnd(env: Platform)
    requires CanAllocate(env, 29)
    ensures CopyPublic(Dsa, EncodeWords([0, 0, 1, U32_MAX, 2, 0, 0]) + [0], env) == Failed(ReadPastEnd)
  {
    DsaWords([0, 0, 1, U32_MAX, 2, 0, 0], 0);
    WrapIs(29 + U32_LIMIT, 1, 29);
    CopyPublicIff(Dsa, EncodeWords([0, 0, 1, U32_MAX, 2, 0, 0]) + [0], env);
  }

  lemma PrefixCanWritePastEnd(env: Platform)
    requires CanAllocate(env, 8)
    ensures CopyPublic(Rsa, EncodeWords([0, 0, U32_MAX - 11, 0, 0]), env) == Failed(WrotePastEnd)
  {
    var ws: seq<u32> := [0, 0, U32_MAX - 11, 0, 0];
    var key := EncodeWords(ws);
    assert key + [] == key;
    AllWordsOfEncode(ws, []);
    PublicSizeWords(Rsa, key);
    assert PublicSize(Rsa, key) == U32_MAX - 11;
    WrapIs(HeaderBytes(Rsa) + PublicSize(Rsa, key), 1, 8);
  }

  /** The public part of complete material is that material without its private component. */
  lemma PublicPartOfMaterial(f: Family, key: seq<byte>)
    requires HeaderBytes(f) <= |key| && HeaderBytes(f) + Sum(PartSizes(f, key)) <= |key|
    ensures PublicStart(f, key) + PublicSize(f, key) <= HeaderBytes(f) + Sum(PartSizes(f, key))
    ensures Fits(f, Decode(f, key)) && PublicPart(f, key) == Encode(f, Public(f, Decode(f, key)))
  {
    EncodeOfDecode(f, key);
    var k, n := Decode(f, key), HeaderBytes(f) + Sum(PartSizes(f, key));
    PublicPartIs(f, k, key[n..]);
    PublicSizeIs(f, k, key[n..]);
    CutOfFlatten(k.parts, []);
    PublicBody(f, k);
  }

  /** Material that passes the import check meets what the format functions ask for, and the
      public part they hand out is that material without its private component. */
  lemma CheckedMaterialFormats(f: Family, alg: u32, keyType: u32, keyLen: u32, key: seq<byte>)
    requires KeyCheck.IsMaterial(f, alg, keyType, keyLen, key)
    ensures HeaderBytes(f) <= |key| && PublicStart(f, key) + PublicSize(f, key) <= |key|
    ensures HeaderBytes(f) + PublicSize(f, key) < U32_LIMIT
    ensures forall env :: CanAllocate(env, HeaderBytes(f) + PublicSize(f, key)) && |key| < U32_LIMIT ==>
              CopyPublic(f, key, env) == Copied(PublicPart(f, key))
    ensures HeaderBytes(f) + Sum(PartSizes(f, key)) <= |key|
    ensures Fits(f, Decode(f, key)) && PublicPart(f, key) == Encode(f, Public(f, Decode(f, key)))
  {
    KeyCheck.IsMaterialIff(f, alg, keyType, keyLen, key);
    KeyCheck.AcceptedSumFits(f, keyType, PartSizes(f, key));
    PublicPartOfMaterial(f, key);
    forall env | CanAllocate(env, HeaderBytes(f) + PublicSize(f, key)) && |key| < U32_LIMIT
      ensures CopyPublic(f, key, env) == Copied(PublicPart(f, key))
    {
      PublicPartIsCopied(f, key, env);
    }
  }

  // ----- 25519 keys -----

  /** What CheckFormatCurve25519Key answers: the material must be complete, with keys of at most
      2048 bytes, and the parameter set with its keys must fit `room`. */
  function CurveCheck(key: seq<byte>, room: nat): Status {
    if |key| < 20 || 20 + Sum(PartSizes(Curve, key)) > |key| then InvalidArgument
    else if Word(key, 2) > KeyCheck.MAX_KEY_SIZE || Word(key, 3) > KeyCheck.MAX_KEY_SIZE then InvalidArgument
    else if 56 + Sum(PartSizes(Curve, key)) > room then BufferTooSmall
    else Success
  }

  /** How the function for 25519 ends: it hands out the two keys of the material. */
  ghost predicate CurveOutcome(key: seq<byte>, room: nat, env: Platform, m: Blocks,
                               ret: Status, m': Blocks, ps: seq<Param>, block: nat, size: nat) {
    if CurveCheck(key, room) == Success then
      KeysOutcome(Decode(Curve, key).parts[0], Decode(Curve, key).parts[1], room, env, m, ret, m', ps, block, size)
    else
      ret == CurveCheck(key, room) && m' == m
  }

  method CheckFormatCurve25519Key(key: seq<byte>, room: u32) returns (ret: Status)
    requires |key| < U32_LIMIT
    ensures ret == CurveCheck(key, room)
  {
    if |key| < HeaderBytes(Curve) {
      return InvalidArgument;
    }
    var pubKeySize, priKeySize := Word(key, 2), Word(key, 3);
    SumOfTwo(PartSizes(Curve, key));
    if |key| < HeaderBytes(Curve) + pubKeySize + priKeySize {
      return InvalidArgument;
    }
    if pubKeySize > KeyCheck.MAX_KEY_SIZE || priKeySize > KeyCheck.MAX_KEY_SIZE {
      return InvalidArgument;
    }
    ret := if room < 56 + pubKeySize + priKeySize then BufferTooSmall else Success;
  }

  /** FormatCurve25519Key: both parts are handed out without the header. */
  method FormatCurve25519Key(h: Heap, keyIn: Ptr, keySize: u32, out: ParamSet, env: Platform) returns (ret: Status)
    requires h.Valid() && InBounds(h.blocks, keyIn, keySize)
    requires out.Live(h) && out.paramSetSize <= |h.blocks[out.block]|
    modifies h, out, out.params
    ensures h.Valid()
    ensures CurveOutcome(old(Read(h.blocks, keyIn, keySize)), old(out.paramSetSize), env, old(h.blocks),
                         ret, h.blocks, ListOf(out), out.block, out.paramSetSize)
  {
    ghost var m := h.blocks;
    var key := Read(h.blocks, keyIn, keySize);
    ret := CheckFormatCurve25519Key(key, out.paramSetSize);
    if ret != Success {
      return;
    }
    var pubKeySize, priKeySize := Word(key, 2), Word(key, 3);
    ghost var pub, pri := CurvePieces(m, keyIn, keySize);
    ret := FormatKeyInner(h, At(keyIn.block, keyIn.off + 20), pubKeySize,
                          At(keyIn.block, keyIn.off + 20 + pubKeySize), priKeySize, out, env);
  }

  lemma CurvePieces(m: Blocks, p: Ptr, size: nat) returns (pub: seq<byte>, pri: seq<byte>)
    requires InBounds(m, p, size) && size >= 20
    requires 20 + Sum(PartSizes(Curve, Read(m, p, size))) <= size
    ensures pub == Decode(Curve, Read(m, p, size)).parts[0] && pri == Decode(Curve, Read(m, p, size)).parts[1]
    ensures var data, n := At(p.block, p.off + 20), Word(Read(m, p, size), 2);
            InBounds(m, data, n) && Read(m, data, n) == pub
    ensures var data, n := At(p.block, p.off + 20 + Word(Read(m, p, size), 2)), Word(Read(m, p, size), 3);
            InBounds(m, data, n) && Read(m, data, n) == pri
  {
    pub, pri := Decode(Curve, Read(m, p, size)).parts[0], Decode(Curve, Read(m, p, size)).parts[1];
    var key := Read(m, p, size);
    var ns := PartSizes(Curve, key);
    SumOfTwo(ns);
    ReadPart(m, p, 20, ns[0], size);
    ReadPart(m, p, 20 + ns[0], ns[1], size);
    Curve25519.CutTwo(key[20..], ns);
    assert key[20..][ns[0]..] == key[20 + ns[0]..];
  }
}
