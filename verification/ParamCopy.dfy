/** Copies of parameter sets: the deep copy HksGetParamSet (`hks_param.c`), and BuildParamSetOut
    (`hks_crypto_adapter.c`), which builds a set and copies it into a buffer of the caller. */
module ParamCopy {
  import opened CTypes
  import opened Memory
  import opened ParamLayout
  import opened ParamRefresh
  import opened ParamBuild

  /** `dst` is a byte-for-byte copy of the set `src` of `size` bytes: header, parameters with
      their old pointers, and the bytes of the block. */
  ghost predicate RawCopy(m: Blocks, srcBlock: nat, src: seq<Param>, m': Blocks, dstBlock: nat, dst: seq<Param>, size: nat) {
    && InBounds(m, At(srcBlock, 0), size) && InBounds(m', At(dstBlock, 0), size)
    && dst == src
    && Read(m', At(dstBlock, 0), size) == Read(m, At(srcBlock, 0), size)
  }

  method CopyRaw(h: Heap, src: ParamSet, dst: ParamSet)
    requires h.Valid() && WellFormed(h, src) && dst.Live(h) && src.block != dst.block
    requires src != dst && src.params != dst.params && src.paramSetSize <= |h.blocks[dst.block]|
    modifies h, dst, dst.params
    ensures h.Valid() && WellFormed(h, dst)
    ensures dst.paramSetSize == src.paramSetSize && dst.paramsCnt == src.paramsCnt
    ensures RawCopy(old(h.blocks), src.block, src.List(), h.blocks, dst.block, dst.List(), src.paramSetSize)
    ensures OnlyBlockChanged(old(h.blocks), h.blocks, dst.block)
  {
    dst.paramSetSize, dst.paramsCnt := src.paramSetSize, src.paramsCnt;
    forall i | 0 <= i < src.paramsCnt {
      dst.params[i] := src.params[i];
    }
    assert dst.List() == src.List();
    ghost var bytes := Read(h.blocks, At(src.block, 0), src.paramSetSize);
    OverwriteReads(h.blocks[dst.block], 0, bytes);
    h.Store(dst.block, 0, At(src.block, 0), src.paramSetSize);
  }

  /** Refreshing a raw copy: a finished set at the new place, with the entries of the original
      if that was finished. */
  lemma RefreshedCopy(m: Blocks, block: nat, ps: seq<Param>, m1: Blocks, block': nat, copy: seq<Param>, size: u32,
                      env: Platform, ret: Status, m': Blocks, ps': seq<Param>)
    requires RawCopy(m, block, ps, m1, block', copy, size) && size <= PARAM_SET_MAX_SIZE
    requires FreshOutcome(m1, copy, size, block', false, env, ret, m', ps')
    ensures ret == if size == Total(ps) then Success else InvalidArgument
    ensures ret == Success ==> Built(m', ps', block', size) && ps' == Relocate(ps, block', Base(ps))
    ensures ret == Success && Built(m, ps, block, size) ==> Means(m, ps, m', ps', block', size)
  {
    if ret == Success {
      RelocatedIsBuilt(ps, size, m', block');
      RelocateFacts(ps, block', Base(ps), block');
      if Built(m, ps, block, size) {
        RelocationKeepsMeaning(m, ps, block, size, m', block');
      }
    }
  }

  /** HksGetParamSet on a buffer of `inSize` bytes. */
  method HksGetParamSet(h: Heap, src: ParamSet, inSize: u32, env: Platform) returns (ret: Status, out: ParamSet?)
    requires h.Valid() && src.Live(h) && inSize <= |h.blocks[src.block]|
    modifies h
    ensures h.Valid() && (out != null <==> ret == Success)
    ensures SizesOk(src.paramSetSize, src.paramsCnt, inSize) ==> src.paramsCnt <= src.params.Length
    ensures ret == if !SizesOk(src.paramSetSize, src.paramsCnt, inSize) then InvalidArgument
                   else if !CanAllocate(env, inSize) then MallocFail
                   else if inSize != Total(src.List()) then InvalidArgument
                   else Success
    ensures ret != Success ==> h.blocks == old(h.blocks)
    ensures ret == Success ==>
              && fresh(out) && out.paramsCnt <= out.params.Length && out.block !in old(h.blocks)
              && AgreeOutside(old(h.blocks), h.blocks, out.block)
              && Built(h.blocks, out.List(), out.block, inSize)
              && out.List() == Relocate(src.List(), out.block, Base(src.List()))
    ensures ret == Success && Built(old(h.blocks), src.List(), src.block, inSize) ==>
              Means(old(h.blocks), src.List(), h.blocks, out.List(), out.block, inSize)
  {
    SizesOkIff(src.paramSetSize, src.paramsCnt, inSize);
    if !SizesOk(src.paramSetSize, src.paramsCnt, inSize) {
      return InvalidArgument, null;
    }
    var block := h.Malloc(inSize, env);
    if block.None? {
      return MallocFail, null;
    }
    out := new ParamSet(block.value, inSize);
    CopyRaw(h, src, out);
    ghost var m1, copy := h.blocks, out.List();
    ret := FreshParamSet(h, out, false, env);
    RefreshedCopy(old(h.blocks), src.block, src.List(), m1, out.block, copy, inSize, env, ret, h.blocks, out.List());
    if ret != Success {
      h.Free(out.block);
      return ret, null;
    }
  }

  lemma MeansChain(m: Blocks, ps: seq<Param>, m1: Blocks, ps1: seq<Param>, block1: nat, size1: nat,
                   m2: Blocks, ps2: seq<Param>, block2: nat, size2: nat)
    requires Means(m, ps, m1, ps1, block1, size1) && Means(m1, ps1, m2, ps2, block2, size2)
    ensures Means(m, ps, m2, ps2, block2, size2)
  {
  }

  lemma MeansSize(m: Blocks, ps: seq<Param>, m': Blocks, ps': seq<Param>, block: nat, size: nat)
    requires Means(m, ps, m', ps', block, size)
    ensures size == Total(ps) && BlobSum(ps') == BlobSum(ps)
  {
    SameEntriesSameSizes(m, ps, m', ps');
  }

  lemma {:induction false} SameEntriesSameSizes(m: Blocks, ps: seq<Param>, m': Blocks, ps': seq<Param>)
    requires AllReadable(m, ps) && AllReadable(m', ps') && Entries(m, ps) == Entries(m', ps')
    ensures |ps| == |ps'| && BlobSum(ps) == BlobSum(ps')
  {
    EntriesLength(m, ps);
    EntriesLength(m', ps');
    if ps != [] {
      EntriesAt(m, ps, |ps| - 1);
      EntriesAt(m', ps', |ps| - 1);
      assert Meaning(m, Last(ps)) == Meaning(m', Last(ps'));
      assert BlobSize(Last(ps)) == |Content(m, Last(ps))|;
      AppendInjective(Entries(m, Front(ps)), [Meaning(m, Last(ps))], Entries(m', Front(ps')), [Meaning(m', Last(ps'))]);
      SameEntriesSameSizes(m, Front(ps), m', Front(ps'));
    }
  }

  /** What Init, Add and Build come to over parameters of at most 4 MiB together. */
  function FromResult(params: seq<Param>, env: Platform): Status {
    if !CanAllocate(env, DEFAULT_PARAM_SET_SIZE) then MallocFail
    else if |params| > DEFAULT_PARAM_CNT then InvalidArgument
    else BuildResult(params, env)
  }

  /** Init, Add and Build over `params` in one go, as BuildParamSetOut starts. */
  method BuildFrom(h: Heap, params: seq<Param>, env: Platform) returns (ret: Status, built: ParamSet?)
    requires h.Valid() && AllReadable(h.blocks, params) && |params| < U32_LIMIT
    modifies h
    ensures h.Valid()
    ensures ret == Success <==>
            CanAllocate(env, DEFAULT_PARAM_SET_SIZE) && |params| <= DEFAULT_PARAM_CNT && Buildable(params, env)
    ensures Total(params) <= PARAM_SET_MAX_SIZE ==> ret == FromResult(params, env)
    ensures ret == Success ==>
              && built != null && fresh(built) && fresh(built.params) && built.Live(h)
              && built.block !in old(h.blocks) && built.paramsCnt <= built.params.Length
              && Means(old(h.blocks), params, h.blocks, built.List(), built.block, built.paramSetSize)
    ensures AllKept(old(h.blocks), h.blocks)
  {
    ghost var m := h.blocks;
    ret, built := HksInitParamSet(h, env);
    if ret != Success {
      return ret, null;
    }
    ghost var added;
    ret, added := HksAddParams(built, Some(params));
    ReadableNotNull(m, params);
    if ret != Success {
      if |params| <= DEFAULT_PARAM_CNT {
        FirstAddStops(params, added);
      }
      h.Free(built.block);
      return ret, null;
    }
    assert built.List() == params by {
      assert [] + params[..|params|] == params;
    }
    ret, built := BuildOrFree(h, built, m, env);
  }

  /** The slots of a set whose first `n` bytes were set to zero: zero, or untouched behind them; a
      slot that is zeroed in part is left open. */
  predicate SlotsCleared(slots: seq<Param>, slots': seq<Param>, n: nat) {
    && |slots'| == |slots|
    && (forall i :: 0 <= i < |slots| && PARAM_SET_HEADER + PARAM_BYTES * (i + 1) <= n ==> slots'[i] == Param(0, 0, Null))
    && (forall i :: 0 <= i < |slots| && PARAM_SET_HEADER + PARAM_BYTES * i >= n ==> slots'[i] == slots[i])
  }

  /** A 32-bit word whose `k` low bytes were set to zero. */
  function LowBytesCleared(word: u32, k: nat): u32
    requires k <= 4
  {
    match k
    case 0 => word
    case 1 => word - word % 0x100
    case 2 => word - word % 0x1_0000
    case 3 => word - word % 0x100_0000
    case 4 => 0
  }

  /** What a refused memcpy_s leaves of the set `out` if the size field of that set was the size of
      the destination. */
  method ClearOut(h: Heap, out: ParamSet)
    requires h.Valid() && out.Live(h) && out.paramSetSize <= |h.blocks[out.block]|
    modifies h, out, out.params
    ensures h.Valid() && out.paramSetSize == 0
    ensures out.paramsCnt == var n := old(out.paramSetSize);
                             LowBytesCleared(old(out.paramsCnt), if n <= 4 then 0 else if n < 8 then n - 4 else 4)
    ensures SlotsCleared(old(out.params[..]), out.params[..], old(out.paramSetSize))
    ensures h.blocks == Cleared(old(h.blocks), out.block, 0, old(out.paramSetSize))
  {
    var n := out.paramSetSize;
    h.Put(out.block, 0, Zeros(n));
    out.paramsCnt := LowBytesCleared(out.paramsCnt, if n <= 4 then 0 else if n < 8 then n - 4 else 4);
    out.paramSetSize := LowBytesCleared(out.paramSetSize, if n <= 4 then n else 4);
    ghost var was := out.params[..];
    forall i | 0 <= i < out.params.Length && PARAM_SET_HEADER + PARAM_BYTES * i < n {
      out.params[i] := Param(0, 0, Null);
    }
    if n > PARAM_SET_HEADER {
      var k := (n - PARAM_SET_HEADER) / PARAM_BYTES;
      if k < out.params.Length && PARAM_SET_HEADER + PARAM_BYTES * k < n {
        out.params[k] := *;
      }
    }
  }

  /** The set can be built but is larger than the caller's buffer. */
  predicate TooLarge(params: seq<Param>, room: nat, env: Platform) {
    && CanAllocate(env, DEFAULT_PARAM_SET_SIZE) && |params| <= DEFAULT_PARAM_CNT && Buildable(params, env)
    && Total(params) > room
  }

  /** BuildParamSetOut: the set of `params` is built and copied into the buffer of `out`, whose
      size field says how large that is. */
  method BuildParamSetOut(h: Heap, params: seq<Param>, out: ParamSet, env: Platform) returns (ret: Status)
    requires h.Valid() && AllReadable(h.blocks, params) && |params| < U32_LIMIT
    requires out.Live(h) && out.paramSetSize <= |h.blocks[out.block]|
    modifies h, out, out.params
    ensures h.Valid()
    ensures ret == Success <==>
            && CanAllocate(env, DEFAULT_PARAM_SET_SIZE) && |params| <= DEFAULT_PARAM_CNT && Buildable(params, env)
            && Total(params) <= old(out.paramSetSize) <= RSIZE_MAX
    ensures Total(params) <= PARAM_SET_MAX_SIZE ==>
              ret == if FromResult(params, env) != Success then FromResult(params, env)
                     else if Total(params) > old(out.paramSetSize) || old(out.paramSetSize) > RSIZE_MAX then InsufficientMemory
                     else Success
    ensures ret == Success ==>
              && out.paramsCnt <= out.params.Length && out.paramSetSize == Total(params)
              && Means(old(h.blocks), params, h.blocks, out.List(), out.block, Total(params))
    ensures out.block in h.blocks
    ensures ret != Success && !TooLarge(params, old(out.paramSetSize), env) ==>
              unchanged(out, out.params) && h.blocks[out.block] == old(h.blocks)[out.block]
    ensures TooLarge(params, old(out.paramSetSize), env) ==>
              && ret == InsufficientMemory && out.paramSetSize == 0
              && SlotsCleared(old(out.params[..]), out.params[..], old(out.paramSetSize))
              && h.blocks[out.block] == Cleared(old(h.blocks), out.block, 0, old(out.paramSetSize))[out.block]
    ensures AgreeOutside(old(h.blocks), h.blocks, out.block)
  {
    ghost var m := h.blocks;
    var built;
    ret, built := BuildFrom(h, params, env);
    if ret != Success {
      return;
    }
    MeansSize(m, params, h.blocks, built.List(), built.block, built.paramSetSize);
    if built.paramSetSize > out.paramSetSize {
      ClearOut(h, out);
      h.Free(built.block);
      return InsufficientMemory;
    }
    if out.paramSetSize > RSIZE_MAX {
      h.Free(built.block);
      return InsufficientMemory;
    }
    ret := CopyOut(h, built, out, params, m, env);
  }

  /** The copy of a built set that fits, refreshed; the built set is freed.  `m` is memory in which
      the set was asked for. */
  method CopyOut(h: Heap, built: ParamSet, out: ParamSet, ghost params: seq<Param>, ghost m: Blocks, env: Platform)
    returns (ret: Status)
    requires h.Valid() && built.Live(h) && built.paramsCnt <= built.params.Length
    requires Means(m, params, h.blocks, built.List(), built.block, built.paramSetSize) && built.paramSetSize == Total(params)
    requires out.Live(h) && built.paramSetSize <= out.paramSetSize <= |h.blocks[out.block]|
    requires built != out && built.params != out.params && built.block != out.block
    modifies h, out, out.params
    ensures h.Valid() && ret == Success
    ensures out.paramsCnt <= out.params.Length && out.paramSetSize == Total(params)
    ensures Means(m, params, h.blocks, out.List(), out.block, Total(params))
    ensures AgreeOutside(old(h.blocks) - {built.block}, h.blocks, out.block)
  {
    ghost var m1, ps1, block1 := h.blocks, built.List(), built.block;
    CopyRaw(h, built, out);
    h.Free(built.block);
    ret := HksFreshParamSet(h, out, false, env);
    RefreshedMeans(m, params, m1, block1, ps1, out.block, out.paramSetSize, env, ret, h.blocks, out.List());
  }

  /** Refreshing a raw copy of a set that means `params` gives such a set. */
  lemma RefreshedMeans(m: Blocks, params: seq<Param>, m1: Blocks, block1: nat, ps1: seq<Param>, block: nat, size: u32,
                       env: Platform, ret: Status, m': Blocks, ps': seq<Param>)
    requires Means(m, params, m1, ps1, block1, size) && RawCopy(m1, block1, ps1, m', block, ps1, size)
    requires FreshOutcome(m', ps1, size, block, false, env, ret, m', ps')
    ensures ret == Success && Means(m, params, m', ps', block, size)
  {
    RefreshedCopy(m1, block1, ps1, m', block, ps1, size, env, ret, m', ps');
    MeansChain(m, params, m1, ps1, block1, size, m', ps', block, size);
  }
}
