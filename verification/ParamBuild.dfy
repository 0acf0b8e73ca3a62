/** The builder of parameter sets (`hks_param.c`): Init, any number of Adds, Build; and the deep
    copy of a finished set. */
module ParamBuild {
  import opened CTypes
  import opened Memory
  import opened ParamLayout
  import opened ParamRefresh

  // ----- Adding parameters -----

  /** A set under construction.  The size field is 32 bits wide, and HksAddParams adds the 24 bytes
      of a parameter to it without a check, so it is the true size modulo 2^32. */
  ghost predicate Building(s: ParamSet)
    reads s, s.params
  {
    && s.params.Length == DEFAULT_PARAM_CNT
    && s.paramsCnt <= s.params.Length
    && s.paramSetSize == Wrap32(Total(s.List()))
  }

  predicate NoNullBlob(params: seq<Param>) {
    forall i :: 0 <= i < |params| && IsBytes(params[i].tag) ==> params[i].data != Null
  }

  /** CheckBeforeAddParams, for a set that is not NULL. */
  predicate AddAllowed(paramSetSize: u32, paramsCnt: u32, params: Option<seq<Param>>) {
    && params.Some?
    && paramSetSize <= PARAM_SET_MAX_SIZE
    && paramsCnt + |params.value| <= DEFAULT_PARAM_CNT
    && NoNullBlob(params.value)
  }

  /** The one overflow check there is: a blob added to a list of parameters. */
  predicate Overflows(ps: seq<Param>, p: Param) {
    IsBytes(p.tag) && IsAdditionOverflow(Wrap32(Total(ps) + PARAM_BYTES), BlobSize(p))
  }

  lemma TotalSnoc(ps: seq<Param>, p: Param)
    ensures Total(ps + [p]) == Total(ps) + PARAM_BYTES + BlobSize(p)
  {
    assert Front(ps + [p]) == ps;
  }

  /** The body of HksAddParams' loop. */
  method AddOne(s: ParamSet, p: Param) returns (ok: bool)
    requires Building(s) && s.paramsCnt < DEFAULT_PARAM_CNT
    modifies s, s.params
    ensures Building(s)
    ensures ok <==> !Overflows(old(s.List()), p)
    ensures s.List() == if ok then old(s.List()) + [p] else old(s.List())
  {
    ghost var ps := s.List();
    TotalSnoc(ps, p);
    WrapAdd(Total(ps), PARAM_BYTES, BlobSize(p));
    ghost var size := Total(ps + [p]);
    s.paramSetSize := Wrap32(s.paramSetSize + PARAM_BYTES);
    if IsBytes(p.tag) {
      if IsAdditionOverflow(s.paramSetSize, BlobSize(p)) {
        s.paramSetSize := Wrap32(s.paramSetSize - PARAM_BYTES);
        return false;
      }
      s.paramSetSize := s.paramSetSize + BlobSize(p);
    }
    s.params[s.paramsCnt] := p;
    s.paramsCnt := s.paramsCnt + 1;
    assert s.List() == ps + [p];
    return true;
  }

  /** The first `n` of `params` can be added to `ps` one by one. */
  predicate AllFit(ps: seq<Param>, params: seq<Param>, n: nat)
    requires n <= |params|
  {
    n == 0 || (AllFit(ps, params, n - 1) && !Overflows(ps + params[..n - 1], params[n - 1]))
  }

  /** `added` of `params` get into the list `ps`: all of them, or those before the first overflow. */
  ghost predicate Added(ps: seq<Param>, params: seq<Param>, added: nat) {
    && added <= |params|
    && AllFit(ps, params, added)
    && (added < |params| ==> Overflows(ps + params[..added], params[added]))
  }

  /** HksAddParams. */
  method HksAddParams(s: ParamSet, params: Option<seq<Param>>) returns (ret: Status, ghost added: nat)
    requires Building(s) && (params.Some? ==> |params.value| < U32_LIMIT)
    modifies s, s.params
    ensures Building(s) && ret in {Success, InvalidArgument}
    ensures if AddAllowed(old(s.paramSetSize), old(s.paramsCnt), params) then
              && Added(old(s.List()), params.value, added)
              && s.List() == old(s.List()) + params.value[..added]
              && (ret == Success <==> added == |params.value|)
            else ret == InvalidArgument && s.List() == old(s.List())
  {
    added := 0;
    if !AddAllowed(s.paramSetSize, s.paramsCnt, params) {
      return InvalidArgument, 0;
    }
    var i: u32 := 0;
    ghost var ps := s.List();
    while i < |params.value|
      invariant i <= |params.value| && s.paramsCnt == |ps| + i && Building(s)
      invariant s.List() == ps + params.value[..i]
      invariant AllFit(ps, params.value, i)
    {
      var ok := AddOne(s, params.value[i]);
      if !ok {
        return InvalidArgument, i;
      }
      assert params.value[..i + 1] == params.value[..i] + [params.value[i]];
      Concat3(ps, params.value[..i], [params.value[i]]);
      i := i + 1;
    }
    return Success, i;
  }

  /** What one call of HksAddParams makes of the list `ps`, whether it succeeds or stops midway. */
  ghost predicate AddStep(ps: seq<Param>, params: Option<seq<Param>>, ps': seq<Param>) {
    if |ps| < U32_LIMIT && AddAllowed(Wrap32(Total(ps)), |ps|, params) then
      exists added: nat :: Added(ps, params.value, added) && ps' == ps + params.value[..added]
    else ps' == ps
  }

  /** Any sequence of calls, on a set under construction; `lists` is the run of the list. */
  method AddAll(s: ParamSet, calls: seq<Option<seq<Param>>>) returns (ghost lists: seq<seq<Param>>)
    requires Building(s) && forall i :: 0 <= i < |calls| && calls[i].Some? ==> |calls[i].value| < U32_LIMIT
    modifies s, s.params
    ensures Building(s) && |lists| == |calls| + 1 && lists[0] == old(s.List()) && lists[|calls|] == s.List()
    ensures forall i :: 0 <= i < |calls| ==> AddStep(lists[i], calls[i], lists[i + 1])
  {
    lists := [s.List()];
    for i := 0 to |calls|
      invariant Building(s) && |lists| == i + 1 && lists[0] == old(s.List()) && lists[i] == s.List()
      invariant forall k :: 0 <= k < i ==> AddStep(lists[k], calls[k], lists[k + 1])
    {
      ghost var ps := s.List();
      var ret;
      ghost var added;
      ret, added := HksAddParams(s, calls[i]);
      assert AddStep(ps, calls[i], s.List());
      lists := lists + [s.List()];
    }
  }

  lemma StopsOnlyAtLimit(ps: seq<Param>, params: seq<Param>, added: nat)
    requires Added(ps, params, added) && added < |params|
    ensures Total(ps + params) >= U32_LIMIT
  {
    var all, k := ps + params, |ps| + added;
    assert all[..k] == ps + params[..added] && all[k] == params[added];
    PrefixStep(all, k);
  }

  lemma FirstAddStops(params: seq<Param>, added: nat)
    requires Added([], params, added) && added < |params|
    ensures Total(params) >= U32_LIMIT
  {
    StopsOnlyAtLimit([], params, added);
    assert [] + params == params;
  }

  predicate WithinLimits(ps: seq<Param>) {
    |ps| <= DEFAULT_PARAM_CNT && Total(ps) <= PARAM_SET_MAX_SIZE
  }

  /** No call changes what was added before or adds more than the buffer has room for; and a call
      without NULL blobs that keeps number and total size within their limits adds everything. */
  lemma AddStepGrows(ps: seq<Param>, params: Option<seq<Param>>, ps': seq<Param>)
    requires AddStep(ps, params, ps') && |ps| <= DEFAULT_PARAM_CNT
    ensures ps <= ps' && |ps'| <= DEFAULT_PARAM_CNT
    ensures params.Some? && WithinLimits(ps + params.value) && NoNullBlob(params.value) ==> ps' == ps + params.value
  {
    if AddAllowed(Wrap32(Total(ps)), |ps|, params) {
      var added: nat :| Added(ps, params.value, added) && ps' == ps + params.value[..added];
      if added < |params.value| {
        StopsOnlyAtLimit(ps, params.value, added);
      } else {
        assert params.value[..added] == params.value;
      }
    } else if params.Some? {
      assert (ps + params.value)[..|ps|] == ps;
      BlobSumMonotone(ps + params.value, |ps|);
    }
  }

  /** The size field is the true size exactly while the true size fits 32 bits. */
  lemma SizeFieldIsTotalIff(ps: seq<Param>)
    ensures Wrap32(Total(ps)) == Total(ps) <==> Total(ps) < U32_LIMIT
  {
  }

  /** It need not fit: a blob that ends just below 2^32 and one more parameter pass every check
      of one HksAddParams call and leave a size field of 16. */
  lemma SizeFieldCanWrap() returns (params: seq<Param>)
    ensures AddAllowed(PARAM_SET_HEADER, 0, Some(params)) && Added([], params, |params|)
    ensures Total(params) >= U32_LIMIT && Wrap32(Total(params)) == 16
  {
    var blob, word := Param(0x5000_0008, U32_LIMIT - 40, At(0, 0)), Param(0x2000_0001, 0, Null);
    params := [blob, word];
    assert Total([]) == 8;
    TotalSnoc([], blob);
    TotalSnoc([blob], word);
    assert [] + [blob] == [blob] && [blob] + [word] == params;
    assert [] + params[..0] == [] && [] + params[..1] == [blob];
    assert AllFit([], params, 0);
    assert AllFit([], params, 1);
  }

  // ----- Init and Build -----

  /** HksInitParamSet. */
  method HksInitParamSet(h: Heap, env: Platform) returns (ret: Status, s: ParamSet?)
    requires h.Valid()
    modifies h
    ensures h.Valid() && ret in {Success, MallocFail}
    ensures ret == Success <==> CanAllocate(env, DEFAULT_PARAM_SET_SIZE)
    ensures ret == Success ==>
              && s != null && fresh(s) && fresh(s.params) && Building(s) && s.List() == []
              && s.block !in old(h.blocks) && s.Live(h) && |h.blocks[s.block]| == DEFAULT_PARAM_SET_SIZE
              && h.blocks == old(h.blocks)[s.block := h.blocks[s.block]]
    ensures ret != Success ==> s == null && h.blocks == old(h.blocks)
  {
    var block := h.Malloc(DEFAULT_PARAM_SET_SIZE, env);
    if block.None? {
      return MallocFail, null;
    }
    s := new ParamSet(block.value, DEFAULT_PARAM_SET_SIZE);
    s.paramsCnt := 0;
    s.paramSetSize := PARAM_SET_HEADER;
    assert s.List() == [];
    return Success, s;
  }

  /** BuildParamSet's move to a block of the full size: header and parameters are copied, the
      old block is freed. */
  method Reallocate(h: Heap, s: ParamSet, size: u32, env: Platform) returns (out: ParamSet?)
    requires h.Valid() && s.Live(h) && s.paramsCnt <= s.params.Length
    requires s.paramSetSize == size && PARAM_SET_HEADER + PARAM_BYTES * s.paramsCnt <= size
    modifies h
    ensures h.Valid()
    ensures out != null <==> CanAllocate(env, size)
    ensures out == null ==> h.blocks == old(h.blocks)
    ensures out != null ==>
              && fresh(out) && fresh(out.params) && out.Live(h) && out.block !in old(h.blocks)
              && out.paramSetSize == size && out.paramsCnt == s.paramsCnt
              && out.paramsCnt <= out.params.Length && out.List() == s.List()
              && |h.blocks[out.block]| == size
              && h.blocks == (old(h.blocks) - {s.block})[out.block := h.blocks[out.block]]
  {
    var block := h.Malloc(size, env);
    if block.None? {
      return null;
    }
    out := new ParamSet(block.value, size);
    out.paramSetSize, out.paramsCnt := s.paramSetSize, s.paramsCnt;
    forall i | 0 <= i < s.paramsCnt {
      out.params[i] := s.params[i];
    }
    assert out.List() == s.List();
    h.Free(s.block);
  }

  /** When Build succeeds on the list `ps`. */
  predicate Buildable(ps: seq<Param>, env: Platform) {
    Total(ps) <= PARAM_SET_MAX_SIZE && BuildResult(ps, env) == Success
  }

  /** What building a list of at most 4 MiB comes to. */
  function BuildResult(ps: seq<Param>, env: Platform): Status {
    if Total(ps) > DEFAULT_PARAM_SET_SIZE && !CanAllocate(env, Total(ps)) then MallocFail
    else if !env.emptyCopyOk && !NoEmptyAtEnd(ps, Total(ps)) then InsufficientMemory
    else Success
  }

  /** The set `ps'` in `block` of `m'` is finished and means what the list `ps` meant in `m`. */
  ghost predicate Means(m: Blocks, ps: seq<Param>, m': Blocks, ps': seq<Param>, block: nat, size: nat) {
    && Built(m', ps', block, size) && |ps'| == |ps|
    && AllReadable(m, ps) && AllReadable(m', ps')
    && Entries(m', ps') == Entries(m, ps)
  }

  lemma FreshCopyMeans(m: Blocks, ps: seq<Param>, size: u32, block: nat, env: Platform,
                       ret: Status, m': Blocks, ps': seq<Param>)
    requires size <= PARAM_SET_MAX_SIZE && InBounds(m, At(block, 0), size) && Copyable(m, ps, block)
    requires FreshOutcome(m, ps, size, block, true, env, ret, m', ps')
    ensures ret == Success ==> Means(m, ps, m', ps', block, size)
  {
    if ret == Success {
      assert ps[..|ps|] == ps;
      RelocatedMeaning(m, ps, m', block, Base(ps));
      RelocatedIsBuilt(ps, size, m', block);
      RelocateFacts(ps, block, Base(ps), block);
    }
  }

  /** The decisions of HksBuildParamSet, on the size field, come to the same. */
  lemma BuildDecided(ps: seq<Param>, size: u32, env: Platform)
    requires size == Wrap32(Total(ps)) && |ps| <= DEFAULT_PARAM_CNT
    ensures Buildable(ps, env) <==>
            && SizesOk(size, |ps|, size)
            && (size > DEFAULT_PARAM_SET_SIZE ==> CanAllocate(env, size))
            && Fills(ps, size, true, env)
    ensures Total(ps) <= PARAM_SET_MAX_SIZE ==> SizesOk(size, |ps|, size) && size == Total(ps)
  {
    SizesOkIff(size, |ps|, size);
  }

  /** HksBuildParamSet: in place up to 1024 bytes, in a block of the exact size beyond. */
  method HksBuildParamSet(h: Heap, s: ParamSet, env: Platform) returns (ret: Status, out: ParamSet)
    requires h.Valid() && Building(s) && s.Live(h) && |h.blocks[s.block]| == DEFAULT_PARAM_SET_SIZE
    requires Copyable(h.blocks, s.List(), s.block)
    modifies h, s.params
    ensures h.Valid() && out.Live(h)
    ensures ret == Success <==> Buildable(old(s.List()), env)
    ensures Total(old(s.List())) <= PARAM_SET_MAX_SIZE ==> ret == BuildResult(old(s.List()), env)
    ensures ret == Success ==>
              && out.paramsCnt <= out.params.Length
              && Means(old(h.blocks), old(s.List()), h.blocks, out.List(), out.block, out.paramSetSize)
    ensures out == s || (fresh(out) && fresh(out.params) && out.block !in old(h.blocks))
    ensures AgreeOutside(old(h.blocks), h.blocks, s.block)
  {
    ghost var ps, m := s.List(), h.blocks;
    out := s;
    var size := s.paramSetSize;
    BuildDecided(ps, size, env);
    if !SizesOk(s.paramSetSize, s.paramsCnt, size) {
      return InvalidArgument, out;
    }
    SizesOkIff(size, s.paramsCnt, size);
    if size > DEFAULT_PARAM_SET_SIZE {
      var moved := Reallocate(h, s, size, env);
      if moved == null {
        return MallocFail, out;
      }
      out := moved;
      SourcesKept(m, ps, h.blocks, s.block);
      SourcesElsewhere(m, ps, out.block);
    }
    ghost var m1 := h.blocks;
    ret := FreshParamSet(h, out, true, env);
    FreshCopyMeans(m1, ps, size, out.block, env, ret, h.blocks, out.List());
  }

  /** Build, and free the set if that fails, as the callers do; `m` is memory before Init. */
  method BuildOrFree(h: Heap, s: ParamSet, ghost m: Blocks, env: Platform) returns (ret: Status, out: ParamSet?)
    requires h.Valid() && Building(s) && s.Live(h) && |h.blocks[s.block]| == DEFAULT_PARAM_SET_SIZE
    requires AllReadable(m, s.List()) && s.block !in m && AgreeOutside(m, h.blocks, s.block)
    modifies h, s.params
    ensures h.Valid() && (ret == Success <==> out != null)
    ensures ret == Success <==> Buildable(old(s.List()), env)
    ensures Total(old(s.List())) <= PARAM_SET_MAX_SIZE ==> ret == BuildResult(old(s.List()), env)
    ensures ret == Success ==>
              && (out == s || (fresh(out) && fresh(out.params))) && out.Live(h)
              && out.block !in m && out.paramsCnt <= out.params.Length
              && Means(m, old(s.List()), h.blocks, out.List(), out.block, out.paramSetSize)
    ensures AllKept(m, h.blocks)
  {
    ghost var m1, ps := h.blocks, s.List();
    SourcesSurvive(m, ps, m1, s.block);
    ret, out := HksBuildParamSet(h, s, env);
    if ret != Success {
      h.Free(out.block);
      return ret, null;
    }
  }

  // ----- Init, any Adds, Build -----

  /** `lists` is the run of the list of a new set under the calls. */
  ghost predicate AddRun(lists: seq<seq<Param>>, calls: seq<Option<seq<Param>>>) {
    && |lists| == |calls| + 1 && lists[0] == []
    && forall i :: 0 <= i < |calls| ==> AddStep(lists[i], calls[i], lists[i + 1])
  }

  lemma {:induction false} RunIsReadable(m: Blocks, lists: seq<seq<Param>>, calls: seq<Option<seq<Param>>>, n: nat)
    requires AddRun(lists, calls) && n <= |calls|
    requires forall i :: 0 <= i < |calls| && calls[i].Some? && NoNullBlob(calls[i].value) ==> AllReadable(m, calls[i].value)
    ensures AllReadable(m, lists[n])
  {
    if n > 0 {
      RunIsReadable(m, lists, calls, n - 1);
      assert AddStep(lists[n - 1], calls[n - 1], lists[n]);
      if lists[n] != lists[n - 1] {
        StepIsReadable(m, lists[n - 1], calls[n - 1].value, lists[n]);
      }
    }
  }

  lemma StepIsReadable(m: Blocks, ps: seq<Param>, params: seq<Param>, ps': seq<Param>)
    requires AllReadable(m, ps) && AllReadable(m, params) && AddStep(ps, Some(params), ps')
    ensures AllReadable(m, ps')
  {
    if ps' != ps {
      var added: nat :| Added(ps, params, added) && ps' == ps + params[..added];
      if added < |params| {
        ReadableAt(m, params, added);
      } else {
        assert params[..added] == params;
      }
      EntriesOfConcat(m, ps, params[..added]);
    }
  }

  /** The life of a set: Init, any sequence of calls of HksAddParams whatever they return, Build.
      If it comes to an end the result means exactly what the run added, in order. */
  method BuildFromCalls(h: Heap, calls: seq<Option<seq<Param>>>, env: Platform)
    returns (ret: Status, out: ParamSet?, ghost lists: seq<seq<Param>>)
    requires h.Valid()
    requires forall i :: 0 <= i < |calls| && calls[i].Some? ==>
               |calls[i].value| < U32_LIMIT && (NoNullBlob(calls[i].value) ==> AllReadable(h.blocks, calls[i].value))
    modifies h
    ensures h.Valid() && (ret == Success <==> out != null)
    ensures CanAllocate(env, DEFAULT_PARAM_SET_SIZE) ==> AddRun(lists, calls)
    ensures ret == Success <==> CanAllocate(env, DEFAULT_PARAM_SET_SIZE) && Buildable(lists[|calls|], env)
    ensures ret == Success ==>
              && fresh(out) && out.Live(h) && out.block !in old(h.blocks) && out.paramsCnt <= out.params.Length
              && Means(old(h.blocks), lists[|calls|], h.blocks, out.List(), out.block, out.paramSetSize)
    ensures AllKept(old(h.blocks), h.blocks)
  {
    ghost var m := h.blocks;
    lists := [];
    ret, out := HksInitParamSet(h, env);
    if ret != Success {
      return ret, null, lists;
    }
    lists := AddAll(out, calls);
    RunIsReadable(m, lists, calls, |calls|);
    ret, out := BuildOrFree(h, out, m, env);
  }
}
