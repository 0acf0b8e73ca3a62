/** Parameter sets once more, in tags, bytes and offsets only: what the words of the other modules
    come to, and a whole life of a small set. */
module PlainParams {
  import opened CTypes
  import opened Memory
  import opened ParamLayout
  import opened ParamRefresh
  import opened ParamBuild
  import opened ParamCopy
  import opened ParamTags
  import opened ParamDelete

  // ----- One parameter -----

  /** A parameter of any type but bytes takes 24 bytes and means its number. */
  lemma ScalarPlainly(m: Blocks, p: Param)
    requires p.tag / 0x1000_0000 != 5
    ensures Total([p]) == 32 && AllReadable(m, [p]) && Entries(m, [p]) == [Entry(p.tag, Scalar(p.word))]
  {
    TotalPlainly([], p);
    assert [] + [p] == [p];
    EntriesSplit(m, [p], [], p);
  }

  /** A blob takes the bytes the low half of its word says in addition, and means them. */
  lemma BlobPlainly(m: Blocks, p: Param)
    requires p.tag / 0x1000_0000 == 5
    ensures Total([p]) == 32 + p.word % 0x1_0000_0000
    ensures AllReadable(m, [p]) <==>
            p.data.At? && p.data.block in m && p.data.off + p.word % 0x1_0000_0000 <= |m[p.data.block]|
    ensures AllReadable(m, [p]) ==>
              Entries(m, [p]) == [Entry(p.tag, Octets(m[p.data.block][p.data.off..p.data.off + p.word % 0x1_0000_0000]))]
  {
    var n := p.word % 0x1_0000_0000;
    TotalPlainly([], p);
    assert [] + [p] == [p];
    ReadAt(m, p.data, n);
    ReadablePlainly(m, [p]);
    if Readable(m, p) {
      EntriesSplit(m, [p], [], p);
    }
  }

  // ----- Lists -----

  /** The size of a list, parameter by parameter. */
  lemma TotalPlainly(ps: seq<Param>, p: Param)
    ensures Total([]) == 8
    ensures Total(ps + [p]) == Total(ps) + 24 + if p.tag / 0x1000_0000 == 5 then p.word % 0x1_0000_0000 else 0
  {
    TotalSnoc(ps, p);
  }

  lemma {:induction false} ReadablePlainly(m: Blocks, ps: seq<Param>)
    ensures AllReadable(m, ps) <==> forall i :: 0 <= i < |ps| && ps[i].tag / 0x1000_0000 == 5 ==>
              && ps[i].data.At? && ps[i].data.block in m
              && ps[i].data.off + ps[i].word % 0x1_0000_0000 <= |m[ps[i].data.block]|
  {
    if ps != [] {
      ReadablePlainly(m, Front(ps));
      assert forall i :: 0 <= i < |ps| - 1 ==> ps[i] == Front(ps)[i];
    }
  }

  lemma EntriesPlainly(m: Blocks, ps: seq<Param>, i: nat)
    requires AllReadable(m, ps) && i < |ps|
    ensures |Entries(m, ps)| == |ps| && Entries(m, ps)[i].tag == ps[i].tag
    ensures ps[i].tag / 0x1000_0000 != 5 ==> Entries(m, ps)[i].value == Scalar(ps[i].word)
    ensures ps[i].tag / 0x1000_0000 == 5 ==>
              var n, p := ps[i].word % 0x1_0000_0000, ps[i].data;
              && p.At? && p.block in m && p.off + n <= |m[p.block]|
              && Entries(m, ps)[i].value == Octets(m[p.block][p.off..p.off + n])
  {
    EntriesAt(m, ps, i);
    ReadAt(m, ps[i].data, ps[i].word % 0x1_0000_0000);
  }

  /** Where the blob of parameter `i` begins: behind the parameters and the blobs before it. */
  lemma {:induction false} PlacePlainly(ps: seq<Param>, i: nat)
    requires i <= |ps|
    ensures Base(ps) + BlobSum(ps[..i]) == 24 * (|ps| - i) + Total(ps[..i])
  {
  }

  /** The list with its pointers moved to the tail of a block. */
  lemma RelocatePlainly(ps: seq<Param>, block: nat, i: nat)
    requires i < |ps|
    ensures |Relocate(ps, block, Base(ps))| == |ps|
    ensures Relocate(ps, block, Base(ps))[i] ==
            if ps[i].tag / 0x1000_0000 == 5 then Param(ps[i].tag, ps[i].word, At(block, 24 * (|ps| - i) + Total(ps[..i])))
            else ps[i]
  {
    RelocateAt(ps, block, Base(ps), i);
  }

  /** A finished set: its size, its block and the place of every blob. */
  lemma BuiltIff(m: Blocks, ps: seq<Param>, block: nat, size: nat)
    ensures Built(m, ps, block, size) <==>
            && size == Total(ps) <= 4_194_304 && block in m && size <= |m[block]|
            && forall i :: 0 <= i < |ps| && ps[i].tag / 0x1000_0000 == 5 ==>
                 ps[i].data == At(block, 24 * (|ps| - i) + Total(ps[..i]))
  {
    RelocateFacts(ps, block, Base(ps), block);
    var rs := Relocate(ps, block, Base(ps));
    forall i | 0 <= i < |ps|
      ensures rs[i] == ps[i] <==>
              (ps[i].tag / 0x1000_0000 == 5 ==> ps[i].data == At(block, 24 * (|ps| - i) + Total(ps[..i])))
    {
      RelocatePlainly(ps, block, i);
    }
    assert rs == ps <==> forall i :: 0 <= i < |ps| ==> rs[i] == ps[i];
  }

  /** Two parameters that mean the same: the same tag, and the same number or bytes. */
  lemma MeaningPlainly(m: Blocks, p: Param, m': Blocks, p': Param)
    requires Readable(m, p) && Readable(m', p') && Meaning(m, p) == Meaning(m', p')
    ensures p'.tag == p.tag && (p.tag / 0x1000_0000 != 5 ==> p'.word == p.word)
    ensures p.tag / 0x1000_0000 == 5 ==>
              var n, a, b := p.word % 0x1_0000_0000, p.data, p'.data;
              && p'.word % 0x1_0000_0000 == n
              && a.At? && a.block in m && a.off + n <= |m[a.block]|
              && b.At? && b.block in m' && b.off + n <= |m'[b.block]|
              && m'[b.block][b.off..b.off + n] == m[a.block][a.off..a.off + n]
  {
    if p.tag / 0x1000_0000 == 5 {
      ReadAt(m, p.data, BlobSize(p));
      ReadAt(m', p'.data, BlobSize(p'));
      assert |Content(m, p)| == BlobSize(p) && |Content(m', p')| == BlobSize(p');
    }
  }

  /** Two lists that mean the same: parameter by parameter, with every blob at its place. */
  lemma MeansPlainly(m: Blocks, ps: seq<Param>, m': Blocks, ps': seq<Param>, block: nat, size: nat, i: nat)
    requires Means(m, ps, m', ps', block, size) && i < |ps|
    ensures |ps'| == |ps| && Readable(m, ps[i]) && Readable(m', ps'[i]) && Meaning(m, ps[i]) == Meaning(m', ps'[i])
    ensures ps[i].tag / 0x1000_0000 == 5 ==> ps'[i].data == At(block, 24 * (|ps| - i) + Total(ps'[..i]))
  {
    EntriesAt(m, ps, i);
    EntriesAt(m', ps', i);
    BuiltIff(m', ps', block, size);
  }

  // ----- The checks -----

  lemma SizesOkPlainly(paramSetSize: u32, paramsCnt: u32, size: u32)
    ensures SizesOk(paramSetSize, paramsCnt, size) <==>
            paramSetSize == size && 8 + 24 * paramsCnt as int <= size <= 4_194_304
  {
  }

  /** How many parameters a block has room for, and a set under construction. */
  lemma SetsPlainly(s: ParamSet, h: Heap, n: nat, capacity: nat)
    ensures SlotsFit(n, capacity) <==> 8 + 24 * n <= capacity < 32 + 24 * n
    ensures Building(s) <==>
            s.params.Length == 42 && s.paramsCnt <= 42 && s.paramSetSize == Total(s.params[..s.paramsCnt]) % 0x1_0000_0000
    ensures WellFormed(h, s) <==>
            && s.block in h.blocks && SlotsFit(s.params.Length, |h.blocks[s.block]|) && s.paramSetSize <= |h.blocks[s.block]|
            && 8 + 24 * s.paramsCnt as int <= s.paramSetSize <= 4_194_304
  {
  }

  /** One parameter of a refresh. */
  lemma StepPlainly(p: Param, offset: nat, size: nat, isCopy: bool, env: Platform)
    ensures StepOk(p, offset, size, isCopy, env) <==>
            var n := if p.tag / 0x1000_0000 == 5 then p.word % 0x1_0000_0000 else 0;
            && offset <= size && offset + n < 0x1_0000_0000
            && (isCopy && p.tag / 0x1000_0000 == 5 ==> offset + n <= size && (offset < size || env.emptyCopyOk))
  {
  }

  /** What one call of HksAddParams is allowed to do, and where it stops. */
  lemma AddPlainly(size: u32, cnt: u32, params: Option<seq<Param>>, ps: seq<Param>, p: Param)
    ensures AddAllowed(size, cnt, params) <==>
            && params.Some? && size <= 4_194_304 && cnt as int + |params.value| <= 42
            && forall i :: 0 <= i < |params.value| && params.value[i].tag / 0x1000_0000 == 5 ==> params.value[i].data != Null
    ensures Overflows(ps, p) <==>
            p.tag / 0x1000_0000 == 5 &&
            (Total(ps) + 24) % 0x1_0000_0000 + p.word % 0x1_0000_0000 >= 0x1_0000_0000
  {
  }

  lemma RunsPlainly(ps: seq<Param>, lists: seq<seq<Param>>, calls: seq<Option<seq<Param>>>)
    ensures WithinLimits(ps) <==> |ps| <= 42 && Total(ps) <= 4_194_304
    ensures AddRun(lists, calls) <==>
            && |lists| == |calls| + 1 && lists[0] == []
            && forall i :: 0 <= i < |calls| ==> AddStep(lists[i], calls[i], lists[i + 1])
  {
  }

  lemma {:induction false} AllFitIff(ps: seq<Param>, params: seq<Param>, n: nat)
    requires n <= |params|
    ensures AllFit(ps, params, n) <==> forall j :: 0 <= j < n ==> !Overflows(ps + params[..j], params[j])
  {
    if n > 0 {
      AllFitIff(ps, params, n - 1);
    }
  }

  /** What a call makes of the list: nothing if it is not allowed, and otherwise everything before
      the first parameter that overflows. */
  lemma AddStepPlainly(ps: seq<Param>, params: Option<seq<Param>>, ps': seq<Param>, k: nat)
    requires AddStep(ps, params, ps') && |ps| <= 42
    requires params.Some? ==> k <= |params.value| && forall j :: 0 <= j < k ==> !Overflows(ps + params.value[..j], params.value[j])
    requires params.Some? && k < |params.value| ==> Overflows(ps + params.value[..k], params.value[k])
    ensures ps' == if AddAllowed(Total(ps) % 0x1_0000_0000, |ps|, params) then ps + params.value[..k] else ps
  {
    if AddAllowed(Wrap32(Total(ps)), |ps|, params) {
      var added: nat :| Added(ps, params.value, added) && ps' == ps + params.value[..added];
      AllFitIff(ps, params.value, added);
      assert added == k;
    }
  }

  /** Whether a list can be built, and the error if not. */
  lemma BuildResultPlainly(ps: seq<Param>, env: Platform)
    ensures Buildable(ps, env) <==>
            && Total(ps) <= 4_194_304
            && (Total(ps) > 1024 ==> env.mallocOk(Total(ps)))
            && (env.emptyCopyOk || forall i :: 0 <= i < |ps| ==> !BlobEndsEmpty(ps, i))
    ensures Total(ps) <= 4_194_304 && !Buildable(ps, env) ==>
              BuildResult(ps, env) == if Total(ps) > 1024 && !env.mallocOk(Total(ps)) then MallocFail else InsufficientMemory
  {
    assert forall i :: 0 <= i < |ps| ==> (EmptyAtEnd(ps, i, Total(ps)) <==> BlobEndsEmpty(ps, i));
  }

  /** Parameter `i` is a blob without bytes that belongs at the very end of the set. */
  predicate BlobEndsEmpty(ps: seq<Param>, i: nat)
    requires i < |ps|
  {
    ps[i].tag / 0x1000_0000 == 5 && ps[i].word % 0x1_0000_0000 == 0 && 24 * (|ps| - i) + Total(ps[..i]) == Total(ps)
  }

  // ----- Refresh -----

  /** What FreshParamSet leaves: the set's own block, the pointers, and the blobs if it copied. */
  lemma FreshPlainly(m: Blocks, ps: seq<Param>, size: u32, block: nat, isCopy: bool, env: Platform,
                     ret: Status, m': Blocks, ps': seq<Param>)
    requires FreshOutcome(m, ps, size, block, isCopy, env, ret, m', ps')
    ensures ret == Success <==>
            size == Total(ps) && (isCopy && !env.emptyCopyOk ==> forall i :: 0 <= i < |ps| ==> !BlobEndsEmpty(ps, i))
    ensures forall b :: b in m && b != block ==> b in m' && m'[b] == m[b]
    ensures !isCopy ==> m' == m
    ensures ret == Success ==> |ps'| == |ps| && forall i :: 0 <= i < |ps| ==>
              ps'[i] == if ps[i].tag / 0x1000_0000 == 5
                        then Param(ps[i].tag, ps[i].word, At(block, 24 * (|ps| - i) + Total(ps[..i]))) else ps[i]
    ensures ret == Success && isCopy ==> AllReadable(m, ps) && AllReadable(m', ps') && Entries(m', ps') == Entries(m, ps)
  {
    assert size == Total(ps) ==> forall i :: 0 <= i < |ps| ==> (EmptyAtEnd(ps, i, size) <==> BlobEndsEmpty(ps, i));
    if ret == Success {
      assert ps[..|ps|] == ps;
      RelocateFacts(ps, block, Base(ps), block);
      forall i | 0 <= i < |ps|
        ensures ps'[i] == if ps[i].tag / 0x1000_0000 == 5
                          then Param(ps[i].tag, ps[i].word, At(block, 24 * (|ps| - i) + Total(ps[..i]))) else ps[i]
      {
        RelocatePlainly(ps, block, i);
      }
      if isCopy {
        RelocatedMeaning(m, ps, m', block, Base(ps));
      }
    }
  }

  // ----- Tags -----

  /** The answer of HksGetParam, from the first parameter with the tag. */
  lemma GetsPlainly(ps: seq<Param>, tag: u32, ret: Status, index: nat, i: nat)
    requires Gets(ps, tag, ret, index)
    requires i <= |ps| && (forall j :: 0 <= j < i ==> ps[j].tag != tag) && (i < |ps| ==> ps[i].tag == tag)
    ensures i == |ps| ==> ret == ParamNotExist
    ensures i < |ps| ==> index == i
    ensures i < |ps| ==> ret == if tag / 0x1000_0000 == 5 && (ps[i].data == Null || ps[i].word % 0x1_0000_0000 == 0)
                                then InvalidArgument else Success
  {
  }

  lemma FindPlainly(es: seq<Entry>, tag: u32, i: nat)
    requires i <= |es| && (forall j :: 0 <= j < i ==> es[j].tag != tag) && (i < |es| ==> es[i].tag == tag)
    ensures i == |es| ==> Find(es, tag) == Missing
    ensures i < |es| ==> Find(es, tag) == if es[i].value == Octets([]) then EmptyBlob else Found(es[i].value)
  {
    FindMissing(es, tag);
    if i < |es| {
      FindFirst(es, tag, i);
    }
  }

  lemma TagsOkPlainly(ps: seq<Param>)
    ensures TagsOk(ps) <==>
            && (forall i :: 0 <= i < |ps| ==> ps[i].tag in VALID_TAGS)
            && (forall i, j :: 0 <= i < j < |ps| ==> ps[i].tag != ps[j].tag)
  {
    TagsOkIff(ps);
  }

  /** What deletion keeps, parameter by parameter, and what it then makes of them. */
  lemma KeptPlainly(ps: seq<Param>, p: Param, tags: seq<u32>, env: Platform)
    ensures Kept([], tags) == []
    ensures Kept(ps + [p], tags) == Kept(ps, tags) + if p.tag in tags then [] else [p]
    ensures KeptResult(ps, tags, env) == Success <==>
            env.mallocOk(1024) && |Kept(ps, tags)| <= 42 && BuildResult(Kept(ps, tags), env) == Success
    ensures KeptResult(ps, tags, env) == MallocFail && env.mallocOk(1024) ==> BuildResult(Kept(ps, tags), env) == MallocFail
  {
    assert Front(ps + [p]) == ps && Last(ps + [p]) == p;
  }

  // ----- The caller's buffer -----

  /** What is left of a buffer that is too small: zeros as far as it says it reaches. */
  lemma ClearedPlainly(m: Blocks, block: nat, size: nat, word: u32, slots: seq<Param>, slots': seq<Param>)
    requires block in m && size <= |m[block]|
    ensures var m' := Cleared(m, block, 0, size);
            && block in m' && |m'[block]| == |m[block]| && (forall b :: b in m && b != block ==> b in m' && m'[b] == m[b])
            && forall k :: 0 <= k < |m[block]| ==> m'[block][k] == if k < size then 0 else m[block][k]
    ensures LowBytesCleared(word, 0) == word && LowBytesCleared(word, 4) == 0
    ensures LowBytesCleared(word, 1) == word / 0x100 * 0x100
    ensures LowBytesCleared(word, 2) == word / 0x1_0000 * 0x1_0000
    ensures LowBytesCleared(word, 3) == word / 0x100_0000 * 0x100_0000
    ensures SlotsCleared(slots, slots', size) <==>
              && |slots'| == |slots|
              && (forall i :: 0 <= i < |slots| && 32 + 24 * i <= size ==> slots'[i] == Param(0, 0, Null))
              && (forall i :: 0 <= i < |slots| && 8 + 24 * i >= size ==> slots'[i] == slots[i])
  {
  }

  /** What Init, Add and Build come to in BuildParamSetOut. */
  lemma FromResultPlainly(params: seq<Param>, room: nat, env: Platform)
    ensures FromResult(params, env) == Success <==>
            env.mallocOk(1024) && |params| <= 42 && BuildResult(params, env) == Success
    ensures !env.mallocOk(1024) ==> FromResult(params, env) == MallocFail
    ensures env.mallocOk(1024) && |params| > 42 ==> FromResult(params, env) == InvalidArgument
    ensures TooLarge(params, room, env) <==>
            env.mallocOk(1024) && |params| <= 42 && Buildable(params, env) && Total(params) > room
  {
  }

  // ----- A whole life -----

  /** A set of a number (or truth value) and a blob: created, filled by two calls, finished and
      found again.  Everything it holds afterwards, byte by byte. */
  method NumberAndBlob(h: Heap, p: Param, q: Param, env: Platform) returns (ret: Status, out: ParamSet?)
    requires h.Valid() && p.tag / 0x1000_0000 in {1, 2, 3, 4} && q.tag / 0x1000_0000 == 5
    requires q.data.At? && q.data.block in h.blocks
    requires 0 < q.word % 0x1_0000_0000 && q.data.off + q.word % 0x1_0000_0000 <= |h.blocks[q.data.block]|
    modifies h
    ensures var n := q.word % 0x1_0000_0000;
            ret == Success <==>
            env.mallocOk(1024) && 56 + n <= 4_194_304 && (56 + n > 1024 ==> env.mallocOk(56 + n))
    ensures ret == Success ==>
              var n := q.word % 0x1_0000_0000;
              && out != null && out.paramSetSize as int == 56 + n && out.paramsCnt == 2 && out.params.Length >= 2
              && out.params[0].tag == p.tag && out.params[0].word == p.word
              && out.params[1].tag == q.tag && out.params[1].word % 0x1_0000_0000 == n && out.params[1].data == At(out.block, 56)
              && out.block in h.blocks && 56 + n <= |h.blocks[out.block]|
              && h.blocks[out.block][56..56 + n] == old(h.blocks)[q.data.block][q.data.off..q.data.off + n]
    ensures forall b :: b in old(h.blocks) ==> b in h.blocks && h.blocks[b] == old(h.blocks)[b]
  {
    ghost var m := h.blocks;
    var s;
    ret, s := HksInitParamSet(h, env);
    if ret != Success {
      return ret, null;
    }
    ret := AddTwo(s, p, q);
    if ret != Success {
      h.Free(s.block);
      return ret, null;
    }
    TwoReadable(m, p, q);
    TwoBuildable(p, q, env);
    ret, out := BuildOrFree(h, s, m, env);
    if ret == Success {
      TwoMean(m, p, q, h.blocks, out.List(), out.block, out.paramSetSize);
    }
  }

  lemma TwoTotal(p: Param, q: Param)
    requires p.tag / 0x1000_0000 != 5 && q.tag / 0x1000_0000 == 5
    ensures Total([p]) == 32 && Total([p, q]) == 56 + q.word % 0x1_0000_0000
    ensures BlobEndsEmpty([p, q], 1) <==> q.word % 0x1_0000_0000 == 0
  {
    TotalPlainly([], p);
    TotalPlainly([p], q);
    assert [] + [p] == [p] && [p] + [q] == [p, q] && [p, q][..1] == [p];
  }

  /** Two calls: the first always adds, the second unless the size would wrap. */
  method AddTwo(s: ParamSet, p: Param, q: Param) returns (ret: Status)
    requires Building(s) && s.List() == []
    requires p.tag / 0x1000_0000 in {1, 2, 3, 4} && q.tag / 0x1000_0000 == 5 && q.data.At?
    modifies s, s.params
    ensures Building(s)
    ensures ret == Success <==> 56 + q.word % 0x1_0000_0000 < 0x1_0000_0000
    ensures ret == Success ==> s.List() == [p, q]
  {
    TwoTotal(p, q);
    assert [] + [p] == [p] && [p] + [q] == [p, q];
    ret := AddAnother(s, p);
    ret := AddAnother(s, q);
  }

  /** A call with one parameter that is not a NULL blob, within the limits. */
  method AddAnother(s: ParamSet, p: Param) returns (ret: Status)
    requires Building(s) && |s.List()| < 42 && Total(s.List()) <= 4_194_304
    requires p.tag / 0x1000_0000 == 5 ==> p.data != Null
    modifies s, s.params
    ensures Building(s)
    ensures ret == Success <==>
            p.tag / 0x1000_0000 != 5 || Total(old(s.List())) + 24 + p.word % 0x1_0000_0000 < 0x1_0000_0000
    ensures s.List() == if ret == Success then old(s.List()) + [p] else old(s.List())
  {
    ghost var ps := s.List();
    ghost var added;
    ret, added := HksAddParams(s, Some([p]));
    OneAdded(ps, p, added);
  }

  lemma OneAdded(ps: seq<Param>, p: Param, added: nat)
    requires Added(ps, [p], added) && Total(ps) <= 4_194_304
    ensures added <= 1 && ps + [p][..added] == if added == 1 then ps + [p] else ps
    ensures added == 1 <==> p.tag / 0x1000_0000 != 5 || Total(ps) + 24 + p.word % 0x1_0000_0000 < 0x1_0000_0000
  {
    assert [p][..0] == [] && [p][..1] == [p] && ps + [] == ps;
    AllFitIff(ps, [p], added);
  }

  lemma TwoReadable(m: Blocks, p: Param, q: Param)
    requires p.tag / 0x1000_0000 != 5 && q.tag / 0x1000_0000 == 5
    requires q.data.At? && q.data.block in m && q.data.off + q.word % 0x1_0000_0000 <= |m[q.data.block]|
    ensures AllReadable(m, [p, q])
  {
    ReadablePlainly(m, [p, q]);
  }

  lemma TwoBuildable(p: Param, q: Param, env: Platform)
    requires p.tag / 0x1000_0000 != 5 && q.tag / 0x1000_0000 == 5 && q.word % 0x1_0000_0000 > 0
    ensures var n := 56 + q.word % 0x1_0000_0000;
            Buildable([p, q], env) <==> n <= 4_194_304 && (n > 1024 ==> env.mallocOk(n))
  {
    TwoTotal(p, q);
    BuildResultPlainly([p, q], env);
  }

  lemma TwoMean(m: Blocks, p: Param, q: Param, m': Blocks, ps: seq<Param>, block: nat, size: nat)
    requires p.tag / 0x1000_0000 != 5 && q.tag / 0x1000_0000 == 5
    requires Means(m, [p, q], m', ps, block, size)
    ensures var n := q.word % 0x1_0000_0000;
            && size == 56 + n && |ps| == 2 && ps[0].tag == p.tag && ps[0].word == p.word
            && ps[1].tag == q.tag && ps[1].word % 0x1_0000_0000 == n && ps[1].data == At(block, 56)
            && block in m' && 56 + n <= |m'[block]|
            && q.data.At? && q.data.block in m && q.data.off + n <= |m[q.data.block]|
            && m'[block][56..56 + n] == m[q.data.block][q.data.off..q.data.off + n]
  {
    TwoTotal(p, q);
    MeansPlainly(m, [p, q], m', ps, block, size, 0);
    MeansPlainly(m, [p, q], m', ps, block, size, 1);
    MeaningPlainly(m, p, m', ps[0]);
    MeaningPlainly(m, q, m', ps[1]);
    TwoTotal(ps[0], ps[1]);
    assert ps == [ps[0], ps[1]] && ps[..1] == [ps[0]];
    BuiltIff(m', ps, block, size);
  }
}
