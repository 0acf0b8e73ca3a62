/** Parameter sets in memory, and the refresh of `hks_param.c` that points their blobs into the tail. */
module ParamRefresh {
  import opened CTypes
  import opened Memory
  import opened ParamLayout

  /** A parameter set in the allocated block `block`: header, parameter slots; the blobs lie in
      the block's bytes behind the used slots. */
  class ParamSet {
    var paramSetSize: u32
    var paramsCnt: u32
    const params: array<Param>
    const block: nat

    constructor (block: nat, capacity: nat)
      requires capacity >= PARAM_SET_HEADER
      ensures this.block == block && fresh(params) && SlotsFit(params.Length, capacity)
    {
      this.block := block;
      paramSetSize, paramsCnt := 0, 0;
      params := new Param[(capacity - PARAM_SET_HEADER) / PARAM_BYTES](_ => Param(0, 0, Null));
    }

    ghost predicate Live(h: Heap)
      reads this, h
    {
      block in h.blocks && SlotsFit(params.Length, |h.blocks[block]|)
    }

    ghost function List(): seq<Param>
      requires paramsCnt <= params.Length
      reads this, params
    {
      params[..paramsCnt]
    }
  }

  /** `n` is how many parameters a block of `capacity` bytes has room for. */
  predicate SlotsFit(n: nat, capacity: nat) {
    PARAM_SET_HEADER + PARAM_BYTES * n <= capacity < PARAM_SET_HEADER + PARAM_BYTES * (n + 1)
  }

  /** HksCheckParamSet on a set that is not NULL. */
  predicate SizesOk(paramSetSize: u32, paramsCnt: u32, size: u32) {
    && PARAM_SET_HEADER <= size <= PARAM_SET_MAX_SIZE
    && paramSetSize == size
    && paramsCnt <= (size - PARAM_SET_HEADER) / PARAM_BYTES
  }

  /** The set's header is consistent and its block is as large as the header says. */
  ghost predicate WellFormed(h: Heap, s: ParamSet)
    reads h, s
  {
    && s.Live(h) && s.paramSetSize <= |h.blocks[s.block]|
    && PARAM_SET_HEADER + PARAM_BYTES * s.paramsCnt <= s.paramSetSize <= PARAM_SET_MAX_SIZE
  }

  lemma SizesOkIff(paramSetSize: u32, paramsCnt: u32, size: u32)
    ensures SizesOk(paramSetSize, paramsCnt, size) <==>
            paramSetSize == size && PARAM_SET_HEADER + PARAM_BYTES * paramsCnt <= size <= PARAM_SET_MAX_SIZE
  {
  }

  /** All blobs lie outside the block. */
  predicate SourcesOutside(ps: seq<Param>, block: nat) {
    forall i :: 0 <= i < |ps| && IsBytes(ps[i].tag) ==> ps[i].data.At? && ps[i].data.block != block
  }

  /** The blobs can be copied into the block: they are readable and lie outside it. */
  predicate Copyable(m: Blocks, ps: seq<Param>, block: nat) {
    AllReadable(m, ps) && SourcesOutside(ps, block)
  }

  /** `m'` has every block of `m`, unchanged. */
  predicate AllKept(m: Blocks, m': Blocks) {
    forall b :: b in m ==> b in m' && m'[b] == m[b]
  }

  /** `m'` has every block of `m` but possibly `block`, unchanged. */
  predicate AgreeOutside(m: Blocks, m': Blocks, block: nat) {
    forall b :: b in m && b != block ==> b in m' && m'[b] == m[b]
  }

  lemma {:induction false} SourcesKept(m: Blocks, ps: seq<Param>, m': Blocks, block: nat)
    requires Copyable(m, ps, block) && AgreeOutside(m, m', block)
    ensures AllReadable(m', ps) && Entries(m', ps) == Entries(m, ps)
  {
    if ps != [] {
      assert SourcesOutside(Front(ps), block);
      SourcesKept(m, Front(ps), m', block);
    }
  }

  /** A block that is not allocated yet holds no source. */
  lemma {:induction false} SourcesElsewhere(m: Blocks, ps: seq<Param>, block: nat)
    requires AllReadable(m, ps) && block !in m
    ensures Copyable(m, ps, block)
  {
    if ps != [] {
      SourcesElsewhere(m, Front(ps), block);
      assert forall i :: 0 <= i < |ps| - 1 ==> ps[i] == Front(ps)[i];
    }
  }

  /** Allocating `block` and filling it leaves the blobs readable, and outside that block. */
  lemma SourcesSurvive(m: Blocks, ps: seq<Param>, m': Blocks, block: nat)
    requires AllReadable(m, ps) && block !in m && AgreeOutside(m, m', block)
    ensures Copyable(m', ps, block) && Entries(m', ps) == Entries(m, ps)
  {
    SourcesElsewhere(m, ps, block);
    SourcesKept(m, ps, m', block);
  }

  /** An empty blob whose place is the very end of a set of `size` bytes. */
  predicate EmptyAtEnd(ps: seq<Param>, i: nat, size: nat)
    requires i < |ps|
  {
    IsBytes(ps[i].tag) && BlobSize(ps[i]) == 0 && Base(ps) + BlobSum(ps[..i]) == size
  }

  predicate NoEmptyAtEnd(ps: seq<Param>, size: nat) {
    forall i :: 0 <= i < |ps| ==> !EmptyAtEnd(ps, i, size)
  }

  // ----- Refreshing -----

  /** Where the blob of parameter `i` belongs. */
  function Place(ps: seq<Param>, i: nat, block: nat): Ptr
    requires i <= |ps|
  {
    At(block, Base(ps) + BlobSum(ps[..i]))
  }

  /** The list when the first `i` parameters have been refreshed. */
  function Refreshed(ps: seq<Param>, i: nat, block: nat): (rs: seq<Param>)
    requires i <= |ps|
    ensures |rs| == |ps|
  {
    if i == 0 then ps else Refreshed(ps, i - 1, block)[i - 1 := Moved(ps[i - 1], Place(ps, i - 1, block))]
  }

  lemma {:induction false} RefreshedAt(ps: seq<Param>, i: nat, block: nat, j: nat)
    requires i <= |ps| && j < |ps|
    ensures Refreshed(ps, i, block)[j] == if j < i then Moved(ps[j], Place(ps, j, block)) else ps[j]
  {
    if i > 0 {
      RefreshedAt(ps, i - 1, block, j);
    }
  }

  lemma RefreshedEnds(ps: seq<Param>, block: nat)
    ensures Refreshed(ps, |ps|, block) == Relocate(ps, block, Base(ps))
  {
    RelocateFacts(ps, block, Base(ps), block);
    forall j | 0 <= j < |ps|
      ensures Refreshed(ps, |ps|, block)[j] == Relocate(ps, block, Base(ps))[j]
    {
      RefreshedAt(ps, |ps|, block, j);
      RelocateAt(ps, block, Base(ps), j);
    }
  }

  /** One parameter can be refreshed at `offset`. */
  predicate StepOk(p: Param, offset: nat, size: nat, isCopy: bool, env: Platform) {
    && offset <= size
    && offset + BlobSize(p) <= U32_MAX
    && (isCopy && IsBytes(p.tag) ==> offset + BlobSize(p) <= size && (offset < size || env.emptyCopyOk))
  }

  predicate StepsOk(ps: seq<Param>, i: nat, size: nat, isCopy: bool, env: Platform)
    requires i <= |ps|
  {
    i == 0 ||
    (StepsOk(ps, i - 1, size, isCopy, env) && StepOk(ps[i - 1], Base(ps) + BlobSum(ps[..i - 1]), size, isCopy, env))
  }

  lemma {:induction false} StepsOkBelow(ps: seq<Param>, i: nat, j: nat, size: nat, isCopy: bool, env: Platform)
    requires i <= j <= |ps| && StepsOk(ps, j, size, isCopy, env)
    ensures StepsOk(ps, i, size, isCopy, env)
  {
    if i < j {
      StepsOkBelow(ps, i, j - 1, size, isCopy, env);
    }
  }

  /** A refresh goes through exactly if the blobs fill the set to its last byte. */
  predicate Fills(ps: seq<Param>, size: nat, isCopy: bool, env: Platform) {
    size == Total(ps) && (isCopy ==> env.emptyCopyOk || NoEmptyAtEnd(ps, size))
  }

  lemma {:induction false} StepsOkIfFills(ps: seq<Param>, i: nat, size: u32, isCopy: bool, env: Platform)
    requires i <= |ps| && Fills(ps, size, isCopy, env)
    ensures StepsOk(ps, i, size, isCopy, env)
  {
    if i > 0 {
      StepsOkIfFills(ps, i - 1, size, isCopy, env);
      PrefixStep(ps, i - 1);
      assert isCopy && !env.emptyCopyOk ==> !EmptyAtEnd(ps, i - 1, size);
    }
  }

  lemma NoEmptyIfStepsOk(ps: seq<Param>, size: u32, env: Platform)
    requires StepsOk(ps, |ps|, size, true, env) && !env.emptyCopyOk
    ensures NoEmptyAtEnd(ps, size)
  {
    forall i | 0 <= i < |ps|
      ensures !EmptyAtEnd(ps, i, size)
    {
      StepsOkBelow(ps, i + 1, |ps|, size, true, env);
    }
  }

  /** Memory when the first `i` parameters have been refreshed: only the set's own block may
      differ, and it holds their blobs if they are copied. */
  ghost predicate Midway(m: Blocks, ps: seq<Param>, i: nat, m': Blocks, block: nat, isCopy: bool)
    requires i <= |ps|
  {
    && OnlyBlockChanged(m, m', block)
    && if isCopy then AllReadable(m, ps[..i]) && Placed(m, ps[..i], m', block, Base(ps)) else m' == m
  }

  /** Nothing but the bytes of `block` has changed. */
  predicate OnlyBlockChanged(m: Blocks, m': Blocks, block: nat) {
    block in m && block in m' && |m'[block]| == |m[block]| && m' == m[block := m'[block]]
  }

  lemma SourceUntouched(m: Blocks, ps: seq<Param>, i: nat, m': Blocks, block: nat, isCopy: bool)
    requires i < |ps| && Midway(m, ps, i, m', block, isCopy) && (isCopy ==> Copyable(m, ps, block))
    ensures isCopy ==> Readable(m, ps[i]) && Readable(m', ps[i]) && Content(m', ps[i]) == Content(m, ps[i])
    ensures isCopy && IsBytes(ps[i].tag) ==> ps[i].data.block != block
  {
    if isCopy {
      ReadableAt(m, ps, i);
    }
  }

  lemma MidwayStart(m: Blocks, ps: seq<Param>, block: nat, isCopy: bool)
    requires block in m
    ensures Midway(m, ps, 0, m, block, isCopy) && Place(ps, 0, block).off == Base(ps)
  {
  }

  /** Memory after one parameter has been refreshed. */
  function Stored(m: Blocks, p: Param, block: nat, off: nat, isCopy: bool): Blocks
    requires isCopy && IsBytes(p.tag) ==> Readable(m, p) && InBounds(m, At(block, off), BlobSize(p))
  {
    if isCopy && IsBytes(p.tag) then m[block := Overwrite(m[block], off, Content(m, p))] else m
  }

  lemma PlacedStep(m: Blocks, ps: seq<Param>, i: nat, m': Blocks, block: nat)
    requires i < |ps| && AllReadable(m, ps[..i]) && Placed(m, ps[..i], m', block, Base(ps))
    requires Readable(m, ps[i]) && Holds(m, ps[i], m', Place(ps, i, block))
    ensures AllReadable(m, ps[..i + 1]) && Placed(m, ps[..i + 1], m', block, Base(ps))
  {
    PrefixStep(ps, i);
  }

  lemma MidwayStep(m: Blocks, ps: seq<Param>, i: nat, m': Blocks, block: nat, isCopy: bool)
    requires i < |ps| && Midway(m, ps, i, m', block, isCopy)
    requires isCopy ==> Copyable(m, ps, block) && InBounds(m', Place(ps, i, block), BlobSize(ps[i]))
    ensures isCopy ==> Readable(m', ps[i])
    ensures Midway(m, ps, i + 1, Stored(m', ps[i], block, Place(ps, i, block).off, isCopy), block, isCopy)
  {
    if isCopy {
      SourceUntouched(m, ps, i, m', block, isCopy);
      var off, c := Place(ps, i, block).off, Content(m, ps[i]);
      if IsBytes(ps[i].tag) {
        PlacedAfterStore(m, ps[..i], m', block, Base(ps), off, c);
        OverwriteReads(m'[block], off, c);
      }
      PlacedStep(m, ps, i, Stored(m', ps[i], block, off, isCopy), block);
    }
  }

  /** Memory after a refused copy: the bytes of the set from `off` on are zero. */
  function Cleared(m: Blocks, block: nat, off: nat, size: nat): Blocks
    requires off <= size && InBounds(m, At(block, 0), size)
  {
    m[block := Overwrite(m[block], off, Zeros(size - off))]
  }

  /** The body of FreshParamSet's loop, for parameter `p == s.params[i]`. */
  method FreshOne(h: Heap, s: ParamSet, i: u32, ghost p: Param, offset: u32, isCopy: bool, env: Platform)
    returns (ret: Status, next: u32)
    requires h.Valid() && WellFormed(h, s) && i < s.paramsCnt && p == s.params[i]
    requires isCopy ==> Readable(h.blocks, p) && (IsBytes(p.tag) ==> p.data.block != s.block)
    modifies h, s.params
    ensures h.Valid() && WellFormed(h, s)
    ensures ret in {Success, InvalidArgument, InsufficientMemory}
    ensures ret == Success <==> StepOk(p, offset, s.paramSetSize, isCopy, env)
    ensures ret == InsufficientMemory ==> isCopy && offset <= s.paramSetSize
    ensures ret == InvalidArgument ==> offset > s.paramSetSize || offset + BlobSize(p) > U32_MAX
    ensures ret == Success ==>
              && next == offset + BlobSize(p)
              && s.List() == old(s.List())[i := Moved(p, At(s.block, offset))]
              && h.blocks == Stored(old(h.blocks), p, s.block, offset, isCopy)
    ensures ret != Success ==>
              && s.List() == old(s.List())
              && h.blocks == if ret == InvalidArgument then old(h.blocks)
                             else Cleared(old(h.blocks), s.block, offset, s.paramSetSize)
  {
    var size := s.paramSetSize;
    next := offset;
    if offset > size {
      return InvalidArgument, next;
    }
    if IsBytes(s.params[i].tag) {
      if IsAdditionOverflow(offset, BlobSize(s.params[i])) {
        return InvalidArgument, next;
      }
      if isCopy {
        var ok := h.MemcpyS(s.block, offset, size - offset, s.params[i].data, BlobSize(s.params[i]), env);
        if !ok {
          return InsufficientMemory, next;
        }
      }
      s.params[i] := s.params[i].(data := At(s.block, offset));
      next := offset + BlobSize(s.params[i]);
    }
    return Success, next;
  }

  /** The result of refreshing the list `ps` of a set of `size` bytes in `block`. */
  ghost predicate FreshOutcome(m: Blocks, ps: seq<Param>, size: u32, block: nat, isCopy: bool, env: Platform,
                               ret: Status, m': Blocks, ps': seq<Param>) {
    && ret in {Success, InvalidArgument, InsufficientMemory}
    && (ret == Success <==> Fills(ps, size, isCopy, env))
    && (ret == InvalidArgument ==> size != Total(ps))
    && (ret == InsufficientMemory ==> isCopy)
    && (ret == Success ==> ps' == Relocate(ps, block, Base(ps)) && Midway(m, ps, |ps|, m', block, isCopy))
    && OnlyBlockChanged(m, m', block)
    && (!isCopy ==> m' == m)
  }

  /** What a refresh is asked to do, from which memory and list, and how far it has come. */
  datatype Refresh = Refresh(m: Blocks, ps: seq<Param>, size: u32, block: nat, isCopy: bool, env: Platform)

  datatype Progress = Progress(m: Blocks, ps: seq<Param>, offset: nat)

  /** The loop has refreshed the first `i` of the parameters. */
  ghost predicate LoopState(r: Refresh, i: nat, s: Progress) {
    && i <= |r.ps| && s.offset == Place(r.ps, i, r.block).off
    && s.ps == Refreshed(r.ps, i, r.block)
    && StepsOk(r.ps, i, r.size, r.isCopy, r.env)
    && Midway(r.m, r.ps, i, s.m, r.block, r.isCopy)
  }

  /** What the loop relies on at parameter `i`. */
  lemma LoopEntry(r: Refresh, i: nat, s: Progress)
    requires LoopState(r, i, s) && i < |r.ps| && (r.isCopy ==> Copyable(r.m, r.ps, r.block))
    ensures |s.ps| == |r.ps| && s.ps[i] == r.ps[i]
    ensures r.isCopy ==> Readable(s.m, r.ps[i]) && (IsBytes(r.ps[i].tag) ==> r.ps[i].data.block != r.block)
  {
    RefreshedAt(r.ps, i, r.block, i);
    SourceUntouched(r.m, r.ps, i, s.m, r.block, r.isCopy);
  }

  /** What it has once that one is refreshed. */
  lemma LoopStep(r: Refresh, i: nat, s: Progress, s': Progress)
    requires LoopState(r, i, s) && i < |r.ps| && (r.isCopy ==> Copyable(r.m, r.ps, r.block))
    requires StepOk(r.ps[i], s.offset, r.size, r.isCopy, r.env) && r.block in s.m && r.size <= |s.m[r.block]|
    requires r.isCopy ==> Readable(s.m, r.ps[i])
    requires s'.m == Stored(s.m, r.ps[i], r.block, s.offset, r.isCopy)
    requires |s.ps| == |r.ps| && s'.ps == s.ps[i := Moved(r.ps[i], At(r.block, s.offset))]
    requires s'.offset == s.offset + BlobSize(r.ps[i])
    ensures LoopState(r, i + 1, s')
  {
    PrefixStep(r.ps, i);
    MidwayStep(r.m, r.ps, i, s.m, r.block, r.isCopy);
  }

  lemma StopsAt(r: Refresh, i: nat, s: Progress, ret: Status, m': Blocks)
    requires LoopState(r, i, s) && i < |r.ps| && !StepOk(r.ps[i], s.offset, r.size, r.isCopy, r.env)
    requires ret in {InvalidArgument, InsufficientMemory}
    requires ret == InvalidArgument ==> m' == s.m && (s.offset > r.size || s.offset + BlobSize(r.ps[i]) > U32_MAX)
    requires ret == InsufficientMemory ==>
               && r.isCopy && s.offset <= r.size && InBounds(s.m, At(r.block, 0), r.size)
               && m' == Cleared(s.m, r.block, s.offset, r.size)
    ensures FreshOutcome(r.m, r.ps, r.size, r.block, r.isCopy, r.env, ret, m', s.ps)
  {
    PrefixStep(r.ps, i);
    if Fills(r.ps, r.size, r.isCopy, r.env) {
      StepsOkIfFills(r.ps, i + 1, r.size, r.isCopy, r.env);
    }
  }

  lemma Finishes(r: Refresh, s: Progress, ret: Status)
    requires LoopState(r, |r.ps|, s)
    requires ret == if r.size == s.offset then Success else InvalidArgument
    ensures FreshOutcome(r.m, r.ps, r.size, r.block, r.isCopy, r.env, ret, s.m, s.ps)
  {
    assert r.ps[..|r.ps|] == r.ps;
    RefreshedEnds(r.ps, r.block);
    if r.isCopy && !r.env.emptyCopyOk {
      NoEmptyIfStepsOk(r.ps, r.size, r.env);
    }
  }

  /** FreshParamSet: points the blobs at their places in the tail, after copying them there if
      `isCopy`. */
  method FreshParamSet(h: Heap, s: ParamSet, isCopy: bool, env: Platform) returns (ret: Status)
    requires h.Valid() && WellFormed(h, s)
    requires isCopy ==> Copyable(h.blocks, s.List(), s.block)
    modifies h, s.params
    ensures h.Valid() && WellFormed(h, s)
    ensures FreshOutcome(old(h.blocks), old(s.List()), s.paramSetSize, s.block, isCopy, env,
                         ret, h.blocks, s.List())
  {
    ghost var r := Refresh(h.blocks, s.List(), s.paramSetSize, s.block, isCopy, env);
    MidwayStart(r.m, r.ps, s.block, isCopy);
    var offset: u32 := PARAM_SET_HEADER + PARAM_BYTES * s.paramsCnt;
    var i: u32 := 0;
    while i < s.paramsCnt
      invariant h.Valid() && WellFormed(h, s) && i <= s.paramsCnt
      invariant LoopState(r, i, Progress(h.blocks, s.List(), offset))
    {
      ghost var p := Progress(h.blocks, s.List(), offset);
      LoopEntry(r, i, p);
      ret, offset := FreshOne(h, s, i, r.ps[i], offset, isCopy, env);
      if ret != Success {
        StopsAt(r, i, p, ret, h.blocks);
        return ret;
      }
      LoopStep(r, i, p, Progress(h.blocks, s.List(), offset));
      i := i + 1;
    }
    ret := if s.paramSetSize != offset then InvalidArgument else Success;
    Finishes(r, Progress(h.blocks, s.List(), offset), ret);
  }

  /** HksFreshParamSet, on a set whose block is at least as large as its header says. */
  method HksFreshParamSet(h: Heap, s: ParamSet, isCopy: bool, env: Platform) returns (ret: Status)
    requires h.Valid() && s.Live(h) && s.paramSetSize <= |h.blocks[s.block]|
    requires isCopy && WellFormed(h, s) ==> Copyable(h.blocks, s.List(), s.block)
    modifies h, s.params
    ensures h.Valid() && s.Live(h)
    ensures if old(WellFormed(h, s)) then
              FreshOutcome(old(h.blocks), old(s.List()), s.paramSetSize, s.block, isCopy, env, ret, h.blocks, s.List())
            else ret == InvalidArgument && h.blocks == old(h.blocks)
  {
    SizesOkIff(s.paramSetSize, s.paramsCnt, s.paramSetSize);
    if !SizesOk(s.paramSetSize, s.paramsCnt, s.paramSetSize) {
      return InvalidArgument;
    }
    ret := FreshParamSet(h, s, isCopy, env);
  }

  /** Refreshing in place a set that was just received: it succeeds exactly if the header's
      size is the true total, and then all blobs tile the tail, whatever the pointers were. */
  lemma RefreshOfReceived(m: Blocks, ps: seq<Param>, size: u32, block: nat, env: Platform,
                          ret: Status, m': Blocks, ps': seq<Param>)
    requires size <= PARAM_SET_MAX_SIZE && InBounds(m, At(block, 0), size)
    requires FreshOutcome(m, ps, size, block, false, env, ret, m', ps')
    ensures ret == Success <==> size == Total(ps)
    ensures ret == Success ==> m' == m && Built(m', ps', block, size)
    ensures ret == Success ==> Relocate(ps', block, Base(ps')) == ps'
  {
    if ret == Success {
      RelocatedIsBuilt(ps, size, m, block);
    }
  }

  /** So a second refresh, or the refresh of any finished set in place, changes nothing. */
  lemma RefreshOfBuilt(m: Blocks, ps: seq<Param>, size: u32, block: nat, env: Platform,
                       ret: Status, m': Blocks, ps': seq<Param>)
    requires Built(m, ps, block, size) && FreshOutcome(m, ps, size, block, false, env, ret, m', ps')
    ensures ret == Success && m' == m && ps' == ps
  {
  }
}
