/** HksDeleteTagsFromParamSet (`hks_param.c`): a new set without the parameters of given tags. */
module ParamDelete {
  import opened CTypes
  import opened Memory
  import opened ParamLayout
  import opened ParamRefresh
  import opened ParamBuild
  import opened ParamTags

  /** The parameters of `ps` whose tag is not listed, in order. */
  function Kept(ps: seq<Param>, tags: seq<u32>): seq<Param> {
    if ps == [] then []
    else if Last(ps).tag in tags then Kept(Front(ps), tags)
    else Kept(Front(ps), tags) + [Last(ps)]
  }

  function KeptEntries(es: seq<Entry>, tags: seq<u32>): seq<Entry> {
    if es == [] then []
    else if Last(es).tag in tags then KeptEntries(Front(es), tags)
    else KeptEntries(Front(es), tags) + [Last(es)]
  }

  lemma {:induction false} KeptIsSmaller(ps: seq<Param>, tags: seq<u32>)
    ensures |Kept(ps, tags)| <= |ps| && Total(Kept(ps, tags)) <= Total(ps)
  {
    if ps != [] {
      KeptIsSmaller(Front(ps), tags);
      TotalSnoc(Kept(Front(ps), tags), Last(ps));
    }
  }

  lemma {:induction false} KeptMeans(m: Blocks, ps: seq<Param>, tags: seq<u32>)
    requires AllReadable(m, ps)
    ensures AllReadable(m, Kept(ps, tags)) && Entries(m, Kept(ps, tags)) == KeptEntries(Entries(m, ps), tags)
  {
    if ps != [] {
      KeptMeans(m, Front(ps), tags);
      var es, e := Entries(m, Front(ps)), Meaning(m, Last(ps));
      assert Front(es + [e]) == es;
      if Last(ps).tag !in tags {
        EntriesSplit(m, Kept(ps, tags), Kept(Front(ps), tags), Last(ps));
      }
    }
  }

  /** Deleted tags are missing from the result, and every other lookup is as before. */
  lemma {:induction false} FindInKept(es: seq<Entry>, tags: seq<u32>, tag: u32)
    ensures Find(KeptEntries(es, tags), tag) == if tag in tags then Missing else Find(es, tag)
  {
    if es != [] {
      FindInKept(Front(es), tags, tag);
      assert es == Front(es) + [Last(es)];
      FindInConcat(Front(es), [Last(es)], tag);
      FindInConcat(KeptEntries(Front(es), tags), [Last(es)], tag);
    }
  }

  lemma {:induction false} KeptGrows(ps: seq<Param>, i: nat, tags: seq<u32>)
    requires i <= |ps|
    ensures |Kept(ps[..i], tags)| <= |Kept(ps, tags)|
  {
    if i == |ps| {
      assert ps[..i] == ps;
    } else {
      KeptGrows(Front(ps), i, tags);
      assert Front(ps)[..i] == ps[..i];
    }
  }

  /** The body of the loop that adds what is kept, for a parameter of a built set no smaller
      than the new one: only the number of parameters can stand in the way. */
  method AddIfKept(p: Param, tags: seq<u32>, to: ParamSet) returns (ret: Status)
    requires Building(to) && (IsBytes(p.tag) ==> p.data != Null)
    requires Total(to.List() + [p]) <= PARAM_SET_MAX_SIZE
    modifies to, to.params
    ensures Building(to)
    ensures ret == if p.tag in tags || |old(to.List())| < DEFAULT_PARAM_CNT then Success else InvalidArgument
    ensures ret == Success ==> to.List() == old(to.List()) + if p.tag in tags then [] else [p]
  {
    var isDeleteTag := false;
    var j := 0;
    while j < |tags|
      invariant j <= |tags| && !isDeleteTag && p.tag !in tags[..j]
    {
      if p.tag == tags[j] {
        isDeleteTag := true;
        break;
      }
      j := j + 1;
    }
    if isDeleteTag {
      return Success;
    }
    ghost var ps := to.List();
    TotalSnoc(ps, p);
    ghost var added;
    assert ps + [p][..0] == ps && [p][..1] == [p];
    ret, added := HksAddParams(to, Some([p]));
  }

  /** One step of that loop in terms of the whole list. */
  lemma KeptStep(ps: seq<Param>, i: nat, tags: seq<u32>)
    requires i < |ps|
    ensures Kept(ps[..i + 1], tags) == Kept(ps[..i], tags) + if ps[i].tag in tags then [] else [ps[i]]
    ensures Total(Kept(ps[..i], tags) + [ps[i]]) <= Total(ps)
    ensures |Kept(ps[..i + 1], tags)| <= |Kept(ps, tags)|
  {
    PrefixStep(ps, i);
    KeptGrows(ps, i + 1, tags);
    KeptIsSmaller(ps[..i], tags);
    TotalSnoc(Kept(ps[..i], tags), ps[i]);
  }

  /** The loop. */
  method AddKept(s: ParamSet, tags: seq<u32>, to: ParamSet) returns (ret: Status)
    requires s.paramsCnt <= s.params.Length && s != to && s.params != to.params
    requires Total(s.List()) <= PARAM_SET_MAX_SIZE
    requires forall i :: 0 <= i < |s.List()| && IsBytes(s.List()[i].tag) ==> s.List()[i].data != Null
    requires Building(to) && to.List() == []
    modifies to, to.params
    ensures Building(to)
    ensures ret == if |Kept(s.List(), tags)| <= DEFAULT_PARAM_CNT then Success else InvalidArgument
    ensures ret == Success ==> to.List() == Kept(s.List(), tags)
  {
    ghost var ps := s.List();
    var i := 0;
    while i < s.paramsCnt
      invariant i <= s.paramsCnt && Building(to)
      invariant to.List() == Kept(ps[..i], tags)
    {
      KeptStep(ps, i, tags);
      assert s.params[i] == ps[i];
      ret := AddIfKept(s.params[i], tags, to);
      if ret != Success {
        return;
      }
      i := i + 1;
    }
    assert ps[..|ps|] == ps;
    ret := Success;
  }

  lemma BuiltIsReadable(m: Blocks, ps: seq<Param>, block: nat, size: nat)
    requires Built(m, ps, block, size)
    ensures AllReadable(m, ps)
    ensures forall i :: 0 <= i < |ps| && IsBytes(ps[i].tag) ==> ps[i].data != Null
  {
    RelocationKeepsMeaning(m, ps, block, size, m, block);
    ReadableNotNull(m, ps);
  }

  /** What Init, Add and Build come to over what is kept of a finished set. */
  function KeptResult(ps: seq<Param>, tags: seq<u32>, env: Platform): Status {
    if !CanAllocate(env, DEFAULT_PARAM_SET_SIZE) then MallocFail
    else if |Kept(ps, tags)| > DEFAULT_PARAM_CNT then InvalidArgument
    else BuildResult(Kept(ps, tags), env)
  }

  /** The part of HksDeleteTagsFromParamSet after the refresh: Init, Add and Build of what is kept. */
  method BuildKept(h: Heap, tags: seq<u32>, s: ParamSet, env: Platform) returns (ret: Status, out: ParamSet?)
    requires h.Valid() && s.paramsCnt <= s.params.Length
    requires Built(h.blocks, s.List(), s.block, s.paramSetSize)
    modifies h
    ensures h.Valid() && (ret == Success <==> out != null)
    ensures ret == KeptResult(s.List(), tags, env)
    ensures ret == Success ==>
              && fresh(out) && out.paramsCnt <= out.params.Length && out.block !in old(h.blocks)
              && Means(old(h.blocks), Kept(s.List(), tags), h.blocks, out.List(), out.block, out.paramSetSize)
    ensures AllKept(old(h.blocks), h.blocks)
  {
    ghost var m := h.blocks;
    BuiltIsReadable(m, s.List(), s.block, s.paramSetSize);
    KeptMeans(m, s.List(), tags);
    KeptIsSmaller(s.List(), tags);
    ret, out := HksInitParamSet(h, env);
    if ret != Success {
      return ret, null;
    }
    ret := AddKept(s, tags, out);
    if ret != Success {
      h.Free(out.block);
      return ret, null;
    }
    ret, out := BuildOrFree(h, out, m, env);
  }

  /** HksDeleteTagsFromParamSet.  It first refreshes the set it is given in place. */
  method HksDeleteTagsFromParamSet(h: Heap, tags: seq<u32>, s: ParamSet, env: Platform)
    returns (ret: Status, out: ParamSet?)
    requires h.Valid() && s.Live(h) && s.paramSetSize <= |h.blocks[s.block]|
    modifies h, s.params
    ensures h.Valid() && (ret == Success <==> out != null)
    ensures if old(WellFormed(h, s)) && s.paramSetSize == Total(old(s.List()))
            then ret == KeptResult(s.List(), tags, env) else ret == InvalidArgument
    ensures ret == Success ==>
              && s.List() == Relocate(old(s.List()), s.block, Base(old(s.List())))
              && Built(old(h.blocks), s.List(), s.block, s.paramSetSize)
              && fresh(out) && out.paramsCnt <= out.params.Length && out.block !in old(h.blocks)
              && Means(old(h.blocks), Kept(s.List(), tags), h.blocks, out.List(), out.block, out.paramSetSize)
    ensures AllKept(old(h.blocks), h.blocks)
  {
    ret := HksFreshParamSet(h, s, false, env);
    if old(WellFormed(h, s)) {
      RefreshOfReceived(old(h.blocks), old(s.List()), s.paramSetSize, s.block, env, ret, h.blocks, s.List());
    }
    if ret != Success {
      return ret, null;
    }
    ret, out := BuildKept(h, tags, s, env);
  }

  /** What the new set means: exactly the order-preserving filter; deleted tags are missing and
      every other lookup gives what it gave before. */
  lemma DeleteIsFilter(m: Blocks, ps: seq<Param>, block: nat, size: nat, tags: seq<u32>,
                       m': Blocks, ps': seq<Param>, block': nat, size': nat, tag: u32)
    requires Built(m, ps, block, size) && Means(m, Kept(ps, tags), m', ps', block', size')
    ensures AllReadable(m, ps) && Entries(m', ps') == KeptEntries(Entries(m, ps), tags)
    ensures Find(Entries(m', ps'), tag) == if tag in tags then Missing else Find(Entries(m, ps), tag)
  {
    BuiltIsReadable(m, ps, block, size);
    KeptMeans(m, ps, tags);
    FindInKept(Entries(m, ps), tags, tag);
  }
}
