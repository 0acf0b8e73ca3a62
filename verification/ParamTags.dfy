/** Looking parameters up by tag and validating tags (`hks_param.c`). */
module ParamTags {
  import opened CTypes
  import opened Memory
  import opened ParamLayout
  import opened ParamRefresh

  /** The table of known tags, in its order. */
  const VALID_TAGS: seq<u32> := [
    0x2000_0001, 0x2000_0002, 0x2000_0003, 0x2000_0004, 0x2000_0005, 0x2000_0006, 0x2000_0007, 0x5000_0008,
    0x5000_0009, 0x5000_000A, 0x5000_000C, 0x5000_000D, 0x5000_000B, 0x2000_000E, 0x2000_000F, 0x5000_0010,
    0x5000_0011, 0x2000_0012, 0x2000_0013, 0x4000_0014, 0x5000_0015, 0x5000_0016, 0x5000_0017, 0x2000_0018,
    0x2000_0019, 0x2000_001A, 0x2000_001D, 0x2000_001E, 0x2000_001F, 0x3000_00C9, 0x3000_00CA, 0x3000_00CB,
    0x3000_00CC, 0x4000_012D, 0x2000_012E, 0x1000_0138, 0x4000_012F, 0x2000_0130, 0x2000_0131, 0x5000_0132,
    0x2000_013C, 0x1000_013D, 0x2000_2775, 0x2000_2776, 0x5000_01F5, 0x5000_01F6, 0x2000_0206, 0x5000_01F7,
    0x5000_01F8, 0x5000_01F9, 0x5000_01FA, 0x5000_01FB, 0x5000_01FC, 0x5000_01FD, 0x5000_01FE, 0x5000_01FF,
    0x5000_0200, 0x5000_0201, 0x5000_0202, 0x5000_0203, 0x4000_0204, 0x2000_0205, 0x2001_86A1, 0x4000_03E9,
    0x2000_03EA, 0x4000_03EB, 0x2000_03EC, 0x2000_03F8, 0x4000_03F7, 0x2000_03F6, 0x5000_03ED, 0x2000_03EE,
    0x2000_03EF, 0x2000_03F3, 0x2000_0133, 0x2000_0134, 0x2000_0135, 0x2000_0136, 0x2000_0137, 0x2000_0139,
    0x4000_013A, 0x2000_013B, 0x2000_013F, 0x5000_271B, 0x4000_271C, 0x5000_271D, 0x5000_271E, 0x5000_271F,
    0x1000_2720, 0x4000_2721, 0x5000_2722, 0x4000_2723, 0x5000_2711, 0x5000_2712, 0x2000_2718, 0x5000_2719,
    0x3000_2715, 0x5000_2716, 0x2000_2717, 0x3000_271A, 0x5000_4E21, 0x5000_4E22, 0x5000_4E23, 0x3000_2724,
    0x2000_7545, 0x5000_7546, 0x4000_03F4, 0x5000_2727, 0x5000_2725, 0x2000_2726, 0x2000_03F9
  ]

  predicate HasTag(ps: seq<Param>, tag: u32) {
    exists i :: 0 <= i < |ps| && ps[i].tag == tag
  }

  // ----- Lookup -----

  datatype Lookup = Found(value: Value) | EmptyBlob | Missing

  /** The value a list of entries has for a tag: the first one counts. */
  function Find(es: seq<Entry>, tag: u32): Lookup {
    if es == [] then Missing
    else if es[0].tag != tag then Find(es[1..], tag)
    else if es[0].value == Octets([]) then EmptyBlob
    else Found(es[0].value)
  }

  lemma {:induction false} FindMissing(es: seq<Entry>, tag: u32)
    ensures Find(es, tag) == Missing <==> forall i :: 0 <= i < |es| ==> es[i].tag != tag
  {
    if es != [] {
      FindMissing(es[1..], tag);
      assert forall i :: 1 <= i < |es| ==> es[i] == es[1..][i - 1];
      assert forall i :: 0 <= i < |es| - 1 ==> es[1..][i] == es[i + 1];
    }
  }

  lemma {:induction false} FindFirst(es: seq<Entry>, tag: u32, i: nat)
    requires i < |es| && es[i].tag == tag && forall j :: 0 <= j < i ==> es[j].tag != tag
    ensures Find(es, tag) == if es[i].value == Octets([]) then EmptyBlob else Found(es[i].value)
  {
    if i > 0 {
      assert es[1..][i - 1] == es[i] && forall j :: 0 <= j < i - 1 ==> es[1..][j] == es[j + 1];
      FindFirst(es[1..], tag, i - 1);
    }
  }

  lemma {:induction false} FindInConcat(a: seq<Entry>, b: seq<Entry>, tag: u32)
    ensures Find(a + b, tag) == if Find(a, tag) == Missing then Find(b, tag) else Find(a, tag)
  {
    if a == [] {
      assert a + b == b;
    } else {
      FindInConcat(a[1..], b, tag);
      assert (a + b)[1..] == a[1..] + b;
    }
  }

  /** What HksGetParam answers on a list: the first parameter with the tag, refused if it is a
      blob without bytes. */
  predicate Gets(ps: seq<Param>, tag: u32, ret: Status, index: nat) {
    if ret == ParamNotExist then !HasTag(ps, tag)
    else
      && index < |ps| && ps[index].tag == tag && (forall j :: 0 <= j < index ==> ps[j].tag != tag)
      && ret == if IsBytes(tag) && (ps[index].data == Null || BlobSize(ps[index]) == 0) then InvalidArgument else Success
  }

  /** HksGetParam; the parameter it points to is the slot `index`. */
  method HksGetParam(s: ParamSet, tag: u32) returns (ret: Status, index: nat)
    requires SizesOk(s.paramSetSize, s.paramsCnt, s.paramSetSize) ==> s.paramsCnt <= s.params.Length
    ensures if SizesOk(s.paramSetSize, s.paramsCnt, s.paramSetSize) then Gets(s.List(), tag, ret, index)
            else ret == InvalidArgument
  {
    index := 0;
    if !SizesOk(s.paramSetSize, s.paramsCnt, s.paramSetSize) {
      return InvalidArgument, 0;
    }
    while index < s.paramsCnt
      invariant index <= s.paramsCnt
      invariant forall j :: 0 <= j < index ==> s.List()[j].tag != tag
    {
      if tag == s.params[index].tag {
        if IsBytes(tag) && (s.params[index].data == Null || BlobSize(s.params[index]) == 0) {
          return InvalidArgument, index;
        }
        return Success, index;
      }
      index := index + 1;
    }
    return ParamNotExist, index;
  }

  /** The answer in terms of the abstract set. */
  lemma GetsEntry(m: Blocks, ps: seq<Param>, tag: u32, ret: Status, index: nat)
    requires AllReadable(m, ps) && Gets(ps, tag, ret, index)
    ensures ret == match Find(Entries(m, ps), tag)
                   case Found(_) => Success
                   case EmptyBlob => InvalidArgument
                   case Missing => ParamNotExist
    ensures ret == Success ==> index < |ps| && Readable(m, ps[index])
                               && Meaning(m, ps[index]) == Entry(tag, Find(Entries(m, ps), tag).value)
  {
    EntriesLength(m, ps);
    forall j | 0 <= j < |ps|
      ensures Entries(m, ps)[j].tag == ps[j].tag
    {
      EntriesAt(m, ps, j);
    }
    if ret == ParamNotExist {
      FindMissing(Entries(m, ps), tag);
    } else {
      EntriesAt(m, ps, index);
      FindFirst(Entries(m, ps), tag, index);
    }
  }

  // ----- Validation -----

  method IsValidTag(tag: u32) returns (ok: bool)
    ensures ok <==> tag in VALID_TAGS
  {
    var i := 0;
    while i < |VALID_TAGS|
      invariant i <= |VALID_TAGS| && forall k :: 0 <= k < i ==> VALID_TAGS[k] != tag
    {
      if tag == VALID_TAGS[i] {
        return true;
      }
      i := i + 1;
    }
    return false;
  }

  predicate Distinct(ps: seq<Param>) {
    forall i, j :: 0 <= i < j < |ps| ==> ps[i].tag != ps[j].tag
  }

  /** Parameter `i` has a known tag and no later parameter has it too. */
  predicate TagOkAt(ps: seq<Param>, i: nat)
    requires i < |ps|
  {
    ps[i].tag in VALID_TAGS && forall j :: i < j < |ps| ==> ps[j].tag != ps[i].tag
  }

  predicate TagsOk(ps: seq<Param>) {
    forall i :: 0 <= i < |ps| ==> TagOkAt(ps, i)
  }

  predicate Known(ps: seq<Param>, known: seq<u32>) {
    forall i :: 0 <= i < |ps| ==> ps[i].tag in known
  }

  /** All tags are known and no two are the same. */
  lemma TagsOkIff(ps: seq<Param>)
    ensures TagsOk(ps) <==> Known(ps, VALID_TAGS) && Distinct(ps)
  {
    if TagsOk(ps) {
      forall i | 0 <= i < |ps|
        ensures ps[i].tag in VALID_TAGS && forall j :: i < j < |ps| ==> ps[i].tag != ps[j].tag
      {
        assert TagOkAt(ps, i);
      }
    }
  }

  /** The body of HksCheckParamSetTag's outer loop. */
  method CheckTagAt(s: ParamSet, i: nat) returns (ok: bool)
    requires i < s.paramsCnt <= s.params.Length
    ensures ok <==> TagOkAt(s.List(), i)
  {
    var curTag := s.params[i].tag;
    var valid := IsValidTag(curTag);
    if !valid {
      return false;
    }
    var j := i + 1;
    while j < s.paramsCnt
      invariant i < j <= s.paramsCnt && forall l :: i < l < j ==> s.List()[l].tag != curTag
    {
      if curTag == s.params[j].tag {
        assert s.List()[j].tag == curTag;
        return false;
      }
      j := j + 1;
    }
    return true;
  }

  method HksCheckParamSetTag(s: ParamSet) returns (ret: Status)
    requires s.paramsCnt <= s.params.Length
    ensures ret == if TagsOk(s.List()) then Success else InvalidArgument
  {
    var i := 0;
    while i < s.paramsCnt
      invariant i <= s.paramsCnt && forall k :: 0 <= k < i ==> TagOkAt(s.List(), k)
    {
      var ok := CheckTagAt(s, i);
      if !ok {
        return InvalidArgument;
      }
      i := i + 1;
    }
    return Success;
  }

  predicate NoCommonTag(ps: seq<Param>, qs: seq<Param>) {
    forall i, j :: 0 <= i < |ps| && 0 <= j < |qs| ==> ps[i].tag != qs[j].tag
  }

  /** HksCheckIsTagAlreadyExist. */
  method HksCheckIsTagAlreadyExist(params: Option<seq<Param>>, target: ParamSet) returns (ret: Status)
    requires SizesOk(target.paramSetSize, target.paramsCnt, target.paramSetSize) ==> target.paramsCnt <= target.params.Length
    ensures ret == if params.None? then NullPointer
                   else if SizesOk(target.paramSetSize, target.paramsCnt, target.paramSetSize) &&
                           NoCommonTag(target.List(), params.value) then Success
                   else InvalidArgument
  {
    if params.None? {
      return NullPointer;
    }
    if !SizesOk(target.paramSetSize, target.paramsCnt, target.paramSetSize) {
      return InvalidArgument;
    }
    ghost var ps := target.List();
    var i := 0;
    while i < target.paramsCnt
      invariant i <= target.paramsCnt
      invariant forall k, l :: 0 <= k < i && 0 <= l < |params.value| ==> ps[k].tag != params.value[l].tag
    {
      assert ps[i] == target.params[i];
      var j := 0;
      while j < |params.value|
        invariant j <= |params.value| && forall l :: 0 <= l < j ==> ps[i].tag != params.value[l].tag
      {
        if params.value[j].tag == target.params[i].tag {
          return InvalidArgument;
        }
        j := j + 1;
      }
      i := i + 1;
    }
    return Success;
  }

  lemma DistinctConcat(ps: seq<Param>, qs: seq<Param>)
    ensures Distinct(ps + qs) <==> Distinct(ps) && Distinct(qs) && NoCommonTag(ps, qs)
  {
    var all := ps + qs;
    assert forall i :: 0 <= i < |ps| ==> all[i] == ps[i];
    assert forall i :: 0 <= i < |qs| ==> qs[i] == all[|ps| + i];
    assert forall i :: |ps| <= i < |all| ==> all[i] == qs[i - |ps|];
  }

  lemma KnownConcat(ps: seq<Param>, qs: seq<Param>, known: seq<u32>)
    ensures Known(ps + qs, known) <==> Known(ps, known) && Known(qs, known)
  {
    assert forall i :: 0 <= i < |ps| ==> (ps + qs)[i] == ps[i];
    assert forall i :: 0 <= i < |qs| ==> (ps + qs)[|ps| + i] == qs[i];
  }

  /** A list made of two is acceptable exactly if both are and the check for common tags passes. */
  lemma ConcatAcceptable(ps: seq<Param>, qs: seq<Param>)
    ensures TagsOk(ps + qs) <==> TagsOk(ps) && TagsOk(qs) && NoCommonTag(ps, qs)
  {
    TagsOkIff(ps);
    TagsOkIff(qs);
    TagsOkIff(ps + qs);
    DistinctConcat(ps, qs);
    KnownConcat(ps, qs, VALID_TAGS);
  }

  lemma TagsOfEntries(m: Blocks, ps: seq<Param>, tag: u32)
    requires AllReadable(m, ps)
    ensures Find(Entries(m, ps), tag) == Missing <==> !HasTag(ps, tag)
  {
    EntriesLength(m, ps);
    forall j | 0 <= j < |ps|
      ensures Entries(m, ps)[j].tag == ps[j].tag
    {
      EntriesAt(m, ps, j);
    }
    FindMissing(Entries(m, ps), tag);
  }

  /** Then the lookup in the concatenation is the disjoint union of the two lookups, whatever
      the order of the two. */
  lemma LookupIsDisjointUnion(m: Blocks, ps: seq<Param>, qs: seq<Param>, tag: u32)
    requires AllReadable(m, ps) && AllReadable(m, qs) && NoCommonTag(ps, qs)
    ensures AllReadable(m, ps + qs) && AllReadable(m, qs + ps)
    ensures Find(Entries(m, ps), tag) == Missing || Find(Entries(m, qs), tag) == Missing
    ensures Find(Entries(m, ps + qs), tag) == Find(Entries(m, qs + ps), tag)
    ensures Find(Entries(m, ps + qs), tag) == if Find(Entries(m, ps), tag) == Missing
                                              then Find(Entries(m, qs), tag) else Find(Entries(m, ps), tag)
  {
    TagsOfEntries(m, ps, tag);
    TagsOfEntries(m, qs, tag);
    EntriesOfConcat(m, ps, qs);
    EntriesOfConcat(m, qs, ps);
    FindInConcat(Entries(m, ps), Entries(m, qs), tag);
    FindInConcat(Entries(m, qs), Entries(m, ps), tag);
  }

  /** In an acceptable list every parameter is found: lookup and list are the same table. */
  lemma EveryParamIsFound(m: Blocks, ps: seq<Param>, i: nat)
    requires AllReadable(m, ps) && Distinct(ps) && i < |ps|
    ensures Readable(m, ps[i])
    ensures Find(Entries(m, ps), ps[i].tag) ==
            if Meaning(m, ps[i]).value == Octets([]) then EmptyBlob else Found(Meaning(m, ps[i]).value)
  {
    EntriesLength(m, ps);
    forall j | 0 <= j < |ps|
      ensures Entries(m, ps)[j].tag == ps[j].tag
    {
      EntriesAt(m, ps, j);
    }
    EntriesAt(m, ps, i);
    FindFirst(Entries(m, ps), ps[i].tag, i);
  }
}
