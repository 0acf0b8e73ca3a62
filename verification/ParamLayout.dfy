/** Layout and meaning of a parameter set (`hks_param.c`): a header of 8 bytes, parameters of 24
    bytes each, and a tail with the blobs the parameters point to. */
module ParamLayout {
  import opened CTypes
  import opened Memory

  const PARAM_SET_HEADER := 8
  const PARAM_BYTES := 24
  const PARAM_SET_MAX_SIZE := 4 * 1024 * 1024
  const DEFAULT_PARAM_SET_SIZE := 1024
  const DEFAULT_PARAM_CNT := (DEFAULT_PARAM_SET_SIZE - PARAM_SET_HEADER) / PARAM_BYTES

  type u64 = x: int | 0 <= x < 0x1_0000_0000_0000_0000

  /** A parameter: the tag and the 16 bytes of the union, as a first word and a pointer.  Scalars
      lie in the word; the size of a blob is its low half and the blob's data is the pointer. */
  datatype Param = Param(tag: u32, word: u64, data: Ptr)

  predicate IsBytes(tag: u32) {
    tag / 0x1000_0000 == 5
  }

  function BlobSize(p: Param): u32 {
    if IsBytes(p.tag) then Wrap32(p.word) else 0
  }

  function Last<T>(s: seq<T>): T
    requires s != []
  {
    s[|s| - 1]
  }

  function Front<T>(s: seq<T>): seq<T>
    requires s != []
  {
    s[..|s| - 1]
  }

  /** The bytes all blobs of `ps` take together. */
  function BlobSum(ps: seq<Param>): nat {
    if ps == [] then 0 else BlobSum(Front(ps)) + BlobSize(Last(ps))
  }

  /** Where the tail starts. */
  function Base(ps: seq<Param>): nat {
    PARAM_SET_HEADER + PARAM_BYTES * |ps|
  }

  /** The size of the whole set, as a number without a width. */
  function Total(ps: seq<Param>): nat {
    Base(ps) + BlobSum(ps)
  }

  datatype Value = Scalar(word: u64) | Octets(content: seq<byte>)

  datatype Entry = Entry(tag: u32, value: Value)

  predicate Readable(m: Blocks, p: Param) {
    IsBytes(p.tag) ==> InBounds(m, p.data, BlobSize(p))
  }

  predicate AllReadable(m: Blocks, ps: seq<Param>) {
    ps == [] || (AllReadable(m, Front(ps)) && Readable(m, Last(ps)))
  }

  function Content(m: Blocks, p: Param): seq<byte>
    requires Readable(m, p)
  {
    if IsBytes(p.tag) then Read(m, p.data, BlobSize(p)) else []
  }

  function Meaning(m: Blocks, p: Param): Entry
    requires Readable(m, p)
  {
    Entry(p.tag, if IsBytes(p.tag) then Octets(Content(m, p)) else Scalar(p.word))
  }

  /** The abstract value of a list of parameters: tags with scalars and blob contents. */
  function Entries(m: Blocks, ps: seq<Param>): seq<Entry>
    requires AllReadable(m, ps)
  {
    if ps == [] then [] else Entries(m, Front(ps)) + [Meaning(m, Last(ps))]
  }

  lemma {:induction false} EntriesAt(m: Blocks, ps: seq<Param>, i: nat)
    requires AllReadable(m, ps) && i < |ps|
    ensures Readable(m, ps[i])
    ensures |Entries(m, ps)| == |ps| && Entries(m, ps)[i] == Meaning(m, ps[i])
  {
    if |ps| > 1 {
      EntriesAt(m, Front(ps), if i < |ps| - 1 then i else 0);
    }
  }

  lemma {:induction false} EntriesLength(m: Blocks, ps: seq<Param>)
    requires AllReadable(m, ps)
    ensures |Entries(m, ps)| == |ps|
  {
    if ps != [] {
      EntriesLength(m, Front(ps));
    }
  }

  lemma {:induction false} ReadableNotNull(m: Blocks, ps: seq<Param>)
    requires AllReadable(m, ps)
    ensures forall i :: 0 <= i < |ps| && IsBytes(ps[i].tag) ==> ps[i].data != Null
  {
    if ps != [] {
      ReadableNotNull(m, Front(ps));
      assert forall i :: 0 <= i < |ps| - 1 ==> ps[i] == Front(ps)[i];
    }
  }

  function Moved(p: Param, data: Ptr): Param {
    if IsBytes(p.tag) then p.(data := data) else p
  }

  /** The parameters with every blob pointer set to its place in the tail of `block`. */
  function Relocate(ps: seq<Param>, block: nat, base: nat): seq<Param> {
    if ps == [] then []
    else Relocate(Front(ps), block, base) + [Moved(Last(ps), At(block, base + BlobSum(Front(ps))))]
  }

  lemma RelocateSnoc(ps: seq<Param>, block: nat, base: nat)
    requires ps != []
    ensures Relocate(ps, block, base) != []
    ensures Front(Relocate(ps, block, base)) == Relocate(Front(ps), block, base)
    ensures Last(Relocate(ps, block, base)) == Moved(Last(ps), At(block, base + BlobSum(Front(ps))))
  {
  }

  lemma {:induction false} RelocateAt(ps: seq<Param>, block: nat, base: nat, i: nat)
    requires i < |ps|
    ensures |Relocate(ps, block, base)| == |ps|
    ensures Relocate(ps, block, base)[i] == Moved(ps[i], At(block, base + BlobSum(ps[..i])))
  {
    if i < |ps| - 1 {
      RelocateAt(Front(ps), block, base, i);
      assert Front(ps)[..i] == ps[..i];
    } else if |ps| > 1 {
      RelocateAt(Front(ps), block, base, 0);
    }
  }

  lemma {:induction false} RelocateFacts(ps: seq<Param>, block: nat, base: nat, block': nat)
    ensures var rs := Relocate(ps, block, base);
            && |rs| == |ps| && BlobSum(rs) == BlobSum(ps)
            && Relocate(rs, block', base) == Relocate(ps, block', base)
  {
    if ps != [] {
      RelocateFacts(Front(ps), block, base, block');
      RelocateSnoc(ps, block, base);
    }
  }

  /** The block `block` of `m'` holds, from `base` on, the blobs of `ps` one after the other. */
  predicate Placed(m: Blocks, ps: seq<Param>, m': Blocks, block: nat, base: nat)
    requires AllReadable(m, ps)
  {
    ps == [] ||
    (Placed(m, Front(ps), m', block, base) &&
     Holds(m, Last(ps), m', At(block, base + BlobSum(Front(ps)))))
  }

  /** At `data` there is the blob of `p`, if `p` is a blob. */
  predicate Holds(m: Blocks, p: Param, m': Blocks, data: Ptr)
    requires Readable(m, p)
  {
    IsBytes(p.tag) ==> InBounds(m', data, BlobSize(p)) && Read(m', data, BlobSize(p)) == Content(m, p)
  }

  lemma EntriesSplit(m: Blocks, ps: seq<Param>, front: seq<Param>, last: Param)
    requires ps != [] && Front(ps) == front && Last(ps) == last
    requires AllReadable(m, front) && Readable(m, last)
    ensures AllReadable(m, ps) && Entries(m, ps) == Entries(m, front) + [Meaning(m, last)]
  {
  }

  lemma {:induction false} EntriesOfConcat(m: Blocks, ps: seq<Param>, qs: seq<Param>)
    requires AllReadable(m, ps) && AllReadable(m, qs)
    ensures AllReadable(m, ps + qs) && Entries(m, ps + qs) == Entries(m, ps) + Entries(m, qs)
  {
    if qs == [] {
      assert ps + qs == ps;
    } else {
      EntriesOfConcat(m, ps, Front(qs));
      assert Front(ps + qs) == ps + Front(qs) && Last(ps + qs) == Last(qs);
      Concat3(Entries(m, ps), Entries(m, Front(qs)), [Meaning(m, Last(qs))]);
    }
  }

  /** The key to all copying: parameters relocated to a place that holds their blobs mean what
      they meant before. */
  lemma {:induction false} RelocatedMeaning(m: Blocks, ps: seq<Param>, m': Blocks, block: nat, base: nat)
    requires AllReadable(m, ps) && Placed(m, ps, m', block, base)
    ensures AllReadable(m', Relocate(ps, block, base))
    ensures Entries(m', Relocate(ps, block, base)) == Entries(m, ps)
  {
    if ps != [] {
      var front, data := Front(ps), At(block, base + BlobSum(Front(ps)));
      RelocatedMeaning(m, front, m', block, base);
      RelocateSnoc(ps, block, base);
      EntriesSplit(m', Relocate(ps, block, base), Relocate(front, block, base), Moved(Last(ps), data));
    }
  }

  lemma HoldsAfterStore(m: Blocks, p: Param, m': Blocks, data: Ptr, off: nat, c: seq<byte>)
    requires Readable(m, p) && data.At? && data.block in m' && Holds(m, p, m', data)
    requires data.off + BlobSize(p) <= off && off + |c| <= |m'[data.block]|
    ensures Holds(m, p, m'[data.block := Overwrite(m'[data.block], off, c)], data)
  {
    OverwriteKeeps(m'[data.block], off, c, data.off, BlobSize(p));
  }

  /** Storing bytes behind the blobs placed so far leaves them in place. */
  lemma {:induction false} PlacedAfterStore(m: Blocks, ps: seq<Param>, m': Blocks, block: nat, base: nat,
                                            off: nat, c: seq<byte>)
    requires AllReadable(m, ps) && Placed(m, ps, m', block, base)
    requires block in m' && base + BlobSum(ps) <= off && off + |c| <= |m'[block]|
    ensures Placed(m, ps, m'[block := Overwrite(m'[block], off, c)], block, base)
  {
    if ps == [] {
    } else {
      PlacedAfterStore(m, Front(ps), m', block, base, off, c);
      HoldsAfterStore(m, Last(ps), m', At(block, base + BlobSum(Front(ps))), off, c);
    }
  }

  // ----- Built sets -----

  /** A finished set: every blob pointer is at its place in the set's own block. */
  predicate Built(m: Blocks, ps: seq<Param>, block: nat, size: nat) {
    && size == Total(ps) <= PARAM_SET_MAX_SIZE
    && InBounds(m, At(block, 0), size)
    && Relocate(ps, block, Base(ps)) == ps
  }

  /** The bytes of a set in place, copied to another block, are in place there. */
  lemma {:induction false} CopyIsPlaced(m: Blocks, ps: seq<Param>, block: nat, base: nat, size: nat,
                                        m': Blocks, block': nat)
    requires Relocate(ps, block, base) == ps && base + BlobSum(ps) <= size
    requires InBounds(m, At(block, 0), size) && InBounds(m', At(block', 0), size)
    requires Read(m', At(block', 0), size) == Read(m, At(block, 0), size)
    ensures AllReadable(m, ps) && Placed(m, ps, m', block', base)
  {
    if ps != [] {
      RelocateSnoc(ps, block, base);
      CopyIsPlaced(m, Front(ps), block, base, size, m', block');
      SliceOfSame(m[block], m'[block'], size, base + BlobSum(Front(ps)), BlobSize(Last(ps)));
    }
  }

  lemma RelocatedIsBuilt(ps: seq<Param>, size: nat, m': Blocks, block': nat)
    requires size == Total(ps) <= PARAM_SET_MAX_SIZE && InBounds(m', At(block', 0), size)
    ensures Built(m', Relocate(ps, block', Base(ps)), block', size)
  {
    RelocateFacts(ps, block', Base(ps), block');
  }

  /** Relocation is the identity on meaning: copy the bytes of a built set anywhere, move the
      pointers, and the result is a built set with the same entries. */
  lemma RelocationKeepsMeaning(m: Blocks, ps: seq<Param>, block: nat, size: nat, m': Blocks, block': nat)
    requires Built(m, ps, block, size)
    requires InBounds(m', At(block', 0), size) && Read(m', At(block', 0), size) == Read(m, At(block, 0), size)
    ensures AllReadable(m, ps)
    ensures Built(m', Relocate(ps, block', Base(ps)), block', size)
    ensures AllReadable(m', Relocate(ps, block', Base(ps)))
    ensures Entries(m', Relocate(ps, block', Base(ps))) == Entries(m, ps)
  {
    CopyIsPlaced(m, ps, block, Base(ps), size, m', block');
    RelocatedMeaning(m, ps, m', block', Base(ps));
    RelocatedIsBuilt(ps, size, m', block');
  }

  /** No pointer of a built set leaves its block, and the blobs tile the tail. */
  lemma BuiltTiles(m: Blocks, ps: seq<Param>, block: nat, size: nat, i: nat)
    requires Built(m, ps, block, size) && i < |ps| && IsBytes(ps[i].tag)
    ensures ps[i].data == At(block, Base(ps) + BlobSum(ps[..i]))
    ensures Base(ps) + BlobSum(ps[..i + 1]) == ps[i].data.off + BlobSize(ps[i]) <= size < U32_LIMIT
  {
    RelocateAt(ps, block, Base(ps), i);
    assert ps[i] == Moved(ps[i], At(block, Base(ps) + BlobSum(ps[..i])));
    assert Front(ps[..i + 1]) == ps[..i] && Last(ps[..i + 1]) == ps[i];
    BlobSumMonotone(ps, i + 1);
  }

  /** One more parameter, as a loop over `ps` takes it. */
  lemma PrefixStep(ps: seq<Param>, i: nat)
    requires i < |ps|
    ensures Front(ps[..i + 1]) == ps[..i] && Last(ps[..i + 1]) == ps[i]
    ensures BlobSum(ps[..i + 1]) == BlobSum(ps[..i]) + BlobSize(ps[i]) <= BlobSum(ps)
  {
    assert Front(ps[..i + 1]) == ps[..i] && Last(ps[..i + 1]) == ps[i];
    BlobSumMonotone(ps, i + 1);
  }

  lemma {:induction false} ReadableAt(m: Blocks, ps: seq<Param>, i: nat)
    requires AllReadable(m, ps) && i < |ps|
    ensures Readable(m, ps[i]) && AllReadable(m, ps[..i])
  {
    if i < |ps| - 1 {
      ReadableAt(m, Front(ps), i);
      assert Front(ps)[..i] == ps[..i];
    }
  }

  lemma {:induction false} BlobSumMonotone(ps: seq<Param>, i: nat)
    requires i <= |ps|
    ensures BlobSum(ps[..i]) <= BlobSum(ps)
  {
    if i == |ps| {
      assert ps[..i] == ps;
    } else {
      BlobSumMonotone(Front(ps), i);
      assert Front(ps)[..i] == ps[..i];
    }
  }
}
