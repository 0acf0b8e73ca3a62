/** Allocated memory as the C code uses it: numbered blocks of bytes, HksMalloc, HksFree and
    memcpy_s.  A pointer is a block number and an offset in the block. */
module Memory {
  import opened CTypes

  datatype Ptr = Null | At(block: nat, off: nat)

  type Blocks = map<nat, seq<byte>>

  /** What the surroundings decide: which allocations succeed, and what memcpy_s answers for a
      copy of no bytes into a destination of no bytes. */
  datatype Platform = Platform(mallocOk: nat -> bool, emptyCopyOk: bool)

  predicate CanAllocate(env: Platform, size: nat) {
    0 < size <= MAX_MALLOC_SIZE && env.mallocOk(size)
  }

  predicate InBounds(m: Blocks, p: Ptr, n: nat) {
    p.At? && p.block in m && p.off + n <= |m[p.block]|
  }

  /** The `n` bytes of `b` from `off` on, read one by one. */
  function Slice(b: seq<byte>, off: nat, n: nat): (s: seq<byte>)
    requires off + n <= |b|
    ensures |s| == n
  {
    if n == 0 then [] else Slice(b, off, n - 1) + [b[off + n - 1]]
  }

  lemma {:induction false} SliceIs(b: seq<byte>, off: nat, n: nat)
    requires off + n <= |b|
    ensures Slice(b, off, n) == b[off..off + n]
  {
    if n > 0 {
      SliceIs(b, off, n - 1);
    }
  }

  function Read(m: Blocks, p: Ptr, n: nat): seq<byte>
    requires InBounds(m, p, n)
  {
    Slice(m[p.block], p.off, n)
  }

  /** Blocks with the same first `size` bytes have the same slices there. */
  lemma SliceOfSame(b: seq<byte>, b': seq<byte>, size: nat, off: nat, n: nat)
    requires off + n <= size <= |b| && size <= |b'| && Slice(b, 0, size) == Slice(b', 0, size)
    ensures Slice(b, off, n) == Slice(b', off, n)
  {
    SliceIs(b, 0, size);
    SliceIs(b', 0, size);
    SliceIs(b, off, n);
    SliceIs(b', off, n);
    assert b[off..off + n] == b[..size][off..off + n];
    assert b'[off..off + n] == b'[..size][off..off + n];
  }

  lemma ReadPrefix(m: Blocks, p: Ptr, n: nat, size: nat)
    requires InBounds(m, p, size) && n <= size
    ensures Read(m, p, n) == Read(m, p, size)[..n]
  {
    SliceIs(m[p.block], p.off, n);
    SliceIs(m[p.block], p.off, size);
  }

  lemma ReadPart(m: Blocks, p: Ptr, off: nat, n: nat, size: nat)
    requires InBounds(m, p, size) && off + n <= size
    ensures Read(m, At(p.block, p.off + off), n) == Read(m, p, size)[off..][..n]
  {
    var b := m[p.block];
    SliceIs(b, p.off + off, n);
    SliceIs(b, p.off, size);
    assert b[p.off..p.off + size][off..][..n] == b[p.off + off..p.off + off + n];
  }

  lemma ReadWhole(m: Blocks, block: nat)
    requires block in m
    ensures Read(m, At(block, 0), |m[block]|) == m[block]
  {
    SliceIs(m[block], 0, |m[block]|);
  }

  /** The block after `c` was stored at offset `off`. */
  function Overwrite(b: seq<byte>, off: nat, c: seq<byte>): seq<byte>
    requires off + |c| <= |b|
  {
    b[..off] + c + b[off + |c|..]
  }

  lemma OverwriteReads(b: seq<byte>, off: nat, c: seq<byte>)
    requires off + |c| <= |b|
    ensures |Overwrite(b, off, c)| == |b| && Slice(Overwrite(b, off, c), off, |c|) == c
  {
    SliceIs(Overwrite(b, off, c), off, |c|);
  }

  lemma OverwriteKeeps(b: seq<byte>, off: nat, c: seq<byte>, lo: nat, n: nat)
    requires off + |c| <= |b| && lo + n <= off
    ensures Slice(Overwrite(b, off, c), lo, n) == Slice(b, lo, n)
  {
    SliceIs(Overwrite(b, off, c), lo, n);
    SliceIs(b, lo, n);
  }

  // ----- The same in indices -----

  lemma CanAllocateIff(env: Platform, size: nat)
    ensures CanAllocate(env, size) <==> 1 <= size <= 8_388_608 && env.mallocOk(size)
  {
  }

  lemma ReadAt(m: Blocks, p: Ptr, n: nat)
    ensures InBounds(m, p, n) <==> p != Null && p.block in m && p.off + n <= |m[p.block]|
    ensures InBounds(m, p, n) ==> Read(m, p, n) == m[p.block][p.off..p.off + n]
  {
    if InBounds(m, p, n) {
      SliceIs(m[p.block], p.off, n);
    }
  }

  lemma OverwriteAt(b: seq<byte>, off: nat, c: seq<byte>)
    requires off + |c| <= |b|
    ensures |Overwrite(b, off, c)| == |b|
    ensures forall k :: 0 <= k < |b| ==> Overwrite(b, off, c)[k] == if off <= k < off + |c| then c[k - off] else b[k]
  {
  }

  class Heap {
    var blocks: Blocks
    var next: nat

    ghost predicate Valid()
      reads this
    {
      forall b :: b in blocks ==> b < next
    }

    /** HksMalloc: a fresh zeroed block. */
    method Malloc(size: nat, env: Platform) returns (block: Option<nat>)
      requires Valid()
      modifies this
      ensures Valid()
      ensures block.Some? <==> CanAllocate(env, size)
      ensures block.None? ==> blocks == old(blocks)
      ensures block.Some? ==> block.value !in old(blocks) &&
                              blocks == old(blocks)[block.value := Zeros(size)]
    {
      if size == 0 || size > MAX_MALLOC_SIZE || !env.mallocOk(size) {
        return None;
      }
      blocks := blocks[next := Zeros(size)];
      next := next + 1;
      return Some(next - 1);
    }

    method Free(block: nat)
      requires Valid()
      modifies this
      ensures Valid() && blocks == old(blocks) - {block}
    {
      blocks := blocks - {block};
    }

    /** Stores `count` bytes that are known to fit. */
    method Store(block: nat, off: nat, src: Ptr, count: nat)
      requires Valid() && InBounds(blocks, At(block, off), count) && InBounds(blocks, src, count)
      modifies this
      ensures Valid()
      ensures blocks == old(blocks)[block := Overwrite(old(blocks)[block], off, Read(old(blocks), src, count))]
    {
      blocks := blocks[block := Overwrite(blocks[block], off, Read(blocks, src, count))];
    }

    /** HksMalloc and a memcpy_s that fills the new block. */
    method MallocCopy(src: Ptr, n: nat, env: Platform) returns (block: Option<nat>)
      requires Valid() && InBounds(blocks, src, n)
      modifies this
      ensures Valid()
      ensures block.Some? <==> CanAllocate(env, n)
      ensures block.None? ==> blocks == old(blocks)
      ensures block.Some? ==> block.value !in old(blocks) &&
                              blocks == old(blocks)[block.value := Read(old(blocks), src, n)]
    {
      ghost var bytes := Read(blocks, src, n);
      block := Malloc(n, env);
      if block.Some? {
        Store(block.value, 0, src, n);
        assert Overwrite(Zeros(n), 0, bytes) == bytes;
      }
    }

    /** HksMalloc and two memcpy_s that fill the new block. */
    method MallocCopyTwo(src: Ptr, n: nat, src': Ptr, n': nat, env: Platform) returns (block: Option<nat>)
      requires Valid() && InBounds(blocks, src, n) && InBounds(blocks, src', n')
      modifies this
      ensures Valid()
      ensures block.Some? <==> CanAllocate(env, n + n')
      ensures block.None? ==> blocks == old(blocks)
      ensures block.Some? ==>
                && block.value !in old(blocks)
                && blocks == old(blocks)[block.value := Read(old(blocks), src, n) + Read(old(blocks), src', n')]
    {
      ghost var bytes, bytes' := Read(blocks, src, n), Read(blocks, src', n');
      block := Malloc(n + n', env);
      if block.Some? {
        Store(block.value, 0, src, n);
        Store(block.value, n, src', n');
        assert Overwrite(Overwrite(Zeros(n + n'), 0, bytes), n, bytes') == bytes + bytes';
      }
    }

    /** An assignment to fields that lie at `off`. */
    method Put(block: nat, off: nat, bytes: seq<byte>)
      requires Valid() && InBounds(blocks, At(block, off), |bytes|)
      modifies this
      ensures Valid()
      ensures blocks == old(blocks)[block := Overwrite(old(blocks)[block], off, bytes)]
    {
      blocks := blocks[block := Overwrite(blocks[block], off, bytes)];
    }

    /** memcpy_s between different blocks: stores `count` bytes at `off`, or refuses and sets the
        `destMax` bytes of the destination to zero, unless they are more than RSIZE_MAX
        (section K.3.7.1.1 of ISO/IEC 9899:2011). */
    method MemcpyS(block: nat, off: nat, destMax: nat, src: Ptr, count: nat, env: Platform) returns (ok: bool)
      requires Valid() && InBounds(blocks, At(block, off), destMax)
      requires InBounds(blocks, src, count) && src.block != block
      modifies this
      ensures Valid()
      ensures ok <==> count <= destMax <= RSIZE_MAX && (destMax > 0 || env.emptyCopyOk)
      ensures ok ==> blocks == old(blocks)[block := Overwrite(old(blocks)[block], off, Read(old(blocks), src, count))]
      ensures !ok ==> blocks == if destMax > RSIZE_MAX then old(blocks)
                                else old(blocks)[block := Overwrite(old(blocks)[block], off, Zeros(destMax))]
    {
      if destMax > RSIZE_MAX {
        return false;
      }
      if count > destMax || (destMax == 0 && !env.emptyCopyOk) {
        Put(block, off, Zeros(destMax));
        return false;
      }
      Store(block, off, src, count);
      return true;
    }
  }
}
