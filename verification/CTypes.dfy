/** Machine integers, bytes and the error codes the modelled files share. */
module CTypes {

  datatype Option<+T> = None | Some(value: T)

  lemma Concat3<T>(a: seq<T>, b: seq<T>, c: seq<T>)
    ensures a + b + c == a + (b + c)
  {
  }

  lemma AppendInjective<T>(a: seq<T>, b: seq<T>, c: seq<T>, d: seq<T>)
    requires a + b == c + d && |a| == |c|
    ensures a == c && b == d
  {
    assert a == (a + b)[..|a|] && c == (c + d)[..|c|];
    assert b == (a + b)[|a|..] && d == (c + d)[|c|..];
  }

  type byte = x: int | 0 <= x < 256

  type Bytes = seq<byte>

  function Zeros(n: nat): Bytes {
    seq(n, _ => 0)
  }

  const U32_LIMIT := 0x1_0000_0000
  const U32_MAX := U32_LIMIT - 1
  const I32_LIMIT := 0x8000_0000

  /** memcpy_s takes a larger destination for a mistake. */
  const RSIZE_MAX := 0x7FFF_FFFF

  type u32 = x: int | 0 <= x < 0x1_0000_0000

  /** The value a 32-bit unsigned register keeps of `x`. */
  function Wrap32(x: int): u32 {
    x % U32_LIMIT
  }

  lemma WrapIs(x: int, q: int, r: u32)
    requires x == q * U32_LIMIT + r
    ensures Wrap32(x) == r
  {
  }

  lemma WrapAdd(t: nat, a: nat, b: u32)
    ensures Wrap32(Wrap32(t) + a) == Wrap32(t + a)
    ensures !IsAdditionOverflow(Wrap32(t + a), b) ==> Wrap32(t + a) + b == Wrap32(t + a + b)
    ensures Wrap32(Wrap32(t + a) - a) == Wrap32(t)
  {
    var p, q := t / U32_LIMIT, (t + a) / U32_LIMIT;
    assert t == p * U32_LIMIT + Wrap32(t) && t + a == q * U32_LIMIT + Wrap32(t + a);
    WrapIs(Wrap32(t) + a, q - p, Wrap32(t + a));
    WrapIs(Wrap32(t + a) - a, p - q, Wrap32(t));
    if !IsAdditionOverflow(Wrap32(t + a), b) {
      WrapIs(t + a + b, q, Wrap32(t + a) + b);
    }
  }

  predicate IsAdditionOverflow(a: u32, b: u32) {
    U32_MAX - a < b
  }

  function Pow256(n: nat): nat {
    if n == 0 then 1 else 0x100 * Pow256(n - 1)
  }

  /** The number a little-endian host reads from the bytes. */
  function FromLittleEndian(s: seq<byte>): (v: nat)
    ensures v < Pow256(|s|)
  {
    if s == [] then 0 else s[0] as int + 0x100 * FromLittleEndian(s[1..])
  }

  function ToLittleEndian(v: nat, n: nat): (s: seq<byte>)
    requires v < Pow256(n)
    ensures |s| == n && FromLittleEndian(s) == v
  {
    if n == 0 then [] else
      var rest := ToLittleEndian(v / 0x100, n - 1);
      assert ([v % 0x100] + rest)[1..] == rest;
      [v % 0x100] + rest
  }

  lemma {:induction false} LittleEndianInverse(s: seq<byte>)
    ensures ToLittleEndian(FromLittleEndian(s), |s|) == s
  {
    if s != [] {
      LittleEndianInverse(s[1..]);
      assert FromLittleEndian(s) / 0x100 == FromLittleEndian(s[1..]) && FromLittleEndian(s) % 0x100 == s[0];
      assert s == [s[0]] + s[1..];
    }
  }

  lemma Pow256Of4()
    ensures Pow256(4) == U32_LIMIT
  {
    assert Pow256(2) == 0x1_0000;
  }

  /** What memcpy of four bytes into a uint32_t stores there. */
  function LoadU32(s: seq<byte>): u32
    requires |s| >= 4
  {
    Pow256Of4();
    FromLittleEndian(s[..4])
  }

  function StoreU32(v: u32): (s: seq<byte>)
    ensures |s| == 4 && LoadU32(s) == v
  {
    Pow256Of4();
    var s := ToLittleEndian(v, 4);
    assert s[..4] == s;
    s
  }

  /** Which number the four bytes are, and which bytes the number is. */
  lemma LoadIs(s: seq<byte>)
    requires |s| >= 4
    ensures LoadU32(s) == s[0] as int + 0x100 * (s[1] as int + 0x100 * (s[2] as int + 0x100 * s[3] as int))
  {
    var t := s[..4];
    assert t[1..] == [s[1], s[2], s[3]] && t[1..][1..] == [s[2], s[3]] && t[1..][1..][1..] == [s[3]];
    assert FromLittleEndian(t[1..][1..][1..]) == s[3] as int;
    assert FromLittleEndian(t[1..][1..]) == s[2] as int + 0x100 * s[3] as int;
    assert FromLittleEndian(t[1..]) == s[1] as int + 0x100 * FromLittleEndian(t[1..][1..]);
  }

  lemma StoreIs(v: u32)
    ensures StoreU32(v) == [v % 0x100, v / 0x100 % 0x100, v / 0x1_0000 % 0x100, v / 0x100_0000]
  {
    var s := StoreU32(v);
    LoadIs(s);
    var v1 := s[1] as int + 0x100 * (s[2] as int + 0x100 * s[3] as int);
    var v2 := s[2] as int + 0x100 * s[3] as int;
    assert v == s[0] as int + 0x100 * v1 && v1 == s[1] as int + 0x100 * v2;
    assert v / 0x100 == v1 && v1 / 0x100 == v2 && v2 / 0x100 == s[3];
    assert v / 0x1_0000 == v1 / 0x100 && v / 0x100_0000 == v2 / 0x100;
    assert s == [s[0], s[1], s[2], s[3]];
  }

  lemma ZerosPlainly(n: nat)
    ensures |Zeros(n)| == n && forall k :: 0 <= k < n ==> Zeros(n)[k] == 0
  {
  }

  /** 32-bit sums, in plain numbers. */
  lemma WrapPlainly(x: int, a: u32, b: u32)
    ensures 0 <= Wrap32(x) < 0x1_0000_0000 && (x - Wrap32(x)) % 0x1_0000_0000 == 0
    ensures IsAdditionOverflow(a, b) <==> a as int + b >= 0x1_0000_0000
  {
  }

  lemma StoreOfLoad(s: seq<byte>)
    requires |s| >= 4
    ensures StoreU32(LoadU32(s)) == s[..4]
  {
    LittleEndianInverse(s[..4]);
  }

  datatype Status =
    | Success
    | InvalidArgument
    | NullPointer
    | MallocFail
    | InsufficientMemory
    | BufferTooSmall
    | InvalidKeyInfo
    | InvalidWrappedFormat
    | ParamNotExist
    | InvalidPurpose
    | InvalidPadding
    | InvalidMode
    | InvalidAlgorithm
    | GetAlgFail
    | GetPurposeFail
    | InvalidKeySize
    | GetNonceFail
    | InvalidNonce
    | GetAadFail
    | InvalidAad
    | OtherError(code: int)

  /** How a function ends that can leave the memory it was given: from there on nothing is known. */
  datatype Ended = Returned(ret: Status) | ReadPastEnd | WrotePastEnd

  /** The largest block HksMalloc hands out; it hands out none of size 0. */
  const MAX_MALLOC_SIZE := 0x80_0000
}
