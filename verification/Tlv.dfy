/** The reader of DER type-length-value data in `hks_verifier.c` (ITU-T X.690 section 8.1.3,
    definite form), and the loop that hands the payloads of consecutive values on. */
module Tlv {
  import opened CTypes

  const MIN_HEADER_LEN := 3
  const MAX_ATTEST_CLAIM_BUF_LEN := 10240

  /** `head` is a type byte and a length of one, two or three bytes that says `n`. */
  predicate IsHeader(head: seq<byte>, n: nat) {
    || (|head| == 2 && head[1] < 0x80 && n == head[1])
    || (|head| == 3 && head[1] == 0x81 && n == head[2])
    || (|head| == 4 && head[1] == 0x82 && n == head[2] as int * 0x100 + head[3])
  }

  /** The header the distinguished encoding rules use: the shortest one. */
  function DerHeader(tag: byte, n: nat): (h: seq<byte>)
    requires n < 0x1_0000
    ensures IsHeader(h, n) && h[0] == tag
  {
    if n < 0x80 then [tag, n]
    else if n < 0x100 then [tag, 0x81, n]
    else [tag, 0x82, n / 0x100, n % 0x100]
  }

  datatype Item = Item(head: seq<byte>, payload: seq<byte>)

  predicate ValidItem(t: Item) {
    IsHeader(t.head, |t.payload|) && t.payload != []
  }

  predicate ValidItems(ts: seq<Item>) {
    forall i :: 0 <= i < |ts| ==> ValidItem(ts[i])
  }

  function EncodeItem(t: Item): seq<byte> {
    t.head + t.payload
  }

  function Encode(ts: seq<Item>): seq<byte> {
    if ts == [] then [] else EncodeItem(ts[0]) + Encode(ts[1..])
  }

  function Payloads(ts: seq<Item>): seq<seq<byte>> {
    seq(|ts|, i requires 0 <= i < |ts| => ts[i].payload)
  }

  /** Header size and payload length the reader finds, None if it rejects the header. */
  function ReadHeader(input: seq<byte>): Option<(nat, nat)> {
    if |input| < MIN_HEADER_LEN then None
    else if input[1] < 0x80 then Some((2, input[1]))
    else if input[1] == 0x81 then Some((3, input[2]))
    else if input[1] == 0x82 && |input| >= 4 then Some((4, input[2] as int * 0x100 + input[3]))
    else None
  }

  /** The reader finds exactly the headers of the standard's definite form. */
  lemma ReadHeaderIff(input: seq<byte>, h: nat, n: nat)
    ensures ReadHeader(input) == Some((h, n)) <==>
            |input| >= MIN_HEADER_LEN && h <= |input| && IsHeader(input[..h], n)
    ensures ReadHeader(input) == Some((h, n)) ==> 2 <= h <= 4 && n < 0x1_0000
  {
  }

  /** EncodeTlvAndGetLength: how far the byte pointer moves and the payload length. */
  method DecodeHeader(input: seq<byte>) returns (ret: Status, headSize: nat, length: nat)
    requires |input| >= MIN_HEADER_LEN
    ensures ret == if ReadHeader(input).Some? then Success else InvalidArgument
    ensures ret == Success ==> ReadHeader(input) == Some((headSize, length))
  {
    var p := 1;
    length, headSize := 0, 0;
    if input[p] < 0x80 {
      length := input[p];
      p := p + 1;
    } else {
      var b := input[p];
      p := p + 1;
      if b == 0x81 {
        length := input[p];
        p := p + 1;
      } else if b == 0x82 {
        if |input| < MIN_HEADER_LEN + 1 {
          return InvalidArgument, 0, 0;
        }
        length := input[p] as int * 0x100;
        p := p + 1;
        length := length + input[p];
        p := p + 1;
      } else {
        return InvalidArgument, 0, 0;
      }
    }
    return Success, p, length;
  }

  /** The data starts with a value whose payload is not empty and lies in the data. */
  predicate StartsWithItem(data: seq<byte>) {
    var r := ReadHeader(data);
    r.Some? && r.value.1 > 0 && r.value.0 + r.value.1 <= |data|
  }

  function FirstItem(data: seq<byte>): (t: Item)
    requires StartsWithItem(data)
    ensures 3 <= |EncodeItem(t)| <= |data|
  {
    var (h, n) := ReadHeader(data).value;
    Item(data[..h], data[h..h + n])
  }

  /** ExtractTlvDataAndHeadSize (with ExtractTlvLength and ExtractTlvData): a copy of the
      payload and the header size.  HksMalloc(0) is NULL, so an empty payload is an error. */
  method ExtractTlv(input: seq<byte>, mallocOk: bool) returns (ret: Status, value: seq<byte>, headSize: nat)
    ensures ret == Success <==> StartsWithItem(input) && mallocOk
    ensures ret == Success ==> FirstItem(input).payload == value && |FirstItem(input).head| == headSize
    ensures ret in {Success, InvalidArgument, MallocFail}
    ensures ret == MallocFail ==> ReadHeader(input).Some? && (ReadHeader(input).value.1 == 0 || !mallocOk)
  {
    value, headSize := [], 0;
    if |input| < MIN_HEADER_LEN {
      return InvalidArgument, [], 0;
    }
    var length;
    ret, headSize, length := DecodeHeader(input);
    if ret != Success {
      return ret, [], 0;
    }
    ReadHeaderIff(input, headSize, length);
    if length > |input| - headSize {
      return InvalidArgument, [], 0;
    }
    if length == 0 || length > MAX_MALLOC_SIZE || !mallocOk {
      return MallocFail, [], 0;
    }
    value := input[headSize..headSize + length];
  }

  /** The values the data starts with, and the bytes after the last one the reader takes. */
  function Parse(data: seq<byte>): (seq<Item>, seq<byte>) {
    if !StartsWithItem(data) then ([], data)
    else
      var t := FirstItem(data);
      var (ts, tail) := Parse(data[|EncodeItem(t)|..]);
      ([t] + ts, tail)
  }

  lemma EncodeCons(t: Item, ts: seq<Item>, tail: seq<byte>)
    ensures Encode([t] + ts) + tail == EncodeItem(t) + (Encode(ts) + tail)
  {
    assert ([t] + ts)[1..] == ts;
    Concat3(EncodeItem(t), Encode(ts), tail);
  }

  lemma FirstItemIs(data: seq<byte>)
    requires StartsWithItem(data)
    ensures var t := FirstItem(data);
            ValidItem(t) && data == EncodeItem(t) + data[|EncodeItem(t)|..]
  {
    var (h, n) := ReadHeader(data).value;
    ReadHeaderIff(data, h, n);
    assert data == data[..h] + data[h..h + n] + data[h + n..];
  }

  lemma ReadItem(t: Item, rest: seq<byte>)
    requires ValidItem(t)
    ensures var data := EncodeItem(t) + rest;
            StartsWithItem(data) && FirstItem(data) == t && data[|EncodeItem(t)|..] == rest
  {
    var data := EncodeItem(t) + rest;
    var h := |t.head|;
    assert data[..h] == t.head;
    assert data[h..h + |t.payload|] == t.payload;
    ReadHeaderIff(data, h, |t.payload|);
  }

  /** The values found tile the data up to the tail. */
  lemma {:induction false} ParseSound(data: seq<byte>)
    ensures ValidItems(Parse(data).0) && Encode(Parse(data).0) + Parse(data).1 == data
    ensures !StartsWithItem(Parse(data).1)
  {
    if StartsWithItem(data) {
      var t := FirstItem(data);
      ParseSound(data[|EncodeItem(t)|..]);
      FirstItemIs(data);
      EncodeCons(t, Parse(data[|EncodeItem(t)|..]).0, Parse(data[|EncodeItem(t)|..]).1);
    } else {
      assert [] + data == data;
    }
  }

  /** The reader inverts every definite-form encoding of non-empty payloads. */
  lemma {:induction false} ParseOfEncode(ts: seq<Item>, rest: seq<byte>)
    requires ValidItems(ts)
    ensures Parse(Encode(ts) + rest) == (ts + Parse(rest).0, Parse(rest).1)
  {
    if ts == [] {
      assert Encode(ts) + rest == rest && ts + Parse(rest).0 == Parse(rest).0;
    } else {
      ParseOfEncode(ts[1..], rest);
      ReadItem(ts[0], Encode(ts[1..]) + rest);
      Concat3(EncodeItem(ts[0]), Encode(ts[1..]), rest);
      Concat3([ts[0]], ts[1..], Parse(rest).0);
      assert [ts[0]] + ts[1..] == ts;
    }
  }

  /** In particular one payload of 1 to 65535 bytes under its shortest header. */
  lemma ReaderInvertsDer(tag: byte, payload: seq<byte>, rest: seq<byte>)
    requires 0 < |payload| < 0x1_0000
    ensures var data := DerHeader(tag, |payload|) + payload + rest;
            StartsWithItem(data) && FirstItem(data) == Item(DerHeader(tag, |payload|), payload)
  {
    ReadItem(Item(DerHeader(tag, |payload|), payload), rest);
  }

  // ----- The claim loop -----

  /** What the claim loop depends on: what GetClaimDataParamSet answers for a claim after the
      claims handed to it before, and whether there is memory for claim number `i`. */
  datatype Taker = Taker(sink: (seq<seq<byte>>, seq<byte>) -> Status, mallocOk: nat -> bool)

  /** The claim `c`, after the claims `before`, is copied, small enough and taken. */
  predicate Takes(t: Taker, before: seq<seq<byte>>, c: seq<byte>) {
    t.mallocOk(|before|) && |c| < MAX_ATTEST_CLAIM_BUF_LEN && t.sink(before, c) == Success
  }

  /** All of `claims` are taken, in order. */
  predicate AllTaken(t: Taker, claims: seq<seq<byte>>) {
    forall i :: 0 <= i < |claims| ==> Takes(t, claims[..i], claims[i])
  }

  /** The loop has handed on `passed` and still has the bytes `tmp` to read. */
  ghost predicate Midway(data: seq<byte>, tmp: seq<byte>, passed: seq<seq<byte>>) {
    && Payloads(Parse(data).0) == passed + Payloads(Parse(tmp).0)
    && Parse(data).1 == Parse(tmp).1
  }

  lemma MidwayStep(data: seq<byte>, tmp: seq<byte>, passed: seq<seq<byte>>)
    requires Midway(data, tmp, passed) && StartsWithItem(tmp)
    ensures var t := FirstItem(tmp);
            && passed < Payloads(Parse(data).0) && Payloads(Parse(data).0)[|passed|] == t.payload
            && Midway(data, tmp[|EncodeItem(t)|..], passed + [t.payload])
  {
    var t := FirstItem(tmp);
    var rest := Parse(tmp[|EncodeItem(t)|..]).0;
    assert Payloads(Parse(tmp).0) == [t.payload] + Payloads(rest);
    Concat3(passed, [t.payload], Payloads(rest));
  }

  lemma Refused(taker: Taker, claims: seq<seq<byte>>, passed: seq<seq<byte>>)
    requires passed < claims && AllTaken(taker, claims)
    ensures Takes(taker, passed, claims[|passed|])
  {
    assert claims[..|passed|] == passed;
  }

  lemma TakenNext(taker: Taker, claims: seq<seq<byte>>, c: seq<byte>)
    requires AllTaken(taker, claims) && Takes(taker, claims, c)
    ensures AllTaken(taker, claims + [c])
  {
    var all := claims + [c];
    forall i | 0 <= i < |all|
      ensures Takes(taker, all[..i], all[i])
    {
      assert all[..i] == claims[..i];
    }
    assert all[..|claims|] == claims;
  }

  /** What the loop achieves: it succeeds exactly when every claim is taken and at most two bytes
      are left over, and then it has handed on exactly the claims. */
  ghost predicate Filled(data: seq<byte>, taker: Taker, ret: Status, passed: seq<seq<byte>>) {
    var (ts, tail) := Parse(data);
    && passed <= Payloads(ts) && AllTaken(taker, passed)
    && (ret == Success <==> AllTaken(taker, Payloads(ts)) && |tail| < MIN_HEADER_LEN)
    && (ret == Success ==> passed == Payloads(ts))
  }

  /** The loop ends because the bytes left start with no value. */
  lemma EndOfValues(data: seq<byte>, taker: Taker, ret: Status, passed: seq<seq<byte>>, tmp: seq<byte>)
    requires Midway(data, tmp, passed) && !StartsWithItem(tmp) && AllTaken(taker, passed)
    requires ret == Success <==> |tmp| < MIN_HEADER_LEN
    ensures Filled(data, taker, ret, passed)
  {
    assert Payloads(Parse(data).0) == passed;
  }

  /** The loop ends because the next value cannot be handed on. */
  lemma EndAtValue(data: seq<byte>, taker: Taker, ret: Status, passed: seq<seq<byte>>, tmp: seq<byte>)
    requires Midway(data, tmp, passed) && StartsWithItem(tmp) && ret != Success && AllTaken(taker, passed)
    requires !Takes(taker, passed, FirstItem(tmp).payload)
    ensures Filled(data, taker, ret, passed)
  {
    MidwayStep(data, tmp, passed);
    if AllTaken(taker, Payloads(Parse(data).0)) {
      Refused(taker, Payloads(Parse(data).0), passed);
    }
  }

  /** The body of the claim loop: one more value is handed on and left behind, or the loop ends. */
  method PassClaim(ghost data: seq<byte>, taker: Taker, tmp: seq<byte>, passed: seq<seq<byte>>)
    returns (ret: Status, value: seq<byte>, headSize: nat)
    requires Midway(data, tmp, passed) && AllTaken(taker, passed)
    ensures ret != Success ==> Filled(data, taker, ret, passed) || |tmp| < MIN_HEADER_LEN
    ensures ret == Success ==>
              && AllTaken(taker, passed + [value])
              && 0 < headSize + |value| <= |tmp| && Midway(data, tmp[headSize + |value|..], passed + [value])
  {
    ret, value, headSize := ExtractTlv(tmp, taker.mallocOk(|passed|));
    if ret != Success {
      ret := InvalidArgument;
      if StartsWithItem(tmp) {
        EndAtValue(data, taker, ret, passed, tmp);
      } else if |tmp| >= MIN_HEADER_LEN {
        EndOfValues(data, taker, ret, passed, tmp);
      }
      return;
    }
    if |value| >= MAX_ATTEST_CLAIM_BUF_LEN {
      EndAtValue(data, taker, InsufficientMemory, passed, tmp);
      return InsufficientMemory, value, headSize;
    }
    ret := taker.sink(passed, value);
    if ret != Success {
      EndAtValue(data, taker, ret, passed, tmp);
      return;
    }
    MidwayStep(data, tmp, passed);
    TakenNext(taker, passed, value);
  }

  /** FillAttestExtendParamSet. */
  method FillClaims(data: Option<seq<byte>>, taker: Taker)
    returns (ret: Status, passed: seq<seq<byte>>)
    ensures data.None? || |data.value| < MIN_HEADER_LEN ==> ret == InvalidArgument && passed == []
    ensures data.Some? && |data.value| >= MIN_HEADER_LEN ==>
              Filled(data.value, taker, ret, passed)
  {
    passed := [];
    if data.None? || |data.value| < MIN_HEADER_LEN {
      return InvalidArgument, [];
    }
    var leftSize := |data.value|;
    var tmp := data.value;
    while leftSize >= MIN_HEADER_LEN
      invariant |tmp| == leftSize
      invariant Midway(data.value, tmp, passed) && AllTaken(taker, passed)
    {
      var value, headSize;
      ret, value, headSize := PassClaim(data.value, taker, tmp, passed);
      if ret != Success {
        return;
      }
      passed := passed + [value];
      tmp := tmp[headSize + |value|..];
      leftSize := leftSize - (headSize + |value|);
    }
    EndOfValues(data.value, taker, Success, passed, tmp);
    return Success, passed;
  }

  /** Whatever it returns, it has handed on only claims below 10240 bytes that were copied and taken. */
  lemma PassedPlainly(data: seq<byte>, taker: Taker, ret: Status, passed: seq<seq<byte>>)
    requires Filled(data, taker, ret, passed)
    ensures forall i :: 0 <= i < |passed| ==>
              |passed[i]| < 10240 && taker.mallocOk(i) && taker.sink(passed[..i], passed[i]) == Success
  {
    assert forall i :: 0 <= i < |passed| ==> Takes(taker, passed[..i], passed[i]);
  }

  /** On success the values passed on are the payloads of consecutive values that tile the data
      up to at most two bytes. */
  lemma ClaimsTileData(data: seq<byte>, taker: Taker, ret: Status, passed: seq<seq<byte>>)
    requires Filled(data, taker, ret, passed) && ret == Success
    ensures exists ts, tail ::
              ValidItems(ts) && |tail| <= 2 && Encode(ts) + tail == data && passed == Payloads(ts)
  {
    ParseSound(data);
  }

  /** For encoded claims, with up to two bytes behind them, success depends on the taker alone, and
      claims are passed on in order from the first. */
  lemma EncodedClaimsArePassedOn(ts: seq<Item>, tail: seq<byte>, taker: Taker, ret: Status, passed: seq<seq<byte>>)
    requires ValidItems(ts) && |tail| <= 2 && Filled(Encode(ts) + tail, taker, ret, passed)
    ensures passed <= Payloads(ts)
    ensures ret == Success <==> AllTaken(taker, Payloads(ts))
    ensures ret == Success ==> passed == Payloads(ts)
  {
    ParseOfEncode(ts, tail);
    assert Parse(tail) == ([], tail) && ts + [] == ts;
  }
}
