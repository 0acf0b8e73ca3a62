/** The two walkers over the wrapped-key format (`hks_common_check.c`): a checker and a getter.
    The format is a concatenation of records, each a 32-bit length followed by that many bytes. */
module WrappedData {
  import opened CTypes

  const WRAPPED_FORMAT_MAX_SIZE := 1024 * 1024

  predicate ValidRecord(r: seq<byte>) {
    0 < |r| <= WRAPPED_FORMAT_MAX_SIZE
  }

  predicate ValidRecords(rs: seq<seq<byte>>) {
    forall i :: 0 <= i < |rs| ==> ValidRecord(rs[i])
  }

  function EncodeRecord(r: seq<byte>): seq<byte>
    requires ValidRecord(r)
  {
    StoreU32(|r|) + r
  }

  function Encode(rs: seq<seq<byte>>): seq<byte>
    requires ValidRecords(rs)
  {
    if rs == [] then [] else EncodeRecord(rs[0]) + Encode(rs[1..])
  }

  /** The data starts with a well-formed record. */
  predicate StartsWithRecord(data: seq<byte>) {
    && |data| >= 4
    && 0 < LoadU32(data) <= WRAPPED_FORMAT_MAX_SIZE
    && LoadU32(data) <= |data| - 4
  }

  lemma ReadRecord(r: seq<byte>, rest: seq<byte>)
    requires ValidRecord(r)
    ensures var data := EncodeRecord(r) + rest;
            && StartsWithRecord(data) && LoadU32(data) == |r|
            && data[4..4 + |r|] == r && data[4 + |r|..] == rest
  {
    var data := EncodeRecord(r) + rest;
    assert data[..4] == StoreU32(|r|) == StoreU32(|r|)[..4];
  }

  lemma RecordRead(data: seq<byte>)
    requires StartsWithRecord(data)
    ensures var r := data[4..4 + LoadU32(data)];
            ValidRecord(r) && data == EncodeRecord(r) + data[4 + LoadU32(data)..]
  {
    StoreOfLoad(data);
    var n := LoadU32(data);
    assert data == data[..4] + data[4..4 + n] + data[4 + n..];
  }

  /** The longest run of records the data starts with, and the bytes after it. */
  function Split(data: seq<byte>): (seq<seq<byte>>, seq<byte>) {
    if !StartsWithRecord(data) then ([], data)
    else
      var end := 4 + LoadU32(data);
      var (rs, tail) := Split(data[end..]);
      ([data[4..end]] + rs, tail)
  }

  lemma {:induction false} SplitSound(data: seq<byte>)
    ensures ValidRecords(Split(data).0) && Encode(Split(data).0) + Split(data).1 == data
    ensures !StartsWithRecord(Split(data).1)
  {
    if StartsWithRecord(data) {
      var end := 4 + LoadU32(data);
      SplitSound(data[end..]);
      RecordRead(data);
      EncodeCons(data[4..end], Split(data[end..]).0, Split(data[end..]).1);
    }
  }

  lemma EncodeCons(r: seq<byte>, rs: seq<seq<byte>>, tail: seq<byte>)
    requires ValidRecord(r) && ValidRecords(rs)
    ensures ValidRecords([r] + rs) && Encode([r] + rs) + tail == EncodeRecord(r) + (Encode(rs) + tail)
  {
    assert ([r] + rs)[1..] == rs;
  }

  lemma SplitCons(r: seq<byte>, rest: seq<byte>)
    requires ValidRecord(r)
    ensures Split(EncodeRecord(r) + rest) == ([r] + Split(rest).0, Split(rest).1)
  {
    ReadRecord(r, rest);
  }

  /** Reading back what was encoded, whatever follows it. */
  lemma {:induction false} SplitOfEncode(rs: seq<seq<byte>>, rest: seq<byte>)
    requires ValidRecords(rs)
    ensures Split(Encode(rs) + rest) == (rs + Split(rest).0, Split(rest).1)
  {
    if rs == [] {
      assert Encode(rs) + rest == rest && rs + Split(rest).0 == Split(rest).0;
    } else {
      SplitOfEncode(rs[1..], rest);
      SplitCons(rs[0], Encode(rs[1..]) + rest);
      Concat3(EncodeRecord(rs[0]), Encode(rs[1..]), rest);
      Concat3([rs[0]], rs[1..], Split(rest).0);
      assert [rs[0]] + rs[1..] == rs;
    }
  }

  /** The data is exactly some records, at least one and at most `total`. */
  ghost predicate IsWrapped(data: seq<byte>, total: nat, lengths: Option<seq<u32>>) {
    exists rs: seq<seq<byte>> {:trigger Encode(rs)} ::
      && ValidRecords(rs) && Encode(rs) == data
      && 1 <= |rs| <= total && LengthsMatch(rs, lengths)
  }

  /** The caller's table of lengths, when given, has the lengths of the records. */
  predicate LengthsMatch(rs: seq<seq<byte>>, lengths: Option<seq<u32>>) {
    lengths.Some? ==> |rs| <= |lengths.value| && forall i :: 0 <= i < |rs| ==> |rs[i]| == lengths.value[i]
  }

  lemma LengthsMatchSnoc(rs: seq<seq<byte>>, r: seq<byte>, lengths: Option<seq<u32>>)
    requires LengthsMatch(rs, lengths) && (lengths.Some? ==> |rs| < |lengths.value|)
    ensures LengthsMatch(rs + [r], lengths) <==> lengths.None? || lengths.value[|rs|] == |r|
  {
    assert (rs + [r])[|rs|] == r;
  }

  lemma LengthsMatchPrefix(rs: seq<seq<byte>>, more: seq<seq<byte>>, lengths: Option<seq<u32>>)
    requires rs <= more
    ensures LengthsMatch(more, lengths) ==> LengthsMatch(rs, lengths)
  {
    assert forall i :: 0 <= i < |rs| ==> more[i] == rs[i];
  }

  lemma IsWrappedBySplit(data: seq<byte>, total: nat, lengths: Option<seq<u32>>)
    ensures IsWrapped(data, total, lengths) <==>
            var (rs, tail) := Split(data);
            tail == [] && 1 <= |rs| <= total && LengthsMatch(rs, lengths)
  {
    if IsWrapped(data, total, lengths) {
      var rs: seq<seq<byte>> :| ValidRecords(rs) && Encode(rs) == data && 1 <= |rs| <= total && LengthsMatch(rs, lengths);
      SplitOfEncode(rs, []);
      assert Encode(rs) + [] == data && rs + [] == rs;
    }
    SplitSound(data);
    var (rs, tail) := Split(data);
    assert tail == [] ==> Encode(rs) == data;
  }

  /** A walker that stands at `offset` has passed exactly the records `seen`. */
  ghost predicate Walked(data: seq<byte>, seen: seq<seq<byte>>, offset: nat) {
    ValidRecords(seen) && offset <= |data| && data[..offset] == Encode(seen)
  }

  lemma SplitFrom(data: seq<byte>, seen: seq<seq<byte>>, offset: nat)
    requires Walked(data, seen, offset)
    ensures seen <= Split(data).0
    ensures !StartsWithRecord(data[offset..]) ==> Split(data) == (seen, data[offset..])
    ensures StartsWithRecord(data[offset..]) ==> |Split(data).0| > |seen|
  {
    assert data == Encode(seen) + data[offset..];
    SplitOfEncode(seen, data[offset..]);
    assert seen + [] == seen;
  }

  lemma WalkOn(data: seq<byte>, seen: seq<seq<byte>>, offset: nat)
    requires Walked(data, seen, offset) && StartsWithRecord(data[offset..])
    ensures var start := offset + 4; var end := start + LoadU32(data[offset..]);
            end <= |data| && Walked(data, seen + [data[start..end]], end)
  {
    var here := data[offset..];
    var n := LoadU32(here);
    RecordRead(here);
    assert here[4..4 + n] == data[offset + 4..offset + 4 + n];
    assert data[..offset + 4 + n] == data[..offset] + here[..4 + n];
    EncodeSnoc(seen, here[4..4 + n]);
  }

  lemma {:induction false} EncodeSnoc(rs: seq<seq<byte>>, r: seq<byte>)
    requires ValidRecords(rs) && ValidRecord(r)
    ensures ValidRecords(rs + [r]) && Encode(rs + [r]) == Encode(rs) + EncodeRecord(r)
  {
    if rs == [] {
      assert Encode([r][1..]) == [];
    } else {
      EncodeSnoc(rs[1..], r);
      Concat3(EncodeRecord(rs[0]), Encode(rs[1..]), EncodeRecord(r));
      assert (rs + [r])[1..] == rs[1..] + [r];
    }
  }

  /** The blob is NULL, has no data, or is larger than the format allows. */
  predicate Unacceptable(wrapped: Option<seq<byte>>) {
    wrapped.None? || |wrapped.value| == 0 || |wrapped.value| > WRAPPED_FORMAT_MAX_SIZE
  }

  /** HksCheckWrappedDataFormatValidity; `wrapped` is None for a NULL blob or NULL data. */
  method CheckFormat(wrapped: Option<seq<byte>>, total: u32, lengths: Option<seq<u32>>) returns (ret: Status)
    requires wrapped.Some? ==> |wrapped.value| < U32_LIMIT
    requires lengths.Some? ==> |lengths.value| >= total
    ensures ret == if Unacceptable(wrapped) || total == 0 then InvalidArgument
                   else if IsWrapped(wrapped.value, total, lengths) then Success
                   else InvalidWrappedFormat
  {
    if Unacceptable(wrapped) || total == 0 {
      return InvalidArgument;
    }
    var data := wrapped.value;
    var dataSize: u32 := |data|;
    IsWrappedBySplit(data, total, lengths);
    var offset: u32 := 0;
    var blobIndex: u32 := 0;
    ghost var seen: seq<seq<byte>> := [];
    while blobIndex < total && offset < dataSize
      invariant offset <= dataSize && blobIndex <= total && |seen| == blobIndex
      invariant Walked(data, seen, offset) && LengthsMatch(seen, lengths)
      invariant offset == 0 <==> seen == []
    {
      SplitFrom(data, seen, offset);
      ghost var at := offset;
      if dataSize - offset < 4 {
        return InvalidWrappedFormat;
      }
      var partDataLength := LoadU32(data[offset..]);
      offset := offset + 4;
      if partDataLength == 0 || partDataLength > dataSize - offset {
        return InvalidWrappedFormat;
      }
      WalkOn(data, seen, at);
      ghost var before, r := seen, data[at + 4..at + 4 + LoadU32(data[at..])];
      seen := before + [r];
      offset := offset + partDataLength;
      LengthsMatchSnoc(before, r, lengths);
      if lengths.Some? && lengths.value[blobIndex] != partDataLength {
        SplitFrom(data, seen, offset);
        LengthsMatchPrefix(seen, Split(data).0, lengths);
        return InvalidWrappedFormat;
      }
      blobIndex := blobIndex + 1;
    }
    SplitFrom(data, seen, offset);
    if offset != dataSize {
      return InvalidWrappedFormat;
    }
    return Success;
  }

  /** Where the getter ends: at a record, with an error code, or having read four bytes of
      which some lie past the end of the data. */
  datatype Got = Record(offset: nat, size: nat) | Failed(end: Ended)

  /** Where the length of record `i` lies. */
  function Offset(rs: seq<seq<byte>>, i: nat): nat
    requires i <= |rs|
  {
    if i == 0 then 0 else Offset(rs, i - 1) + 4 + |rs[i - 1]|
  }

  lemma {:induction false} OffsetPrefix(rs: seq<seq<byte>>, more: seq<seq<byte>>, i: nat)
    requires rs <= more && i <= |rs|
    ensures Offset(more, i) == Offset(rs, i)
  {
    if i > 0 {
      OffsetPrefix(rs, more, i - 1);
    }
  }

  /** Record `i` of the data if the data starts with more than `i` records; otherwise an error,
      or a read past the end when 1 to 3 bytes follow the records. */
  predicate GetsRecord(data: seq<byte>, i: nat, got: Got) {
    Finds(data, Split(data).0, Split(data).1, i, got)
  }

  predicate Finds(data: seq<byte>, rs: seq<seq<byte>>, tail: seq<byte>, i: nat, got: Got) {
    if i < |rs| then
      && got == Record(Offset(rs, i) + 4, |rs[i]|)
      && got.offset + got.size <= |data| && data[got.offset..got.offset + got.size] == rs[i]
    else
      got == Failed(if 0 < |tail| < 4 then ReadPastEnd else Returned(InvalidWrappedFormat))
  }

  lemma {:induction false} OffsetIsLength(rs: seq<seq<byte>>, i: nat)
    requires ValidRecords(rs) && i <= |rs|
    ensures |Encode(rs[..i])| == Offset(rs, i)
  {
    if i > 0 {
      OffsetIsLength(rs, i - 1);
      EncodeSnoc(rs[..i - 1], rs[i - 1]);
      assert rs[..i] == rs[..i - 1] + [rs[i - 1]];
    }
  }

  lemma EndsInRecord(data: seq<byte>, seen: seq<seq<byte>>, end: nat)
    requires Walked(data, seen, end) && seen != []
    ensures var i, last := |seen| - 1, seen[|seen| - 1];
            && end == Offset(seen, i) + 4 + |last| && data[end - |last|..end] == last
  {
    var i, last := |seen| - 1, seen[|seen| - 1];
    EncodeSnoc(seen[..i], last);
    assert seen == seen[..i] + [last];
    OffsetIsLength(seen, i);
    var a, b := Encode(seen[..i]), StoreU32(|last|);
    assert (a + (b + last))[|a| + 4..] == last;
    assert data[..end][end - |last|..] == data[end - |last|..end];
  }

  /** The last record a walker has passed. */
  lemma LastIsRecord(data: seq<byte>, seen: seq<seq<byte>>, end: nat)
    requires Walked(data, seen, end) && seen != []
    ensures var n := |seen[|seen| - 1]|; n <= end && GetsRecord(data, |seen| - 1, Record(end - n, n))
  {
    SplitFrom(data, seen, end);
    OffsetPrefix(seen, Split(data).0, |seen| - 1);
    EndsInRecord(data, seen, end);
  }

  /** HksGetBlobFromWrappedData; `blobGiven` says that the output blob is not NULL. */
  method GetBlob(wrapped: Option<seq<byte>>, blobIndex: u32, total: u32, blobGiven: bool) returns (got: Got)
    requires wrapped.Some? ==> |wrapped.value| < U32_LIMIT
    ensures wrapped.None? || |wrapped.value| == 0 || blobIndex >= total || !blobGiven ==>
              got == Failed(Returned(InvalidArgument))
    ensures wrapped.Some? && |wrapped.value| > 0 && blobIndex < total && blobGiven ==>
              GetsRecord(wrapped.value, blobIndex, got)
  {
    if wrapped.None? || |wrapped.value| == 0 || blobIndex >= total || !blobGiven {
      return Failed(Returned(InvalidArgument));
    }
    var data := wrapped.value;
    var dataSize: u32 := |data|;
    var index, offset: u32 := 0, 0;
    ghost var seen: seq<seq<byte>> := [];
    while index < total && offset < dataSize
      invariant offset <= dataSize && index <= blobIndex && |seen| == index
      invariant Walked(data, seen, offset)
    {
      SplitFrom(data, seen, offset);
      ghost var at := offset;
      if offset + 4 > dataSize {
        return Failed(ReadPastEnd);
      }
      var partDataLength := LoadU32(data[offset..]);
      offset := offset + 4;
      if partDataLength == 0 || partDataLength > WRAPPED_FORMAT_MAX_SIZE || partDataLength > dataSize - offset {
        return Failed(Returned(InvalidWrappedFormat));
      }
      WalkOn(data, seen, at);
      seen := seen + [data[at + 4..at + 4 + LoadU32(data[at..])]];
      if blobIndex == index {
        LastIsRecord(data, seen, offset + partDataLength);
        return Record(offset, partDataLength);
      }
      offset := offset + partDataLength;
      index := index + 1;
    }
    SplitFrom(data, seen, offset);
    return Failed(Returned(InvalidWrappedFormat));
  }

  /** Checker and getter agree with the encoder: of encoded records the checker accepts 1 to
      `total`, and the getter then returns record `i` and an error past the last, staying in
      the data. */
  lemma GetterInvertsEncoder(rs: seq<seq<byte>>, total: nat, lengths: Option<seq<u32>>, i: nat, got: Got)
    requires ValidRecords(rs) && GetsRecord(Encode(rs), i, got)
    ensures IsWrapped(Encode(rs), total, lengths) <==> 1 <= |rs| <= total && LengthsMatch(rs, lengths)
    ensures i < |rs| ==> got == Record(Offset(rs, i) + 4, |rs[i]|) && got.offset + got.size <= |Encode(rs)| &&
                         Encode(rs)[got.offset..got.offset + got.size] == rs[i]
    ensures i >= |rs| ==> got == Failed(Returned(InvalidWrappedFormat))
  {
    SplitOfEncode(rs, []);
    assert Encode(rs) + [] == Encode(rs) && rs + [] == rs;
    IsWrappedBySplit(Encode(rs), total, lengths);
  }

  /** On data the checker has accepted, the getter never reads past the end. */
  lemma AcceptedDataIsSafe(data: seq<byte>, total: nat, lengths: Option<seq<u32>>, i: nat, got: Got)
    requires IsWrapped(data, total, lengths) && GetsRecord(data, i, got)
    ensures got != Failed(ReadPastEnd)
  {
    IsWrappedBySplit(data, total, lengths);
  }

  /** On data the checker has not accepted it can: behind any records, 1 to 3 bytes are left over. */
  lemma LeftOverIsReadPastEnd(rs: seq<seq<byte>>, tail: seq<byte>)
    requires ValidRecords(rs) && 0 < |tail| < 4
    ensures GetsRecord(Encode(rs) + tail, |rs|, Failed(ReadPastEnd))
  {
    SplitOfEncode(rs, tail);
    assert rs + [] == rs;
  }

  /** The shortest such data. */
  lemma OneByteIsReadPastEnd(b: byte)
    ensures GetsRecord([b], 0, Failed(ReadPastEnd))
  {
  }
}
