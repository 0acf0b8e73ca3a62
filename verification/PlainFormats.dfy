/** The two walked formats once more, in bytes only. */
module PlainFormats {
  import opened CTypes
  import W = WrappedData
  import T = Tlv

  // ----- Wrapped data -----

  /** A record: four bytes of length, least significant first, and the bytes. */
  lemma RecordPlainly(r: seq<byte>)
    requires 1 <= |r| <= 1_048_576
    ensures W.ValidRecord(r)
    ensures W.EncodeRecord(r) == [|r| % 0x100, |r| / 0x100 % 0x100, |r| / 0x1_0000 % 0x100, |r| / 0x100_0000] + r
  {
    StoreIs(|r|);
  }

  /** The number four bytes make. */
  function Number(a: byte, b: byte, c: byte, d: byte): nat {
    a as int + 256 * b as int + 65_536 * c as int + 16_777_216 * d as int
  }

  lemma StartsPlainly(data: seq<byte>)
    ensures W.StartsWithRecord(data) <==>
            |data| >= 4 && 1 <= Number(data[0], data[1], data[2], data[3]) <= 1_048_576 &&
            Number(data[0], data[1], data[2], data[3]) <= |data| - 4
    ensures |data| >= 4 ==> LoadU32(data) == Number(data[0], data[1], data[2], data[3])
  {
    if |data| >= 4 {
      LoadIs(data);
    }
  }

  /** The checker on data that starts with a record: that record counts, and the rest is checked
      in the same way. */
  lemma CheckedStep(data: seq<byte>, total: nat, lengths: Option<seq<u32>>)
    requires |data| >= 4
    requires var n := Number(data[0], data[1], data[2], data[3]); 1 <= n <= 1_048_576 && n <= |data| - 4
    ensures var n := Number(data[0], data[1], data[2], data[3]);
            W.IsWrapped(data, total, lengths) <==>
            && total >= 1 && (lengths.Some? ==> |lengths.value| >= 1 && lengths.value[0] == n)
            && (data[4 + n..] == [] ||
                W.IsWrapped(data[4 + n..], total - 1, if lengths.None? then None else Some(lengths.value[1..])))
  {
    var n := Number(data[0], data[1], data[2], data[3]);
    StartsPlainly(data);
    var r, rest := data[4..4 + n], data[4 + n..];
    var (rs, tail) := W.Split(rest);
    W.IsWrappedBySplit(data, total, lengths);
    if total >= 1 && (lengths.Some? ==> |lengths.value| >= 1) {
      var more := if lengths.None? then None else Some(lengths.value[1..]);
      W.IsWrappedBySplit(rest, total - 1, more);
      LengthsCons(r, rs, lengths, more);
    }
  }

  lemma LengthsCons(r: seq<byte>, rs: seq<seq<byte>>, lengths: Option<seq<u32>>, more: Option<seq<u32>>)
    requires lengths.Some? ==> |lengths.value| >= 1 && more == Some(lengths.value[1..])
    requires lengths.None? ==> more == None
    ensures W.LengthsMatch([r] + rs, lengths) <==>
            (lengths.Some? ==> lengths.value[0] == |r|) && W.LengthsMatch(rs, more)
  {
    var all := [r] + rs;
    assert all[0] == r && forall i :: 0 <= i < |rs| ==> all[i + 1] == rs[i];
    assert forall i :: 1 <= i < |all| ==> all[i] == rs[i - 1];
  }

  /** The checker on any other data. */
  lemma NotChecked(data: seq<byte>, total: nat, lengths: Option<seq<u32>>)
    requires |data| >= 4 ==> var n := Number(data[0], data[1], data[2], data[3]); n == 0 || n > 1_048_576 || n > |data| - 4
    ensures !W.IsWrapped(data, total, lengths)
  {
    StartsPlainly(data);
    W.IsWrappedBySplit(data, total, lengths);
  }

  lemma AcceptedSizes(wrapped: Option<seq<byte>>)
    ensures W.Unacceptable(wrapped) <==> wrapped.None? || |wrapped.value| == 0 || |wrapped.value| > 1_048_576
  {
  }

  /** The getter on data that starts with a record: record 0 is that one, the others lie in the rest. */
  lemma GetsStep(data: seq<byte>, i: nat, got: W.Got)
    requires |data| >= 4
    requires var n := Number(data[0], data[1], data[2], data[3]); 1 <= n <= 1_048_576 && n <= |data| - 4
    requires W.GetsRecord(data, i, got)
    ensures var n := Number(data[0], data[1], data[2], data[3]);
            if i == 0 then got == W.Record(4, n)
            else if got.Record? then got.offset >= 4 + n && W.GetsRecord(data[4 + n..], i - 1, W.Record(got.offset - (4 + n), got.size))
            else W.GetsRecord(data[4 + n..], i - 1, got)
  {
    var n := Number(data[0], data[1], data[2], data[3]);
    StartsPlainly(data);
    var r, rest := data[4..4 + n], data[4 + n..];
    assert W.Split(data) == ([r] + W.Split(rest).0, W.Split(rest).1);
    FindsCons(data, r, rest, W.Split(rest).0, W.Split(rest).1, i, got);
  }

  lemma FindsCons(data: seq<byte>, r: seq<byte>, rest: seq<byte>, rs: seq<seq<byte>>, tail: seq<byte>, i: nat, got: W.Got)
    requires |data| >= 4 + |r| && rest == data[4 + |r|..] && W.Finds(data, [r] + rs, tail, i, got)
    ensures i == 0 ==> got == W.Record(4, |r|)
    ensures i > 0 && got.Failed? ==> W.Finds(rest, rs, tail, i - 1, got)
    ensures i > 0 && got.Record? ==>
              got.offset >= 4 + |r| && W.Finds(rest, rs, tail, i - 1, W.Record(got.offset - (4 + |r|), got.size))
  {
    if i == 0 {
      assert W.Offset([r] + rs, 0) == 0;
    } else if i < 1 + |rs| {
      OffsetCons(r, rs, i - 1);
      assert ([r] + rs)[i] == rs[i - 1];
      SliceBehind(data, 4 + |r|, got.offset, got.size);
    }
  }

  lemma SliceBehind(data: seq<byte>, k: nat, off: nat, n: nat)
    requires k <= off && off + n <= |data|
    ensures data[k..][off - k..off - k + n] == data[off..off + n]
  {
  }

  lemma {:induction false} OffsetCons(r: seq<byte>, rs: seq<seq<byte>>, i: nat)
    requires i <= |rs|
    ensures W.Offset([r] + rs, i + 1) == 4 + |r| + W.Offset(rs, i)
  {
    if i > 0 {
      OffsetCons(r, rs, i - 1);
      assert ([r] + rs)[i] == rs[i - 1];
    } else {
      assert W.Offset([r] + rs, 0) == 0;
    }
  }

  /** The getter on any other data. */
  lemma GetsNothing(data: seq<byte>, i: nat, got: W.Got)
    requires |data| >= 4 ==> var n := Number(data[0], data[1], data[2], data[3]); n == 0 || n > 1_048_576 || n > |data| - 4
    requires W.GetsRecord(data, i, got)
    ensures got == W.Failed(if 1 <= |data| <= 3 then ReadPastEnd else Returned(InvalidWrappedFormat))
  {
    StartsPlainly(data);
  }

  // ----- Type-length-value data -----

  /** The headers that are read, byte by byte, and the payload behind them. */
  lemma ItemPlainly(data: seq<byte>)
    ensures T.StartsWithItem(data) <==>
            || (|data| >= 3 && 1 <= data[1] <= 127 && 2 + data[1] as int <= |data|)
            || (|data| >= 3 && data[1] == 129 && 1 <= data[2] && 3 + data[2] as int <= |data|)
            || (|data| >= 4 && data[1] == 130 && 1 <= 256 * data[2] as int + data[3] as int
                && 4 + 256 * data[2] as int + data[3] as int <= |data|)
    ensures T.StartsWithItem(data) ==>
              T.FirstItem(data).payload == (if data[1] <= 127 then data[2..2 + data[1] as int]
                                            else if data[1] == 129 then data[3..3 + data[2] as int]
                                            else data[4..4 + (256 * data[2] as int + data[3] as int)])
    ensures T.StartsWithItem(data) ==>
              |T.EncodeItem(T.FirstItem(data))| == (if data[1] <= 127 then 2 + data[1] as int
                                                    else if data[1] == 129 then 3 + data[2] as int
                                                    else 4 + 256 * data[2] as int + data[3] as int)
  {
  }

  /** The values of data, one after the other. */
  lemma ParsePlainly(data: seq<byte>)
    ensures !T.StartsWithItem(data) ==> T.Parse(data) == ([], data)
    ensures T.StartsWithItem(data) ==>
              var rest := data[|T.EncodeItem(T.FirstItem(data))|..];
              T.Payloads(T.Parse(data).0) == [T.FirstItem(data).payload] + T.Payloads(T.Parse(rest).0) &&
              T.Parse(data).1 == T.Parse(rest).1
  {
    if T.StartsWithItem(data) {
      PayloadsCons(T.FirstItem(data), T.Parse(data[|T.EncodeItem(T.FirstItem(data))|..]).0);
    }
  }

  lemma PayloadsCons(t: T.Item, ts: seq<T.Item>)
    ensures T.Payloads([t] + ts) == [t.payload] + T.Payloads(ts)
  {
  }

  /** When the claim loop succeeds. */
  lemma FilledPlainly(data: seq<byte>, taker: T.Taker, ret: Status, passed: seq<seq<byte>>)
    requires T.Filled(data, taker, ret, passed)
    ensures var claims := T.Payloads(T.Parse(data).0);
            ret == Success <==>
            && |T.Parse(data).1| <= 2
            && forall i :: 0 <= i < |claims| ==>
                 |claims[i]| < 10240 && taker.mallocOk(i) && taker.sink(claims[..i], claims[i]) == Success
  {
    var claims := T.Payloads(T.Parse(data).0);
    assert forall i :: 0 <= i < |claims| ==>
        (T.Takes(taker, claims[..i], claims[i]) <==>
           |claims[i]| < 10240 && taker.mallocOk(i) && taker.sink(claims[..i], claims[i]) == Success);
  }
}
