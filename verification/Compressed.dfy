/**
 * Compressed unsigned integers of signature blobs (ECMA-335 Partition II, section 23.2), as CorSigCompressData writes
 * them and as ParseNumber and CorSigUncompressData read them.
 */
module Compressed {
  import opened Words

  /** An encoded number: its value and the number of bytes it is written in, which need not be the least possible. */
  datatype Num = Num(value: nat, width: nat)

  predicate ValidNum(n: Num)
  {
    || (n.width == 1 && n.value < 0x80)
    || (n.width == 2 && n.value < 0x4000)
    || (n.width == 4 && n.value < 0x2000_0000)
  }

  function NumBytes(n: Num): (s: seq<byte>)
    requires ValidNum(n)
    ensures |s| == n.width
  {
    if n.width == 1 then [n.value]
    else if n.width == 2 then [0x80 + n.value / 0x100, n.value % 0x100]
    else [0xC0 + n.value / 0x100 / 0x100 / 0x100, n.value / 0x100 / 0x100 % 0x100, n.value / 0x100 % 0x100, n.value % 0x100]
  }

  lemma NumLength(n: Num)
    requires ValidNum(n)
    ensures |NumBytes(n)| == n.width
  {
  }

  datatype Option<T> = Some(value: T) | None

  /** CorSigCompressData: the shortest encoding, or -1 for a value above 0x1FFFFFFF. */
  function Compress(value: nat): (r: Option<Num>)
    ensures r.Some? <==> value <= 0x1FFF_FFFF
    ensures r.Some? ==> ValidNum(r.value) && r.value.value == value
    ensures r.Some? ==> forall n :: ValidNum(n) && n.value == value ==> r.value.width <= n.width
  {
    if value <= 0x7F then Some(Num(value, 1))
    else if value <= 0x3FFF then Some(Num(value, 2))
    else if value <= 0x1FFF_FFFF then Some(Num(value, 4))
    else None
  }

  /** The 14 bits of a two-byte and the 29 bits of a four-byte encoding. */
  function Two(b1: int, b2: int): int { b1 % 0x40 * 0x100 + b2 }

  function Four(b1: int, b2: int, b3: int, b4: int): int
  {
    ((b1 % 0x20 * 0x100 + b2) * 0x100 + b3) * 0x100 + b4
  }

  /** The number that starts at byte p and ends no later than end. */
  function NumAt(bs: seq<byte>, p: nat, end: nat): (r: Option<Num>)
    requires end <= |bs|
    ensures r.Some? ==> ValidNum(r.value) && p + r.value.width <= end
  {
    if p >= end then None
    else if bs[p] < 0x80 then Some(Num(bs[p], 1))
    else if bs[p] < 0xC0 then
      if p + 2 > end then None else Some(Num(Two(bs[p], bs[p + 1]), 2))
    else if bs[p] < 0xE0 then
      if p + 4 > end then None
      else Some(Num(Four(bs[p], bs[p + 1], bs[p + 2], bs[p + 3]), 4))
    else None
  }

  lemma TwoExact(b1: byte, b2: byte, v: nat)
    requires v < 0x4000
    ensures (0x80 <= b1 < 0xC0 && Two(b1, b2) == v) <==> (b1 == 0x80 + v / 0x100 && b2 == v % 0x100)
  {
  }

  lemma FourExact(b1: byte, b2: byte, b3: byte, b4: byte, v: nat)
    requires v < 0x2000_0000
    ensures (0xC0 <= b1 < 0xE0 && Four(b1, b2, b3, b4) == v) <==>
            (&& b1 == 0xC0 + v / 0x100 / 0x100 / 0x100 && b2 == v / 0x100 / 0x100 % 0x100
             && b3 == v / 0x100 % 0x100 && b4 == v % 0x100)
  {
    DigitExact(b1 % 0x20, b2, v / 0x100 / 0x100);
    DigitExact(b1 % 0x20 * 0x100 + b2, b3, v / 0x100);
    DigitExact((b1 % 0x20 * 0x100 + b2) * 0x100 + b3, b4, v);
  }

  lemma DigitExact(high: int, low: byte, v: int)
    ensures high * 0x100 + low == v <==> high == v / 0x100 && low == v % 0x100
  {
  }

  /** A number is read at p exactly if its encoding stands there: reading and writing are inverse. */
  lemma NumExact(bs: seq<byte>, p: nat, end: nat, n: Num)
    requires end <= |bs|
    ensures NumAt(bs, p, end) == Some(n) <==> ValidNum(n) && p + n.width <= end && bs[p..p + n.width] == NumBytes(n)
  {
    hide Two, Four;
    if ValidNum(n) && p + n.width <= end {
      var s := bs[p..p + n.width];
      assert forall k :: 0 <= k < n.width ==> s[k] == bs[p + k];
      if n.width == 2 {
        TwoExact(bs[p], bs[p + 1], n.value);
        assert s == [bs[p], bs[p + 1]];
      } else if n.width == 4 {
        FourExact(bs[p], bs[p + 1], bs[p + 2], bs[p + 3], n.value);
        assert s == [bs[p], bs[p + 1], bs[p + 2], bs[p + 3]];
      } else {
        assert s == [bs[p]];
      }
    }
  }

  /** ParseNumber: reads through a cursor that stops at end. */
  method ParseNumber(bs: seq<byte>, cur: nat, end: nat) returns (ok: bool, value: nat, cur': nat)
    requires cur <= end <= |bs|
    ensures ok <==> NumAt(bs, cur, end).Some?
    ensures ok ==> value == NumAt(bs, cur, end).value.value && cur' == cur + NumAt(bs, cur, end).value.width
    ensures cur <= cur' <= end
  {
    ok, value, cur' := false, 0, cur;
    var b1, b2, b3, b4;
    ok, b1, cur' := ParseByte(bs, cur', end);
    if !ok { return; }
    if b1 == 0xff { return false, 0, cur'; }
    if b1 < 0x80 { return true, b1, cur'; }
    ok, b2, cur' := ParseByte(bs, cur', end);
    if !ok { return; }
    if b1 % 0x80 < 0x40 { return true, Two(b1, b2), cur'; }
    if b1 % 0x40 >= 0x20 { return false, 0, cur'; }
    ok, b3, cur' := ParseByte(bs, cur', end);
    if !ok { return; }
    ok, b4, cur' := ParseByte(bs, cur', end);
    if !ok { return; }
    value := Four(b1, b2, b3, b4);
  }

  method ParseByte(bs: seq<byte>, cur: nat, end: nat) returns (ok: bool, b: byte, cur': nat)
    requires cur <= end <= |bs|
    ensures ok <==> cur < end
    ensures ok ==> b == bs[cur] && cur' == cur + 1
    ensures !ok ==> cur' == cur
  {
    if cur < end {
      return true, bs[cur], cur + 1;
    }
    return false, 0, cur;
  }

  // ---------- tokens ----------

  /** The coded index of a TypeDefOrRef token: row number and table tag (ECMA-335 Partition II, section 23.2.8). */
  function CodedIndex(rid: nat, table: nat): nat
    requires table < 4
  {
    4 * rid + table
  }

  /** CorSigCompressToken; a row number above 0x3FFFFFF cannot be encoded. */
  function CompressToken(rid: nat, table: nat): (r: Option<Num>)
    requires table < 4
    ensures r.Some? ==> ValidNum(r.value) && r.value.value / 4 == rid && r.value.value % 4 == table
    ensures r.Some? <==> rid <= 0x3FF_FFFF && CodedIndex(rid, table) <= 0x1FFF_FFFF
  {
    if rid > 0x3FF_FFFF then None else Compress(CodedIndex(rid, table))
  }
}
