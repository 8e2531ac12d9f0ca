/**
 * UTF-8 and UTF-16 transcoding (RFC 3629, section 3; RFC 2781, section 2) as miniutf does it: with U+FFFD for what cannot
 * be decoded or encoded, and with three-byte forms of surrogates accepted.
 */
module Utf {
  import opened Words
  import opened Compressed

  type unit16 = x: int | 0 <= x < 0x1_0000

  const REPLACEMENT := 0xFFFD
  const LIMIT := 0x11_0000

  datatype Decoded = Decoded(offset: nat, pt: nat)

  /** A string can be read one past its last unit, where it holds a zero. */
  function Unit(s: seq<int>, i: nat): int
    requires i <= |s|
  {
    if i < |s| then s[i] else 0
  }

  predicate Surrogate(pt: int)
  {
    0xD800 <= pt < 0xE000
  }

  predicate Scalar(pt: int)
  {
    0 <= pt < LIMIT && !Surrogate(pt)
  }

  // ---------- one code point ----------

  function Encode8(pt: nat): (s: seq<byte>)
    ensures 1 <= |s| <= 4
  {
    if pt < 0x80 then [pt]
    else if pt < 0x800 then [0xC0 + pt / 64, 0x80 + pt % 64]
    else if pt < 0x1_0000 then [0xE0 + pt / 64 / 64, 0x80 + pt / 64 % 64, 0x80 + pt % 64]
    else if pt < LIMIT then [0xF0 + pt / 64 / 64 / 64, 0x80 + pt / 64 / 64 % 64, 0x80 + pt / 64 % 64, 0x80 + pt % 64]
    else [0xEF, 0xBF, 0xBD]
  }

  function Encode16(pt: nat): (s: seq<unit16>)
    ensures 1 <= |s| <= 2
  {
    if pt < 0x1_0000 then [pt]
    else if pt < LIMIT then [0xD800 + (pt - 0x1_0000) / 0x400, 0xDC00 + pt % 0x400]
    else [REPLACEMENT]
  }

  predicate Continuation(b: int)
  {
    0x80 <= b < 0xC0
  }

  function Join2(b0: int, b1: int): int { b0 % 32 * 64 + b1 % 64 }

  function Join3(b0: int, b1: int, b2: int): int { (b0 % 16 * 64 + b1 % 64) * 64 + b2 % 64 }

  function Join4(b0: int, b1: int, b2: int, b3: int): int { ((b0 % 16 * 64 + b1 % 64) * 64 + b2 % 64) * 64 + b3 % 64 }

  /** utf8_decode_check: it looks at a unit only if all units before it belong to the form. */
  function Decode8(s: seq<byte>, i: nat): (r: Option<Decoded>)
    requires i < |s|
    ensures r.Some? ==> 1 <= r.value.offset && i + r.value.offset <= |s| && r.value.pt < LIMIT
  {
    var b0 := s[i];
    if b0 < 0x80 then Some(Decoded(1, b0))
    else if b0 < 0xC0 then None
    else if b0 < 0xE0 then
      if !Continuation(Unit(s, i + 1)) then None
      else
        var pt := Join2(b0, Unit(s, i + 1));
        if pt < 0x80 then None else Some(Decoded(2, pt))
    else if b0 < 0xF0 then
      if !Continuation(Unit(s, i + 1)) || !Continuation(Unit(s, i + 2)) then None
      else
        var pt := Join3(b0, Unit(s, i + 1), Unit(s, i + 2));
        if pt < 0x800 then None else Some(Decoded(3, pt))
    else if b0 < 0xF8 then
      if !Continuation(Unit(s, i + 1)) || !Continuation(Unit(s, i + 2)) || !Continuation(Unit(s, i + 3)) then None
      else
        var pt := Join4(b0, Unit(s, i + 1), Unit(s, i + 2), Unit(s, i + 3));
        if pt < 0x1_0000 || pt >= LIMIT then None else Some(Decoded(4, pt))
    else None
  }

  predicate High(c: int) { 0xD800 <= c < 0xDC00 }

  predicate Low(c: int) { 0xDC00 <= c < 0xE000 }

  function Decode16(s: seq<unit16>, i: nat): (r: Option<Decoded>)
    requires i < |s|
    ensures r.Some? ==> 1 <= r.value.offset && i + r.value.offset <= |s| && Scalar(r.value.pt)
  {
    if High(s[i]) && Low(Unit(s, i + 1)) then
      Some(Decoded(2, (s[i] - 0xD800) * 0x400 + (Unit(s, i + 1) - 0xDC00) + 0x1_0000))
    else if High(s[i]) || Low(s[i]) then None
    else Some(Decoded(1, s[i]))
  }

  // ---------- one code point: decoding and encoding are inverse ----------

  /** The units t stand in s at i. */
  predicate Stands(s: seq<int>, i: nat, t: seq<int>)
  {
    i + |t| <= |s| && s[i..i + |t|] == t
  }

  lemma Digit(high: int, low: int, v: int)
    requires 0 <= low < 64
    ensures high * 64 + low == v <==> high == v / 64 && low == v % 64
  {
  }

  lemma Bytes2(b0: byte, b1: byte, pt: nat)
    requires 0x80 <= pt < 0x800
    ensures 0xC0 <= b0 < 0xE0 && Continuation(b1) && Join2(b0, b1) == pt <==> [b0, b1] == Encode8(pt)
  {
    Digit(b0 % 32, b1 % 64, pt);
  }

  lemma Bytes3(b0: byte, b1: byte, b2: byte, pt: nat)
    requires 0x800 <= pt < 0x1_0000
    ensures 0xE0 <= b0 < 0xF0 && Continuation(b1) && Continuation(b2) && Join3(b0, b1, b2) == pt <==>
            [b0, b1, b2] == Encode8(pt)
  {
    Digit(b0 % 16, b1 % 64, pt / 64);
    Digit(b0 % 16 * 64 + b1 % 64, b2 % 64, pt);
  }

  lemma Bytes4(b0: byte, b1: byte, b2: byte, b3: byte, pt: nat)
    requires 0x1_0000 <= pt < LIMIT
    ensures (&& 0xF0 <= b0 < 0xF8 && Continuation(b1) && Continuation(b2) && Continuation(b3)
             && Join4(b0, b1, b2, b3) == pt) <==>
            [b0, b1, b2, b3] == Encode8(pt)
  {
    Digit(b0 % 16, b1 % 64, pt / 64 / 64);
    Digit(b0 % 16 * 64 + b1 % 64, b2 % 64, pt / 64);
    Digit((b0 % 16 * 64 + b1 % 64) * 64 + b2 % 64, b3 % 64, pt);
  }

  /** A code point is decoded at i exactly if its encoding stands there: there are no overlong forms. */
  lemma Exact8(s: seq<byte>, i: nat, pt: nat)
    requires i < |s| && pt < LIMIT
    ensures Decode8(s, i) == Some(Decoded(|Encode8(pt)|, pt)) <==> Stands(s, i, Encode8(pt))
    ensures Decode8(s, i).Some? && Decode8(s, i).value.pt == pt ==> Decode8(s, i).value.offset == |Encode8(pt)|
  {
    hide Join2, Join3, Join4, Encode8;
    var n := |Encode8(pt)|;
    Length8(pt);
    if i + n <= |s| {
      var t := s[i..i + n];
      assert forall k :: 0 <= k < n ==> t[k] == s[i + k];
      if n == 1 {
        assert t == [s[i]];
      } else if n == 2 {
        Bytes2(s[i], s[i + 1], pt);
        assert t == [s[i], s[i + 1]];
      } else if n == 3 {
        Bytes3(s[i], s[i + 1], s[i + 2], pt);
        assert t == [s[i], s[i + 1], s[i + 2]];
      } else {
        Bytes4(s[i], s[i + 1], s[i + 2], s[i + 3], pt);
        assert t == [s[i], s[i + 1], s[i + 2], s[i + 3]];
      }
    }
    Ranges(s, i);
  }

  lemma Length8(pt: nat)
    requires pt < LIMIT
    ensures |Encode8(pt)| == if pt < 0x80 then 1 else if pt < 0x800 then 2 else if pt < 0x1_0000 then 3 else 4
    ensures pt < 0x80 ==> Encode8(pt) == [pt]
  {
  }

  /** The number of bytes decoded determines the range of the code point. */
  lemma Ranges(s: seq<byte>, i: nat)
    requires i < |s|
    ensures Decode8(s, i).Some? ==>
              var d := Decode8(s, i).value;
              d.offset == if d.pt < 0x80 then 1 else if d.pt < 0x800 then 2 else if d.pt < 0x1_0000 then 3 else 4
  {
  }

  lemma Exact16(s: seq<unit16>, i: nat, pt: nat)
    requires i < |s| && Scalar(pt)
    ensures Decode16(s, i) == Some(Decoded(|Encode16(pt)|, pt)) <==> Stands(s, i, Encode16(pt))
    ensures Decode16(s, i).Some? && Decode16(s, i).value.pt == pt ==> Decode16(s, i).value.offset == |Encode16(pt)|
  {
    var n := |Encode16(pt)|;
    if i + n <= |s| {
      var t := s[i..i + n];
      assert forall k :: 0 <= k < n ==> t[k] == s[i + k];
      if n == 1 {
        assert t == [s[i]];
      } else {
        assert t == [s[i], s[i + 1]];
      }
    }
  }

  // ---------- strings ----------

  /** The code points from i on, with U+FFFD for each unit at which nothing can be decoded. */
  function Points8(s: seq<byte>, i: nat): (r: seq<nat>)
    requires i <= |s|
    ensures forall k :: 0 <= k < |r| ==> r[k] < LIMIT
    decreases |s| - i
  {
    if i == |s| then []
    else
      var d := Decode8(s, i);
      if d.None? then [REPLACEMENT] + Points8(s, i + 1)
      else [d.value.pt] + Points8(s, i + d.value.offset)
  }

  function Points16(s: seq<unit16>, i: nat): (r: seq<nat>)
    requires i <= |s|
    ensures forall k :: 0 <= k < |r| ==> Scalar(r[k])
    decreases |s| - i
  {
    if i == |s| then []
    else
      var d := Decode16(s, i);
      if d.None? then [REPLACEMENT] + Points16(s, i + 1)
      else [d.value.pt] + Points16(s, i + d.value.offset)
  }

  predicate Check8(s: seq<byte>, i: nat)
    requires i <= |s|
    decreases |s| - i
  {
    i == |s| || (Decode8(s, i).Some? && Check8(s, i + Decode8(s, i).value.offset))
  }

  predicate Check16(s: seq<unit16>, i: nat)
    requires i <= |s|
    decreases |s| - i
  {
    i == |s| || (Decode16(s, i).Some? && Check16(s, i + Decode16(s, i).value.offset))
  }

  function Bytes(pts: seq<nat>): seq<byte>
  {
    if pts == [] then [] else Encode8(pts[0]) + Bytes(pts[1..])
  }

  function Units(pts: seq<nat>): seq<unit16>
  {
    if pts == [] then [] else Encode16(pts[0]) + Units(pts[1..])
  }

  predicate AllBelow(pts: seq<nat>)
  {
    forall k :: 0 <= k < |pts| ==> pts[k] < LIMIT
  }

  predicate AllScalar(pts: seq<nat>)
  {
    forall k :: 0 <= k < |pts| ==> Scalar(pts[k])
  }

  lemma StandsInside(pre: seq<int>, t: seq<int>, post: seq<int>)
    ensures Stands(pre + (t + post), |pre|, t)
    ensures pre + (t + post) == (pre + t) + post
  {
    var s := pre + (t + post);
    assert s[|pre|..|pre| + |t|] == t;
  }

  /** Decoding undoes encoding, for every string of code points, surrogates included. */
  lemma {:induction false} PointsOfBytes(pre: seq<byte>, pts: seq<nat>)
    requires AllBelow(pts)
    ensures Points8(pre + Bytes(pts), |pre|) == pts && Check8(pre + Bytes(pts), |pre|)
    decreases |pts|
  {
    hide Decode8, Encode8, Stands;
    if pts != [] {
      var first, rest := Encode8(pts[0]), Bytes(pts[1..]);
      StandsInside(pre, first, rest);
      Exact8(pre + (first + rest), |pre|, pts[0]);
      PointsOfBytes(pre + first, pts[1..]);
      assert pts == [pts[0]] + pts[1..];
    }
  }

  /** The same for UTF-16 and strings without surrogates. */
  lemma {:induction false} PointsOfUnits(pre: seq<unit16>, pts: seq<nat>)
    requires AllScalar(pts)
    ensures Points16(pre + Units(pts), |pre|) == pts && Check16(pre + Units(pts), |pre|)
    decreases |pts|
  {
    hide Decode16, Encode16, Stands, Scalar;
    if pts != [] {
      var first, rest := Encode16(pts[0]), Units(pts[1..]);
      StandsInside(pre, first, rest);
      Exact16(pre + (first + rest), |pre|, pts[0]);
      PointsOfUnits(pre + first, pts[1..]);
      assert pts == [pts[0]] + pts[1..];
    }
  }

  /** Encoding undoes decoding, for every string that passes the check. */
  lemma {:induction false} BytesOfPoints(s: seq<byte>, i: nat)
    requires i <= |s| && Check8(s, i)
    ensures Bytes(Points8(s, i)) == s[i..]
    decreases |s| - i
  {
    hide Decode8, Encode8;
    if i < |s| {
      var d := Decode8(s, i).value;
      Exact8(s, i, d.pt);
      BytesOfPoints(s, i + d.offset);
      var pts := Points8(s, i);
      assert pts[0] == d.pt && pts[1..] == Points8(s, i + d.offset);
      assert s[i..] == s[i..i + d.offset] + s[i + d.offset..];
    }
  }

  lemma {:induction false} UnitsOfPoints(s: seq<unit16>, i: nat)
    requires i <= |s| && Check16(s, i)
    ensures Units(Points16(s, i)) == s[i..]
    decreases |s| - i
  {
    hide Decode16, Encode16, Scalar;
    if i < |s| {
      var d := Decode16(s, i).value;
      Exact16(s, i, d.pt);
      UnitsOfPoints(s, i + d.offset);
      var pts := Points16(s, i);
      assert pts[0] == d.pt && pts[1..] == Points16(s, i + d.offset);
      assert s[i..] == s[i..i + d.offset] + s[i + d.offset..];
    }
  }

  /** What cannot be encoded is encoded as U+FFFD. */
  function Clean(pts: seq<nat>): (r: seq<nat>)
    ensures |r| == |pts| && AllBelow(r)
    ensures AllBelow(pts) ==> r == pts
  {
    seq(|pts|, k requires 0 <= k < |pts| => if pts[k] < LIMIT then pts[k] else REPLACEMENT)
  }

  lemma {:induction false} BytesOfClean(pts: seq<nat>)
    ensures Bytes(pts) == Bytes(Clean(pts))
    decreases |pts|
  {
    hide Encode8;
    if pts != [] {
      BytesOfClean(pts[1..]);
      assert Clean(pts)[1..] == Clean(pts[1..]);
      CleanPoint(pts[0]);
    }
  }

  lemma CleanPoint(pt: nat)
    ensures Encode8(pt) == Encode8(if pt < LIMIT then pt else REPLACEMENT)
  {
  }

  // ---------- the conversions ----------

  function ToUtf32(s: seq<byte>): seq<nat> { Points8(s, 0) }

  function ToUtf16(s: seq<byte>): seq<unit16> { Units(Points8(s, 0)) }

  function ToUtf8(s: seq<unit16>): seq<byte> { Bytes(Points16(s, 0)) }

  /** UTF-32 to UTF-8 and back gives the same code points, and the bytes always pass utf8_check. */
  lemma Utf32RoundTrip(pts: seq<nat>)
    ensures ToUtf32(Bytes(pts)) == Clean(pts) && Check8(Bytes(pts), 0)
    ensures ToUtf32(Bytes(pts)) == pts <==> AllBelow(pts)
  {
    hide Points8, Bytes, Check8, Clean;
    BytesOfClean(pts);
    PointsOfBytes([], Clean(pts));
    assert [] + Bytes(Clean(pts)) == Bytes(Clean(pts));
    CleanBelow(pts);
  }

  lemma CleanBelow(pts: seq<nat>)
    ensures |Clean(pts)| == |pts| && AllBelow(Clean(pts)) && (Clean(pts) == pts <==> AllBelow(pts))
  {
  }

  /** UTF-8 to UTF-32 and back gives the same bytes if and only if they pass utf8_check. */
  lemma Utf8ViaUtf32(s: seq<byte>)
    ensures Bytes(ToUtf32(s)) == s <==> Check8(s, 0)
  {
    hide Points8, Bytes, Check8;
    Utf32RoundTrip(ToUtf32(s));
    if Check8(s, 0) {
      BytesOfPoints(s, 0);
    }
  }

  /** UTF-16 to UTF-8 and back gives the same units if and only if they pass utf16_check. */
  lemma Utf16ViaUtf8(s: seq<unit16>)
    ensures ToUtf16(ToUtf8(s)) == s <==> Check16(s, 0)
  {
    hide Bytes, Units, Check16, Points8;
    var pts := Points16(s, 0);
    Utf32RoundTrip(pts);
    ScalarsBelow(pts);
    PointsOfUnits([], pts);
    assert [] + Units(pts) == Units(pts);
    if Check16(s, 0) {
      UnitsOfPoints(s, 0);
    }
  }

  /**
   * UTF-8 to UTF-16 and back gives the same bytes if and only if they pass utf8_check and encode no surrogate, which
   * utf8_check accepts.
   */
  lemma Utf8ViaUtf16(s: seq<byte>)
    ensures ToUtf8(ToUtf16(s)) == s <==> Check8(s, 0) && AllScalar(ToUtf32(s))
  {
    hide Bytes, Units, Check8, Points8, Points16, Check16;
    var pts, units := ToUtf32(s), ToUtf16(s);
    var back := Points16(units, 0);
    BackIsScalar(units);
    ScalarsBelow(back);
    Utf32RoundTrip(back);
    if Check8(s, 0) && AllScalar(pts) {
      PointsOfUnits([], pts);
      assert [] + Units(pts) == Units(pts);
      BytesOfPoints(s, 0);
    }
  }

  lemma ScalarsBelow(pts: seq<nat>)
    requires AllScalar(pts)
    ensures AllBelow(pts)
  {
    assert forall k :: 0 <= k < |pts| ==> Scalar(pts[k]);
  }

  lemma BackIsScalar(s: seq<unit16>)
    ensures AllScalar(Points16(s, 0))
  {
  }

  /** The three bytes of U+D800 pass utf8_check, but do not survive the way through UTF-16. */
  lemma LoneSurrogateLost()
    ensures Check8([0xED, 0xA0, 0x80], 0) && ToUtf8(ToUtf16([0xED, 0xA0, 0x80])) != [0xED, 0xA0, 0x80]
  {
    var s: seq<byte> := [0xED, 0xA0, 0x80];
    assert Decode8(s, 0) == Some(Decoded(3, 0xD800));
    assert Points8(s, 0)[0] == 0xD800;
    Utf8ViaUtf16(s);
  }

  // ---------- as written ----------

  method Utf8Encode(pt: nat, out: seq<byte>) returns (out': seq<byte>)
    ensures out' == out + Encode8(pt)
  {
    if pt < 0x80 {
      out' := out + [pt];
    } else if pt < 0x800 {
      out' := out + [0xC0 + pt / 64, 0x80 + pt % 64];
    } else if pt < 0x1_0000 {
      out' := out + [0xE0 + pt / 64 / 64, 0x80 + pt / 64 % 64, 0x80 + pt % 64];
    } else if pt < LIMIT {
      out' := out + [0xF0 + pt / 64 / 64 / 64, 0x80 + pt / 64 / 64 % 64, 0x80 + pt / 64 % 64, 0x80 + pt % 64];
    } else {
      out' := out + [0xEF, 0xBF, 0xBD];
    }
  }

  method Utf16Encode(pt: nat, out: seq<unit16>) returns (out': seq<unit16>)
    ensures out' == out + Encode16(pt)
  {
    if pt < 0x1_0000 {
      out' := out + [pt];
    } else if pt < LIMIT {
      out' := out + [0xD800 + (pt - 0x1_0000) / 0x400, 0xDC00 + pt % 0x400];
    } else {
      out' := out + [REPLACEMENT];
    }
  }

  /** utf8_decode: it moves the index by at least one unit and never past the end. */
  method Utf8Decode(s: seq<byte>, i: nat, flag: bool) returns (pt: nat, i': nat, flag': bool)
    requires i < |s|
    ensures i < i' <= |s|
    ensures Points8(s, i) == [pt] + Points8(s, i')
    ensures flag' <==> flag || Decode8(s, i).None?
    ensures Decode8(s, i).Some? ==> i' == i + Decode8(s, i).value.offset
  {
    hide Decode8;
    var d := Decode8(s, i);
    if d.None? {
      return REPLACEMENT, i + 1, true;
    }
    return d.value.pt, i + d.value.offset, flag;
  }

  method Utf16Decode(s: seq<unit16>, i: nat, flag: bool) returns (pt: nat, i': nat, flag': bool)
    requires i < |s|
    ensures i < i' <= |s|
    ensures Points16(s, i) == [pt] + Points16(s, i')
    ensures flag' <==> flag || Decode16(s, i).None?
    ensures Decode16(s, i).Some? ==> i' == i + Decode16(s, i).value.offset
  {
    hide Decode16;
    var d := Decode16(s, i);
    if d.None? {
      return REPLACEMENT, i + 1, true;
    }
    return d.value.pt, i + d.value.offset, flag;
  }

  method CheckUtf8(s: seq<byte>) returns (ok: bool)
    ensures ok <==> Check8(s, 0)
  {
    hide Decode8;
    var i := 0;
    while i < |s|
      invariant i <= |s| && (Check8(s, 0) <==> Check8(s, i))
    {
      var d := Decode8(s, i);
      if d.None? {
        return false;
      }
      i := i + d.value.offset;
    }
    return true;
  }

  method CheckUtf16(s: seq<unit16>) returns (ok: bool)
    ensures ok <==> Check16(s, 0)
  {
    hide Decode16;
    var i := 0;
    while i < |s|
      invariant i <= |s| && (Check16(s, 0) <==> Check16(s, i))
    {
      var d := Decode16(s, i);
      if d.None? {
        return false;
      }
      i := i + d.value.offset;
    }
    return true;
  }

  method Utf8ToUtf32(s: seq<byte>) returns (out: seq<nat>)
    ensures out == ToUtf32(s)
  {
    out := [];
    var i := 0;
    while i < |s|
      invariant i <= |s| && out + Points8(s, i) == ToUtf32(s)
    {
      var pt, flag;
      pt, i, flag := Utf8Decode(s, i, false);
      assert out + ([pt] + Points8(s, i)) == out + [pt] + Points8(s, i);
      out := out + [pt];
    }
    assert out + [] == out;
  }

  method Utf8ToUtf16(s: seq<byte>) returns (out: seq<unit16>)
    ensures out == ToUtf16(s)
  {
    out := [];
    var i := 0;
    while i < |s|
      invariant i <= |s| && out + Units(Points8(s, i)) == ToUtf16(s)
    {
      var pt, flag;
      ghost var before, at := out, i;
      pt, i, flag := Utf8Decode(s, i, false);
      out := Utf16Encode(pt, out);
      UnitsStep(before, pt, Points8(s, i));
    }
    assert out + [] == out;
  }

  lemma UnitsStep(out: seq<unit16>, pt: nat, rest: seq<nat>)
    ensures out + Units([pt] + rest) == out + Encode16(pt) + Units(rest)
  {
    assert ([pt] + rest)[1..] == rest;
  }

  lemma BytesStep(out: seq<byte>, pt: nat, rest: seq<nat>)
    ensures out + Bytes([pt] + rest) == out + Encode8(pt) + Bytes(rest)
  {
    assert ([pt] + rest)[1..] == rest;
  }

  method Utf16ToUtf8(s: seq<unit16>) returns (out: seq<byte>)
    ensures out == ToUtf8(s)
  {
    out := [];
    var i := 0;
    while i < |s|
      invariant i <= |s| && out + Bytes(Points16(s, i)) == ToUtf8(s)
    {
      var pt;
      ghost var before := out;
      var replaced;
      pt, i, replaced := Utf16Decode(s, i, false);
      out := Utf8Encode(pt, out);
      BytesStep(before, pt, Points16(s, i));
    }
    assert out + [] == out;
  }

  method Utf32ToUtf8(pts: seq<nat>) returns (out: seq<byte>)
    ensures out == Bytes(pts)
  {
    out := [];
    for i := 0 to |pts|
      invariant out + Bytes(pts[i..]) == Bytes(pts)
    {
      BytesStep(out, pts[i], pts[i + 1..]);
      assert pts[i..] == [pts[i]] + pts[i + 1..];
      out := Utf8Encode(pts[i], out);
    }
    assert out + [] == out;
  }
}
