/**
 * Decomposition, the composition loop and the whole of normalize32 (section 3.11 of the Unicode Standard; Hangul
 * syllables: section 3.12). The tables of combining classes, decompositions and compositions are parameters.
 */
module Composition {
  import opened Words
  import opened Compressed
  import opened Utf
  import opened CanonicalOrdering

  /**
   * What miniutfdata.h supplies. A pair that does not compose gives 0; a code point without an entry decomposes to
   * itself, any other one to a string that is not empty.
   */
  datatype Tables = Tables(ccc: nat -> nat, decompose: nat -> Option<seq<nat>>, compose: (nat, nat) -> nat)

  ghost predicate TablesOk(tb: Tables)
  {
    forall pt :: tb.decompose(pt).Some? ==> tb.decompose(pt).value != []
  }

  // ---------- Hangul ----------

  predicate Syllable(pt: nat) { 0xAC00 <= pt < 0xD7A4 }

  predicate LJamo(pt: nat) { 0x1100 <= pt < 0x1113 }

  predicate VJamo(pt: nat) { 0x1161 <= pt < 0x1176 }

  predicate TJamo(pt: nat) { 0x11A8 <= pt < 0x11C3 }

  /** unicode_decompose of one code point. */
  function Decompose(tb: Tables, pt: nat): seq<nat>
  {
    if Syllable(pt) then
      var k := pt - 0xAC00;
      [0x1100 + k / 588, 0x1161 + k % 588 / 28] + (if k % 28 != 0 then [0x11A7 + k % 28] else [])
    else if tb.decompose(pt).Some? then tb.decompose(pt).value
    else [pt]
  }

  /** unicode_compose: the composite of two code points, or 0. */
  function Compose(tb: Tables, l: nat, c: nat): nat
  {
    if LJamo(l) && VJamo(c) then ((l - 0x1100) * 21 + c - 0x1161) * 28 + 0xAC00
    else if Syllable(l) && (l - 0xAC00) % 28 == 0 && TJamo(c) then l + c - 0x11A7
    else tb.compose(l, c)
  }

  function DecomposeAll(tb: Tables, pts: seq<nat>): seq<nat>
  {
    if pts == [] then [] else Decompose(tb, pts[0]) + DecomposeAll(tb, pts[1..])
  }

  // ---------- the composer as a function ----------

  /** A character is blocked from the starter by an uncomposed mark between them whose class is not smaller. */
  predicate Blocked(tb: Tables, marks: seq<nat>, ch: nat)
  {
    exists k :: 0 <= k < |marks| && tb.ccc(marks[k]) >= tb.ccc(ch)
  }

  /** Composes rest, from left to right, with a starter behind which the marks have been left uncomposed. */
  function Composed(tb: Tables, starter: nat, marks: seq<nat>, rest: seq<nat>): (r: seq<nat>)
    ensures 1 <= |r| <= 1 + |marks| + |rest|
    decreases |rest|
  {
    if rest == [] then [starter] + marks
    else
      var ch := rest[0];
      if Compose(tb, starter, ch) != 0 && !Blocked(tb, marks, ch) then
        Composed(tb, Compose(tb, starter, ch), marks, rest[1..])
      else if tb.ccc(ch) == 0 then [starter] + marks + Composed(tb, ch, [], rest[1..])
      else Composed(tb, starter, marks + [ch], rest[1..])
  }

  function ComposeString(tb: Tables, s: seq<nat>): (r: seq<nat>)
    ensures |r| <= |s|
  {
    if s == [] then [] else Composed(tb, s[0], [], s[1..])
  }

  // ---------- the loop as written ----------

  function LastClass(tb: Tables, marks: seq<nat>): int
  {
    if marks == [] then -1 else tb.ccc(marks[|marks| - 1])
  }

  /** The marks lie in one run of non-starters that reaches up to the character before, and are in its order. */
  ghost predicate InRun(tb: Tables, marks: seq<nat>, before: nat)
  {
    && (forall k :: 0 <= k < |marks| ==> tb.ccc(marks[k]) <= LastClass(tb, marks))
    && (marks != [] ==> 0 < LastClass(tb, marks) <= tb.ccc(before))
  }

  lemma BlockedByLast(tb: Tables, marks: seq<nat>, before: nat, ch: nat)
    requires InRun(tb, marks, before)
    ensures Blocked(tb, marks, ch) <==> LastClass(tb, marks) >= tb.ccc(ch)
  {
    if marks != [] && LastClass(tb, marks) >= tb.ccc(ch) {
      assert tb.ccc(marks[|marks| - 1]) >= tb.ccc(ch);
    }
  }

  /** The next character keeps the marks in order, composed with the starter or not. */
  lemma RunContinues(tb: Tables, marks: seq<nat>, before: nat, ch: nat)
    requires InRun(tb, marks, before) && (tb.ccc(ch) == 0 || tb.ccc(before) <= tb.ccc(ch))
    ensures LastClass(tb, marks) < tb.ccc(ch) ==> InRun(tb, marks, ch)
    ensures tb.ccc(ch) != 0 ==> InRun(tb, marks + [ch], ch)
  {
  }

  /**
   * The loop's variables on the way from s: w is what the string holds now, of which a prefix is finished; then come the
   * starter and the marks, and from i on everything is as it was.
   */
  ghost predicate Progress(tb: Tables, s: seq<nat>, w: seq<nat>, i: nat, starterPos: nat, targetPos: nat, starter: nat,
                           marks: seq<nat>)
  {
    && |w| == |s| && starterPos < targetPos <= i <= |s| && i > 0
    && w[i..] == s[i..] && w[starterPos..targetPos] == [starter] + marks
    && InRun(tb, marks, s[i - 1])
    && w[..starterPos] + Composed(tb, starter, marks, s[i..]) == ComposeString(tb, s)
  }

  lemma ProgressCompose(tb: Tables, s: seq<nat>, w: seq<nat>, i: nat, starterPos: nat, targetPos: nat, starter: nat,
                        marks: seq<nat>)
    requires Progress(tb, s, w, i, starterPos, targetPos, starter, marks) && i < |s|
    requires Compose(tb, starter, s[i]) != 0 && !Blocked(tb, marks, s[i]) && InRun(tb, marks, s[i])
    ensures var composite := Compose(tb, starter, s[i]);
            Progress(tb, s, w[starterPos := composite], i + 1, starterPos, targetPos, composite, marks)
  {
    hide Blocked, InRun, Compose;
    var composite := Compose(tb, starter, s[i]);
    var w' := w[starterPos := composite];
    assert s[i..][0] == s[i] && s[i..][1..] == s[i + 1..] == w[i..][1..] == w'[i + 1..];
    assert w'[..starterPos] == w[..starterPos];
    assert w'[starterPos..targetPos] == [composite] + w[starterPos..targetPos][1..] == [composite] + marks;
  }

  lemma ProgressStarter(tb: Tables, s: seq<nat>, w: seq<nat>, i: nat, starterPos: nat, targetPos: nat, starter: nat,
                        marks: seq<nat>)
    requires Progress(tb, s, w, i, starterPos, targetPos, starter, marks) && i < |s|
    requires Compose(tb, starter, s[i]) == 0 || Blocked(tb, marks, s[i])
    requires tb.ccc(s[i]) == 0
    ensures Progress(tb, s, w[targetPos := s[i]], i + 1, targetPos, targetPos + 1, s[i], [])
  {
    hide Blocked, Compose;
    var w' := w[targetPos := s[i]];
    assert s[i..][0] == s[i] && s[i..][1..] == s[i + 1..] == w[i..][1..] == w'[i + 1..];
    assert w'[..targetPos] == w[..starterPos] + ([starter] + marks);
    NextStarter(tb, w[..starterPos], starter, marks, s[i..]);
    assert w'[targetPos..targetPos + 1] == [s[i]] + [];
  }

  lemma ProgressMark(tb: Tables, s: seq<nat>, w: seq<nat>, i: nat, starterPos: nat, targetPos: nat, starter: nat,
                     marks: seq<nat>)
    requires Progress(tb, s, w, i, starterPos, targetPos, starter, marks) && i < |s|
    requires Compose(tb, starter, s[i]) == 0 || Blocked(tb, marks, s[i])
    requires tb.ccc(s[i]) != 0 && InRun(tb, marks + [s[i]], s[i])
    ensures Progress(tb, s, w[targetPos := s[i]], i + 1, starterPos, targetPos + 1, starter, marks + [s[i]])
  {
    hide Blocked, InRun, Compose;
    var w' := w[targetPos := s[i]];
    assert s[i..][0] == s[i] && s[i..][1..] == s[i + 1..] == w[i..][1..] == w'[i + 1..];
    assert w'[..starterPos] == w[..starterPos];
    assert w'[starterPos..targetPos + 1] == w[starterPos..targetPos] + [s[i]] == [starter] + (marks + [s[i]]);
  }

  lemma ProgressBegins(tb: Tables, s: seq<nat>)
    requires s != []
    ensures Progress(tb, s, s, 1, 0, 1, s[0], [])
  {
    assert s[0..1] == [s[0]] + [];
    assert s[..0] + Composed(tb, s[0], [], s[1..]) == ComposeString(tb, s);
  }

  lemma ProgressEnds(tb: Tables, s: seq<nat>, w: seq<nat>, starterPos: nat, targetPos: nat, starter: nat, marks: seq<nat>)
    requires Progress(tb, s, w, |s|, starterPos, targetPos, starter, marks)
    ensures w[..targetPos] == ComposeString(tb, s)
  {
    assert s[|s|..] == [];
    assert w[..targetPos] == w[..starterPos] + w[starterPos..targetPos];
  }

  /**
   * The composition loop, on a canonically ordered string. It writes in place, never beyond the character it reads, and
   * cuts the string to what it wrote.
   */
  method ComposeInPlace(tb: Tables, a: array<nat>) returns (targetPos: nat)
    requires a.Length > 0 && Canonical(tb.ccc, a[..])
    modifies a
    ensures 0 < targetPos <= a.Length && a[..targetPos] == ComposeString(tb, old(a[..]))
  {
    hide Blocked, InRun, Compose, LastClass, Composed, ComposeString;
    ghost var s := a[..];
    var lastClass: int := -1;
    var i, starterPos, starter := 1, 0, a[0];
    targetPos := 1;
    ghost var marks: seq<nat> := [];
    NoMarks(tb, s[0]);
    ProgressBegins(tb, s);
    while i < a.Length
      invariant 0 <= starterPos < targetPos <= i <= a.Length
      invariant Progress(tb, s, a[..], i, starterPos, targetPos, starter, marks)
      invariant lastClass == LastClass(tb, marks)
    {
      var ch := a[i];
      var chClass := tb.ccc(ch);
      ghost var w := a[..];
      assert w[i] == w[i..][0] == s[i..][0] == s[i];
      BlockedByLast(tb, marks, s[i - 1], ch);
      assert tb.ccc(s[i - 1 + 1]) == 0 || tb.ccc(s[i - 1]) <= tb.ccc(s[i - 1 + 1]);
      RunContinues(tb, marks, s[i - 1], ch);
      var composite := Compose(tb, starter, ch);
      if composite != 0 && lastClass < chClass {
        ProgressCompose(tb, s, w, i, starterPos, targetPos, starter, marks);
        a[starterPos] := composite;
        assert a[..] == w[starterPos := composite];
        starter := composite;
      } else if chClass == 0 {
        ProgressStarter(tb, s, w, i, starterPos, targetPos, starter, marks);
        starterPos := targetPos;
        starter := ch;
        lastClass := -1;
        a[targetPos] := ch;
        assert a[..] == w[targetPos := ch];
        targetPos := targetPos + 1;
        marks := [];
        NoMarks(tb, ch);
      } else {
        ProgressMark(tb, s, w, i, starterPos, targetPos, starter, marks);
        lastClass := chClass;
        a[targetPos] := ch;
        assert a[..] == w[targetPos := ch];
        targetPos := targetPos + 1;
        marks := marks + [ch];
        LastOf(tb, marks);
      }
      i := i + 1;
    }
    ProgressEnds(tb, s, a[..], starterPos, targetPos, starter, marks);
  }

  lemma NoMarks(tb: Tables, before: nat)
    ensures InRun(tb, [], before) && LastClass(tb, []) == -1
  {
  }

  lemma LastOf(tb: Tables, marks: seq<nat>)
    requires marks != []
    ensures LastClass(tb, marks) == tb.ccc(marks[|marks| - 1])
  {
  }

  lemma NextStarter(tb: Tables, finished: seq<nat>, starter: nat, marks: seq<nat>, rest: seq<nat>)
    requires rest != [] && tb.ccc(rest[0]) == 0
    requires Compose(tb, starter, rest[0]) == 0 || Blocked(tb, marks, rest[0])
    ensures finished + Composed(tb, starter, marks, rest) ==
            finished + ([starter] + marks) + Composed(tb, rest[0], [], rest[1..])
  {
  }

  // ---------- normalization ----------

  /** normalize32: decode, decompose, order, and compose if asked to. */
  function Normal32(tb: Tables, str: seq<byte>, compose: bool): seq<nat>
  {
    var ordered := Order(tb.ccc, DecomposeAll(tb, Points8(str, 0)));
    if compose then ComposeString(tb, ordered) else ordered
  }

  /** normalize8; nfc composes, nfd does not. */
  function Normal8(tb: Tables, str: seq<byte>, compose: bool): seq<byte>
  {
    Bytes(Normal32(tb, str, compose))
  }

  method UnicodeDecompose(tb: Tables, pt: nat, out: seq<nat>) returns (out': seq<nat>)
    ensures out' == out + Decompose(tb, pt)
  {
    out' := out;
    if 0xAC00 <= pt < 0xD7A4 {
      out' := out' + [0x1100 + (pt - 0xAC00) / 588];
      out' := out' + [0x1161 + (pt - 0xAC00) % 588 / 28];
      if (pt - 0xAC00) % 28 != 0 {
        out' := out' + [0x11A7 + (pt - 0xAC00) % 28];
      }
      return;
    }
    var entry := tb.decompose(pt);
    if entry.None? {
      out' := out' + [pt];
      return;
    }
    for i := 0 to |entry.value|
      invariant out' == out + entry.value[..i]
    {
      out' := out' + [entry.value[i]];
    }
  }

  /** The first loop of normalize32. The flag is raised if and only if the string does not pass utf8_check. */
  method DecodeAndDecompose(tb: Tables, str: seq<byte>, replacementFlag: bool)
    returns (codepoints: seq<nat>, flag: bool)
    ensures codepoints == DecomposeAll(tb, Points8(str, 0))
    ensures flag <==> replacementFlag || !Check8(str, 0)
  {
    hide Decode8, Decompose;
    codepoints, flag := [], replacementFlag;
    var i := 0;
    while i < |str|
      invariant i <= |str| && codepoints + DecomposeAll(tb, Points8(str, i)) == DecomposeAll(tb, Points8(str, 0))
      invariant flag || !Check8(str, i) <==> replacementFlag || !Check8(str, 0)
    {
      var pt;
      ghost var before := codepoints;
      pt, i, flag := Utf8Decode(str, i, flag);
      codepoints := UnicodeDecompose(tb, pt, codepoints);
      DecomposeStep(tb, before, pt, Points8(str, i));
    }
    assert codepoints + [] == codepoints;
  }

  lemma DecomposeStep(tb: Tables, out: seq<nat>, pt: nat, rest: seq<nat>)
    ensures out + DecomposeAll(tb, [pt] + rest) == out + Decompose(tb, pt) + DecomposeAll(tb, rest)
  {
    assert ([pt] + rest)[1..] == rest;
  }

  method Normalize32(tb: Tables, str: seq<byte>, compose: bool, replacementFlag: bool)
    returns (result: seq<nat>, flag: bool)
    requires TablesOk(tb)
    ensures result == Normal32(tb, str, compose)
    ensures flag <==> replacementFlag || !Check8(str, 0)
  {
    hide Order, DecomposeAll, Points8, Composed;
    result, flag := [], replacementFlag;
    NothingIn(tb);
    if |str| == 0 {
      return;
    }
    var codepoints;
    codepoints, flag := DecodeAndDecompose(tb, str, replacementFlag);
    SomethingIn(tb, str);
    var a := new nat[|codepoints|](k requires 0 <= k < |codepoints| => codepoints[k]);
    assert a[..] == codepoints;
    CanonicalOrder(tb.ccc, a);
    result := a[..];
    if compose {
      OrderOrders(tb.ccc, codepoints);
      var targetPos := ComposeInPlace(tb, a);
      result := a[..targetPos];
    }
  }

  lemma NothingIn(tb: Tables)
    ensures Points8([], 0) == [] && DecomposeAll(tb, []) == [] && Order(tb.ccc, []) == []
  {
  }

  lemma SomethingIn(tb: Tables, str: seq<byte>)
    requires TablesOk(tb) && str != []
    ensures DecomposeAll(tb, Points8(str, 0)) != []
  {
    hide Decode8;
    assert Decompose(tb, Points8(str, 0)[0]) != [];
  }

  // ---------- what normalization keeps ----------

  /** The decomposed form is canonically ordered, and both forms are always well-formed UTF-8. */
  lemma NormalFormsWellFormed(tb: Tables, str: seq<byte>, compose: bool)
    ensures Canonical(tb.ccc, Normal32(tb, str, false))
    ensures Check8(Normal8(tb, str, compose), 0)
    ensures |Normal32(tb, str, true)| <= |Normal32(tb, str, false)|
  {
    hide Order, Points8, DecomposeAll, Check8, Bytes;
    OrderOrders(tb.ccc, DecomposeAll(tb, Points8(str, 0)));
    Utf32RoundTrip(Normal32(tb, str, compose));
  }

  predicate Hangul(pt: nat)
  {
    Syllable(pt) || LJamo(pt) || VJamo(pt) || TJamo(pt)
  }

  /** Jamo are starters, and the table composes no two Hangul characters. */
  ghost predicate NoHangul(tb: Tables)
  {
    && (forall pt :: Hangul(pt) ==> tb.ccc(pt) == 0)
    && (forall l, c :: Hangul(l) && Hangul(c) ==> tb.compose(l, c) == 0)
  }

  predicate AllSyllables(s: seq<nat>)
  {
    forall k :: 0 <= k < |s| ==> Syllable(s[k])
  }

  lemma Parts(tb: Tables, g: nat)
    requires Syllable(g) && NoHangul(tb)
    ensures var d := Decompose(tb, g);
            && (|d| == 2 || |d| == 3) && LJamo(d[0]) && VJamo(d[1])
            && (var lv := Compose(tb, d[0], d[1]);
                && lv != 0 && Syllable(lv)
                && (|d| == 2 ==> lv == g)
                && (|d| == 3 ==> TJamo(d[2]) && Compose(tb, lv, d[2]) == g))
            && forall k :: 0 <= k < |d| ==> tb.ccc(d[k]) == 0
  {
  }

  /** A leading jamo and what follows it compose to their syllable. */
  lemma SyllableComposes(tb: Tables, g: nat, rest: seq<nat>)
    requires Syllable(g) && NoHangul(tb)
    ensures Composed(tb, Decompose(tb, g)[0], [], Decompose(tb, g)[1..] + rest) == Composed(tb, g, [], rest)
  {
    hide Decompose, Compose;
    Parts(tb, g);
    var d := Decompose(tb, g);
    var all := d[1..] + rest;
    var lv := Compose(tb, d[0], d[1]);
    assert all[0] == d[1];
    if |d| == 2 {
      assert all[1..] == rest;
    } else {
      assert all[1..] == [d[2]] + rest && all[1..][1..] == rest;
      assert Composed(tb, lv, [], all[1..]) == Composed(tb, g, [], rest);
    }
  }

  lemma {:induction false} SyllablesCompose(tb: Tables, h: nat, hs: seq<nat>)
    requires Syllable(h) && AllSyllables(hs) && NoHangul(tb)
    ensures Composed(tb, h, [], DecomposeAll(tb, hs)) == [h] + hs
    decreases |hs|
  {
    hide Decompose, Compose;
    if hs != [] {
      var d, rest := Decompose(tb, hs[0]), DecomposeAll(tb, hs[1..]);
      Parts(tb, hs[0]);
      NextSyllable(tb, h, d, rest);
      SyllableComposes(tb, hs[0], rest);
      SyllablesCompose(tb, hs[0], hs[1..]);
      assert hs == [hs[0]] + hs[1..];
    }
  }

  lemma NextSyllable(tb: Tables, h: nat, d: seq<nat>, rest: seq<nat>)
    requires Syllable(h) && NoHangul(tb) && d != [] && LJamo(d[0])
    ensures Composed(tb, h, [], d + rest) == [h] + Composed(tb, d[0], [], d[1..] + rest)
  {
    assert Hangul(h) && Hangul(d[0]);
    assert Compose(tb, h, d[0]) == 0;
    assert (d + rest)[0] == d[0] && (d + rest)[1..] == d[1..] + rest;
    assert [h] + [] == [h];
  }

  lemma {:induction false} JamoAreStarters(tb: Tables, hs: seq<nat>)
    requires AllSyllables(hs) && NoHangul(tb)
    ensures forall k :: 0 <= k < |DecomposeAll(tb, hs)| ==> tb.ccc(DecomposeAll(tb, hs)[k]) == 0
    decreases |hs|
  {
    hide Decompose;
    if hs != [] {
      Parts(tb, hs[0]);
      JamoAreStarters(tb, hs[1..]);
    }
  }

  /** Decomposing and composing a string of Hangul syllables gives the string back: nfc leaves such text alone. */
  lemma HangulRoundTrip(tb: Tables, hs: seq<nat>)
    requires AllSyllables(hs) && NoHangul(tb)
    ensures ComposeString(tb, Order(tb.ccc, DecomposeAll(tb, hs))) == hs
    ensures Normal8(tb, Bytes(hs), true) == Bytes(hs)
  {
    hide Order, Points8, Bytes, Check8, Decompose, Composed;
    JamoAreStarters(tb, hs);
    OrderIdle(tb.ccc, DecomposeAll(tb, hs));
    SyllablesBack(tb, hs);
    assert AllBelow(hs) by { SyllablesBelow(hs); }
    Utf32RoundTrip(hs);
  }

  lemma SyllablesBelow(hs: seq<nat>)
    requires AllSyllables(hs)
    ensures AllBelow(hs)
  {
    assert forall k :: 0 <= k < |hs| ==> Syllable(hs[k]);
  }

  lemma SyllablesBack(tb: Tables, hs: seq<nat>)
    requires AllSyllables(hs) && NoHangul(tb)
    ensures ComposeString(tb, DecomposeAll(tb, hs)) == hs
  {
    hide Decompose, Composed;
    if hs != [] {
      var d, rest := Decompose(tb, hs[0]), DecomposeAll(tb, hs[1..]);
      Parts(tb, hs[0]);
      SyllableComposes(tb, hs[0], rest);
      SyllablesCompose(tb, hs[0], hs[1..]);
      assert (d + rest)[0] == d[0] && (d + rest)[1..] == d[1..] + rest;
      assert [hs[0]] + hs[1..] == hs;
    }
  }
}
