/** Method signatures (ECMA-335 Partition II, section 23.2.1) and FunctionMethodSignature::TryParse. */
module MethodSignature {
  import opened Words
  import opened Compressed
  import opened SigTypes

  // ---------- parameters and return types ----------

  /** A parameter or a return type; NoValue is the VOID return type. */
  datatype Slot = NoValue | Slot(byRef: bool, t: SigType)

  /** A parameter does not begin with a custom modifier or TYPEDBYREF; a leading BYREF belongs to the parameter. */
  predicate ParamOk(x: Slot)
  {
    && x.Slot? && WellFormed(x.t)
    && (!x.byRef ==> !(x.t.Simple? && (Modifier(x.t.tag) || x.t.tag == TYPEDBYREF || x.t.tag == BYREF)))
  }

  predicate RetOk(x: Slot)
  {
    x == NoValue || (ParamOk(x) && (!x.byRef ==> x.t != Simple(VOID)))
  }

  function PrintSlot(x: Slot): (s: seq<byte>)
    requires x == NoValue || ParamOk(x)
    ensures s != []
  {
    if x == NoValue then [VOID] else if x.byRef then [BYREF] + Print(x.t) else Print(x.t)
  }

  function ParamAt(bs: seq<byte>, p: nat, end: nat): (r: Option<Parsed<Slot>>)
    requires end <= |bs|
    ensures r.Some? ==> p < r.value.next <= end
  {
    if p >= end || Modifier(bs[p]) || bs[p] == TYPEDBYREF then None
    else
      var byRef := bs[p] == BYREF;
      var t := Parse(bs, if byRef then p + 1 else p, end);
      if t.None? then None else Some(Parsed(Slot(byRef, t.value.tree), t.value.next))
  }

  function RetAt(bs: seq<byte>, p: nat, end: nat): (r: Option<Parsed<Slot>>)
    requires end <= |bs|
    ensures r.Some? ==> p < r.value.next <= end
  {
    if p < end && bs[p] == VOID then Some(Parsed(NoValue, p + 1)) else ParamAt(bs, p, end)
  }

  lemma ParamExact(bs: seq<byte>, p: nat, q: nat, end: nat, x: Slot)
    requires end <= |bs|
    ensures ParamAt(bs, p, end) == Some(Parsed(x, q)) <==>
            ParamOk(x) && p <= q <= end && bs[p..q] == PrintSlot(x)
  {
    hide Parse, WellFormed;
    if x.Slot? && p < q <= end {
      var first := if x.byRef then p + 1 else p;
      if ParamOk(x) && bs[p..q] == PrintSlot(x) {
        assert bs[p] == bs[p..q][0] == PrintSlot(x)[0];
        assert bs[first..q] == bs[p..q][first - p..] == Print(x.t);
      }
      if ParamAt(bs, p, end) == Some(Parsed(x, q)) {
        assert bs[p..q] == (if x.byRef then [bs[p]] else []) + bs[first..q];
      }
      ParseExact(bs, first, q, end, x.t);
      if Parse(bs, first, end) == Some(Parsed(x.t, q)) {
        assert Print(x.t)[0] == bs[first..q][0] == bs[first];
      }
    }
  }

  lemma RetExact(bs: seq<byte>, p: nat, q: nat, end: nat, x: Slot)
    requires end <= |bs|
    ensures RetAt(bs, p, end) == Some(Parsed(x, q)) <==>
            RetOk(x) && p <= q <= end && bs[p..q] == PrintSlot(x)
  {
    hide ParamAt, WellFormed;
    ParamExact(bs, p, q, end, x);
    if p < q <= end {
      assert bs[p] == bs[p..q][0];
      if q == p + 1 {
        assert bs[p..q] == [bs[p]];
      }
      if x.Slot? && ParamOk(x) {
        assert !x.byRef ==> (Print(x.t)[0] == VOID <==> x.t == Simple(VOID));
      }
    }
  }

  lemma RetStands(bs: seq<byte>, p: nat, end: nat, q: nat, x: Slot)
    requires end <= |bs|
    ensures RetAt(bs, p, end) == Some(Parsed(x, q)) <==>
            RetOk(x) && At(bs, p, PrintSlot(x)) && q == p + |PrintSlot(x)| <= end
  {
    hide RetAt, ParamOk, PrintSlot;
    RetExact(bs, p, q, end, x);
  }

  method ParseParam(bs: seq<byte>, cur: nat, end: nat) returns (ok: bool, cur': nat)
    requires cur <= end < |bs|
    ensures ok <==> ParamAt(bs, cur, end).Some?
    ensures ok ==> cur' == ParamAt(bs, cur, end).value.next
    ensures cur <= cur' <= end
  {
    hide Parse;
    cur' := cur;
    if bs[cur'] == CMOD_OPT || bs[cur'] == CMOD_REQD {
      return false, cur';
    }
    if cur' >= end {
      return false, cur';
    }
    if bs[cur'] == TYPEDBYREF {
      return false, cur';
    }
    if bs[cur'] == BYREF {
      cur' := cur' + 1;
    }
    ghost var activations;
    ok, cur', activations := ParseType(bs, cur', end);
  }

  method ParseRetType(bs: seq<byte>, cur: nat, end: nat) returns (ok: bool, cur': nat)
    requires cur <= end < |bs|
    ensures ok <==> RetAt(bs, cur, end).Some?
    ensures ok ==> cur' == RetAt(bs, cur, end).value.next
    ensures cur <= cur' <= end
  {
    hide Parse;
    cur' := cur;
    if bs[cur'] == CMOD_OPT || bs[cur'] == CMOD_REQD {
      return false, cur';
    }
    if cur' >= end {
      return false, cur';
    }
    if bs[cur'] == TYPEDBYREF {
      return false, cur';
    }
    if bs[cur'] == VOID {
      return true, cur' + 1;
    }
    if bs[cur'] == BYREF {
      cur' := cur' + 1;
    }
    ghost var activations;
    ok, cur', activations := ParseType(bs, cur', end);
  }

  // ---------- whole signatures ----------

  const GENERIC: nat := 0x10

  predicate IsGeneric(conv: byte)
  {
    conv / GENERIC % 2 == 1
  }

  /** A parameter with the SENTINEL byte that may precede it. */
  datatype Item = Item(sentinel: bool, slot: Slot)

  datatype MethodSig = MethodSig(conv: byte, typeCount: Option<Num>, count: Num, ret: Slot, items: seq<Item>)

  /** At most one sentinel; a parameter of the one-byte type SENTINEL can only follow the sentinel itself. */
  predicate ItemsOk(items: seq<Item>, seen: bool)
  {
    items == [] ||
    (&& ParamOk(items[0].slot)
     && (if items[0].sentinel then !seen else items[0].slot != Slot(false, Simple(SENTINEL)))
     && ItemsOk(items[1..], seen || items[0].sentinel))
  }

  predicate SigOk(sig: MethodSig)
  {
    && (sig.typeCount.Some? <==> IsGeneric(sig.conv))
    && (sig.typeCount.Some? ==> ValidNum(sig.typeCount.value))
    && ValidNum(sig.count) && sig.count.value == |sig.items|
    && RetOk(sig.ret) && ItemsOk(sig.items, false)
  }

  function Mark(item: Item): seq<byte>
  {
    if item.sentinel then [SENTINEL] else []
  }

  function PrintItems(items: seq<Item>, seen: bool): (s: seq<byte>)
    requires ItemsOk(items, seen)
  {
    if items == [] then []
    else Mark(items[0]) + (PrintSlot(items[0].slot) + PrintItems(items[1..], seen || items[0].sentinel))
  }

  function Head(sig: MethodSig): (s: seq<byte>)
    requires SigOk(sig)
  {
    [sig.conv] + ((if sig.typeCount.Some? then NumBytes(sig.typeCount.value) else []) + NumBytes(sig.count))
  }

  function PrintSig(sig: MethodSig): seq<byte>
    requires SigOk(sig)
  {
    Head(sig) + (PrintSlot(sig.ret) + PrintItems(sig.items, false))
  }

  function ItemsAt(bs: seq<byte>, p: nat, end: nat, n: nat, seen: bool): (r: Option<Parsed<seq<Item>>>)
    requires p <= end <= |bs|
    ensures r.Some? ==> p <= r.value.next <= end && |r.value.tree| == n
    decreases n
  {
    if n == 0 then Some(Parsed([], p))
    else if p >= end || (bs[p] == SENTINEL && seen) then None
    else
      var sentinel := bs[p] == SENTINEL;
      var x := ParamAt(bs, if sentinel then p + 1 else p, end);
      if x.None? then None
      else
        var rest := ItemsAt(bs, x.value.next, end, n - 1, seen || sentinel);
        if rest.None? then None
        else Some(Parsed([Item(sentinel, x.value.tree)] + rest.value.tree, rest.value.next))
  }

  function CountsAt(bs: seq<byte>, end: nat): (r: Option<Parsed<(Option<Num>, Num)>>)
    requires 0 < end <= |bs|
    ensures r.Some? ==> r.value.next <= end
  {
    var types := NumAt(bs, 1, end);
    if IsGeneric(bs[0]) && types.None? then None
    else
      var q := if IsGeneric(bs[0]) then 1 + types.value.width else 1;
      var count := NumAt(bs, q, end);
      if count.None? then None
      else Some(Parsed((if IsGeneric(bs[0]) then types else None, count.value), q + count.value.width))
  }

  function SigAt(bs: seq<byte>, end: nat): (r: Option<Parsed<MethodSig>>)
    requires end <= |bs|
    ensures r.Some? ==> r.value.next <= end
  {
    if end == 0 then None
    else
      var counts := CountsAt(bs, end);
      if counts.None? then None
      else
        var ret := RetAt(bs, counts.value.next, end);
        if ret.None? then None
        else
          var (types, count) := counts.value.tree;
          var items := ItemsAt(bs, ret.value.next, end, count.value, false);
          if items.None? then None
          else Some(Parsed(MethodSig(bs[0], types, count, ret.value.tree, items.value.tree), items.value.next))
  }

  lemma {:induction false} ItemsSound(bs: seq<byte>, p: nat, end: nat, n: nat, seen: bool)
    requires p <= end <= |bs| && ItemsAt(bs, p, end, n, seen).Some?
    ensures var r := ItemsAt(bs, p, end, n, seen).value;
            ItemsOk(r.tree, seen) && At(bs, p, PrintItems(r.tree, seen)) && r.next == p + |PrintItems(r.tree, seen)|
    decreases n
  {
    hide ParamAt, PrintSlot, ParamOk, At;
    var r := ItemsAt(bs, p, end, n, seen).value;
    if n == 0 {
      AtInside(bs, p, []);
    } else {
      var sentinel := bs[p] == SENTINEL;
      var first := if sentinel then p + 1 else p;
      var x := ParamAt(bs, first, end).value;
      var rest := ItemsAt(bs, x.next, end, n - 1, seen || sentinel).value;
      assert r.tree[0] == Item(sentinel, x.tree) && r.tree[1..] == rest.tree;
      ItemsSound(bs, x.next, end, n - 1, seen || sentinel);
      SlotSound(bs, first, end);
      ItemStands(bs, p, r.tree, seen);
    }
  }

  /** A parameter read at p stands there, and begins with a SENTINEL byte only if it is that one-byte type. */
  lemma SlotSound(bs: seq<byte>, p: nat, end: nat)
    requires end <= |bs| && ParamAt(bs, p, end).Some?
    ensures var r := ParamAt(bs, p, end).value;
            && ParamOk(r.tree) && At(bs, p, PrintSlot(r.tree)) && r.next == p + |PrintSlot(r.tree)|
            && (bs[p] == SENTINEL <==> r.tree == Slot(false, Simple(SENTINEL)))
  {
    hide Parse, WellFormed;
    var r := ParamAt(bs, p, end).value;
    ParamExact(bs, p, r.next, end, r.tree);
    assert PrintSlot(r.tree)[0] == bs[p..r.next][0] == bs[p];
  }

  lemma ItemStands(bs: seq<byte>, p: nat, items: seq<Item>, seen: bool)
    requires items != []
    requires ItemsOk(items, seen)
    ensures var first := if items[0].sentinel then p + 1 else p;
            At(bs, p, PrintItems(items, seen)) <==>
            (&& (items[0].sentinel ==> p < |bs| && bs[p] == SENTINEL) && At(bs, first, PrintSlot(items[0].slot))
             && At(bs, first + |PrintSlot(items[0].slot)|, PrintItems(items[1..], seen || items[0].sentinel)))
  {
    hide PrintSlot, ParamOk, At;
    var slot, rest := PrintSlot(items[0].slot), PrintItems(items[1..], seen || items[0].sentinel);
    if items[0].sentinel {
      AtOne(bs, p, SENTINEL, slot + rest);
      AtAppend(bs, p + 1, slot, rest);
    } else {
      assert Mark(items[0]) + (slot + rest) == slot + rest;
      AtAppend(bs, p, slot, rest);
    }
  }

  lemma {:induction false} ItemsPrinted(bs: seq<byte>, p: nat, end: nat, items: seq<Item>, seen: bool)
    requires ItemsOk(items, seen) && end <= |bs|
    requires At(bs, p, PrintItems(items, seen)) && p + |PrintItems(items, seen)| <= end
    ensures ItemsAt(bs, p, end, |items|, seen) == Some(Parsed(items, p + |PrintItems(items, seen)|))
    decreases |items|
  {
    hide ParamAt, PrintSlot, ParamOk, At;
    if items != [] {
      var first := if items[0].sentinel then p + 1 else p;
      ItemStands(bs, p, items, seen);
      SlotPrinted(bs, first, end, items[0].slot);
      ItemsPrinted(bs, first + |PrintSlot(items[0].slot)|, end, items[1..], seen || items[0].sentinel);
      assert items == [items[0]] + items[1..];
    }
  }

  lemma SlotPrinted(bs: seq<byte>, p: nat, end: nat, x: Slot)
    requires ParamOk(x) && end <= |bs| && At(bs, p, PrintSlot(x)) && p + |PrintSlot(x)| <= end
    ensures ParamAt(bs, p, end) == Some(Parsed(x, p + |PrintSlot(x)|))
    ensures bs[p] == SENTINEL <==> x == Slot(false, Simple(SENTINEL))
    ensures |PrintSlot(x)| > 0
  {
    ParamExact(bs, p, p + |PrintSlot(x)|, end, x);
    SlotSound(bs, p, end);
  }

  lemma HeadExact(bs: seq<byte>, end: nat, q: nat, sig: MethodSig)
    requires 0 < end <= |bs| && SigOk(sig)
    ensures bs[0] == sig.conv && CountsAt(bs, end) == Some(Parsed((sig.typeCount, sig.count), q)) <==>
            At(bs, 0, Head(sig)) && q == |Head(sig)| <= end
  {
    hide RetOk, ItemsOk, NumAt, NumBytes, At;
    var types := if sig.typeCount.Some? then NumBytes(sig.typeCount.value) else [];
    var p := 1 + |types|;
    AtOne(bs, 0, sig.conv, types + NumBytes(sig.count));
    AtAppend(bs, 1, types, NumBytes(sig.count));
    NumLength(sig.count);
    if sig.typeCount.Some? {
      NumLength(sig.typeCount.value);
      NumStands(bs, 1, end, sig.typeCount.value);
    } else {
      AtInside(bs, 1, []);
    }
    NumStands(bs, p, end, sig.count);
  }

  /** TryParse accepts exactly the blobs that begin with a printed signature; it does not look at what follows. */
  lemma SigExact(bs: seq<byte>, end: nat, q: nat, sig: MethodSig)
    requires end <= |bs|
    ensures SigAt(bs, end) == Some(Parsed(sig, q)) <==> SigOk(sig) && q <= end && bs[..q] == PrintSig(sig)
  {
    hide CountsAt, RetAt, ItemsAt, Head, ItemsOk, PrintItems, At, RetOk, PrintSlot, ParamOk;
    if SigOk(sig) && q <= end {
      AtStart(bs, q, PrintSig(sig));
    }
    if SigAt(bs, end) == Some(Parsed(sig, q)) {
      SigSound(bs, end);
      AtInside(bs, 0, PrintSig(sig));
    }
    if SigOk(sig) && q <= end && bs[..q] == PrintSig(sig) {
      SigPrinted(bs, end, sig);
    }
  }

  lemma SigSound(bs: seq<byte>, end: nat)
    requires end <= |bs| && SigAt(bs, end).Some?
    ensures var r := SigAt(bs, end).value;
            SigOk(r.tree) && At(bs, 0, PrintSig(r.tree)) && r.next == |PrintSig(r.tree)|
  {
    hide RetAt, ItemsAt, Head, ItemsOk, PrintItems, At, PrintSlot, ParamOk, NumAt;
    var r := SigAt(bs, end).value;
    var sig := r.tree;
    var counts := CountsAt(bs, end).value;
    var ret := RetAt(bs, counts.next, end).value;
    CountsValid(bs, end);
    ItemsSound(bs, ret.next, end, sig.count.value, false);
    RetStands(bs, counts.next, end, ret.next, ret.tree);
    HeadExact(bs, end, counts.next, sig);
    AtAppend(bs, counts.next, PrintSlot(sig.ret), PrintItems(sig.items, false));
    AtAppend(bs, 0, Head(sig), PrintSlot(sig.ret) + PrintItems(sig.items, false));
  }

  lemma CountsValid(bs: seq<byte>, end: nat)
    requires 0 < end <= |bs| && CountsAt(bs, end).Some?
    ensures var (types, count) := CountsAt(bs, end).value.tree;
            ValidNum(count) && (types.Some? <==> IsGeneric(bs[0])) && (types.Some? ==> ValidNum(types.value))
  {
  }

  lemma SigPrinted(bs: seq<byte>, end: nat, sig: MethodSig)
    requires SigOk(sig) && end <= |bs| && At(bs, 0, PrintSig(sig)) && |PrintSig(sig)| <= end
    ensures SigAt(bs, end) == Some(Parsed(sig, |PrintSig(sig)|))
  {
    hide CountsAt, RetAt, ItemsAt, ItemsOk, PrintItems, At, PrintSlot, ParamOk;
    var p := |Head(sig)|;
    var q := p + |PrintSlot(sig.ret)|;
    AtAppend(bs, 0, Head(sig), PrintSlot(sig.ret) + PrintItems(sig.items, false));
    AtAppend(bs, p, PrintSlot(sig.ret), PrintItems(sig.items, false));
    HeadExact(bs, end, p, sig);
    RetStands(bs, p, end, q, sig.ret);
    ItemsPrinted(bs, q, end, sig.items, false);
  }

  // ---------- the slices TryParse hands out ----------

  /** FunctionMethodArgument: a slice of the signature. */
  datatype Argument = Argument(offset: nat, length: nat)

  function Slice(bs: seq<byte>, a: Argument): seq<byte>
    requires a.offset + a.length <= |bs|
  {
    bs[a.offset..a.offset + a.length]
  }

  /** The slices of parameters that stand one after the other from p on. */
  function ArgsFrom(items: seq<Item>, p: nat, seen: bool): (r: seq<Argument>)
    requires ItemsOk(items, seen)
    ensures |r| == |items|
  {
    if items == [] then []
    else
      var a := Argument(p + |Mark(items[0])|, |PrintSlot(items[0].slot)|);
      [a] + ArgsFrom(items[1..], a.offset + a.length, seen || items[0].sentinel)
  }

  /** Where slice i has to begin if the slices tile the blob from p on. */
  function TileStart(items: seq<Item>, args: seq<Argument>, p: nat, i: nat): nat
    requires i <= |items| == |args|
  {
    (if i == 0 then p else args[i - 1].offset + args[i - 1].length) +
    (if i < |items| && items[i].sentinel then 1 else 0)
  }

  /** Slice i begins where the tiling demands and holds exactly the printed form of parameter i. */
  ghost predicate Tile(bs: seq<byte>, items: seq<Item>, args: seq<Argument>, p: nat, i: nat)
    requires i < |items| == |args|
  {
    && args[i].offset == TileStart(items, args, p, i) && args[i].length > 0
    && args[i].offset + args[i].length <= |bs|
    && ParamOk(items[i].slot) && Slice(bs, args[i]) == PrintSlot(items[i].slot)
  }

  /**
   * The slices are contiguous, except for the one byte of a sentinel; each holds exactly the printed form of its
   * parameter, and together they reach from the end of the return type to the end of the signature.
   */
  lemma {:induction false} ArgsTile(bs: seq<byte>, p: nat, items: seq<Item>, seen: bool)
    requires ItemsOk(items, seen) && At(bs, p, PrintItems(items, seen))
    ensures var args := ArgsFrom(items, p, seen);
            && (forall i :: 0 <= i < |items| ==> Tile(bs, items, args, p, i))
            && TileStart(items, args, p, |items|) == p + |PrintItems(items, seen)|
    decreases |items|
  {
    hide PrintSlot, ParamOk, At, Tile;
    if items != [] {
      var args := ArgsFrom(items, p, seen);
      var q := args[0].offset + args[0].length;
      var next := seen || items[0].sentinel;
      assert args[1..] == ArgsFrom(items[1..], q, next);
      ItemStands(bs, p, items, seen);
      ArgsTile(bs, q, items[1..], next);
      FirstTile(bs, p, items, seen);
      forall i | 0 < i < |items| ensures Tile(bs, items, args, p, i) {
        TileShift(bs, items, args, p, i);
      }
      assert TileStart(items, args, p, |items|) == TileStart(items[1..], args[1..], q, |items| - 1);
    }
  }

  lemma FirstTile(bs: seq<byte>, p: nat, items: seq<Item>, seen: bool)
    requires items != [] && ItemsOk(items, seen) && At(bs, p, PrintItems(items, seen))
    ensures Tile(bs, items, ArgsFrom(items, p, seen), p, 0)
  {
    hide PrintItems, ParamOk, PrintSlot;
    ItemStands(bs, p, items, seen);
    ItemFacts(items, seen);
  }

  lemma ItemFacts(items: seq<Item>, seen: bool)
    requires items != [] && ItemsOk(items, seen)
    ensures ParamOk(items[0].slot) && |PrintSlot(items[0].slot)| > 0
  {
    hide ParamOk;
  }

  lemma TileShift(bs: seq<byte>, items: seq<Item>, args: seq<Argument>, p: nat, i: nat)
    requires 0 < i < |items| == |args|
    requires Tile(bs, items[1..], args[1..], args[0].offset + args[0].length, i - 1)
    ensures Tile(bs, items, args, p, i)
  {
    hide PrintSlot, ParamOk;
    assert args[i] == args[1..][i - 1] && items[i] == items[1..][i - 1];
  }

  /** A signature holds at most one sentinel. */
  lemma {:induction false} OneSentinel(items: seq<Item>, seen: bool)
    requires ItemsOk(items, seen)
    ensures forall i, j :: 0 <= i < j < |items| ==> !(items[i].sentinel && items[j].sentinel)
    ensures seen ==> forall i :: 0 <= i < |items| ==> !items[i].sentinel
    decreases |items|
  {
    hide ParamOk;
    if items != [] {
      OneSentinel(items[1..], seen || items[0].sentinel);
      assert forall i :: 0 < i < |items| ==> items[i] == items[1..][i - 1];
    }
  }

  /** One round of the parameter loop. */
  lemma ArgsFromFirst(items: seq<Item>, p: nat, seen: bool)
    requires items != [] && ItemsOk(items, seen)
    ensures ParamOk(items[0].slot) && ItemsOk(items[1..], seen || items[0].sentinel)
    ensures var a := Argument(if items[0].sentinel then p + 1 else p, |PrintSlot(items[0].slot)|);
            ArgsFrom(items, p, seen) == [a] + ArgsFrom(items[1..], a.offset + a.length, seen || items[0].sentinel)
  {
    hide ParamOk, PrintSlot;
  }

  lemma ItemsStep(bs: seq<byte>, p: nat, end: nat, n: nat, seen: bool)
    requires p <= end <= |bs| && n > 0
    ensures var all := ItemsAt(bs, p, end, n, seen);
            var sentinel := p < end && bs[p] == SENTINEL;
            var first := if sentinel then p + 1 else p;
            var x := ParamAt(bs, first, end);
            && (all.Some? <==>
                  && p < end && !(sentinel && seen) && x.Some?
                  && ItemsAt(bs, x.value.next, end, n - 1, seen || sentinel).Some?)
            && (all.Some? ==>
                  var rest := ItemsAt(bs, x.value.next, end, n - 1, seen || sentinel).value.tree;
                  && ItemsOk(all.value.tree, seen) && ItemsOk(rest, seen || sentinel)
                  && ArgsFrom(all.value.tree, p, seen) ==
                     [Argument(first, x.value.next - first)] + ArgsFrom(rest, x.value.next, seen || sentinel))
  {
    hide ParamAt, PrintSlot, ParamOk, ArgsFrom, PrintItems, At, ItemsOk;
    if ItemsAt(bs, p, end, n, seen).Some? {
      var sentinel := bs[p] == SENTINEL;
      var first := if sentinel then p + 1 else p;
      var items := ItemsAt(bs, p, end, n, seen).value.tree;
      ItemsSound(bs, p, end, n, seen);
      SlotSound(bs, first, end);
      ArgsFromFirst(items, p, seen);
      assert items[1..] == ItemsAt(bs, ParamAt(bs, first, end).value.next, end, n - 1, seen || sentinel).value.tree;
    }
  }

  /** With the slices in taken cut off, m parameters are left to read at cur. */
  ghost predicate Left(bs: seq<byte>, end: nat, from: nat, n: nat, taken: seq<Argument>, cur: nat, m: nat, seen: bool)
    requires from <= end <= |bs| && cur <= end
  {
    var all, left := ItemsAt(bs, from, end, n, false), ItemsAt(bs, cur, end, m, seen);
    && (all.Some? <==> left.Some?)
    && (all.Some? ==>
          && ItemsOk(all.value.tree, false) && ItemsOk(left.value.tree, seen)
          && ArgsFrom(all.value.tree, from, false) == taken + ArgsFrom(left.value.tree, cur, seen))
  }

  lemma LeftFirst(bs: seq<byte>, end: nat, from: nat, n: nat)
    requires from <= end <= |bs|
    ensures Left(bs, end, from, n, [], from, n, false)
  {
    if ItemsAt(bs, from, end, n, false).Some? {
      ItemsSound(bs, from, end, n, false);
    }
  }

  lemma LeftStep(bs: seq<byte>, end: nat, from: nat, n: nat, taken: seq<Argument>, cur: nat, m: nat, seen: bool)
    requires from <= end <= |bs| && cur <= end && m > 0
    requires Left(bs, end, from, n, taken, cur, m, seen)
    ensures var sentinel := cur < end && bs[cur] == SENTINEL;
            var first := if sentinel then cur + 1 else cur;
            var x := ParamAt(bs, first, end);
            if cur < end && !(sentinel && seen) && x.Some? then
              Left(bs, end, from, n, taken + [Argument(first, x.value.next - first)], x.value.next, m - 1,
                   seen || sentinel)
            else
              ItemsAt(bs, from, end, n, false).None?
  {
    hide ParamAt, PrintSlot, ParamOk, ItemsAt, ItemsOk, ArgsFrom;
    ItemsStep(bs, cur, end, m, seen);
  }

  // ---------- the class ----------

  class FunctionMethodSignature {
    const pbBase: seq<byte>
    const len: nat
    var numberOfTypeArguments: nat
    var numberOfArguments: nat
    var ret: Argument
    var params: seq<Argument>

    /** The buffer must be readable up to one byte past the signature, where the parsers may look before they check. */
    constructor (pb: seq<byte>, cbBuffer: nat)
      ensures pbBase == pb && len == cbBuffer
      ensures numberOfTypeArguments == 0 && numberOfArguments == 0 && ret == Argument(0, 0) && params == []
    {
      pbBase, len := pb, cbBuffer;
      numberOfTypeArguments, numberOfArguments, ret, params := 0, 0, Argument(0, 0), [];
    }

    /** The fields hold what the signature sig, which stands at the beginning of the blob, says. */
    ghost predicate Holds(sig: MethodSig, before: seq<Argument>)
      reads this
    {
      && SigOk(sig)
      && (sig.typeCount.Some? ==> numberOfTypeArguments == sig.typeCount.value.value)
      && numberOfArguments == |sig.items|
      && ret == Argument(|Head(sig)|, |PrintSlot(sig.ret)|)
      && params == before + ArgsFrom(sig.items, ret.offset + ret.length, false)
    }

    /** TryParse appends to params and leaves what it had parsed in the fields when it fails. */
    method TryParse() returns (ok: bool)
      requires len < |pbBase|
      modifies this
      ensures ok <==> SigAt(pbBase, len).Some?
      ensures ok ==> Holds(SigAt(pbBase, len).value.tree, old(params))
      ensures (ok && !IsGeneric(pbBase[0])) || len == 0 ==> numberOfTypeArguments == old(numberOfTypeArguments)
      ensures old(params) <= params && |params| <= |old(params)| + numberOfArguments
    {
      hide RetAt, ItemsAt, ItemsOk, PrintItems, RetOk, PrintSlot, ParamOk, NumAt;
      var cur, elemType;
      ok, elemType, cur := ParseByte(pbBase, 0, len);
      if !ok { return; }
      if IsGeneric(elemType) {
        var genParamCount;
        ok, genParamCount, cur := ParseNumber(pbBase, cur, len);
        if !ok { return; }
        numberOfTypeArguments := genParamCount;
      }
      var paramCount;
      ok, paramCount, cur := ParseNumber(pbBase, cur, len);
      if !ok { return; }
      numberOfArguments := paramCount;
      assert CountsAt(pbBase, len).value.next == cur;
      var atRet := cur;
      ok, cur := ParseRetType(pbBase, cur, len);
      if !ok { return; }
      ret := Argument(cur - (cur - atRet), cur - atRet);
      ok := ParseParams(cur, paramCount);
      if ok {
        RetSound(pbBase, atRet, len);
        SigSound(pbBase, len);
        HeadExact(pbBase, len, atRet, SigAt(pbBase, len).value.tree);
      }
    }

    /** The parameter loop of TryParse. */
    method ParseParams(from: nat, paramCount: nat) returns (ok: bool)
      requires from <= len < |pbBase|
      modifies this`params
      ensures ok <==> ItemsAt(pbBase, from, len, paramCount, false).Some?
      ensures ok ==> ItemsOk(ItemsAt(pbBase, from, len, paramCount, false).value.tree, false)
      ensures ok ==>
        params == old(params) + ArgsFrom(ItemsAt(pbBase, from, len, paramCount, false).value.tree, from, false)
      ensures old(params) <= params && |params| <= |old(params)| + paramCount
    {
      hide ParamAt, ItemsAt, ItemsOk, ArgsFrom, Left;
      var cur, seen := from, false;
      ghost var before, taken := params, [];
      LeftFirst(pbBase, len, from, paramCount);
      for i := 0 to paramCount
        invariant from <= cur <= len && |taken| == i && params == before + taken
        invariant Left(pbBase, len, from, paramCount, taken, cur, paramCount - i, seen)
      {
        LeftStep(pbBase, len, from, paramCount, taken, cur, paramCount - i, seen);
        if cur >= len {
          return false;
        }
        if pbBase[cur] == SENTINEL {
          if seen {
            return false;
          }
          seen := true;
          cur := cur + 1;
        }
        var atParam := cur;
        ok, cur := ParseParam(pbBase, cur, len);
        if !ok { return; }
        var argument := Argument(cur - (cur - atParam), cur - atParam);
        params := params + [argument];
        taken := taken + [argument];
      }
      ok := true;
      LeftNone(pbBase, len, from, paramCount, taken, cur, seen);
    }
  }

  lemma LeftNone(bs: seq<byte>, end: nat, from: nat, n: nat, taken: seq<Argument>, cur: nat, seen: bool)
    requires from <= end <= |bs| && cur <= end && Left(bs, end, from, n, taken, cur, 0, seen)
    ensures var all := ItemsAt(bs, from, end, n, false);
            all.Some? && ItemsOk(all.value.tree, false) && ArgsFrom(all.value.tree, from, false) == taken
  {
  }

  lemma RetSound(bs: seq<byte>, p: nat, end: nat)
    requires end <= |bs| && RetAt(bs, p, end).Some?
    ensures var r := RetAt(bs, p, end).value; RetOk(r.tree) && r.next == p + |PrintSlot(r.tree)|
  {
    var r := RetAt(bs, p, end).value;
    RetExact(bs, p, r.next, end, r.tree);
  }
}
