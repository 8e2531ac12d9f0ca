/**
 * GetSigTypeTokName: the recursive printer of type names. It walks the same blobs as ParseType, but has no case for the
 * one-byte tags it does not know, and does not step over them.
 */
module TypeNames {
  import opened Words
  import opened Compressed
  import opened SigTypes
  import opened MethodSignature

  /** The names of the sixteen simple types. */
  function SimpleName(tag: byte): Option<string>
  {
    match tag
    case 0x02 => Some("System.Boolean")
    case 0x03 => Some("System.Char")
    case 0x04 => Some("System.SByte")
    case 0x05 => Some("System.Byte")
    case 0x06 => Some("System.Int16")
    case 0x07 => Some("System.UInt16")
    case 0x08 => Some("System.Int32")
    case 0x09 => Some("System.UInt32")
    case 0x0a => Some("System.Int64")
    case 0x0b => Some("System.UInt64")
    case 0x0c => Some("System.Single")
    case 0x0d => Some("System.Double")
    case 0x0e => Some("System.String")
    case 0x18 => Some("System.IntPtr")
    case 0x19 => Some("System.UIntPtr")
    case 0x1c => Some("System.Object")
    case _ => None
  }

  function Decimal(n: nat): string
  {
    (if n < 10 then "" else Decimal(n / 10)) + ["0123456789"[n % 10]]
  }

  // ---------- what a name should be ----------

  /** The name of a type; names gives the name of the type with a given coded index. */
  function Render(names: nat -> string, t: SigType): string
  {
    match t
    case Simple(tag) => if SimpleName(tag).Some? then SimpleName(tag).value else ""
    case Named(_, token) => names(token.value)
    case SzArray(elem) => Render(names, elem) + "[]"
    case Inst(_, token, _, args) => names(token.value) + "[" + RenderAll(names, args) + "]"
    case Var(number) => "!" + Decimal(number.value)
    case MVar(number) => "!!" + Decimal(number.value)
  }

  function RenderAll(names: nat -> string, ts: seq<SigType>): string
  {
    if ts == [] then ""
    else Render(names, ts[0]) + (if |ts| > 1 then "," else "") + RenderAll(names, ts[1..])
  }

  /** Every one-byte type in t satisfies ok. */
  predicate Every(ok: byte -> bool, t: SigType)
  {
    match t
    case Simple(tag) => ok(tag)
    case SzArray(elem) => Every(ok, elem)
    case Inst(_, _, _, args) => EveryOf(ok, args)
    case _ => true
  }

  predicate EveryOf(ok: byte -> bool, ts: seq<SigType>)
  {
    ts == [] || (Every(ok, ts[0]) && EveryOf(ok, ts[1..]))
  }

  predicate KnownTag(tag: byte)
  {
    SimpleName(tag).Some?
  }

  predicate NotByRef(tag: byte)
  {
    tag != BYREF
  }

  // ---------- the walker as a function ----------

  /** The name built from p on and the cursor afterwards; None if the walk leaves the readable bytes. */
  function Walk(names: nat -> string, bs: seq<byte>, p: nat): (r: Option<Parsed<string>>)
    requires p <= |bs|
    ensures r.Some? ==> p <= r.value.next <= |bs|
    decreases |bs| - p, 1
  {
    if p == |bs| then None
    else if bs[p] == BYREF then
      if p + 1 == |bs| then None
      else
        var r := WalkPlain(names, bs, p + 1);
        if r.None? then None else Some(Parsed(r.value.tree + "&", r.value.next))
    else WalkPlain(names, bs, p)
  }

  function WalkPlain(names: nat -> string, bs: seq<byte>, p: nat): (r: Option<Parsed<string>>)
    requires p < |bs|
    ensures r.Some? ==> p <= r.value.next <= |bs|
    decreases |bs| - p, 0
  {
    if KnownTag(bs[p]) then Some(Parsed(SimpleName(bs[p]).value, p + 1))
    else if NamedTag(bs[p]) then
      var n := NumAt(bs, p + 1, |bs|);
      if n.None? then None else Some(Parsed(names(n.value.value), p + 1 + n.value.width))
    else if bs[p] == SZARRAY then
      var elem := Walk(names, bs, p + 1);
      if elem.None? then None else Some(Parsed(elem.value.tree + "[]", elem.value.next))
    else if bs[p] == GENERICINST then
      var head := Walk(names, bs, p + 1);
      if head.None? then None
      else
        var n := NumAt(bs, head.value.next, |bs|);
        if n.None? then None
        else
          var args := WalkAll(names, bs, head.value.next + n.value.width, n.value.value);
          if args.None? then None
          else Some(Parsed(head.value.tree + "[" + args.value.tree + "]", args.value.next))
    else if bs[p] == MVAR || bs[p] == VAR then
      var n := NumAt(bs, p + 1, |bs|);
      if n.None? then None
      else
        var mark := if bs[p] == MVAR then "!!" else "!";
        Some(Parsed(mark + Decimal(n.value.value), p + 1 + n.value.width))
    else Some(Parsed("", p))
  }

  function WalkAll(names: nat -> string, bs: seq<byte>, p: nat, n: nat): (r: Option<Parsed<string>>)
    requires p <= |bs|
    ensures r.Some? ==> p <= r.value.next <= |bs|
    decreases |bs| - p, n + 2
  {
    if n == 0 then Some(Parsed("", p))
    else
      var first := Walk(names, bs, p);
      if first.None? then None
      else
        var rest := WalkAll(names, bs, first.value.next, n - 1);
        if rest.None? then None
        else Some(Parsed(first.value.tree + (if n > 1 then "," else "") + rest.value.tree, rest.value.next))
  }

  // ---------- agreement with the parser ----------

  /** A byte the walker does not step over. */
  predicate Stuck(tag: byte)
  {
    !KnownTag(tag) && !Structured(tag) && tag != BYREF
  }

  /**
   * On the printed form of a type without one-byte BYREF types inside, followed by anything: if the walker knows all
   * simple types in it, it prints the type's name and stops where the parser stops; if not, it stops short, on a byte
   * it does not know.
   */
  lemma {:induction false} WalkPrinted(names: nat -> string, bs: seq<byte>, p: nat, t: SigType)
    requires WellFormed(t) && Every(NotByRef, t) && At(bs, p, Print(t))
    ensures var r, q := Walk(names, bs, p), p + |Print(t)|;
            if Every(KnownTag, t) then r == Some(Parsed(Render(names, t), q))
            else r.Some? && r.value.next < q && Stuck(bs[r.value.next])
    decreases t
  {
    hide NumAt, NumBytes, Walk, PrintAll, AllWellFormed, RenderAll, At;
    FirstByte(bs, p, t);
    match t
    case SzArray(elem) =>
      AtOne(bs, p, SZARRAY, Print(elem));
      WalkPrinted(names, bs, p + 1, elem);
      WalkArray(names, bs, p);
    case Inst(tag, token, count, args) =>
      WalkInst(names, bs, p, t);
      InstStands(bs, p, t);
      WalkAllPrinted(names, bs, p + 2 + token.width + count.width, args);
      NumLength(token);
      NumLength(count);
    case _ =>
      WalkLeaf(names, bs, p, t);
  }

  lemma WalkLeaf(names: nat -> string, bs: seq<byte>, p: nat, t: SigType)
    requires WellFormed(t) && Every(NotByRef, t) && At(bs, p, Print(t)) && !t.SzArray? && !t.Inst?
    ensures var r, q := Walk(names, bs, p), p + |Print(t)|;
            if Every(KnownTag, t) then r == Some(Parsed(Render(names, t), q))
            else r.Some? && r.value.next == p < q && Stuck(bs[p])
  {
    hide NumAt, NumBytes, Decimal, At;
    FirstByte(bs, p, t);
    match t
    case Simple(tag) =>
    case Named(tag, token) =>
      AtOne(bs, p, tag, NumBytes(token));
      NumHere(bs, p + 1, token);
    case Var(number) =>
      AtOne(bs, p, VAR, NumBytes(number));
      NumHere(bs, p + 1, number);
    case MVar(number) =>
      AtOne(bs, p, MVAR, NumBytes(number));
      NumHere(bs, p + 1, number);
  }

  lemma WalkArray(names: nat -> string, bs: seq<byte>, p: nat)
    requires p < |bs| && bs[p] == SZARRAY
    ensures var elem := Walk(names, bs, p + 1);
            Walk(names, bs, p) ==
            if elem.None? then None else Some(Parsed(elem.value.tree + "[]", elem.value.next))
  {
    assert Walk(names, bs, p) == WalkPlain(names, bs, p);
  }

  lemma NumHere(bs: seq<byte>, p: nat, n: Num)
    requires ValidNum(n) && At(bs, p, NumBytes(n))
    ensures NumAt(bs, p, |bs|) == Some(n) && |NumBytes(n)| == n.width
  {
    NumStands(bs, p, |bs|, n);
  }

  lemma FirstByte(bs: seq<byte>, p: nat, t: SigType)
    requires WellFormed(t) && At(bs, p, Print(t))
    ensures p < |bs| && bs[p] == Print(t)[0] && p + |Print(t)| <= |bs|
  {
    assert bs[p] == bs[p..p + |Print(t)|][0];
  }

  lemma WalkInst(names: nat -> string, bs: seq<byte>, p: nat, t: SigType)
    requires t.Inst? && WellFormed(t) && At(bs, p, Print(t))
    ensures p + 2 + t.token.width + t.count.width <= |bs|
    ensures var args := WalkAll(names, bs, p + 2 + t.token.width + t.count.width, |t.args|);
            Walk(names, bs, p) ==
            if args.None? then None
            else Some(Parsed(names(t.token.value) + "[" + args.value.tree + "]", args.value.next))
  {
    hide NumAt, NumBytes, WalkAll, Print, PrintAll, AllWellFormed, At, Decimal;
    InstStands(bs, p, t);
    NumHere(bs, p + 2, t.token);
    NumHere(bs, p + 2 + t.token.width, t.count);
    assert Walk(names, bs, p + 1) == WalkPlain(names, bs, p + 1);
    assert Walk(names, bs, p + 1) == Some(Parsed(names(t.token.value), p + 2 + t.token.width));
    assert Walk(names, bs, p) == WalkPlain(names, bs, p);
  }

  lemma {:induction false} WalkAllPrinted(names: nat -> string, bs: seq<byte>, p: nat, ts: seq<SigType>)
    requires AllWellFormed(ts) && EveryOf(NotByRef, ts) && At(bs, p, PrintAll(ts))
    ensures var r, q := WalkAll(names, bs, p, |ts|), p + |PrintAll(ts)|;
            if EveryOf(KnownTag, ts) then r == Some(Parsed(RenderAll(names, ts), q))
            else r.Some? && r.value.next < q && Stuck(bs[r.value.next])
    decreases ts
  {
    hide Walk, Print, At, WellFormed, Every, Render;
    if ts == [] {
      AtInside(bs, p, []);
    } else {
      AtAppend(bs, p, Print(ts[0]), PrintAll(ts[1..]));
      WalkPrinted(names, bs, p, ts[0]);
      if Every(KnownTag, ts[0]) {
        WalkAllPrinted(names, bs, p + |Print(ts[0])|, ts[1..]);
      } else {
        AtInside(bs, p, Print(ts[0]));
        StuckForGood(names, bs, Walk(names, bs, p).value.next, |ts| - 1);
      }
    }
  }

  /** The walker never leaves a byte it does not know. */
  lemma {:induction false} StuckForGood(names: nat -> string, bs: seq<byte>, p: nat, n: nat)
    requires p < |bs| && Stuck(bs[p])
    ensures WalkAll(names, bs, p, n).Some? && WalkAll(names, bs, p, n).value.next == p
    decreases n
  {
    if n > 0 {
      assert WalkPlain(names, bs, p) == Some(Parsed("", p));
      assert Walk(names, bs, p) == Some(Parsed("", p));
      StuckForGood(names, bs, p, n - 1);
    }
  }

  /**
   * At any type the parser reads, with no one-byte BYREF inside: the printer stops where the parser stops if and only if
   * all simple types are among the sixteen, and short of that otherwise.
   */
  lemma WalkersAgreeAt(names: nat -> string, bs: seq<byte>, p: nat, end: nat)
    requires end <= |bs| && Parse(bs, p, end).Some?
    ensures var t, q := Parse(bs, p, end).value.tree, Parse(bs, p, end).value.next;
            Every(NotByRef, t) ==>
              var r := Walk(names, bs, p);
              && r.Some? && r.value.next <= q
              && (r.value.next == q <==> Every(KnownTag, t))
              && (Every(KnownTag, t) ==> r.value.tree == Render(names, t))
  {
    hide Parse, Walk, WellFormed, Every, Render, Print;
    var t := Parse(bs, p, end).value.tree;
    ParseSound(bs, p, end);
    if Every(NotByRef, t) {
      WalkPrinted(names, bs, p, t);
    }
  }

  /** Walking a and then b types is walking a + b types. */
  lemma {:induction false} WalkAllSplit(names: nat -> string, bs: seq<byte>, p: nat, a: nat, b: nat)
    requires p <= |bs| && WalkAll(names, bs, p, a).Some?
    ensures var q := WalkAll(names, bs, p, a).value.next;
            && (WalkAll(names, bs, p, a + b).Some? <==> WalkAll(names, bs, q, b).Some?)
            && (WalkAll(names, bs, q, b).Some? ==>
                  WalkAll(names, bs, p, a + b).value.next == WalkAll(names, bs, q, b).value.next)
    decreases a
  {
    if a > 0 {
      WalkAllSplit(names, bs, Walk(names, bs, p).value.next, a - 1, b);
    }
  }

  lemma {:induction false} EveryAppend(ok: byte -> bool, ts: seq<SigType>, us: seq<SigType>)
    ensures EveryOf(ok, ts + us) <==> EveryOf(ok, ts) && EveryOf(ok, us)
    decreases |ts|
  {
    hide Every;
    if ts == [] {
      assert ts + us == us;
    } else {
      EveryAppend(ok, ts[1..], us);
      assert (ts + us)[1..] == ts[1..] + us;
    }
  }

  /** A walk over n types from p on uses up the readable bytes. */
  predicate WalkEnds(names: nat -> string, bs: seq<byte>, p: nat, n: nat)
    requires p <= |bs|
  {
    WalkAll(names, bs, p, n).Some? && WalkAll(names, bs, p, n).value.next == |bs|
  }

  /**
   * A walk over the printed forms of ts, with nothing behind them, can use up the bytes only if it asks for exactly that
   * many types and knows all simple types in them. A one-byte BYREF makes the walk take the next type along, so that it
   * runs out of bytes.
   */
  lemma {:induction false} WalkUsesUp(names: nat -> string, bs: seq<byte>, p: nat, ts: seq<SigType>, n: nat)
    requires AllWellFormed(ts) && p <= |bs| && bs[p..] == PrintAll(ts) && n >= |ts|
    ensures WalkEnds(names, bs, p, n) ==> n == |ts| && EveryOf(KnownTag, ts)
    decreases |bs| - p
  {
    hide WalkAll, PrintAll, AllWellFormed, EveryOf, KnownTag;
    if ts == [] {
      NothingToWalk(names, bs, p, n);
      NoneOf();
    } else {
      var q, us, m := WalkOn(names, bs, p, ts, n);
      WalkUsesUp(names, bs, q, us, m);
    }
  }

  /** One step of such a walk: what stands from q on, and how many types the walk still asks for there. */
  lemma WalkOn(names: nat -> string, bs: seq<byte>, p: nat, ts: seq<SigType>, n: nat)
    returns (q: nat, us: seq<SigType>, m: nat)
    requires ts != [] && AllWellFormed(ts) && p <= |bs| && bs[p..] == PrintAll(ts) && n >= |ts|
    ensures p < q <= |bs| && AllWellFormed(us) && bs[q..] == PrintAll(us) && m >= |us|
    ensures WalkEnds(names, bs, p, n) ==>
              && WalkEnds(names, bs, q, m)
              && (m == |us| && EveryOf(KnownTag, us) ==> n == |ts| && EveryOf(KnownTag, ts))
  {
    hide WalkAll, Walk, At, PrintAll, WellFormed, AllWellFormed, Every, EveryOf, KnownTag, NumBytes;
    var t, rest := ts[0], ts[1..];
    FirstOf(ts);
    PrintedTail(bs, p, ts);
    FirstByte(bs, p, t);
    match t
    case SzArray(elem) =>
      ArrayUsesUp(names, bs, p, t, rest, n);
      q, us, m := p + 1, [elem] + rest, n;
      FirstOf(us);
      ArrayKnown(elem);
    case Inst(_, _, _, args) =>
      q := InstUsesUp(names, bs, p, t, rest, n);
      us, m := args + rest, |args| + (n - 1);
      EveryAppend(KnownTag, args, rest);
      InstKnown(t);
    case _ =>
      us := rest;
      if t == Simple(BYREF) {
        q, m := ByRefUsesUp(names, bs, p, rest, n);
      } else {
        LeafUsesUp(names, bs, p, t, n);
        q, m := p + |Print(t)|, n - 1;
      }
  }

  lemma LeafUsesUp(names: nat -> string, bs: seq<byte>, p: nat, t: SigType, n: nat)
    requires !t.SzArray? && !t.Inst? && t != Simple(BYREF) && WellFormed(t) && At(bs, p, Print(t))
    requires p <= |bs| && n > 0
    ensures p + |Print(t)| <= |bs|
    ensures WalkEnds(names, bs, p, n) ==> Every(KnownTag, t) && WalkEnds(names, bs, p + |Print(t)|, n - 1)
  {
    hide WalkAll, Walk, At, Print, WellFormed, Every, Stuck;
    LeafNotByRef(t);
    WalkFirst(names, bs, p, n);
    FirstByte(bs, p, t);
    if Stuck(bs[p]) {
      StuckForGood(names, bs, p, n - 1);
    }
    WalkLeaf(names, bs, p, t);
  }

  lemma FirstOf(ts: seq<SigType>)
    requires ts != [] && AllWellFormed(ts)
    ensures WellFormed(ts[0]) && AllWellFormed(ts[1..])
    ensures EveryOf(KnownTag, ts) <==> Every(KnownTag, ts[0]) && EveryOf(KnownTag, ts[1..])
  {
  }

  lemma NoneOf()
    ensures EveryOf(KnownTag, [])
  {
  }

  lemma NothingToWalk(names: nat -> string, bs: seq<byte>, p: nat, n: nat)
    requires p <= |bs| && bs[p..] == PrintAll([])
    ensures WalkEnds(names, bs, p, n) ==> n == 0
  {
    assert p == |bs|;
    if n > 0 {
      WalkFirst(names, bs, p, n);
    }
  }

  lemma WalkFirst(names: nat -> string, bs: seq<byte>, p: nat, n: nat)
    requires p <= |bs| && n > 0
    ensures var first := Walk(names, bs, p);
            WalkEnds(names, bs, p, n) <==> first.Some? && WalkEnds(names, bs, first.value.next, n - 1)
  {
    hide Walk;
  }

  lemma LeafNotByRef(t: SigType)
    requires !t.SzArray? && !t.Inst? && t != Simple(BYREF)
    ensures Every(NotByRef, t)
  {
  }

  lemma ArrayKnown(elem: SigType)
    ensures Every(KnownTag, SzArray(elem)) <==> Every(KnownTag, elem)
  {
  }

  lemma InstKnown(t: SigType)
    requires t.Inst?
    ensures Every(KnownTag, t) <==> EveryOf(KnownTag, t.args)
  {
  }

  lemma ArrayUsesUp(names: nat -> string, bs: seq<byte>, p: nat, t: SigType, rest: seq<SigType>, n: nat)
    requires t.SzArray? && WellFormed(t) && AllWellFormed(rest) && p <= |bs| && n > 0
    requires At(bs, p, Print(t)) && p + |Print(t)| <= |bs| && bs[p + |Print(t)|..] == PrintAll(rest)
    ensures AllWellFormed([t.elem] + rest) && p + 1 <= |bs| && bs[p + 1..] == PrintAll([t.elem] + rest)
    ensures WalkEnds(names, bs, p, n) ==> WalkEnds(names, bs, p + 1, n)
  {
    hide WalkAll, Walk, PrintAll, AllWellFormed;
    FirstByte(bs, p, t);
    WalkArray(names, bs, p);
    WalkFirst(names, bs, p, n);
    WalkFirst(names, bs, p + 1, n);
    AtOne(bs, p, SZARRAY, Print(t.elem));
    PrintAllFirst(t.elem, rest);
    assert bs[p + 1..] == bs[p + 1..p + |Print(t)|] + bs[p + |Print(t)|..];
  }

  lemma InstUsesUp(names: nat -> string, bs: seq<byte>, p: nat, t: SigType, rest: seq<SigType>, n: nat)
    returns (q: nat)
    requires t.Inst? && WellFormed(t) && AllWellFormed(rest) && p <= |bs| && n > 0
    requires At(bs, p, Print(t)) && p + |Print(t)| <= |bs| && bs[p + |Print(t)|..] == PrintAll(rest)
    ensures p < q <= |bs| && AllWellFormed(t.args + rest) && bs[q..] == PrintAll(t.args + rest)
    ensures WalkEnds(names, bs, p, n) ==> WalkEnds(names, bs, q, |t.args| + (n - 1))
  {
    hide WalkAll, Walk, At, NumBytes, Print, PrintAll, WellFormed, AllWellFormed;
    q := p + 2 + t.token.width + t.count.width;
    WalkInst(names, bs, p, t);
    WalkFirst(names, bs, p, n);
    if WalkAll(names, bs, q, |t.args|).Some? {
      WalkAllSplit(names, bs, q, |t.args|, n - 1);
    }
    InstLength(t);
    PrintAllAppend(t.args, rest);
    ArgsStand(bs, p, t, rest);
  }

  lemma ArgsStand(bs: seq<byte>, p: nat, t: SigType, rest: seq<SigType>)
    requires t.Inst? && WellFormed(t) && AllWellFormed(t.args) && AllWellFormed(rest)
    requires At(bs, p, Print(t)) && p + |Print(t)| <= |bs| && bs[p + |Print(t)|..] == PrintAll(rest)
    ensures var q := p + 2 + t.token.width + t.count.width;
            q <= |bs| && bs[q..] == PrintAll(t.args) + PrintAll(rest)
  {
    hide NumBytes, Print, PrintAll, WellFormed, AllWellFormed;
    InstStands(bs, p, t);
    InstLength(t);
    var q := p + 2 + t.token.width + t.count.width;
    assert bs[q..] == bs[q..p + |Print(t)|] + bs[p + |Print(t)|..];
  }

  lemma InstLength(t: SigType)
    requires t.Inst? && WellFormed(t)
    ensures AllWellFormed(t.args) && |Print(t)| == 2 + t.token.width + t.count.width + |PrintAll(t.args)|
  {
  }

  /** Behind a BYREF the walk takes the next type along; another BYREF there is not stepped over. */
  lemma ByRefUsesUp(names: nat -> string, bs: seq<byte>, p: nat, rest: seq<SigType>, n: nat)
    returns (q: nat, m: nat)
    requires p < |bs| && bs[p] == BYREF && n > |rest|
    requires AllWellFormed(rest) && bs[p + 1..] == PrintAll(rest)
    ensures q == p + 1 && |rest| <= m && (m == |rest| ==> !EveryOf(KnownTag, rest))
    ensures WalkEnds(names, bs, p, n) ==> WalkEnds(names, bs, q, m)
  {
    hide WalkAll, WalkPlain, Print, WellFormed;
    q, m := p + 1, n;
    WalkFirst(names, bs, p, n);
    if rest != [] {
      FirstOf(rest);
      ByRefUnknown(bs, p + 1, rest);
      WalkFirst(names, bs, p + 1, n);
      if bs[p + 1] == BYREF {
        ByRefIsStuck(names, bs, p + 1);
        m := n - 1;
      }
    }
  }

  lemma ByRefIsStuck(names: nat -> string, bs: seq<byte>, p: nat)
    requires p < |bs| && bs[p] == BYREF
    ensures WalkPlain(names, bs, p) == Some(Parsed("", p))
  {
  }

  lemma ByRefUnknown(bs: seq<byte>, p: nat, ts: seq<SigType>)
    requires ts != [] && AllWellFormed(ts) && p <= |bs| && bs[p..] == PrintAll(ts)
    ensures p < |bs|
    ensures bs[p] == BYREF ==> ts[0] == Simple(BYREF) && !Every(KnownTag, ts[0])
  {
    assert bs[p] == bs[p..][0] == Print(ts[0])[0];
  }

  /** On t followed by these bytes, the printer names t and stops where the parser stops. */
  predicate Agrees(names: nat -> string, t: SigType, suffix: seq<byte>)
    requires WellFormed(t)
  {
    var bs := Print(t) + suffix;
    var parsed, walked := Parse(bs, 0, |bs|), Walk(names, bs, 0);
    && parsed == Some(Parsed(t, |Print(t)|))
    && walked == Some(Parsed(Render(names, t), |Print(t)|))
  }

  /**
   * The two walkers agree on exactly the types all of whose simple types are among the sixteen: there the printer names
   * the type and stops where the parser stops, whatever follows; on any other type it already fails to stop there when
   * nothing follows.
   */
  lemma WalkersAgree(names: nat -> string, t: SigType)
    requires WellFormed(t)
    ensures (forall suffix :: Agrees(names, t, suffix)) <==> Every(KnownTag, t)
    ensures var r := Walk(names, Print(t), 0); r.Some? && r.value.next == |Print(t)| <==> Every(KnownTag, t)
  {
    hide Walk, WellFormed, Print, Every, Parse, Render, WalkAll;
    var bs := Print(t);
    assert bs + [] == bs;
    if Every(KnownTag, t) {
      KnownIsNotByRef(t);
      forall suffix ensures Agrees(names, t, suffix) {
        StandsFirst(t, suffix);
        WalkPrinted(names, bs + suffix, 0, t);
        ParsePrinted(bs + suffix, 0, |bs + suffix|, t);
      }
    }
    var r := Walk(names, bs, 0);
    assert bs[0..] == bs;
    AllUsedUp(names, bs, 0, t);
    assert Agrees(names, t, []) ==> r.Some? && r.value.next == |bs|;
    assert Every(KnownTag, t) ==> Agrees(names, t, []);
  }

  /** A walk that ends where the bytes end, at the end of t, has known everything in t. */
  lemma AllUsedUp(names: nat -> string, bs: seq<byte>, p: nat, t: SigType)
    requires WellFormed(t) && p <= |bs| && bs[p..] == Print(t)
    ensures var r := Walk(names, bs, p); r.Some? && r.value.next == |bs| ==> Every(KnownTag, t)
  {
    hide Walk, WellFormed, Print, Every, WalkAll;
    var r := Walk(names, bs, p);
    if r.Some? && r.value.next == |bs| {
      OneType(t);
      WalkFirst(names, bs, p, 1);
      WalkNone(names, bs, |bs|);
      WalkUsesUp(names, bs, p, [t], 1);
      FirstOf([t]);
    }
  }

  lemma StandsFirst(t: SigType, suffix: seq<byte>)
    requires WellFormed(t)
    ensures At(Print(t) + suffix, 0, Print(t))
  {
    assert (Print(t) + suffix)[0..|Print(t)|] == Print(t);
  }

  lemma OneType(t: SigType)
    requires WellFormed(t)
    ensures AllWellFormed([t]) && PrintAll([t]) == Print(t)
  {
    assert [t][1..] == [];
    assert PrintAll([t]) == Print(t) + PrintAll([t][1..]) == Print(t) + [];
  }

  lemma WalkNone(names: nat -> string, bs: seq<byte>, p: nat)
    requires p <= |bs|
    ensures WalkAll(names, bs, p, 0) == Some(Parsed("", p))
  {
  }

  lemma {:induction false} KnownIsNotByRef(t: SigType)
    requires Every(KnownTag, t)
    ensures Every(NotByRef, t)
    decreases t
  {
    match t
    case SzArray(elem) => KnownIsNotByRef(elem);
    case Inst(_, _, _, args) => KnownAreNotByRef(args);
    case _ =>
  }

  lemma {:induction false} KnownAreNotByRef(ts: seq<SigType>)
    requires EveryOf(KnownTag, ts)
    ensures EveryOf(NotByRef, ts)
    decreases ts
  {
    if ts != [] {
      KnownIsNotByRef(ts[0]);
      KnownAreNotByRef(ts[1..]);
    }
  }

  /**
   * GetTypeTokName of a parameter slice: for a parameter the signature parser cut out, of simple types the walker
   * knows, it is the type's name, with an ampersand for a by-reference parameter, and it uses up exactly the slice.
   */
  lemma ParamName(names: nat -> string, bs: seq<byte>, a: Argument, x: Slot)
    requires a.offset + a.length <= |bs| && ParamOk(x) && Slice(bs, a) == PrintSlot(x)
    requires Every(KnownTag, x.t)
    ensures Walk(names, bs, a.offset) ==
            Some(Parsed(Render(names, x.t) + (if x.byRef then "&" else ""), a.offset + a.length))
  {
    hide Walk, WellFormed, Every, Render, Print, At, PrintSlot, Slice;
    KnownIsNotByRef(x.t);
    var p := a.offset;
    SlotBytes(bs, a, x);
    FirstNotByRef(x.t);
    assert Render(names, x.t) + "" == Render(names, x.t);
    if x.byRef {
      FirstByte(bs, p + 1, x.t);
      WalkPrinted(names, bs, p + 1, x.t);
      RefWalk(names, bs, p);
    } else {
      WalkPrinted(names, bs, p, x.t);
    }
  }

  /** On the slice of x followed by these bytes, the walker names x and uses up the slice. */
  predicate NamesParam(names: nat -> string, x: Slot, suffix: seq<byte>)
    requires ParamOk(x)
  {
    Walk(names, PrintSlot(x) + suffix, 0) ==
    Some(Parsed(Render(names, x.t) + (if x.byRef then "&" else ""), |PrintSlot(x)|))
  }

  /** A parameter is named, whatever follows its slice, if and only if all simple types in it are known. */
  lemma ParamNameExactly(names: nat -> string, x: Slot)
    requires ParamOk(x)
    ensures (forall suffix :: NamesParam(names, x, suffix)) <==> Every(KnownTag, x.t)
  {
    hide Walk, WellFormed, Every, Render, Print, PrintSlot;
    var bs := PrintSlot(x);
    if Every(KnownTag, x.t) {
      forall suffix ensures NamesParam(names, x, suffix) {
        assert Slice(bs + suffix, Argument(0, |bs|)) == bs;
        ParamName(names, bs + suffix, Argument(0, |bs|), x);
      }
    }
    assert bs + [] == bs;
    SlotParts(x);
    if x.byRef {
      RefWalk(names, bs, 0);
      AllUsedUp(names, bs, 1, x.t);
      TwoRefs(names, bs, 0);
    } else {
      AllUsedUp(names, bs, 0, x.t);
    }
    assert Walk(names, bs, 0).Some? && Walk(names, bs, 0).value.next == |bs| ==> Every(KnownTag, x.t);
    assert NamesParam(names, x, []) ==> Walk(names, bs, 0).Some? && Walk(names, bs, 0).value.next == |bs|;
  }

  lemma SlotParts(x: Slot)
    requires ParamOk(x)
    ensures x.byRef ==> |PrintSlot(x)| >= 2 && PrintSlot(x)[0] == BYREF && PrintSlot(x)[1..] == Print(x.t)
    ensures !x.byRef ==> PrintSlot(x)[0..] == Print(x.t)
  {
    hide WellFormed;
  }

  lemma TwoRefs(names: nat -> string, bs: seq<byte>, p: nat)
    requires p + 1 < |bs| && bs[p] == BYREF
    ensures bs[p + 1] == BYREF ==> Walk(names, bs, p) == Some(Parsed("&", p + 1))
  {
    assert !KnownTag(BYREF) && "" + "&" == "&";
  }

  lemma SlotBytes(bs: seq<byte>, a: Argument, x: Slot)
    requires a.offset + a.length <= |bs| && ParamOk(x) && Slice(bs, a) == PrintSlot(x)
    ensures var first := if x.byRef then a.offset + 1 else a.offset;
            At(bs, first, Print(x.t)) && first + |Print(x.t)| == a.offset + a.length
    ensures x.byRef ==> a.offset < |bs| && bs[a.offset] == BYREF
  {
    hide Print, WellFormed;
    assert At(bs, a.offset, PrintSlot(x));
    if x.byRef {
      AtOne(bs, a.offset, BYREF, Print(x.t));
    }
  }

  lemma FirstNotByRef(t: SigType)
    requires WellFormed(t) && Every(NotByRef, t)
    ensures Print(t)[0] != BYREF
  {
  }

  lemma RefWalk(names: nat -> string, bs: seq<byte>, p: nat)
    requires p + 1 <= |bs| && bs[p] == BYREF
    ensures p + 1 < |bs| && bs[p + 1] != BYREF ==>
              var r := Walk(names, bs, p + 1);
              Walk(names, bs, p) == if r.None? then None else Some(Parsed(r.value.tree + "&", r.value.next))
  {
    hide WalkPlain;
    if p + 1 < |bs| && bs[p + 1] != BYREF {
      assert Walk(names, bs, p + 1) == WalkPlain(names, bs, p + 1);
    }
  }

  // ---------- the printer as written ----------

  /** It may only be called where it stays within the readable bytes; it has no end to stop at. */
  method GetSigTypeTokName(names: nat -> string, bs: seq<byte>, cur: nat) returns (tokenName: string, cur': nat)
    requires cur <= |bs| && Walk(names, bs, cur).Some?
    ensures Parsed(tokenName, cur') == Walk(names, bs, cur).value
    ensures cur <= cur' <= |bs|
    decreases |bs| - cur
  {
    hide NumAt;
    tokenName, cur' := "", cur;
    var refFlag := false;
    if bs[cur'] == BYREF {
      cur' := cur' + 1;
      refFlag := true;
    }
    var tag := bs[cur'];
    if KnownTag(tag) {
      tokenName, cur' := SimpleName(tag).value, cur' + 1;
    } else if tag == CLASS || tag == VALUETYPE {
      var token := NumAt(bs, cur' + 1, |bs|).value;
      tokenName, cur' := names(token.value), cur' + 1 + token.width;
    } else if tag == SZARRAY {
      tokenName, cur' := GetSigTypeTokName(names, bs, cur' + 1);
      tokenName := tokenName + "[]";
    } else if tag == GENERICINST {
      tokenName, cur' := GetGenericName(names, bs, cur');
    } else if tag == MVAR {
      var num := NumAt(bs, cur' + 1, |bs|).value;
      tokenName, cur' := "!!" + Decimal(num.value), cur' + 1 + num.width;
    } else if tag == VAR {
      var num := NumAt(bs, cur' + 1, |bs|).value;
      tokenName, cur' := "!" + Decimal(num.value), cur' + 1 + num.width;
    }
    if refFlag {
      tokenName := tokenName + "&";
    }
  }

  /** The GENERICINST case. */
  method GetGenericName(names: nat -> string, bs: seq<byte>, cur: nat) returns (tokenName: string, cur': nat)
    requires cur < |bs| && bs[cur] == GENERICINST && WalkPlain(names, bs, cur).Some?
    ensures Parsed(tokenName, cur') == WalkPlain(names, bs, cur).value
    ensures cur <= cur' <= |bs|
    decreases |bs| - cur, 0
  {
    hide NumAt;
    tokenName, cur' := GetSigTypeTokName(names, bs, cur + 1);
    tokenName := tokenName + "[";
    var num := NumAt(bs, cur', |bs|).value;
    cur' := cur' + num.width;
    ghost var head, first := tokenName, cur';
    ghost var all := WalkAll(names, bs, first, num.value);
    for i := 0 to num.value
      invariant first <= cur' <= |bs|
      invariant WalkAll(names, bs, cur', num.value - i).Some?
      invariant all.value.next == WalkAll(names, bs, cur', num.value - i).value.next
      invariant head + all.value.tree == tokenName + WalkAll(names, bs, cur', num.value - i).value.tree
    {
      var arg;
      arg, cur' := GetSigTypeTokName(names, bs, cur');
      ghost var rest := WalkAll(names, bs, cur', num.value - i - 1).value.tree;
      ghost var comma := if num.value - i > 1 then "," else "";
      assert tokenName + (arg + comma + rest) == tokenName + arg + comma + rest;
      tokenName := tokenName + arg;
      if i != num.value - 1 {
        tokenName := tokenName + ",";
      }
    }
    assert tokenName + "" == tokenName;
    tokenName := tokenName + "]";
  }
}
