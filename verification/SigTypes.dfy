/**
 * The type grammar of signature blobs (ECMA-335 Partition II, section 23.2.12) as far as ParseType supports it, and the
 * recursive-descent parser, proved to accept exactly the printed types.
 */
module SigTypes {
  import opened Words
  import opened Compressed

  const VOID: byte := 0x01
  const PTR: byte := 0x0f
  const BYREF: byte := 0x10
  const VALUETYPE: byte := 0x11
  const CLASS: byte := 0x12
  const VAR: byte := 0x13
  const ARRAY: byte := 0x14
  const GENERICINST: byte := 0x15
  const TYPEDBYREF: byte := 0x16
  const FNPTR: byte := 0x1b
  const SZARRAY: byte := 0x1d
  const MVAR: byte := 0x1e
  const CMOD_REQD: byte := 0x1f
  const CMOD_OPT: byte := 0x20
  const SENTINEL: byte := 0x41

  /** Simple covers every tag the parser has no case for as well: such a tag is a type of one byte. */
  datatype SigType =
    | Simple(tag: byte)
    | Named(tag: byte, token: Num)
    | SzArray(elem: SigType)
    | Inst(tag: byte, token: Num, count: Num, args: seq<SigType>)
    | Var(number: Num)
    | MVar(number: Num)

  predicate Structured(tag: byte)
  {
    tag in [VALUETYPE, CLASS, VAR, GENERICINST, SZARRAY, MVAR]
  }

  predicate Refused(tag: byte)
  {
    tag in [PTR, FNPTR, ARRAY]
  }

  predicate Modifier(tag: byte)
  {
    tag == CMOD_OPT || tag == CMOD_REQD
  }

  predicate NamedTag(tag: byte)
  {
    tag == VALUETYPE || tag == CLASS
  }

  predicate WellFormed(t: SigType)
  {
    match t
    case Simple(tag) => !Structured(tag) && !Refused(tag)
    case Named(tag, token) => NamedTag(tag) && ValidNum(token)
    case SzArray(elem) => WellFormed(elem) && !(elem.Simple? && Modifier(elem.tag))
    case Inst(tag, token, count, args) =>
      NamedTag(tag) && ValidNum(token) && ValidNum(count) && count.value == |args| && AllWellFormed(args)
    case Var(number) => ValidNum(number)
    case MVar(number) => ValidNum(number)
  }

  predicate AllWellFormed(ts: seq<SigType>)
  {
    ts == [] || (WellFormed(ts[0]) && AllWellFormed(ts[1..]))
  }

  function Print(t: SigType): (s: seq<byte>)
    requires WellFormed(t)
    ensures s != []
    ensures t.Simple? <==> !Structured(s[0])
    ensures t.Simple? ==> s == [t.tag]
  {
    match t
    case Simple(tag) => [tag]
    case Named(tag, token) => [tag] + NumBytes(token)
    case SzArray(elem) => [SZARRAY] + Print(elem)
    case Inst(tag, token, count, args) => [GENERICINST, tag] + NumBytes(token) + NumBytes(count) + PrintAll(args)
    case Var(number) => [VAR] + NumBytes(number)
    case MVar(number) => [MVAR] + NumBytes(number)
  }

  function PrintAll(ts: seq<SigType>): (s: seq<byte>)
    requires AllWellFormed(ts)
    ensures |s| >= |ts|
  {
    if ts == [] then [] else Print(ts[0]) + PrintAll(ts[1..])
  }

  // ---------- the parser as a function ----------

  datatype Parsed<T> = Parsed(tree: T, next: nat)

  /** ParseType on the bytes from p up to end: the type read and the cursor after it. */
  function Parse(bs: seq<byte>, p: nat, end: nat): (r: Option<Parsed<SigType>>)
    requires end <= |bs|
    ensures r.Some? ==> p < r.value.next <= end
    decreases end - p, 0
  {
    if p >= end then None
    else if NamedTag(bs[p]) then
      var n := NumAt(bs, p + 1, end);
      if n.None? then None else Some(Parsed(Named(bs[p], n.value), p + 1 + n.value.width))
    else if bs[p] == VAR || bs[p] == MVAR then
      var n := NumAt(bs, p + 1, end);
      if n.None? then None
      else Some(Parsed(if bs[p] == VAR then Var(n.value) else MVar(n.value), p + 1 + n.value.width))
    else if bs[p] == SZARRAY then
      if p + 1 >= end || Modifier(bs[p + 1]) then None
      else
        var e := Parse(bs, p + 1, end);
        if e.None? then None else Some(Parsed(SzArray(e.value.tree), e.value.next))
    else if bs[p] == GENERICINST then
      if p + 1 >= end || !NamedTag(bs[p + 1]) then None
      else
        var token := NumAt(bs, p + 2, end);
        if token.None? then None
        else
          var q := p + 2 + token.value.width;
          var count := NumAt(bs, q, end);
          if count.None? then None
          else
            var args := ParseAll(bs, q + count.value.width, end, count.value.value);
            if args.None? then None
            else Some(Parsed(Inst(bs[p + 1], token.value, count.value, args.value.tree), args.value.next))
    else if Refused(bs[p]) then None
    else Some(Parsed(Simple(bs[p]), p + 1))
  }

  function ParseAll(bs: seq<byte>, p: nat, end: nat, n: nat): (r: Option<Parsed<seq<SigType>>>)
    requires p <= end <= |bs|
    ensures r.Some? ==> p <= r.value.next <= end && |r.value.tree| == n
    decreases end - p, n + 1
  {
    if n == 0 then Some(Parsed([], p))
    else
      var first := Parse(bs, p, end);
      if first.None? then None
      else
        var rest := ParseAll(bs, first.value.next, end, n - 1);
        if rest.None? then None
        else Some(Parsed([first.value.tree] + rest.value.tree, rest.value.next))
  }

  // ---------- what stands where ----------

  /** The bytes s stand at p. */
  predicate At(bs: seq<byte>, p: nat, s: seq<byte>)
  {
    p + |s| <= |bs| && bs[p..p + |s|] == s
  }

  lemma AtAppend(bs: seq<byte>, p: nat, s: seq<byte>, t: seq<byte>)
    ensures At(bs, p, s + t) <==> At(bs, p, s) && At(bs, p + |s|, t)
  {
    var q, e := p + |s|, p + |s| + |t|;
    if e <= |bs| {
      assert bs[p..e] == bs[p..q] + bs[q..e];
      if At(bs, p, s + t) {
        SplitSlice(bs, p, q, e, s, t);
      }
    }
  }

  lemma AtOne(bs: seq<byte>, p: nat, b: byte, t: seq<byte>)
    ensures At(bs, p, [b] + t) <==> p < |bs| && bs[p] == b && At(bs, p + 1, t)
  {
    AtAppend(bs, p, [b], t);
    if p < |bs| {
      assert bs[p..p + 1] == [bs[p]];
    }
  }

  lemma AtInside(bs: seq<byte>, p: nat, s: seq<byte>)
    ensures At(bs, p, s) ==> p + |s| <= |bs|
    ensures At(bs, p, []) <==> p <= |bs|
  {
  }

  /** Standing at the beginning is being the prefix. */
  lemma AtStart(bs: seq<byte>, q: nat, s: seq<byte>)
    requires q <= |bs|
    ensures bs[..q] == s <==> At(bs, 0, s) && q == |s|
  {
    assert bs[0..q] == bs[..q];
  }

  lemma NumStands(bs: seq<byte>, p: nat, end: nat, n: Num)
    requires end <= |bs|
    ensures NumAt(bs, p, end) == Some(n) <==> ValidNum(n) && At(bs, p, NumBytes(n)) && p + n.width <= end
  {
    NumExact(bs, p, end, n);
  }

  // ---------- sound and complete ----------

  /** What the parser returns is well-formed and its printed form is what it read. */
  lemma {:induction false} ParseSound(bs: seq<byte>, p: nat, end: nat)
    requires end <= |bs| && Parse(bs, p, end).Some?
    ensures var r := Parse(bs, p, end).value;
            WellFormed(r.tree) && At(bs, p, Print(r.tree)) && r.next == p + |Print(r.tree)|
    decreases end - p, 0
  {
    hide NumAt, NumBytes, ParseAll, PrintAll, AllWellFormed, At;
    var r := Parse(bs, p, end).value;
    match r.tree
    case Simple(_) => LeafSound(bs, p, end);
    case Named(_, _) => LeafSound(bs, p, end);
    case Var(_) => LeafSound(bs, p, end);
    case MVar(_) => LeafSound(bs, p, end);
    case SzArray(elem) =>
      ParseSound(bs, p + 1, end);
      AtOne(bs, p, SZARRAY, Print(elem));
      AtFirst(bs, p + 1, Print(elem));
    case Inst(tag, token, count, args) =>
      var q := p + 2 + token.width;
      NumStands(bs, p + 2, end, token);
      NumStands(bs, q, end, count);
      ParseAllSound(bs, q + count.width, end, count.value);
      InstStands(bs, p, r.tree);
  }

  lemma LeafSound(bs: seq<byte>, p: nat, end: nat)
    requires end <= |bs| && Parse(bs, p, end).Some?
    requires !Parse(bs, p, end).value.tree.SzArray? && !Parse(bs, p, end).value.tree.Inst?
    ensures var r := Parse(bs, p, end).value;
            WellFormed(r.tree) && At(bs, p, Print(r.tree)) && r.next == p + |Print(r.tree)|
  {
    hide NumAt, NumBytes, ParseAll, PrintAll, AllWellFormed;
    var r := Parse(bs, p, end).value;
    match r.tree
    case Simple(tag) =>
      assert bs[p..p + 1] == [bs[p]];
    case Named(tag, token) =>
      NumStands(bs, p + 1, end, token);
      AtOne(bs, p, tag, NumBytes(token));
    case Var(number) =>
      NumStands(bs, p + 1, end, number);
      AtOne(bs, p, VAR, NumBytes(number));
    case MVar(number) =>
      NumStands(bs, p + 1, end, number);
      AtOne(bs, p, MVAR, NumBytes(number));
  }

  lemma AtFirst(bs: seq<byte>, p: nat, s: seq<byte>)
    requires At(bs, p, s) && s != []
    ensures p < |bs| && bs[p] == s[0]
  {
    assert bs[p] == bs[p..p + |s|][0];
  }

  lemma {:induction false} ParseAllSound(bs: seq<byte>, p: nat, end: nat, n: nat)
    requires p <= end <= |bs| && ParseAll(bs, p, end, n).Some?
    ensures var r := ParseAll(bs, p, end, n).value;
            AllWellFormed(r.tree) && At(bs, p, PrintAll(r.tree)) && r.next == p + |PrintAll(r.tree)|
    decreases end - p, n + 1
  {
    hide Parse, Print, WellFormed, At;
    if n == 0 {
      AtInside(bs, p, []);
    } else {
      var first := Parse(bs, p, end).value;
      var rest := ParseAll(bs, first.next, end, n - 1).value;
      ParseSound(bs, p, end);
      ParseAllSound(bs, first.next, end, n - 1);
      var ts := [first.tree] + rest.tree;
      assert ts[0] == first.tree && ts[1..] == rest.tree;
      AtAppend(bs, p, Print(first.tree), PrintAll(rest.tree));
    }
  }

  /** Where the parts of a printed instantiation stand. */
  lemma InstStands(bs: seq<byte>, p: nat, t: SigType)
    requires t.Inst? && WellFormed(t)
    ensures var q := p + 2 + t.token.width;
            At(bs, p, Print(t)) <==>
            (&& p + 1 < |bs| && bs[p] == GENERICINST && bs[p + 1] == t.tag && At(bs, p + 2, NumBytes(t.token))
             && At(bs, q, NumBytes(t.count)) && At(bs, q + t.count.width, PrintAll(t.args)))
  {
    hide PrintAll, AllWellFormed;
    hide NumBytes, At;
    var token, count, args := NumBytes(t.token), NumBytes(t.count), PrintAll(t.args);
    NumLength(t.token);
    NumLength(t.count);
    assert Print(t) == [GENERICINST] + ([t.tag] + (token + (count + args)));
    AtOne(bs, p, GENERICINST, [t.tag] + (token + (count + args)));
    AtOne(bs, p + 1, t.tag, token + (count + args));
    AtAppend(bs, p + 2, token, count + args);
    AtAppend(bs, p + 2 + t.token.width, count, args);
  }

  /** Every printed type is read back, whatever follows it. */
  lemma {:induction false} ParsePrinted(bs: seq<byte>, p: nat, end: nat, t: SigType)
    requires WellFormed(t) && end <= |bs| && At(bs, p, Print(t)) && p + |Print(t)| <= end
    ensures Parse(bs, p, end) == Some(Parsed(t, p + |Print(t)|))
    decreases t
  {
    hide NumAt, NumBytes, ParseAll, PrintAll, AllWellFormed, At;
    match t
    case Simple(_) => LeafPrinted(bs, p, end, t);
    case Named(_, _) => LeafPrinted(bs, p, end, t);
    case Var(_) => LeafPrinted(bs, p, end, t);
    case MVar(_) => LeafPrinted(bs, p, end, t);
    case SzArray(elem) =>
      AtOne(bs, p, SZARRAY, Print(elem));
      AtFirst(bs, p + 1, Print(elem));
      ParsePrinted(bs, p + 1, end, elem);
    case Inst(tag, token, count, args) =>
      var q := p + 2 + token.width;
      InstStands(bs, p, t);
      NumStands(bs, p + 2, end, token);
      NumStands(bs, q, end, count);
      ParseAllPrinted(bs, q + count.width, end, args);
  }

  lemma LeafPrinted(bs: seq<byte>, p: nat, end: nat, t: SigType)
    requires WellFormed(t) && end <= |bs| && At(bs, p, Print(t)) && p + |Print(t)| <= end
    requires !t.SzArray? && !t.Inst?
    ensures Parse(bs, p, end) == Some(Parsed(t, p + |Print(t)|))
  {
    hide NumAt, NumBytes, ParseAll, PrintAll, AllWellFormed, At;
    match t
    case Simple(_) =>
      AtFirst(bs, p, Print(t));
    case Named(tag, token) =>
      AtOne(bs, p, tag, NumBytes(token));
      NumStands(bs, p + 1, end, token);
    case Var(number) =>
      AtOne(bs, p, VAR, NumBytes(number));
      NumStands(bs, p + 1, end, number);
    case MVar(number) =>
      AtOne(bs, p, MVAR, NumBytes(number));
      NumStands(bs, p + 1, end, number);
  }

  lemma {:induction false} ParseAllPrinted(bs: seq<byte>, p: nat, end: nat, ts: seq<SigType>)
    requires AllWellFormed(ts) && end <= |bs| && At(bs, p, PrintAll(ts)) && p + |PrintAll(ts)| <= end
    ensures ParseAll(bs, p, end, |ts|) == Some(Parsed(ts, p + |PrintAll(ts)|))
    decreases ts
  {
    hide Parse, Print, At, WellFormed;
    if ts != [] {
      var first, rest := Print(ts[0]), PrintAll(ts[1..]);
      AtAppend(bs, p, first, rest);
      ParsePrinted(bs, p, end, ts[0]);
      ParseAllPrinted(bs, p + |first|, end, ts[1..]);
      assert ParseAll(bs, p, end, |ts|) == Some(Parsed([ts[0]] + ts[1..], p + |first| + |rest|));
      assert ts == [ts[0]] + ts[1..];
    }
  }

  /** The first of several printed types, and what is left after it. */
  lemma PrintedTail(bs: seq<byte>, p: nat, ts: seq<SigType>)
    requires ts != [] && AllWellFormed(ts) && p <= |bs| && bs[p..] == PrintAll(ts)
    ensures At(bs, p, Print(ts[0])) && p + |Print(ts[0])| <= |bs| && bs[p + |Print(ts[0])|..] == PrintAll(ts[1..])
  {
    hide Print, WellFormed;
    var first, rest := Print(ts[0]), PrintAll(ts[1..]);
    SplitSlice(bs, p, p + |first|, |bs|, first, rest);
  }

  lemma {:induction false} PrintAllAppend(ts: seq<SigType>, us: seq<SigType>)
    requires AllWellFormed(ts) && AllWellFormed(us)
    ensures AllWellFormed(ts + us) && PrintAll(ts + us) == PrintAll(ts) + PrintAll(us)
    decreases |ts|
  {
    hide Print, WellFormed, PrintAll, AllWellFormed;
    if ts == [] {
      assert ts + us == us;
      PrintNone();
    } else {
      assert ts == [ts[0]] + ts[1..] && ts + us == [ts[0]] + (ts[1..] + us);
      PrintAllFirst(ts[0], ts[1..]);
      PrintAllAppend(ts[1..], us);
      PrintAllFirst(ts[0], ts[1..] + us);
    }
  }

  lemma PrintNone()
    ensures AllWellFormed([]) && PrintAll([]) == []
  {
  }

  lemma PrintAllFirst(t: SigType, ts: seq<SigType>)
    ensures AllWellFormed([t] + ts) <==> WellFormed(t) && AllWellFormed(ts)
    ensures AllWellFormed([t] + ts) ==> PrintAll([t] + ts) == Print(t) + PrintAll(ts)
  {
    hide Print, WellFormed;
    assert ([t] + ts)[0] == t && ([t] + ts)[1..] == ts;
  }

  /**
   * The parser accepts exactly the printed forms of well-formed types: it reads t and stops at q if and only if t's
   * printed form is the stretch from p to q, within the end. Anything may follow.
   */
  lemma ParseExact(bs: seq<byte>, p: nat, q: nat, end: nat, t: SigType)
    requires end <= |bs|
    ensures Parse(bs, p, end) == Some(Parsed(t, q)) <==>
            WellFormed(t) && p <= q <= end && bs[p..q] == Print(t)
  {
    hide Parse;
    if Parse(bs, p, end) == Some(Parsed(t, q)) {
      ParseSound(bs, p, end);
    }
    if WellFormed(t) && p <= q <= end && bs[p..q] == Print(t) {
      ParsePrinted(bs, p, end, t);
    }
  }

  /** No printed type is the beginning of another one. */
  lemma PrefixFree(t: SigType, u: SigType, after: seq<byte>)
    requires WellFormed(t) && WellFormed(u) && Print(t) + after == Print(u)
    ensures t == u && after == []
  {
    hide Parse, WellFormed, Print;
    var bs := Print(u);
    assert bs[0..|Print(t)|] == Print(t) && bs[0..|bs|] == bs;
    ParseExact(bs, 0, |Print(t)|, |bs|, t);
    ParseExact(bs, 0, |bs|, |bs|, u);
  }

  // ---------- the parser as written ----------

  method ParseTypeDefOrRefEncoded(bs: seq<byte>, cur: nat, end: nat)
    returns (ok: bool, indexType: byte, index: nat, cur': nat)
    requires cur <= end <= |bs|
    ensures ok <==> NumAt(bs, cur, end).Some?
    ensures ok ==> cur' == cur + NumAt(bs, cur, end).value.width
    ensures ok ==> indexType < 4 && CodedIndex(index, indexType) == NumAt(bs, cur, end).value.value
    ensures cur <= cur' <= end
  {
    var encoded;
    ok, encoded, cur' := ParseNumber(bs, cur, end);
    indexType, index := encoded % 4, encoded / 4;
  }

  /**
   * ParseType. It looks at one byte without checking the end, so the byte at end must be readable; its value has no
   * influence. A type takes at most one activation for each byte it consumes, so that a large argument count cannot
   * make the parser run longer than the signature allows.
   */
  method ParseType(bs: seq<byte>, cur: nat, end: nat) returns (ok: bool, cur': nat, ghost activations: nat)
    requires cur <= end < |bs|
    ensures ok <==> Parse(bs, cur, end).Some?
    ensures ok ==> cur' == Parse(bs, cur, end).value.next
    ensures cur <= cur' <= end
    ensures activations <= cur' - cur + (if ok then 0 else 1)
    decreases end - cur
  {
    hide NumAt;
    activations := 1;
    var elemType;
    ok, elemType, cur' := ParseByte(bs, cur, end);
    if !ok { return; }
    if elemType == PTR || elemType == FNPTR || elemType == ARRAY {
      return false, cur', 1;
    }
    if elemType == CLASS || elemType == VALUETYPE {
      var indexType, index;
      ok, indexType, index, cur' := ParseTypeDefOrRefEncoded(bs, cur', end);
      return;
    }
    if elemType == SZARRAY {
      if bs[cur'] == CMOD_OPT || bs[cur'] == CMOD_REQD {
        return false, cur', 1;
      }
      ghost var inner;
      ok, cur', inner := ParseType(bs, cur', end);
      return ok, cur', inner + 1;
    }
    if elemType == GENERICINST {
      ok, cur', activations := ParseInst(bs, cur, cur', end);
      return;
    }
    if elemType == VAR || elemType == MVAR {
      var number;
      ok, number, cur' := ParseNumber(bs, cur', end);
      return;
    }
  }

  /** The GENERICINST case of ParseType, from the byte after the tag. */
  method ParseInst(bs: seq<byte>, ghost start: nat, cur: nat, end: nat)
    returns (ok: bool, cur': nat, ghost activations: nat)
    requires start < cur == start + 1 <= end < |bs| && bs[start] == GENERICINST
    ensures ok <==> Parse(bs, start, end).Some?
    ensures ok ==> cur' == Parse(bs, start, end).value.next
    ensures cur <= cur' <= end
    ensures activations <= cur' - start + (if ok then 0 else 1)
    decreases end - start, 0
  {
    hide NumAt;
    activations := 1;
    var elemType, indexType, index, number;
    ok, elemType, cur' := ParseByte(bs, cur, end);
    if !ok { return; }
    if elemType != CLASS && elemType != VALUETYPE {
      return false, cur', 1;
    }
    ok, indexType, index, cur' := ParseTypeDefOrRefEncoded(bs, cur', end);
    if !ok { return; }
    ok, number, cur' := ParseNumber(bs, cur', end);
    if !ok { return; }
    ghost var first := cur';
    for i := 0 to number
      invariant first <= cur' <= end
      invariant ParseAll(bs, first, end, number).Some? <==> ParseAll(bs, cur', end, number - i).Some?
      invariant ParseAll(bs, first, end, number).Some? ==>
        ParseAll(bs, first, end, number).value.next == ParseAll(bs, cur', end, number - i).value.next
      invariant i <= cur' - first && activations <= 1 + cur' - first
    {
      ghost var inner;
      ok, cur', inner := ParseType(bs, cur', end);
      activations := activations + inner;
      if !ok { return; }
    }
    ok := true;
  }
}
