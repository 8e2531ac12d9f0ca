/**
 * The types a local variable can have, in full: pointers, arrays with a shape, function pointers, custom modifiers, pinned
 * and by-reference locals (ECMA-335 Partition II, sections 23.2.1, 23.2.6 and 23.2.12). Their encodings are read from the
 * left in one way only, and those the parser of method signatures accepts are told apart from the others.
 */
module LocalTypes {
  import opened Words
  import opened Compressed
  import opened SigTypes
  import TypeNames

  const PINNED: byte := 0x45

  /** A list of numbers with its length in front. */
  datatype Numbers = Numbers(count: Num, items: seq<Num>)

  /** Encodings by shape; where each may occur is the business of IsType and IsLocal. */
  datatype LocalType =
    | Basic(tag: byte)
    | Class(tag: byte, token: Num)
    | Parameter(tag: byte, number: Num)
    | Prefix(tag: byte, inner: LocalType)
    | Modified(tag: byte, token: Num, inner: LocalType)
    | Shaped(elem: LocalType, rank: Num, sizes: Numbers, bounds: Numbers)
    | Instance(tag: byte, token: Num, count: Num, args: seq<LocalType>)
    | Function(conv: byte, typeCount: Option<Num>, count: Num, ret: LocalType, params: seq<LocalType>)

  /** BOOLEAN to STRING, I, U and OBJECT. */
  predicate Primitive(tag: byte)
  {
    0x02 <= tag <= 0x0e || tag == 0x18 || tag == 0x19 || tag == 0x1c
  }

  predicate NumbersOk(ns: Numbers)
  {
    ValidNum(ns.count) && ns.count.value == |ns.items| && forall i :: 0 <= i < |ns.items| ==> ValidNum(ns.items[i])
  }

  /** Tags and numbers are those of the shape. */
  predicate Sound(t: LocalType)
  {
    match t
    case Basic(tag) => Primitive(tag) || tag == VOID || tag == TYPEDBYREF
    case Class(tag, token) => NamedTag(tag) && ValidNum(token)
    case Parameter(tag, number) => (tag == VAR || tag == MVAR) && ValidNum(number)
    case Prefix(tag, inner) => tag in [SZARRAY, PTR, BYREF, PINNED, SENTINEL] && Sound(inner)
    case Modified(tag, token, inner) => Modifier(tag) && ValidNum(token) && Sound(inner)
    case Shaped(elem, rank, sizes, bounds) => Sound(elem) && ValidNum(rank) && NumbersOk(sizes) && NumbersOk(bounds)
    case Instance(tag, token, count, args) =>
      NamedTag(tag) && ValidNum(token) && ValidNum(count) && count.value == |args| && AllSound(args)
    case Function(conv, typeCount, count, ret, params) =>
      && (typeCount.Some? <==> conv / 0x10 % 2 == 1) && (typeCount.Some? ==> ValidNum(typeCount.value))
      && ValidNum(count) && count.value == |params| && Sound(ret) && AllSound(params)
  }

  predicate AllSound(ts: seq<LocalType>)
  {
    ts == [] || (Sound(ts[0]) && AllSound(ts[1..]))
  }

  // ---------- where the shapes may occur ----------

  predicate IsType(t: LocalType)
    decreases t, 0
  {
    match t
    case Basic(tag) => Primitive(tag)
    case Class(_, _) => true
    case Parameter(_, _) => true
    case Prefix(tag, inner) =>
      (tag == SZARRAY && IsElement(inner)) || (tag == PTR && (IsElement(inner) || IsVoid(inner)))
    case Modified(_, _, _) => false
    case Shaped(elem, _, _, _) => IsType(elem)
    case Instance(_, _, _, args) => AllTypes(args)
    case Function(_, _, _, ret, params) => IsReturn(ret) && AllParams(params)
  }

  predicate AllTypes(ts: seq<LocalType>)
    decreases ts, 0
  {
    ts == [] || (IsType(ts[0]) && AllTypes(ts[1..]))
  }

  predicate IsElement(t: LocalType)
    decreases t, 1
  {
    if t.Modified? then IsElement(t.inner) else IsType(t)
  }

  predicate IsVoid(t: LocalType)
  {
    if t.Modified? then IsVoid(t.inner) else t == Basic(VOID)
  }

  predicate IsParam(t: LocalType)
    decreases t, 1
  {
    if t.Modified? then IsParam(t.inner)
    else if t.Prefix? && t.tag == SENTINEL then IsParam(t.inner)
    else if t.Prefix? && t.tag == BYREF then IsType(t.inner)
    else t == Basic(TYPEDBYREF) || IsType(t)
  }

  predicate AllParams(ts: seq<LocalType>)
    decreases ts, 0
  {
    ts == [] || (IsParam(ts[0]) && AllParams(ts[1..]))
  }

  predicate IsReturn(t: LocalType)
    decreases t, 2
  {
    IsVoid(t) || IsParam(t)
  }

  /** TYPEDBYREF, or any modifiers and PINNED marks, a BYREF or not, and a type. */
  predicate IsLocal(t: LocalType)
  {
    if t.Modified? || (t.Prefix? && t.tag == PINNED) then t.inner != Basic(TYPEDBYREF) && IsLocal(t.inner)
    else if t.Prefix? && t.tag == BYREF then IsType(t.inner)
    else t == Basic(TYPEDBYREF) || IsType(t)
  }

  // ---------- the encoding, written in front of what follows it ----------

  function SpellNums(ns: seq<Num>, rest: seq<byte>): seq<byte>
    requires forall i :: 0 <= i < |ns| ==> ValidNum(ns[i])
  {
    if ns == [] then rest else NumBytes(ns[0]) + SpellNums(ns[1..], rest)
  }

  function SpellNumbers(ns: Numbers, rest: seq<byte>): seq<byte>
    requires NumbersOk(ns)
  {
    NumBytes(ns.count) + SpellNums(ns.items, rest)
  }

  function Spell(t: LocalType, rest: seq<byte>): (s: seq<byte>)
    requires Sound(t)
    ensures s != []
    decreases t
  {
    match t
    case Basic(tag) => [tag] + rest
    case Class(tag, token) => [tag] + (NumBytes(token) + rest)
    case Parameter(tag, number) => [tag] + (NumBytes(number) + rest)
    case Prefix(tag, inner) => [tag] + Spell(inner, rest)
    case Modified(tag, token, inner) => [tag] + (NumBytes(token) + Spell(inner, rest))
    case Shaped(elem, rank, sizes, bounds) =>
      [ARRAY] + Spell(elem, NumBytes(rank) + SpellNumbers(sizes, SpellNumbers(bounds, rest)))
    case Instance(tag, token, count, args) =>
      [GENERICINST] + ([tag] + (NumBytes(token) + (NumBytes(count) + SpellAll(args, rest))))
    case Function(conv, typeCount, count, ret, params) =>
      [FNPTR] + ([conv] + SpellOptional(typeCount, NumBytes(count) + Spell(ret, SpellAll(params, rest))))
  }

  function SpellAll(ts: seq<LocalType>, rest: seq<byte>): seq<byte>
    requires AllSound(ts)
    decreases ts
  {
    if ts == [] then rest else Spell(ts[0], SpellAll(ts[1..], rest))
  }

  function SpellOptional(n: Option<Num>, rest: seq<byte>): seq<byte>
    requires n.Some? ==> ValidNum(n.value)
  {
    if n.Some? then NumBytes(n.value) + rest else rest
  }

  // ---------- read from the left in one way only ----------

  lemma SameFirst<T>(x: T, r: seq<T>, y: T, s: seq<T>)
    requires [x] + r == [y] + s
    ensures x == y && r == s
  {
    assert ([x] + r)[0] == x && ([y] + s)[0] == y && ([x] + r)[1..] == r && ([y] + s)[1..] == s;
  }

  lemma SameNumber(n: Num, r: seq<byte>, m: Num, s: seq<byte>)
    requires ValidNum(n) && ValidNum(m) && NumBytes(n) + r == NumBytes(m) + s
    ensures n == m && r == s
  {
    hide NumBytes, NumAt;
    var bs := NumBytes(n) + r;
    NumLength(n);
    NumLength(m);
    assert bs[0..n.width] == NumBytes(n) && bs[n.width..] == r;
    assert bs[0..m.width] == NumBytes(m) && bs[m.width..] == s;
    NumExact(bs, 0, |bs|, n);
    NumExact(bs, 0, |bs|, m);
  }

  lemma {:induction false} SameNums(ns: seq<Num>, r: seq<byte>, ms: seq<Num>, s: seq<byte>)
    requires forall i :: 0 <= i < |ns| ==> ValidNum(ns[i])
    requires forall i :: 0 <= i < |ms| ==> ValidNum(ms[i])
    requires |ns| == |ms| && SpellNums(ns, r) == SpellNums(ms, s)
    ensures ns == ms && r == s
  {
    hide ValidNum, NumBytes;
    if ns != [] {
      SameNumber(ns[0], SpellNums(ns[1..], r), ms[0], SpellNums(ms[1..], s));
      SameNums(ns[1..], r, ms[1..], s);
      assert ns == [ns[0]] + ns[1..] && ms == [ms[0]] + ms[1..];
    }
  }

  lemma SameNumbers(ns: Numbers, r: seq<byte>, ms: Numbers, s: seq<byte>)
    requires NumbersOk(ns) && NumbersOk(ms) && SpellNumbers(ns, r) == SpellNumbers(ms, s)
    ensures ns == ms && r == s
  {
    hide SpellNums, NumBytes;
    SameNumber(ns.count, SpellNums(ns.items, r), ms.count, SpellNums(ms.items, s));
    SameNums(ns.items, r, ms.items, s);
  }

  /** The first byte tells the shape. */
  function ShapeOf(tag: byte): nat
  {
    if NamedTag(tag) then 1 else if tag == VAR || tag == MVAR then 2
    else if tag in [SZARRAY, PTR, BYREF, PINNED, SENTINEL] then 3
    else if Modifier(tag) then 4 else if tag == ARRAY then 5 else if tag == GENERICINST then 6
    else if tag == FNPTR then 7 else 0
  }

  function Shape(t: LocalType): nat
  {
    match t
    case Basic(_) => 0
    case Class(_, _) => 1
    case Parameter(_, _) => 2
    case Prefix(_, _) => 3
    case Modified(_, _, _) => 4
    case Shaped(_, _, _, _) => 5
    case Instance(_, _, _, _) => 6
    case Function(_, _, _, _, _) => 7
  }

  lemma StartOf(t: LocalType, rest: seq<byte>)
    requires Sound(t)
    ensures ShapeOf(Spell(t, rest)[0]) == Shape(t)
    ensures t.Prefix? || t.Basic? ==> Spell(t, rest)[0] == t.tag
  {
  }

  /** What an encoding says after its first byte, and whose it is, is settled by the bytes. */
  lemma {:induction false} SameType(t: LocalType, r: seq<byte>, u: LocalType, s: seq<byte>)
    requires Sound(t) && Sound(u) && Spell(t, r) == Spell(u, s)
    ensures t == u && r == s
    decreases t
  {
    hide NumBytes, ValidNum, ShapeOf, SpellNumbers, NumbersOk, SpellAll, AllSound, SpellOptional, Primitive;
    StartOf(t, r);
    StartOf(u, s);
    match t
    case Basic(tag) => SameFirst(tag, r, u.tag, s);
    case Class(tag, token) =>
      SameFirst(tag, NumBytes(token) + r, u.tag, NumBytes(u.token) + s);
      SameNumber(token, r, u.token, s);
    case Parameter(tag, number) =>
      SameFirst(tag, NumBytes(number) + r, u.tag, NumBytes(u.number) + s);
      SameNumber(number, r, u.number, s);
    case Prefix(tag, inner) =>
      SameFirst(tag, Spell(inner, r), u.tag, Spell(u.inner, s));
      SameType(inner, r, u.inner, s);
    case Modified(tag, token, inner) =>
      SameFirst(tag, NumBytes(token) + Spell(inner, r), u.tag, NumBytes(u.token) + Spell(u.inner, s));
      SameNumber(token, Spell(inner, r), u.token, Spell(u.inner, s));
      SameType(inner, r, u.inner, s);
    case Shaped(elem, rank, sizes, bounds) =>
      var r2, s2 := SpellNumbers(bounds, r), SpellNumbers(u.bounds, s);
      var r1, s1 := SpellNumbers(sizes, r2), SpellNumbers(u.sizes, s2);
      SameFirst(ARRAY, Spell(elem, NumBytes(rank) + r1), ARRAY, Spell(u.elem, NumBytes(u.rank) + s1));
      SameType(elem, NumBytes(rank) + r1, u.elem, NumBytes(u.rank) + s1);
      SameNumber(rank, r1, u.rank, s1);
      SameNumbers(sizes, r2, u.sizes, s2);
      SameNumbers(bounds, r, u.bounds, s);
    case Instance(_, _, _, args) =>
      SameInstance(t, r, u, s);
      SameTypes(args, r, u.args, s);
    case Function(_, _, _, ret, params) =>
      SameHead(t, r, u, s);
      SameType(ret, SpellAll(params, r), u.ret, SpellAll(u.params, s));
      SameTypes(params, r, u.params, s);
  }

  lemma {:induction false} SameTypes(ts: seq<LocalType>, r: seq<byte>, us: seq<LocalType>, s: seq<byte>)
    requires AllSound(ts) && AllSound(us) && |ts| == |us| && SpellAll(ts, r) == SpellAll(us, s)
    ensures ts == us && r == s
    decreases ts
  {
    hide Spell, Sound;
    if ts != [] {
      SameType(ts[0], SpellAll(ts[1..], r), us[0], SpellAll(us[1..], s));
      SameTypes(ts[1..], r, us[1..], s);
      assert ts == [ts[0]] + ts[1..] && us == [us[0]] + us[1..];
    }
  }

  lemma SameInstance(t: LocalType, r: seq<byte>, u: LocalType, s: seq<byte>)
    requires t.Instance? && u.Instance? && Sound(t) && Sound(u) && Spell(t, r) == Spell(u, s)
    ensures t.tag == u.tag && t.token == u.token && t.count == u.count && AllSound(t.args) && AllSound(u.args)
    ensures |t.args| == |u.args| && SpellAll(t.args, r) == SpellAll(u.args, s)
  {
    hide NumBytes, ValidNum, SpellAll, AllSound;
    var r2, s2 := NumBytes(t.count) + SpellAll(t.args, r), NumBytes(u.count) + SpellAll(u.args, s);
    SameFirst(GENERICINST, [t.tag] + (NumBytes(t.token) + r2), GENERICINST, [u.tag] + (NumBytes(u.token) + s2));
    SameFirst(t.tag, NumBytes(t.token) + r2, u.tag, NumBytes(u.token) + s2);
    SameNumber(t.token, r2, u.token, s2);
    SameNumber(t.count, SpellAll(t.args, r), u.count, SpellAll(u.args, s));
  }

  lemma SameHead(t: LocalType, r: seq<byte>, u: LocalType, s: seq<byte>)
    requires t.Function? && u.Function? && Sound(t) && Sound(u) && Spell(t, r) == Spell(u, s)
    ensures t.conv == u.conv && t.typeCount == u.typeCount && t.count == u.count && |t.params| == |u.params|
    ensures AllSound(t.params) && AllSound(u.params)
    ensures Spell(t.ret, SpellAll(t.params, r)) == Spell(u.ret, SpellAll(u.params, s))
  {
    hide NumBytes, ValidNum, SpellAll, AllSound;
    var r2, s2 := Spell(t.ret, SpellAll(t.params, r)), Spell(u.ret, SpellAll(u.params, s));
    var r1, s1 := NumBytes(t.count) + r2, NumBytes(u.count) + s2;
    SameFirst(FNPTR, [t.conv] + SpellOptional(t.typeCount, r1), FNPTR, [u.conv] + SpellOptional(u.typeCount, s1));
    SameFirst(t.conv, SpellOptional(t.typeCount, r1), u.conv, SpellOptional(u.typeCount, s1));
    if t.typeCount.Some? {
      SameNumber(t.typeCount.value, r1, u.typeCount.value, s1);
    }
    SameNumber(t.count, r2, u.count, s2);
  }

  lemma {:induction false} SpellNumsOnto(ns: seq<Num>, a: seq<byte>, b: seq<byte>)
    requires forall i :: 0 <= i < |ns| ==> ValidNum(ns[i])
    ensures SpellNums(ns, a + b) == SpellNums(ns, a) + b
  {
    hide ValidNum, NumBytes;
    if ns != [] {
      SpellNumsOnto(ns[1..], a, b);
    }
  }

  lemma InstanceOnto(tag: byte, token: Num, count: Num, a: seq<byte>, b: seq<byte>)
    requires ValidNum(token) && ValidNum(count)
    ensures [GENERICINST] + ([tag] + (NumBytes(token) + (NumBytes(count) + (a + b)))) ==
            [GENERICINST] + ([tag] + (NumBytes(token) + (NumBytes(count) + a))) + b
  {
    hide NumBytes;
  }

  lemma HeadOnto(conv: byte, typeCount: Option<Num>, count: Num, a: seq<byte>, b: seq<byte>)
    requires ValidNum(count) && (typeCount.Some? ==> ValidNum(typeCount.value))
    ensures [FNPTR] + ([conv] + SpellOptional(typeCount, NumBytes(count) + (a + b))) ==
            [FNPTR] + ([conv] + SpellOptional(typeCount, NumBytes(count) + a)) + b
  {
    hide NumBytes;
  }

  lemma ShapeOnto(rank: Num, sizes: Numbers, bounds: Numbers, a: seq<byte>, b: seq<byte>)
    requires ValidNum(rank) && NumbersOk(sizes) && NumbersOk(bounds)
    ensures NumBytes(rank) + SpellNumbers(sizes, SpellNumbers(bounds, a + b)) ==
            NumBytes(rank) + SpellNumbers(sizes, SpellNumbers(bounds, a)) + b
  {
    hide NumBytes, SpellNums;
    SpellNumsOnto(bounds.items, a, b);
    assert SpellNumbers(bounds, a + b) == SpellNumbers(bounds, a) + b;
    SpellNumsOnto(sizes.items, SpellNumbers(bounds, a), b);
  }

  /** What follows an encoding stays behind it. */
  lemma {:induction false} SpellOnto(t: LocalType, a: seq<byte>, b: seq<byte>)
    requires Sound(t)
    ensures Spell(t, a + b) == Spell(t, a) + b
    decreases t
  {
    hide NumBytes, ValidNum, SpellAll, AllSound, Primitive, SpellNumbers, NumbersOk, SpellOptional;
    match t
    case Basic(tag) =>
    case Class(tag, token) =>
    case Parameter(tag, number) =>
    case Prefix(tag, inner) => SpellOnto(inner, a, b);
    case Modified(tag, token, inner) => SpellOnto(inner, a, b);
    case Shaped(elem, rank, sizes, bounds) =>
      ShapeOnto(rank, sizes, bounds, a, b);
      SpellOnto(elem, NumBytes(rank) + SpellNumbers(sizes, SpellNumbers(bounds, a)), b);
    case Instance(tag, token, count, args) =>
      SpellAllOnto(args, a, b);
      InstanceOnto(tag, token, count, SpellAll(args, a), b);
    case Function(conv, typeCount, count, ret, params) =>
      SpellAllOnto(params, a, b);
      SpellOnto(ret, SpellAll(params, a), b);
      HeadOnto(conv, typeCount, count, Spell(ret, SpellAll(params, a)), b);
  }

  lemma {:induction false} SpellAllOnto(ts: seq<LocalType>, a: seq<byte>, b: seq<byte>)
    requires AllSound(ts)
    ensures SpellAll(ts, a + b) == SpellAll(ts, a) + b
    decreases ts
  {
    hide Spell, Sound;
    if ts != [] {
      SpellAllOnto(ts[1..], a, b);
      SpellOnto(ts[0], SpellAll(ts[1..], a), b);
    }
  }

  // ---------- the encodings of locals ----------

  ghost predicate PrintedLocal(s: seq<byte>)
  {
    exists t :: Sound(t) && IsLocal(t) && Spell(t, []) == s
  }

  /** An encoding with rest behind it begins with the encoding itself. */
  lemma LocalBegins(s: seq<byte>, rest: seq<byte>) returns (t: LocalType)
    requires PrintedLocal(s)
    ensures Sound(t) && IsLocal(t) && Spell(t, []) == s && Spell(t, rest) == s + rest
  {
    hide Sound, IsLocal, Spell;
    t :| Sound(t) && IsLocal(t) && Spell(t, []) == s;
    SpellOnto(t, [], rest);
    assert [] + rest == rest;
  }

  lemma NoneBeginsAnother(s: seq<byte>, t: seq<byte>)
    requires PrintedLocal(s) && PrintedLocal(t) && s <= t
    ensures s == t
  {
    hide Sound, IsLocal, Spell, PrintedLocal;
    var rest := t[|s|..];
    assert s + rest == t;
    var x := LocalBegins(s, rest);
    var y := LocalBegins(t, []);
    assert t + [] == t;
    SameType(x, rest, y, []);
  }

  lemma LocalHasBytes(s: seq<byte>)
    requires PrintedLocal(s)
    ensures s != []
  {
    hide Sound, IsLocal;
    var t := LocalBegins(s, []);
  }

  // ---------- the types of the parser among them ----------

  /** All one-byte types in t are types of the standard. */
  predicate Standard(t: SigType)
  {
    TypeNames.Every(Primitive, t)
  }

  function Lift(t: SigType): LocalType
  {
    match t
    case Simple(tag) => Basic(tag)
    case Named(tag, token) => Class(tag, token)
    case SzArray(elem) => Prefix(SZARRAY, Lift(elem))
    case Inst(tag, token, count, args) => Instance(tag, token, count, LiftAll(args))
    case Var(number) => Parameter(VAR, number)
    case MVar(number) => Parameter(MVAR, number)
  }

  function LiftAll(ts: seq<SigType>): (us: seq<LocalType>)
    ensures |us| == |ts|
  {
    if ts == [] then [] else [Lift(ts[0])] + LiftAll(ts[1..])
  }

  lemma {:induction false} LiftSpells(t: SigType, rest: seq<byte>)
    requires WellFormed(t) && Standard(t)
    ensures Sound(Lift(t)) && IsType(Lift(t)) && Spell(Lift(t), rest) == Print(t) + rest
    decreases t
  {
    hide NumBytes, ValidNum, PrintAll, AllWellFormed, SpellAll, AllSound, AllTypes, Primitive;
    match t
    case Simple(tag) =>
    case Named(tag, token) =>
    case SzArray(elem) => LiftSpells(elem, rest);
    case Inst(tag, token, count, args) => LiftAllSpells(args, rest);
    case Var(number) =>
    case MVar(number) =>
  }

  lemma {:induction false} LiftAllSpells(ts: seq<SigType>, rest: seq<byte>)
    requires AllWellFormed(ts) && TypeNames.EveryOf(Primitive, ts)
    ensures AllSound(LiftAll(ts)) && AllTypes(LiftAll(ts)) && SpellAll(LiftAll(ts), rest) == PrintAll(ts) + rest
    decreases ts
  {
    hide Print, WellFormed, Spell, Sound, IsType, Primitive;
    if ts != [] {
      LiftAllSpells(ts[1..], rest);
      LiftSpells(ts[0], PrintAll(ts[1..]) + rest);
      assert LiftAll(ts)[0] == Lift(ts[0]) && LiftAll(ts)[1..] == LiftAll(ts[1..]);
    }
  }

  lemma TypeStarts(t: LocalType, rest: seq<byte>)
    requires Sound(t) && IsType(t)
    ensures var b := Spell(t, rest)[0]; Primitive(b) || Structured(b) || Refused(b)
  {
  }

  lemma SimpleStarts(t: SigType, rest: seq<byte>)
    requires WellFormed(t)
    ensures (Print(t) + rest)[0] == Print(t)[0]
    ensures t.Simple? <==> !Structured(Print(t)[0])
    ensures t.Simple? ==> Print(t)[0] == t.tag && !Refused(t.tag)
  {
  }

  /** A type the parser takes for well-formed is encoded like a type of the standard only if it is one. */
  lemma {:induction false} LikeType(t: SigType, a: seq<byte>, u: LocalType, b: seq<byte>)
    requires WellFormed(t) && Sound(u) && IsType(u) && Print(t) + a == Spell(u, b)
    ensures Standard(t)
    decreases t
  {
    hide NumBytes, ValidNum, PrintAll, AllWellFormed, SpellAll, AllSound, AllTypes, Primitive, Structured, Refused, ShapeOf;
    SimpleStarts(t, a);
    match t
    case Simple(tag) => TypeStarts(u, b);
    case Named(_, _) =>
    case Var(_) =>
    case MVar(_) =>
    case SzArray(elem) =>
      StartOf(u, b);
      VectorShape();
      assert Print(t) + a == [SZARRAY] + (Print(elem) + a);
      SameFirst(SZARRAY, Print(elem) + a, u.tag, Spell(u.inner, b));
      NotModified(elem, a, u.inner, b);
      LikeType(elem, a, u.inner, b);
    case Inst(_, _, _, args) =>
      StartOf(u, b);
      VectorShape();
      LikeInstance(t, a, u, b);
      LikeTypes(args, a, u.args, b);
  }

  lemma VectorShape()
    ensures ShapeOf(SZARRAY) == 3 && ShapeOf(GENERICINST) == 6 && ShapeOf(BYREF) == 3 && ShapeOf(TYPEDBYREF) == 0
  {
  }

  /** The element of an array has no modifier in front, because the parser refuses that. */
  lemma NotModified(t: SigType, a: seq<byte>, u: LocalType, b: seq<byte>)
    requires WellFormed(t) && !(t.Simple? && Modifier(t.tag)) && Sound(u) && Print(t) + a == Spell(u, b)
    ensures !u.Modified?
  {
    hide WellFormed, Print, Spell, Sound;
    SimpleStarts(t, a);
    StartOf(u, b);
  }

  lemma LikeInstance(t: SigType, a: seq<byte>, u: LocalType, b: seq<byte>)
    requires t.Inst? && u.Instance? && WellFormed(t) && Sound(u) && Print(t) + a == Spell(u, b)
    ensures AllWellFormed(t.args) && AllSound(u.args) && |t.args| == |u.args|
    ensures PrintAll(t.args) + a == SpellAll(u.args, b)
  {
    hide NumBytes, ValidNum, PrintAll, AllWellFormed, SpellAll, AllSound;
    var r2, s2 := NumBytes(t.count) + (PrintAll(t.args) + a), NumBytes(u.count) + SpellAll(u.args, b);
    assert Print(t) + a == [GENERICINST] + ([t.tag] + (NumBytes(t.token) + r2));
    SameFirst(GENERICINST, [t.tag] + (NumBytes(t.token) + r2), GENERICINST, [u.tag] + (NumBytes(u.token) + s2));
    SameFirst(t.tag, NumBytes(t.token) + r2, u.tag, NumBytes(u.token) + s2);
    SameNumber(t.token, r2, u.token, s2);
    SameNumber(t.count, PrintAll(t.args) + a, u.count, SpellAll(u.args, b));
  }

  lemma {:induction false} LikeTypes(ts: seq<SigType>, a: seq<byte>, us: seq<LocalType>, b: seq<byte>)
    requires AllWellFormed(ts) && AllSound(us) && AllTypes(us) && |ts| == |us|
    requires PrintAll(ts) + a == SpellAll(us, b)
    ensures TypeNames.EveryOf(Primitive, ts)
    decreases ts
  {
    hide Print, WellFormed, Spell, Sound, IsType, Primitive;
    if ts != [] {
      var r, s := PrintAll(ts[1..]) + a, SpellAll(us[1..], b);
      assert PrintAll(ts) + a == Print(ts[0]) + r;
      LikeType(ts[0], r, us[0], s);
      LiftSpells(ts[0], r);
      SameType(Lift(ts[0]), r, us[0], s);
      LikeTypes(ts[1..], a, us[1..], b);
    }
  }
}
