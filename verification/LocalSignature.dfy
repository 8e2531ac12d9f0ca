/**
 * CallTargetTokens::ModifyLocalSig: it appends the locals of the instrumentation to a method's local-variable signature
 * (ECMA-335 Partition II, section 23.2.6).
 */
module LocalSignature {
  import opened Words
  import opened Compressed
  import opened SigTypes
  import opened LocalTypes
  import opened Rewriter
  import MethodSignature

  const LOCAL_SIG: byte := 0x07
  const SIGNATURE_BUFFER_SIZE := 500
  const NO_INDEX := 0xFFFF_FFFF

  /** A metadata token: its table as coded in a TypeDefOrRef index, and its row. */
  datatype Token = Token(table: nat, rid: nat)

  predicate Codable(t: Token)
  {
    t.table < 4 && CompressToken(t.rid, t.table).Some?
  }

  function TokenBytes(t: Token): seq<byte>
    requires Codable(t)
  {
    NumBytes(CompressToken(t.rid, t.table).value)
  }

  /**
   * What the method returns. For a value: the slice with its type, and the token of CallTargetReturn<T> with the blob the
   * metadata holds for it. For void: the token of the plain CallTargetReturn.
   */
  datatype Return =
    | Value(signature: seq<byte>, callTargetReturn: Token, typeSpec: seq<byte>)
    | NoValue(callTargetReturn: Token)

  // ---------- the new signature ----------

  function Flatten(locals: seq<seq<byte>>): seq<byte>
  {
    if locals == [] then [] else locals[0] + Flatten(locals[1..])
  }

  /** The encodings of the locals that are added, in order. */
  function NewLocals(ret: Return, ex: Token, state: Token): (r: seq<seq<byte>>)
    requires Codable(ex) && Codable(state) && (ret.NoValue? ==> Codable(ret.callTargetReturn))
    ensures |r| == if ret.Value? then 4 else 3
  {
    (if ret.Value? then [ret.signature] else [])
    + [[CLASS] + TokenBytes(ex),
       if ret.Value? then ret.typeSpec else [VALUETYPE] + TokenBytes(ret.callTargetReturn),
       [VALUETYPE] + TokenBytes(state)]
  }

  /** An absent signature is empty; any other one begins with a byte and a count. */
  predicate HasCount(orig: seq<byte>)
  {
    orig == [] || NumAt(orig, 1, |orig|).Some?
  }

  function OldCount(orig: seq<byte>): (n: nat)
    requires HasCount(orig)
  {
    if orig == [] then 0 else NumAt(orig, 1, |orig|).value.value
  }

  function OldLocals(orig: seq<byte>): seq<byte>
    requires HasCount(orig)
  {
    if orig == [] then [] else orig[1 + NumAt(orig, 1, |orig|).value.width..]
  }

  function NewCount(orig: seq<byte>, ret: Return): nat
    requires HasCount(orig)
  {
    OldCount(orig) + if ret.Value? then 4 else 3
  }

  /** The blob: the shortest form of the new count, the old locals byte for byte, the new locals. */
  function NewSignature(orig: seq<byte>, ret: Return, ex: Token, state: Token): seq<byte>
    requires HasCount(orig) && NewCount(orig, ret) <= 0x1FFF_FFFF
    requires Codable(ex) && Codable(state) && (ret.NoValue? ==> Codable(ret.callTargetReturn))
  {
    [LOCAL_SIG] + NumBytes(Compress(NewCount(orig, ret)).value) + OldLocals(orig) + Flatten(NewLocals(ret, ex, state))
  }

  /** The size the method declares, worked out before anything is written. */
  function DeclaredSize(orig: seq<byte>, ret: Return, ex: Token, state: Token): int
    requires HasCount(orig) && NewCount(orig, ret) <= 0x1FFF_FFFF
    requires Codable(ex) && Codable(state) && (ret.NoValue? ==> Codable(ret.callTargetReturn))
  {
    |orig| + (if ret.Value? then |ret.signature| else 0) + (1 + |TokenBytes(ex)|)
    + (if ret.Value? then |ret.typeSpec| else 1 + |TokenBytes(ret.callTargetReturn)|) + (1 + |TokenBytes(state)|)
    + (if orig == [] then 2
       else Compress(NewCount(orig, ret)).value.width - NumAt(orig, 1, |orig|).value.width)
  }

  lemma FlattenNew(ret: Return, ex: Token, state: Token)
    requires Codable(ex) && Codable(state) && (ret.NoValue? ==> Codable(ret.callTargetReturn))
    ensures Flatten(NewLocals(ret, ex, state)) ==
            (if ret.Value? then ret.signature else [])
            + [CLASS] + TokenBytes(ex)
            + (if ret.Value? then ret.typeSpec else [VALUETYPE] + TokenBytes(ret.callTargetReturn))
            + [VALUETYPE] + TokenBytes(state)
  {
    hide TokenBytes;
    var e := [CLASS] + TokenBytes(ex);
    var c := if ret.Value? then ret.typeSpec else [VALUETYPE] + TokenBytes(ret.callTargetReturn);
    var s := [VALUETYPE] + TokenBytes(state);
    FlattenThree(e, c, s);
    assert ret.Value? ==> NewLocals(ret, ex, state)[1..] == [e, c, s];
    assert ret.NoValue? ==> NewLocals(ret, ex, state) == [e, c, s];
  }

  lemma FlattenThree(a: seq<byte>, b: seq<byte>, c: seq<byte>)
    ensures Flatten([a, b, c]) == a + b + c
  {
    assert [a, b, c][1..] == [b, c] && [b, c][1..] == [c] && [c][1..] == [];
    assert Flatten([c]) == c + Flatten([]) == c;
    assert Flatten([b, c]) == b + c;
  }

  /** As many bytes are written as were declared, whatever widths the old and the new count have. */
  lemma WritesWhatItDeclares(orig: seq<byte>, ret: Return, ex: Token, state: Token)
    requires HasCount(orig) && NewCount(orig, ret) <= 0x1FFF_FFFF
    requires Codable(ex) && Codable(state) && (ret.NoValue? ==> Codable(ret.callTargetReturn))
    ensures |NewSignature(orig, ret, ex, state)| == DeclaredSize(orig, ret, ex, state)
  {
    hide TokenBytes, NewLocals, Flatten, NumAt;
    FlattenNew(ret, ex, state);
    NumLength(Compress(NewCount(orig, ret)).value);
  }

  // ---------- decoding a local signature ----------

  /** The length, from k on, of the first prefix of bs that is a local. */
  ghost function Cut(isLocal: seq<byte> -> bool, bs: seq<byte>, k: nat): (r: Option<nat>)
    ensures r.Some? ==> k <= r.value <= |bs| && isLocal(bs[..r.value])
    decreases |bs| - k
  {
    if k > |bs| then None
    else if isLocal(bs[..k]) then Some(k)
    else Cut(isLocal, bs, k + 1)
  }

  /** Splits bs into n locals with nothing left over. */
  ghost function Split(isLocal: seq<byte> -> bool, bs: seq<byte>, n: nat): (r: Option<seq<seq<byte>>>)
    ensures r.Some? ==> |r.value| == n
  {
    if n == 0 then (if bs == [] then Some([]) else None)
    else
      var k := Cut(isLocal, bs, 0);
      if k.None? then None
      else
        var rest := Split(isLocal, bs[k.value..], n - 1);
        if rest.None? then None else Some([bs[..k.value]] + rest.value)
  }

  ghost function DecodeLocals(isLocal: seq<byte> -> bool, blob: seq<byte>): Option<seq<seq<byte>>>
  {
    if blob == [] || blob[0] != LOCAL_SIG || !HasCount(blob) then None
    else Split(isLocal, OldLocals(blob), OldCount(blob))
  }

  /** Encodings of locals that can be told apart when read from the left. */
  ghost predicate PrefixFreeSet(isLocal: seq<byte> -> bool)
  {
    forall s, t :: isLocal(s) && isLocal(t) && s <= t ==> s == t
  }

  lemma {:induction false} CutFinds(isLocal: seq<byte> -> bool, s: seq<byte>, rest: seq<byte>, k: nat)
    requires PrefixFreeSet(isLocal) && isLocal(s) && k <= |s|
    ensures Cut(isLocal, s + rest, k) == Some(|s|)
    decreases |s| - k
  {
    assert (s + rest)[..k] <= s;
    if k == |s| {
      assert (s + rest)[..k] == s;
    } else {
      CutFinds(isLocal, s, rest, k + 1);
    }
  }

  lemma {:induction false} SplitFlattened(isLocal: seq<byte> -> bool, locals: seq<seq<byte>>)
    requires PrefixFreeSet(isLocal) && forall i :: 0 <= i < |locals| ==> isLocal(locals[i])
    ensures Split(isLocal, Flatten(locals), |locals|) == Some(locals)
    decreases |locals|
  {
    if locals != [] {
      CutFinds(isLocal, locals[0], Flatten(locals[1..]), 0);
      SplitFlattened(isLocal, locals[1..]);
      assert (locals[0] + Flatten(locals[1..]))[|locals[0]|..] == Flatten(locals[1..]);
      assert locals == [locals[0]] + locals[1..];
    }
  }

  lemma {:induction false} SplitSound(isLocal: seq<byte> -> bool, bs: seq<byte>, n: nat)
    requires Split(isLocal, bs, n).Some?
    ensures var ls := Split(isLocal, bs, n).value;
            Flatten(ls) == bs && forall i :: 0 <= i < |ls| ==> isLocal(ls[i])
    decreases n
  {
    if n > 0 {
      var k := Cut(isLocal, bs, 0).value;
      SplitSound(isLocal, bs[k..], n - 1);
      var ls := Split(isLocal, bs, n).value;
      assert ls[1..] == Split(isLocal, bs[k..], n - 1).value;
      assert bs == bs[..k] + bs[k..];
    }
  }

  lemma {:induction false} FlattenAppend(a: seq<seq<byte>>, b: seq<seq<byte>>)
    ensures Flatten(a + b) == Flatten(a) + Flatten(b)
    decreases |a|
  {
    if a == [] {
      assert a + b == b;
    } else {
      FlattenAppend(a[1..], b);
      assert (a + b)[1..] == a[1..] + b;
    }
  }

  /** The locals of the original method: none when it has no signature. */
  ghost function Original(isLocal: seq<byte> -> bool, orig: seq<byte>): Option<seq<seq<byte>>>
  {
    if orig == [] then Some([]) else DecodeLocals(isLocal, orig)
  }

  /**
   * The new blob decodes to the old locals, at unchanged indices, followed by the new ones. This holds for every set of
   * local encodings that can be read from the left.
   */
  lemma LocalsKept(isLocal: seq<byte> -> bool, orig: seq<byte>, ret: Return, ex: Token, state: Token)
    requires PrefixFreeSet(isLocal) && Original(isLocal, orig).Some?
    requires HasCount(orig) && NewCount(orig, ret) <= 0x1FFF_FFFF
    requires Codable(ex) && Codable(state) && (ret.NoValue? ==> Codable(ret.callTargetReturn))
    requires forall l :: l in NewLocals(ret, ex, state) ==> isLocal(l)
    ensures |Original(isLocal, orig).value| == OldCount(orig)
    ensures DecodeLocals(isLocal, NewSignature(orig, ret, ex, state)) ==
            Some(Original(isLocal, orig).value + NewLocals(ret, ex, state))
  {
    hide NewLocals, TokenBytes, NumAt, NumBytes, Split;
    var olds, news := Original(isLocal, orig).value, NewLocals(ret, ex, state);
    var blob := NewSignature(orig, ret, ex, state);
    NewHeader(orig, ret, ex, state);
    OriginalFlattened(isLocal, orig);
    FlattenAppend(olds, news);
    forall i | 0 <= i < |olds + news| ensures isLocal((olds + news)[i]) {
      if i >= |olds| {
        assert (olds + news)[i] in news;
      }
    }
    SplitFlattened(isLocal, olds + news);
  }

  lemma OriginalFlattened(isLocal: seq<byte> -> bool, orig: seq<byte>)
    requires Original(isLocal, orig).Some?
    ensures var olds := Original(isLocal, orig).value;
            && HasCount(orig) && |olds| == OldCount(orig) && Flatten(olds) == OldLocals(orig)
            && forall i :: 0 <= i < |olds| ==> isLocal(olds[i])
  {
    if orig != [] {
      SplitSound(isLocal, OldLocals(orig), OldCount(orig));
    }
  }

  /** The count of the new blob reads back, and the locals begin right after it. */
  lemma NewHeader(orig: seq<byte>, ret: Return, ex: Token, state: Token)
    requires HasCount(orig) && NewCount(orig, ret) <= 0x1FFF_FFFF
    requires Codable(ex) && Codable(state) && (ret.NoValue? ==> Codable(ret.callTargetReturn))
    ensures var blob := NewSignature(orig, ret, ex, state);
            && blob != [] && blob[0] == LOCAL_SIG && HasCount(blob) && OldCount(blob) == NewCount(orig, ret)
            && OldLocals(blob) == OldLocals(orig) + Flatten(NewLocals(ret, ex, state))
  {
    hide NewLocals, TokenBytes, Flatten, OldLocals, NumAt, NumBytes, At, OldCount;
    var count := Compress(NewCount(orig, ret)).value;
    var rest := OldLocals(orig) + Flatten(NewLocals(ret, ex, state));
    var blob := NewSignature(orig, ret, ex, state);
    assert blob == [LOCAL_SIG] + (NumBytes(count) + rest);
    HeaderReads(blob, count, rest);
  }

  lemma HeaderReads(blob: seq<byte>, count: Num, rest: seq<byte>)
    requires ValidNum(count) && blob == [LOCAL_SIG] + (NumBytes(count) + rest)
    ensures blob[0] == LOCAL_SIG && HasCount(blob) && OldCount(blob) == count.value && OldLocals(blob) == rest
  {
    hide NumAt, NumBytes;
    NumLength(count);
    assert blob[1..1 + count.width] == NumBytes(count);
    NumExact(blob, 1, |blob|, count);
    assert blob[1 + count.width..] == rest;
  }

  // ---------- the locals of signature blobs ----------

  lemma LocalsArePrefixFree()
    ensures PrefixFreeSet(PrintedLocal)
  {
    hide PrintedLocal;
    forall s, t | PrintedLocal(s) && PrintedLocal(t) && s <= t ensures s == t {
      NoneBeginsAnother(s, t);
    }
  }

  lemma NamedIsLocal(tag: byte, token: Token)
    requires NamedTag(tag) && Codable(token)
    ensures PrintedLocal([tag] + TokenBytes(token))
  {
    hide NumBytes, ValidNum, CompressToken;
    CodableIsValid(token);
    var t := Class(tag, CompressToken(token.rid, token.table).value);
    assert Sound(t) && IsLocal(t) && Spell(t, []) == [tag] + TokenBytes(token);
  }

  lemma CodableIsValid(t: Token)
    requires Codable(t)
    ensures ValidNum(CompressToken(t.rid, t.table).value)
  {
  }

  /** The type-spec blob of CallTargetReturn<T> for a return value with the given signature. */
  function SpecBlob(callTargetReturn: Token, signature: seq<byte>): seq<byte>
    requires Codable(callTargetReturn)
  {
    [GENERICINST, VALUETYPE] + TokenBytes(callTargetReturn) + [0x01] + signature
  }

  lemma OneByteNumber()
    ensures ValidNum(Num(1, 1)) && NumBytes(Num(1, 1)) == [0x01]
  {
  }

  /** CallTargetReturn of one type argument. */
  function SpecOf(callTargetReturn: Token, t: LocalType): LocalType
    requires Codable(callTargetReturn)
  {
    Instance(VALUETYPE, CompressToken(callTargetReturn.rid, callTargetReturn.table).value, Num(1, 1), [t])
  }

  lemma SpecSpells(callTargetReturn: Token, t: LocalType, rest: seq<byte>)
    requires Codable(callTargetReturn) && Sound(t)
    ensures Sound(SpecOf(callTargetReturn, t)) && (IsType(t) ==> IsLocal(SpecOf(callTargetReturn, t)))
    ensures Spell(SpecOf(callTargetReturn, t), rest) == SpecBlob(callTargetReturn, Spell(t, rest))
  {
    hide NumBytes, ValidNum, CompressToken, AllSound, AllTypes, SpellAll;
    CodableIsValid(callTargetReturn);
    OneByteNumber();
    OnlyArgument([t], rest);
    assert [t][0] == t;
  }

  /** A local that begins like that blob is CallTargetReturn of a type, spelled where the signature stands. */
  lemma SpecStands(u: LocalType, b: seq<byte>, callTargetReturn: Token, signature: seq<byte>)
    requires Sound(u) && IsLocal(u) && Codable(callTargetReturn) && Spell(u, b) == SpecBlob(callTargetReturn, signature)
    ensures u.Instance? && |u.args| == 1 && Sound(u.args[0]) && IsType(u.args[0]) && Spell(u.args[0], b) == signature
  {
    hide NumBytes, ValidNum, CompressToken, ShapeOf, SpellAll, AllSound, AllTypes;
    var token := CompressToken(callTargetReturn.rid, callTargetReturn.table).value;
    CodableIsValid(callTargetReturn);
    OneByteNumber();
    StartOf(u, b);
    VectorShape();
    var tail := NumBytes(Num(1, 1)) + signature;
    var r := NumBytes(u.count) + SpellAll(u.args, b);
    assert SpecBlob(callTargetReturn, signature) == [GENERICINST] + ([VALUETYPE] + (NumBytes(token) + tail));
    SameFirst(GENERICINST, [u.tag] + (NumBytes(u.token) + r), GENERICINST, [VALUETYPE] + (NumBytes(token) + tail));
    SameFirst(u.tag, NumBytes(u.token) + r, VALUETYPE, NumBytes(token) + tail);
    SameNumber(u.token, r, token, tail);
    SameNumber(u.count, SpellAll(u.args, b), Num(1, 1), signature);
    OnlyArgument(u.args, b);
  }

  lemma OnlyArgument(ts: seq<LocalType>, b: seq<byte>)
    requires |ts| == 1
    ensures (AllSound(ts) <==> Sound(ts[0])) && (AllTypes(ts) <==> IsType(ts[0]))
    ensures AllSound(ts) ==> SpellAll(ts, b) == Spell(ts[0], b)
  {
    hide Sound, IsType, Spell;
    assert ts[1..] == [];
    assert AllSound(ts[1..]) && AllTypes(ts[1..]);
  }

  /** No type begins with BYREF, so nothing that begins like CallTargetReturn over a by-reference type is a local. */
  lemma RefSpecIsNoLocal(callTargetReturn: Token, signature: seq<byte>, k: nat)
    requires Codable(callTargetReturn) && signature != [] && signature[0] == BYREF
    requires k <= |SpecBlob(callTargetReturn, signature)|
    ensures !PrintedLocal(SpecBlob(callTargetReturn, signature)[..k])
  {
    hide Sound, IsLocal, IsType, Spell, Primitive;
    var blob := SpecBlob(callTargetReturn, signature);
    if PrintedLocal(blob[..k]) {
      assert blob[..k] + blob[k..] == blob;
      var u := LocalBegins(blob[..k], blob[k..]);
      SpecStands(u, blob[k..], callTargetReturn, signature);
      TypeStarts(u.args[0], blob[k..]);
      ByRefStarts();
    }
  }

  lemma ByRefStarts()
    ensures !Primitive(BYREF) && !Structured(BYREF) && !Refused(BYREF)
  {
  }

  /** The slice of a return value is a local exactly when its one-byte types are types of the standard. */
  lemma SlotIsLocal(x: MethodSignature.Slot)
    requires MethodSignature.ParamOk(x)
    ensures PrintedLocal(MethodSignature.PrintSlot(x)) <==> Standard(x.t)
  {
    hide Sound, IsType, Spell, Primitive, Standard, WellFormed, Print;
    var s := MethodSignature.PrintSlot(x);
    if Standard(x.t) {
      LiftSpells(x.t, []);
      assert Print(x.t) + [] == Print(x.t);
      var t := if x.byRef then Prefix(BYREF, Lift(x.t)) else Lift(x.t);
      LiftIsPlain(x.t);
      PrefixSpells(BYREF, Lift(x.t));
      assert Sound(t) && IsLocal(t) && Spell(t, []) == s;
    }
    if PrintedLocal(s) {
      var u := LocalBegins(s, []);
      assert s + [] == s;
      if x.byRef {
        RefSlotLike(x, u);
      } else {
        PlainSlotLike(x, u);
      }
    }
  }

  lemma LiftIsPlain(t: SigType)
    ensures !Lift(t).Modified? && !(Lift(t).Prefix? && Lift(t).tag != SZARRAY)
  {
  }

  lemma PrefixSpells(tag: byte, t: LocalType)
    requires Sound(t) && tag in [SZARRAY, PTR, BYREF, PINNED, SENTINEL]
    ensures Sound(Prefix(tag, t)) && Spell(Prefix(tag, t), []) == [tag] + Spell(t, [])
  {
  }

  lemma RefSlotLike(x: MethodSignature.Slot, u: LocalType)
    requires MethodSignature.ParamOk(x) && x.byRef && Sound(u) && IsLocal(u) && Spell(u, []) == MethodSignature.PrintSlot(x)
    ensures Standard(x.t)
  {
    hide Primitive, Standard, WellFormed, Print, ShapeOf, IsType, IsElement;
    StartOf(u, []);
    VectorShape();
    if IsType(u) {
      TypeStarts(u, []);
      ByRefStarts();
    }
    SameFirst(BYREF, Print(x.t), u.tag, Spell(u.inner, []));
    assert Print(x.t) + [] == Print(x.t);
    LikeType(x.t, [], u.inner, []);
  }

  lemma PlainSlotLike(x: MethodSignature.Slot, u: LocalType)
    requires MethodSignature.ParamOk(x) && !x.byRef && Sound(u) && IsLocal(u) && Spell(u, []) == MethodSignature.PrintSlot(x)
    ensures Standard(x.t)
  {
    hide Primitive, Standard, Spell, Print, Sound;
    assert Print(x.t) + [] == Print(x.t);
    SimpleStarts(x.t, []);
    StartOf(u, []);
    if IsType(u) {
      LikeType(x.t, [], u, []);
    } else {
      NotOneByte(u, x.t);
    }
  }

  /** A mark or modifier in front makes an encoding longer than any one-byte type with the same first byte. */
  lemma NotOneByte(u: LocalType, t: SigType)
    requires Sound(u) && (u.Modified? || u.Prefix? || u.Basic?) && WellFormed(t) && Spell(u, []) == Print(t)
    ensures u.Prefix? ==> !t.Simple?
  {
    if u.Prefix? {
      assert |Spell(u, [])| == 1 + |Spell(u.inner, [])|;
    }
  }

  // ---------- which return values leave a signature that can be read ----------

  /** The new blob decodes to old and new locals exactly when the new locals are locals. */
  lemma TypedLocalsKept(orig: seq<byte>, ret: Return, ex: Token, state: Token)
    requires Original(PrintedLocal, orig).Some? && HasCount(orig) && NewCount(orig, ret) <= 0x1FFF_FFFF
    requires Codable(ex) && Codable(state) && (ret.NoValue? ==> Codable(ret.callTargetReturn))
    ensures |Original(PrintedLocal, orig).value| == OldCount(orig)
    ensures DecodeLocals(PrintedLocal, NewSignature(orig, ret, ex, state)) ==
            Some(Original(PrintedLocal, orig).value + NewLocals(ret, ex, state)) <==>
            (ret.Value? ==> PrintedLocal(ret.signature) && PrintedLocal(ret.typeSpec))
  {
    hide PrintedLocal, Original, DecodeLocals, HasCount, NewCount, OldCount, TokenBytes, PrefixFreeSet, NewSignature;
    LocalsArePrefixFree();
    OriginalFlattened(PrintedLocal, orig);
    NamedIsLocal(CLASS, ex);
    NamedIsLocal(VALUETYPE, state);
    if ret.NoValue? {
      NamedIsLocal(VALUETYPE, ret.callTargetReturn);
    }
    if ret.Value? ==> PrintedLocal(ret.signature) && PrintedLocal(ret.typeSpec) {
      LocalsKept(PrintedLocal, orig, ret, ex, state);
    } else {
      NotAllLocals(orig, ret, ex, state);
    }
  }

  lemma NotAllLocals(orig: seq<byte>, ret: Return, ex: Token, state: Token)
    requires Original(PrintedLocal, orig).Some? && HasCount(orig) && NewCount(orig, ret) <= 0x1FFF_FFFF
    requires Codable(ex) && Codable(state) && ret.Value?
    requires !PrintedLocal(ret.signature) || !PrintedLocal(ret.typeSpec)
    ensures DecodeLocals(PrintedLocal, NewSignature(orig, ret, ex, state)) !=
            Some(Original(PrintedLocal, orig).value + NewLocals(ret, ex, state))
  {
    hide PrintedLocal, Original, HasCount, NewCount, TokenBytes, NewSignature, Split, OldLocals, OldCount;
    var blob, olds := NewSignature(orig, ret, ex, state), Original(PrintedLocal, orig).value;
    var all := olds + NewLocals(ret, ex, state);
    assert all[|olds|] == ret.signature && all[|olds| + 2] == ret.typeSpec;
    if DecodeLocals(PrintedLocal, blob).Some? {
      SplitSound(PrintedLocal, OldLocals(blob), OldCount(blob));
    }
  }

  lemma {:induction false} SplitPast(isLocal: seq<byte> -> bool, ls: seq<seq<byte>>, rest: seq<byte>, n: nat)
    requires PrefixFreeSet(isLocal) && forall i :: 0 <= i < |ls| ==> isLocal(ls[i])
    ensures Split(isLocal, Flatten(ls) + rest, |ls| + n).None? <==> Split(isLocal, rest, n).None?
    decreases |ls|
  {
    hide Split, PrefixFreeSet;
    if ls == [] {
      assert Flatten(ls) + rest == rest;
    } else {
      var tail := Flatten(ls[1..]) + rest;
      assert Flatten(ls) + rest == ls[0] + tail;
      SplitStep(isLocal, ls[0], tail, |ls| - 1 + n);
      SplitPast(isLocal, ls[1..], rest, n);
    }
  }

  lemma SplitStep(isLocal: seq<byte> -> bool, s: seq<byte>, tail: seq<byte>, n: nat)
    requires PrefixFreeSet(isLocal) && isLocal(s)
    ensures Split(isLocal, s + tail, n + 1).None? <==> Split(isLocal, tail, n).None?
  {
    hide Cut;
    CutFinds(isLocal, s, tail, 0);
    assert (s + tail)[|s|..] == tail;
  }

  lemma {:induction false} NothingToCut(isLocal: seq<byte> -> bool, bs: seq<byte>, k: nat)
    requires forall j :: 0 <= j <= |bs| ==> !isLocal(bs[..j])
    ensures Cut(isLocal, bs, k).None?
    decreases |bs| - k
  {
    if k <= |bs| {
      NothingToCut(isLocal, bs, k + 1);
    }
  }

  /** A return value the signature parser cut out, with the type spec the metadata has for CallTargetReturn over it. */
  function ReturnOf(x: MethodSignature.Slot, typeSpec: Token, callTargetReturn: Token): Return
    requires MethodSignature.ParamOk(x) && Codable(callTargetReturn)
  {
    Value(MethodSignature.PrintSlot(x), typeSpec, SpecBlob(callTargetReturn, MethodSignature.PrintSlot(x)))
  }

  /**
   * For every return value the signature parser accepts: the new blob decodes to the old locals and the new ones exactly
   * when the value is not returned by reference and made of types of the standard. For one returned by reference it does
   * not decode at all, because a generic argument cannot be by reference.
   */
  lemma ReturnDecodes(orig: seq<byte>, x: MethodSignature.Slot, typeSpec: Token, callTargetReturn: Token, ex: Token,
                      state: Token)
    requires MethodSignature.ParamOk(x) && Codable(callTargetReturn) && Codable(ex) && Codable(state)
    requires Original(PrintedLocal, orig).Some? && HasCount(orig) && OldCount(orig) + 4 <= 0x1FFF_FFFF
    ensures var ret := ReturnOf(x, typeSpec, callTargetReturn);
            var decoded := DecodeLocals(PrintedLocal, NewSignature(orig, ret, ex, state));
            && (decoded == Some(Original(PrintedLocal, orig).value + NewLocals(ret, ex, state)) <==>
                  !x.byRef && Standard(x.t))
            && (x.byRef && Standard(x.t) ==> decoded.None?)
  {
    hide PrintedLocal, Original, DecodeLocals, HasCount, OldCount, TokenBytes, NewSignature, NewLocals, Standard, SpecBlob;
    hide WellFormed, Print, MethodSignature.PrintSlot;
    var ret := ReturnOf(x, typeSpec, callTargetReturn);
    SlotIsLocal(x);
    TypedLocalsKept(orig, ret, ex, state);
    SpecIsLocal(x, callTargetReturn);
    if x.byRef && Standard(x.t) {
      RefUnreadable(orig, x, typeSpec, callTargetReturn, ex, state);
    }
  }

  lemma SpecIsLocal(x: MethodSignature.Slot, callTargetReturn: Token)
    requires MethodSignature.ParamOk(x) && Codable(callTargetReturn)
    ensures PrintedLocal(SpecBlob(callTargetReturn, MethodSignature.PrintSlot(x))) <==> !x.byRef && Standard(x.t)
  {
    hide Sound, IsLocal, IsType, Spell, Primitive, Standard, WellFormed, Print, SpecBlob, PrintedLocal;
    var s := MethodSignature.PrintSlot(x);
    var blob := SpecBlob(callTargetReturn, s);
    assert blob[..|blob|] == blob && blob + [] == blob;
    if x.byRef {
      RefSpecIsNoLocal(callTargetReturn, s, |blob|);
    } else {
      assert Print(x.t) + [] == Print(x.t);
      if Standard(x.t) {
        LiftSpells(x.t, []);
        SpecSpells(callTargetReturn, Lift(x.t), []);
        Printed(SpecOf(callTargetReturn, Lift(x.t)));
      }
      if PrintedLocal(blob) {
        var u := LocalBegins(blob, []);
        SpecStands(u, [], callTargetReturn, s);
        LikeType(x.t, [], u.args[0], []);
      }
    }
  }

  lemma Printed(t: LocalType)
    requires Sound(t) && IsLocal(t)
    ensures PrintedLocal(Spell(t, []))
  {
  }

  lemma RefUnreadable(orig: seq<byte>, x: MethodSignature.Slot, typeSpec: Token, callTargetReturn: Token, ex: Token,
                      state: Token)
    requires MethodSignature.ParamOk(x) && Codable(callTargetReturn) && Codable(ex) && Codable(state)
    requires Original(PrintedLocal, orig).Some? && HasCount(orig) && OldCount(orig) + 4 <= 0x1FFF_FFFF
    requires x.byRef && PrintedLocal(MethodSignature.PrintSlot(x))
    ensures DecodeLocals(PrintedLocal, NewSignature(orig, ReturnOf(x, typeSpec, callTargetReturn), ex, state)).None?
  {
    hide PrintedLocal, Original, HasCount, OldCount, OldLocals, TokenBytes, NewSignature, SpecBlob, Split, PrefixFreeSet;
    hide WellFormed, Print;
    var ret := ReturnOf(x, typeSpec, callTargetReturn);
    var s, olds := ret.signature, Original(PrintedLocal, orig).value;
    var front, back := olds + [s, [CLASS] + TokenBytes(ex)], [VALUETYPE] + TokenBytes(state);
    var rest := ret.typeSpec + back;
    NewHeader(orig, ret, ex, state);
    OriginalFlattened(PrintedLocal, orig);
    NamedIsLocal(CLASS, ex);
    LocalsArePrefixFree();
    RefFlattened(olds, ret, ex, state);
    SplitPast(PrintedLocal, front, rest, 2);
    SpecBlobAppend(callTargetReturn, s, back);
    assert (s + back)[0] == BYREF;
    forall k | 0 <= k <= |rest| ensures !PrintedLocal(rest[..k]) {
      RefSpecIsNoLocal(callTargetReturn, s + back, k);
    }
    NothingToCut(PrintedLocal, rest, 0);
    SplitNeedsCut(PrintedLocal, rest, 2);
  }

  lemma SplitNeedsCut(isLocal: seq<byte> -> bool, bs: seq<byte>, n: nat)
    requires n > 0 && Cut(isLocal, bs, 0).None?
    ensures Split(isLocal, bs, n).None?
  {
  }

  lemma SpecBlobAppend(callTargetReturn: Token, s: seq<byte>, more: seq<byte>)
    requires Codable(callTargetReturn)
    ensures SpecBlob(callTargetReturn, s) + more == SpecBlob(callTargetReturn, s + more)
  {
    hide TokenBytes;
  }

  lemma RefFlattened(olds: seq<seq<byte>>, ret: Return, ex: Token, state: Token)
    requires ret.Value? && Codable(ex) && Codable(state)
    ensures Flatten(olds) + Flatten(NewLocals(ret, ex, state)) ==
            Flatten(olds + [ret.signature, [CLASS] + TokenBytes(ex)]) + (ret.typeSpec + ([VALUETYPE] + TokenBytes(state)))
  {
    hide TokenBytes, Flatten;
    var e, c, v := [CLASS] + TokenBytes(ex), ret.typeSpec, [VALUETYPE] + TokenBytes(state);
    FlattenAppend(olds, [ret.signature, e]);
    FlattenAppend([ret.signature, e], [c, v]);
    FlattenTwo(ret.signature, e);
    FlattenTwo(c, v);
    assert NewLocals(ret, ex, state) == [ret.signature, e] + [c, v];
  }

  lemma FlattenTwo(a: seq<byte>, b: seq<byte>)
    ensures Flatten([a, b]) == a + b
  {
    assert [a, b][1..] == [b] && [b][1..] == [];
    assert Flatten([b]) == b;
  }

  /** A method without locals that returns ref int: its new signature cannot be read. */
  lemma RefIntReturn(typeSpec: Token, callTargetReturn: Token, ex: Token, state: Token)
    requires Codable(callTargetReturn) && Codable(ex) && Codable(state)
    ensures var ret := Value([BYREF, 0x08], typeSpec, SpecBlob(callTargetReturn, [BYREF, 0x08]));
            DecodeLocals(PrintedLocal, NewSignature([], ret, ex, state)).None?
  {
    hide PrintedLocal, DecodeLocals, NewSignature, SpecBlob;
    var x := MethodSignature.Slot(true, Simple(0x08));
    assert MethodSignature.PrintSlot(x) == [BYREF, 0x08];
    ReturnDecodes([], x, typeSpec, callTargetReturn, ex, state);
  }

  // ---------- the guard against a second rewrite ----------

  /** The state local. */
  function StateLocal(state: Token): (s: seq<byte>)
    requires Codable(state)
    ensures 2 <= |s| <= 5 && s[0] == VALUETYPE
  {
    NumLength(CompressToken(state.rid, state.table).value);
    [VALUETYPE] + TokenBytes(state)
  }

  predicate EndsIn(s: seq<byte>, end: seq<byte>)
  {
    |s| >= |end| && s[|s| - |end|..] == end
  }

  /** The test for a signature that has been rewritten before: its last bytes are those of the state local. */
  predicate EndsWithState(orig: seq<byte>, state: Token)
    requires Codable(state)
  {
    EndsIn(orig, StateLocal(state))
  }

  /** A rewritten signature is refused. */
  lemma SecondRewriteRefused(orig: seq<byte>, ret: Return, ex: Token, state: Token)
    requires HasCount(orig) && NewCount(orig, ret) <= 0x1FFF_FFFF
    requires Codable(ex) && Codable(state) && (ret.NoValue? ==> Codable(ret.callTargetReturn))
    ensures EndsWithState(NewSignature(orig, ret, ex, state), state)
  {
    hide NewLocals, TokenBytes, NumBytes, Flatten, OldLocals, NewCount, HasCount, Compress, CompressToken;
    FlattenNew(ret, ex, state);
    var front := [LOCAL_SIG] + NumBytes(Compress(NewCount(orig, ret)).value) + OldLocals(orig);
    var middle := (if ret.Value? then ret.signature else []) + [CLASS] + TokenBytes(ex)
      + (if ret.Value? then ret.typeSpec else [VALUETYPE] + TokenBytes(ret.callTargetReturn));
    EndOf(front, middle, TokenBytes(state));
  }

  lemma EndOf(front: seq<byte>, middle: seq<byte>, token: seq<byte>)
    ensures EndsIn(front + (middle + [VALUETYPE] + token), [VALUETYPE] + token)
  {
    assert front + (middle + [VALUETYPE] + token) == (front + middle) + ([VALUETYPE] + token);
  }

  /** The signature with the given locals. */
  function Signature(locals: seq<seq<byte>>): seq<byte>
    requires |locals| <= 0x1FFF_FFFF
  {
    [LOCAL_SIG] + (NumBytes(Compress(|locals|).value) + Flatten(locals))
  }

  /**
   * The test looks at bytes: a signature counts as rewritten exactly when the bytes of all its locals together end in
   * those of the state local, wherever in them a local begins.
   */
  lemma GuardReadsBytes(locals: seq<seq<byte>>, state: Token)
    requires |locals| <= 0x1FFF_FFFF && Codable(state) && forall i :: 0 <= i < |locals| ==> PrintedLocal(locals[i])
    ensures DecodeLocals(PrintedLocal, Signature(locals)) == Some(locals)
    ensures EndsWithState(Signature(locals), state) <==> EndsIn(Flatten(locals), StateLocal(state))
  {
    hide PrintedLocal, PrefixFreeSet, Flatten, NumBytes, StateLocal, Split, HasCount, OldCount, OldLocals;
    var blob, count := Signature(locals), Compress(|locals|).value;
    LocalsArePrefixFree();
    SplitFlattened(PrintedLocal, locals);
    HeaderReads(blob, count, Flatten(locals));
    LocalsHaveBytes(locals);
    GuardPastHeader(count, Flatten(locals), StateLocal(state));
    StateLocalShape(state);
  }

  lemma StateLocalShape(state: Token)
    requires Codable(state)
    ensures 2 <= |StateLocal(state)| <= 5 && StateLocal(state)[0] == VALUETYPE
  {
  }

  lemma {:induction false} LocalsHaveBytes(locals: seq<seq<byte>>)
    requires forall i :: 0 <= i < |locals| ==> PrintedLocal(locals[i])
    ensures |Flatten(locals)| >= |locals|
  {
    hide PrintedLocal;
    if locals != [] {
      LocalsHaveBytes(locals[1..]);
      assert PrintedLocal(locals[0]);
      LocalHasBytes(locals[0]);
    }
  }

  /** The header cannot be taken for the beginning of the state local. */
  lemma GuardPastHeader(count: Num, body: seq<byte>, mark: seq<byte>)
    requires ValidNum(count) && count.width == (if count.value <= 0x7F then 1 else if count.value <= 0x3FFF then 2 else 4)
    requires 2 <= |mark| <= 5 && mark[0] == VALUETYPE && |body| >= count.value
    ensures EndsIn([LOCAL_SIG] + (NumBytes(count) + body), mark) <==> EndsIn(body, mark)
  {
    var blob := [LOCAL_SIG] + (NumBytes(count) + body);
    NumLength(count);
    var at := |blob| - |mark|;
    if |body| >= |mark| {
      assert blob[at..] == body[|body| - |mark|..];
    } else {
      assert blob == [LOCAL_SIG, count.value as byte] + body;
      if at >= 0 {
        assert blob[at..][0] == blob[at] != VALUETYPE;
      }
    }
  }

  /**
   * So a method that was never rewritten is refused as well when the encoding of its last local ends in that of the
   * state local without being the state local, whatever locals come before it; for a last local that is at least as
   * long as the state local this is the only way.
   */
  lemma FalseAlarm(locals: seq<seq<byte>>, last: seq<byte>, state: Token)
    requires |locals| < 0x1FFF_FFFF && Codable(state) && forall i :: 0 <= i < |locals| ==> PrintedLocal(locals[i])
    requires PrintedLocal(last) && last != StateLocal(state)
    ensures DecodeLocals(PrintedLocal, Signature(locals + [last])) == Some(locals + [last])
    ensures EndsIn(last, StateLocal(state)) ==> EndsWithState(Signature(locals + [last]), state)
    ensures |last| >= |StateLocal(state)| ==>
              (EndsWithState(Signature(locals + [last]), state) <==> EndsIn(last, StateLocal(state)))
  {
    hide PrintedLocal, DecodeLocals, EndsWithState, Signature, StateLocal;
    GuardReadsBytes(locals + [last], state);
    FlattenAppend(locals, [last]);
    assert [last][1..] == [] && Flatten([last]) == last;
    EndOfBoth(Flatten(locals), last, StateLocal(state));
  }

  lemma EndOfBoth(front: seq<byte>, last: seq<byte>, mark: seq<byte>)
    ensures |last| >= |mark| ==> (EndsIn(front + last, mark) <==> EndsIn(last, mark))
  {
    if |last| >= |mark| {
      assert (front + last)[|front + last| - |mark|..] == last[|last| - |mark|..];
    }
  }

  function StateType(state: Token): SigType
    requires Codable(state)
  {
    Named(VALUETYPE, CompressToken(state.rid, state.table).value)
  }

  /** Arrays of the state type, generic instances with it as the last argument, and so on inwards. */
  predicate StateLast(t: SigType, state: Token)
    requires Codable(state)
  {
    match t
    case SzArray(elem) => elem == StateType(state) || StateLast(elem, state)
    case Inst(_, _, _, args) =>
      args != [] && (args[|args| - 1] == StateType(state) || StateLast(args[|args| - 1], state))
    case _ => false
  }

  /** All of these are false alarms. */
  lemma {:induction false} StateLastEnds(t: SigType, state: Token)
    requires WellFormed(t) && Codable(state) && StateLast(t, state)
    ensures EndsIn(Print(t), StateLocal(state)) && Print(t) != StateLocal(state)
    decreases t
  {
    hide NumBytes, NumAt, StateLocal;
    StateTypePrints(state);
    match t {
      case SzArray(elem) =>
        if elem != StateType(state) {
          StateLastEnds(elem, state);
        }
        EndOfBoth([SZARRAY], Print(elem), StateLocal(state));
      case Inst(tag, token, count, args) =>
        var n := |args| - 1;
        LastPrinted(args);
        if args[n] != StateType(state) {
          StateLastEnds(args[n], state);
        }
        var front := [GENERICINST, tag] + NumBytes(token) + NumBytes(count) + PrintAll(args[..n]);
        assert Print(t) == front + Print(args[n]);
        EndOfBoth(front, Print(args[n]), StateLocal(state));
        assert Print(t)[0] == GENERICINST;
    }
  }

  lemma StateTypePrints(state: Token)
    requires Codable(state)
    ensures WellFormed(StateType(state)) && Print(StateType(state)) == StateLocal(state) && StateLocal(state)[0] == VALUETYPE
    ensures EndsIn(StateLocal(state), StateLocal(state))
  {
  }

  lemma {:induction false} LastPrinted(ts: seq<SigType>)
    requires AllWellFormed(ts) && ts != []
    ensures var n := |ts| - 1;
            AllWellFormed(ts[..n]) && WellFormed(ts[n]) && PrintAll(ts) == PrintAll(ts[..n]) + Print(ts[n])
    decreases |ts|
  {
    hide Print, WellFormed;
    var n := |ts| - 1;
    if n == 0 {
      assert ts[1..] == [] && ts[..n] == [];
    } else {
      LastPrinted(ts[1..]);
      assert ts[1..][..n - 1] == ts[..n][1..] && ts[..n][0] == ts[0] && ts[1..][n - 1] == ts[n];
    }
  }

  // ---------- the rewrite as written ----------

  /** memcpy into the signature buffer at the moving offset. */
  method Put(buffer: array<byte>, offset: nat, src: seq<byte>) returns (next: nat)
    requires offset + |src| <= buffer.Length
    modifies buffer
    ensures next == offset + |src|
    ensures buffer[..next] == old(buffer[..offset]) + src
  {
    next := offset;
    for i := 0 to |src|
      invariant next == offset + i
      invariant buffer[..offset] == old(buffer[..offset])
      invariant buffer[offset..next] == src[..i]
    {
      buffer[next] := src[i];
      next := next + 1;
    }
    assert buffer[..next] == buffer[..offset] + buffer[offset..next];
  }

  datatype Indices = Indices(returnValue: nat, exception: nat, callTargetReturn: nat, state: nat)

  datatype Tokens = Tokens(state: Token, exception: Token, callTargetReturn: Token)

  /** The references to other assemblies that CallTargetTokens defines in a module and remembers. */
  datatype Reference =
    | CorLibAssembly | ObjectType | ExceptionType | TypeType | RuntimeTypeHandleType | GetTypeFromHandle
    | RuntimeMethodHandleType | ProfilerAssembly | CallTargetType | CallTargetStateType | CallTargetStateGetDefault
    | CallTargetReturnVoidType | CallTargetReturnType

  /** EnsureCorLibTokens and EnsureBaseCalltargetTokens, in their order. */
  const CORLIB: seq<Reference> := [
    CorLibAssembly, ObjectType, ExceptionType, TypeType, RuntimeTypeHandleType, GetTypeFromHandle, RuntimeMethodHandleType]

  const BASE: seq<Reference> := CORLIB + [ProfilerAssembly, CallTargetType, CallTargetStateType, CallTargetStateGetDefault]

  /** mdTypeRefNil and mdTypeSpecNil: what is handed back when a token could not be made. */
  const NIL_TYPE_REF := Token(1, 0)
  const NIL_TYPE_SPEC := Token(2, 0)

  type References = map<Reference, Token>

  /** The module's metadata as the rewrite uses it; None is a failing call. */
  datatype ModuleMetadata = ModuleMetadata(
    define: Reference -> Option<Token>,
    sigFromToken: nat -> Option<seq<byte>>,
    tokenFromSig: seq<byte> -> Option<nat>,
    tokenFromTypeSpec: seq<byte> -> Option<Token>,
    typeSpecFromToken: Token -> Option<seq<byte>>)

  /** The token of a reference: remembered, or defined now. */
  function TokenOf(md: ModuleMetadata, refs: References, d: Reference): Option<Token>
  {
    if d in refs then Some(refs[d]) else md.define(d)
  }

  predicate AllDefinable(md: ModuleMetadata, refs: References, ds: seq<Reference>)
  {
    forall i :: 0 <= i < |ds| ==> TokenOf(md, refs, ds[i]).Some?
  }

  /** now remembers what was did, and otherwise only what the metadata gave. */
  predicate Remembers(md: ModuleMetadata, was: References, now: References)
  {
    Keeps(was, now) && forall d :: d in now && d !in was ==> md.define(d) == Some(now[d])
  }

  predicate Keeps(was: References, now: References)
  {
    forall d :: d in was ==> d in now && now[d] == was[d]
  }

  /** Type references can be coded in signatures. */
  predicate CodableTypes(md: ModuleMetadata, refs: References)
  {
    forall d :: d in [ExceptionType, CallTargetStateType, CallTargetReturnVoidType, CallTargetReturnType] ==>
                  (TokenOf(md, refs, d).Some? ==> Codable(TokenOf(md, refs, d).value))
  }

  lemma NilIsCodable()
    ensures Codable(NIL_TYPE_REF)
  {
  }

  lemma CorLibParts(md: ModuleMetadata, refs: References)
    ensures AllDefinable(md, refs, CORLIB) <==>
            && TokenOf(md, refs, CorLibAssembly).Some?
            && TokenOf(md, refs, ObjectType).Some?
            && TokenOf(md, refs, ExceptionType).Some?
            && TokenOf(md, refs, TypeType).Some?
            && TokenOf(md, refs, RuntimeTypeHandleType).Some?
            && TokenOf(md, refs, GetTypeFromHandle).Some?
            && TokenOf(md, refs, RuntimeMethodHandleType).Some?
  {
    hide TokenOf;
    assert CORLIB[0] == CorLibAssembly && CORLIB[1] == ObjectType && CORLIB[2] == ExceptionType && CORLIB[3] == TypeType;
    assert CORLIB[4] == RuntimeTypeHandleType && CORLIB[5] == GetTypeFromHandle && CORLIB[6] == RuntimeMethodHandleType;
  }

  lemma BaseParts(md: ModuleMetadata, refs: References)
    ensures AllDefinable(md, refs, BASE) <==>
            && AllDefinable(md, refs, CORLIB)
            && TokenOf(md, refs, ProfilerAssembly).Some?
            && TokenOf(md, refs, CallTargetType).Some?
            && TokenOf(md, refs, CallTargetStateType).Some?
            && TokenOf(md, refs, CallTargetStateGetDefault).Some?
  {
    hide TokenOf;
    assert forall i :: 0 <= i < |CORLIB| ==> BASE[i] == CORLIB[i];
    assert BASE[7] == ProfilerAssembly && BASE[8] == CallTargetType;
    assert BASE[9] == CallTargetStateType && BASE[10] == CallTargetStateGetDefault;
  }

  /** The type-spec token of CallTargetReturn<T>, or nil when it cannot be made. */
  function ReturnSpec(md: ModuleMetadata, refs: References, signature: seq<byte>): Token
    requires CodableTypes(md, refs)
  {
    var generic := TokenOf(md, refs, CallTargetReturnType);
    if generic.None? then NIL_TYPE_SPEC
    else
      var token := md.tokenFromTypeSpec(SpecBlob(generic.value, signature));
      if token.None? then NIL_TYPE_SPEC else token.value
  }

  /** What is known of the return value, None being void, when the new signature is put together. */
  function Returned(md: ModuleMetadata, refs: References, ret: Option<seq<byte>>): (r: Option<Return>)
    requires CodableTypes(md, refs)
    ensures ret.None? ==> r.Some? && r.value.NoValue? && Codable(r.value.callTargetReturn)
    ensures ret.Some? && r.Some? ==> r.value.Value? && r.value.signature == ret.value
  {
    NilIsCodable();
    if ret.None? then
      var token := TokenOf(md, refs, CallTargetReturnVoidType);
      Some(NoValue(if token.Some? then token.value else NIL_TYPE_REF))
    else
      var token := ReturnSpec(md, refs, ret.value);
      var typeSpec := md.typeSpecFromToken(token);
      if typeSpec.None? then None else Some(Value(ret.value, token, typeSpec.value))
  }

  /** The local-variable signature a method has: empty without a token. */
  function OriginalSignature(md: ModuleMetadata, tkLocalVarSig: nat): Option<seq<byte>>
  {
    if tkLocalVarSig == 0 then Some([]) else md.sigFromToken(tkLocalVarSig)
  }

  /** The new blob fits the fixed buffer. */
  predicate FitsBuffer(orig: seq<byte>, ret: Return, ex: Token, state: Token)
    requires Codable(ex) && Codable(state) && (ret.NoValue? ==> Codable(ret.callTargetReturn))
  {
    HasCount(orig) && NewCount(orig, ret) <= 0x1FFF_FFFF && DeclaredSize(orig, ret, ex, state) <= SIGNATURE_BUFFER_SIZE
  }

  /** Everything the new signature is made of, unless some look-up fails or the method has been rewritten before. */
  datatype Parts = Parts(orig: seq<byte>, ret: Return, ex: Token, state: Token)

  predicate PartsOk(p: Parts)
  {
    && Codable(p.ex) && Codable(p.state) && (p.ret.NoValue? ==> Codable(p.ret.callTargetReturn))
    && !EndsWithState(p.orig, p.state)
  }

  function PartsOf(md: ModuleMetadata, refs: References, tkLocalVarSig: nat, ret: Option<seq<byte>>): (p: Option<Parts>)
    requires CodableTypes(md, refs)
    ensures p.Some? ==> PartsOk(p.value)
  {
    var orig, returned := OriginalSignature(md, tkLocalVarSig), Returned(md, refs, ret);
    var ex, state := TokenOf(md, refs, ExceptionType), TokenOf(md, refs, CallTargetStateType);
    if !AllDefinable(md, refs, BASE) || orig.None? || ex.None? || state.None? || returned.None?
       || EndsWithState(orig.value, state.value)
    then None
    else Some(Parts(orig.value, returned.value, ex.value, state.value))
  }

  function NewBlob(p: Parts): seq<byte>
    requires PartsOk(p) && FitsBuffer(p.orig, p.ret, p.ex, p.state)
  {
    NewSignature(p.orig, p.ret, p.ex, p.state)
  }

  /** Where the new locals are behind n old ones. */
  function NewIndices(n: nat, value: bool): Indices
  {
    if value then Indices(n, n + 1, n + 2, n + 3) else Indices(NO_INDEX, n, n + 1, n + 2)
  }

  predicate GuardReads(md: ModuleMetadata, refs: References, tkLocalVarSig: nat)
    requires CodableTypes(md, refs)
  {
    var orig, state := OriginalSignature(md, tkLocalVarSig), TokenOf(md, refs, CallTargetStateType);
    tkLocalVarSig != 0 && orig.Some? && state.Some? ==> |orig.value| >= |TokenBytes(state.value)|
  }

  predicate SpecFits(md: ModuleMetadata, refs: References, ret: Option<seq<byte>>)
    requires CodableTypes(md, refs)
  {
    var generic := TokenOf(md, refs, CallTargetReturnType);
    ret.Some? && generic.Some? ==> |SpecBlob(generic.value, ret.value)| <= SIGNATURE_BUFFER_SIZE
  }

  lemma RemembersItself(md: ModuleMetadata, refs: References)
    ensures Remembers(md, refs, refs)
  {
  }

  lemma TypesCodable(md: ModuleMetadata, refs: References)
    requires CodableTypes(md, refs)
    ensures var ex, state := TokenOf(md, refs, ExceptionType), TokenOf(md, refs, CallTargetStateType);
            && (ex.Some? ==> Codable(ex.value)) && (state.Some? ==> Codable(state.value))
    ensures AllDefinable(md, refs, BASE) ==>
              TokenOf(md, refs, ExceptionType).Some? && TokenOf(md, refs, CallTargetStateType).Some?
  {
    hide TokenOf, Codable;
    CorLibParts(md, refs);
    BaseParts(md, refs);
  }

  // ---------- what the method's result means ----------

  /** A type-spec token leads back to the blob it was made from. */
  ghost predicate Faithful(md: ModuleMetadata)
  {
    forall blob :: md.tokenFromTypeSpec(blob).Some? ==>
                     md.typeSpecFromToken(md.tokenFromTypeSpec(blob).value) == Some(blob)
  }

  /**
   * Whenever the rewrite of a method with a return value goes through: its signature decodes to old and new locals exactly
   * when the value is not returned by reference and made of types of the standard.
   */
  lemma RewriteDecodes(md: ModuleMetadata, refs: References, tkLocalVarSig: nat, x: MethodSignature.Slot)
    requires CodableTypes(md, refs) && Faithful(md) && MethodSignature.ParamOk(x)
    requires var generic := TokenOf(md, refs, CallTargetReturnType);
             generic.Some? && md.tokenFromTypeSpec(SpecBlob(generic.value, MethodSignature.PrintSlot(x))).Some?
    requires var p := PartsOf(md, refs, tkLocalVarSig, Some(MethodSignature.PrintSlot(x)));
             && p.Some? && FitsBuffer(p.value.orig, p.value.ret, p.value.ex, p.value.state)
             && Original(PrintedLocal, p.value.orig).Some?
    ensures var p := PartsOf(md, refs, tkLocalVarSig, Some(MethodSignature.PrintSlot(x))).value;
            var decoded := DecodeLocals(PrintedLocal, NewBlob(p));
            && (decoded == Some(Original(PrintedLocal, p.orig).value + NewLocals(p.ret, p.ex, p.state)) <==>
                  !x.byRef && Standard(x.t))
            && (x.byRef && Standard(x.t) ==> decoded.None?)
  {
    hide PrintedLocal, Original, DecodeLocals, NewSignature, NewLocals, Standard, SpecBlob, Codable, AllDefinable, TokenBytes;
    hide WellFormed, Print, EndsWithState, HasCount, OldCount, DeclaredSize;
    var s := MethodSignature.PrintSlot(x);
    var p := PartsOf(md, refs, tkLocalVarSig, Some(s)).value;
    var generic := TokenOf(md, refs, CallTargetReturnType).value;
    ReturnDecodes(p.orig, x, md.tokenFromTypeSpec(SpecBlob(generic, s)).value, generic, p.ex, p.state);
  }

  /** The rewrite of a void method goes through with a local of the nil type exactly when CallTargetReturn has no token. */
  lemma VoidReturnNil(md: ModuleMetadata, refs: References, tkLocalVarSig: nat)
    requires CodableTypes(md, refs) && PartsOf(md, refs, tkLocalVarSig, None).Some?
    ensures var token := TokenOf(md, refs, CallTargetReturnVoidType);
            PartsOf(md, refs, tkLocalVarSig, None).value.ret.callTargetReturn == NIL_TYPE_REF <==>
            token.None? || token.value == NIL_TYPE_REF
  {
    hide AllDefinable, EndsWithState, CodableTypes;
  }

  /** A module in which all other references can be defined. */
  lemma VoidReturnNilInstance(md: ModuleMetadata)
    requires forall d :: md.define(d) == if d == CallTargetReturnVoidType then None else Some(Token(1, 1))
    ensures CodableTypes(md, map[])
    ensures PartsOf(md, map[], 0, None) == Some(Parts([], NoValue(NIL_TYPE_REF), Token(1, 1), Token(1, 1)))
  {
    hide EndsWithState, Codable;
    FirstRowIsCodable();
    NothingEnds(Token(1, 1));
  }

  lemma FirstRowIsCodable()
    ensures Codable(Token(1, 1))
  {
  }

  /** A method without locals has not been rewritten. */
  lemma NothingEnds(state: Token)
    requires Codable(state)
    ensures !EndsWithState([], state)
  {
    hide StateLocal;
    StateLocalShape(state);
  }

  class CallTargetTokens {
    const md: ModuleMetadata
    var refs: References

    constructor (md: ModuleMetadata)
      ensures this.md == md && refs == map[]
    {
      this.md, refs := md, map[];
    }

    /** Defines a reference unless it is remembered; was is what was remembered some calls before. */
    method Ensure(ghost was: References, d: Reference) returns (ok: bool)
      requires Remembers(md, was, refs)
      modifies this
      ensures Remembers(md, was, refs) && Keeps(old(refs), refs)
      ensures ok <==> TokenOf(md, was, d).Some?
      ensures ok ==> d in refs && TokenOf(md, was, d) == Some(refs[d])
    {
      ok := d in refs;
      if !ok {
        match md.define(d) {
          case None =>
          case Some(token) => ok, refs := true, refs[d := token];
        }
      }
    }

    method EnsureCorLibTokens(ghost was: References) returns (ok: bool)
      requires Remembers(md, was, refs)
      modifies this
      ensures Remembers(md, was, refs) && Keeps(old(refs), refs)
      ensures ok <==> AllDefinable(md, was, CORLIB)
      ensures ok ==> ExceptionType in refs && TokenOf(md, was, ExceptionType) == Some(refs[ExceptionType])
    {
      hide Remembers, TokenOf, AllDefinable;
      CorLibParts(md, was);
      ok := Ensure(was, CorLibAssembly);
      if !ok {
        return;
      }
      ok := Ensure(was, ObjectType);
      if !ok {
        return;
      }
      ok := Ensure(was, ExceptionType);
      if !ok {
        return;
      }
      ok := Ensure(was, TypeType);
      if !ok {
        return;
      }
      ok := Ensure(was, RuntimeTypeHandleType);
      if !ok {
        return;
      }
      ok := Ensure(was, GetTypeFromHandle);
      if !ok {
        return;
      }
      ok := Ensure(was, RuntimeMethodHandleType);
      if !ok {
        return;
      }
    }

    method EnsureBaseCalltargetTokens(ghost was: References) returns (ok: bool)
      requires Remembers(md, was, refs)
      modifies this
      ensures Remembers(md, was, refs) && Keeps(old(refs), refs)
      ensures ok <==> AllDefinable(md, was, BASE)
      ensures ok ==> ExceptionType in refs && TokenOf(md, was, ExceptionType) == Some(refs[ExceptionType])
      ensures ok ==> CallTargetStateType in refs &&
                     TokenOf(md, was, CallTargetStateType) == Some(refs[CallTargetStateType])
    {
      hide Remembers, TokenOf, AllDefinable;
      BaseParts(md, was);
      ok := EnsureCorLibTokens(was);
      if !ok {
        return;
      }
      ok := Ensure(was, ProfilerAssembly);
      if !ok {
        return;
      }
      ok := Ensure(was, CallTargetType);
      if !ok {
        return;
      }
      ok := Ensure(was, CallTargetStateType);
      if !ok {
        return;
      }
      ok := Ensure(was, CallTargetStateGetDefault);
      if !ok {
        return;
      }
    }

    /** The token of CallTargetReturn, or nil. */
    method GetTargetVoidReturnTypeRef(ghost was: References) returns (token: Token)
      requires Remembers(md, was, refs) && CodableTypes(md, was)
      modifies this
      ensures Remembers(md, was, refs) && Keeps(old(refs), refs)
      ensures if AllDefinable(md, was, BASE) then Returned(md, was, None) == Some(NoValue(token))
              else token == NIL_TYPE_REF
    {
      hide Remembers, AllDefinable, CodableTypes;
      token := NIL_TYPE_REF;
      var ok := EnsureBaseCalltargetTokens(was);
      if ok {
        ok := Ensure(was, CallTargetReturnVoidType);
      }
      if ok {
        token := refs[CallTargetReturnVoidType];
      }
    }

    /** The type-spec token of CallTargetReturn<T>, or nil. */
    method GetTargetReturnValueTypeRef(ghost was: References, signature: seq<byte>) returns (token: Token)
      requires Remembers(md, was, refs) && CodableTypes(md, was)
      requires TokenOf(md, was, CallTargetReturnType).Some? ==>
                 |SpecBlob(TokenOf(md, was, CallTargetReturnType).value, signature)| <= SIGNATURE_BUFFER_SIZE
      modifies this
      ensures Remembers(md, was, refs) && Keeps(old(refs), refs)
      ensures token == if AllDefinable(md, was, BASE) then ReturnSpec(md, was, signature) else NIL_TYPE_SPEC
    {
      hide Remembers, AllDefinable;
      token := NIL_TYPE_SPEC;
      var ok := EnsureBaseCalltargetTokens(was);
      if ok {
        ok := Ensure(was, CallTargetReturnType);
      }
      if ok {
        var generic := TokenBytes(refs[CallTargetReturnType]);
        var buffer := new byte[SIGNATURE_BUFFER_SIZE];
        var offset := Put(buffer, 0, [GENERICINST, VALUETYPE]);
        offset := Put(buffer, offset, generic);
        offset := Put(buffer, offset, [0x01]);
        offset := Put(buffer, offset, signature);
        assert buffer[..offset] == SpecBlob(refs[CallTargetReturnType], signature);
        match md.tokenFromTypeSpec(buffer[..offset]) {
          case None =>
          case Some(spec) => token := spec;
        }
      }
    }

    /**
     * Appends the locals of the instrumentation to the method's locals. The guard reads the signature so far from its end
     * that one the method has must not be shorter than the state token's encoding, and both blobs must fit their buffer.
     */
    method ModifyLocalSig(reWriter: ILRewriter, ret: Option<seq<byte>>)
      returns (ok: bool, indices: Indices, tokens: Tokens)
      requires CodableTypes(md, refs) && GuardReads(md, refs, reWriter.tkLocalVarSig) && SpecFits(md, refs, ret)
      requires var p := PartsOf(md, refs, reWriter.tkLocalVarSig, ret);
               p.Some? ==> FitsBuffer(p.value.orig, p.value.ret, p.value.ex, p.value.state)
      modifies this, reWriter`tkLocalVarSig, reWriter`generateTinyHeader
      ensures Remembers(md, old(refs), refs)
      ensures var p := PartsOf(md, old(refs), old(reWriter.tkLocalVarSig), ret);
              && (ok <==> p.Some? && md.tokenFromSig(NewBlob(p.value)).Some?)
              && (ok ==> !reWriter.generateTinyHeader
                         && reWriter.tkLocalVarSig == md.tokenFromSig(NewBlob(p.value)).value
                         && indices == NewIndices(OldCount(p.value.orig), ret.Some?)
                         && tokens == Tokens(p.value.state, p.value.ex, p.value.ret.callTargetReturn))
      ensures !ok ==> reWriter.tkLocalVarSig == old(reWriter.tkLocalVarSig)
                      && reWriter.generateTinyHeader == old(reWriter.generateTinyHeader)
    {
      hide NumAt, NumBytes, TokenBytes, NewSignature, EndsWithState, Remembers, AllDefinable, CodableTypes, SpecBlob;
      hide FitsBuffer, ReturnSpec;
      ghost var was, p := refs, PartsOf(md, refs, reWriter.tkLocalVarSig, ret);
      indices, tokens := Indices(0, 0, 0, 0), Tokens(NIL_TYPE_REF, NIL_TYPE_REF, NIL_TYPE_REF);
      RemembersItself(md, refs);
      TypesCodable(md, refs);
      ok := EnsureBaseCalltargetTokens(was);
      if !ok {
        return;
      }
      var state, ex := refs[CallTargetStateType], refs[ExceptionType];
      var orig: seq<byte> := [];
      if reWriter.tkLocalVarSig != 0 {
        match md.sigFromToken(reWriter.tkLocalVarSig) {
          case None => return false, indices, tokens;
          case Some(signature) => orig := signature;
        }
        var at := |orig| - |TokenBytes(state)|;
        GuardIs(orig, state);
        if at != 0 && orig[at - 1] == VALUETYPE && orig[at..] == TokenBytes(state) {
          return false, indices, tokens;
        }
      } else {
        GuardIs(orig, state);
      }
      var returned;
      match ret {
        case None =>
          var token := GetTargetVoidReturnTypeRef(was);
          returned := NoValue(token);
        case Some(signature) =>
          var token := GetTargetReturnValueTypeRef(was, signature);
          match md.typeSpecFromToken(token) {
            case None => return false, indices, tokens;
            case Some(typeSpec) => returned := Value(signature, token, typeSpec);
          }
      }
      assert p == Some(Parts(orig, returned, ex, state));
      ok, indices := ReplaceSignature(reWriter, orig, returned, ex, state);
      tokens := Tokens(state, ex, returned.callTargetReturn);
    }

    /** The second half: the new blob is put together and its token is set. */
    method ReplaceSignature(reWriter: ILRewriter, orig: seq<byte>, ret: Return, exTypeRef: Token, stateTypeRef: Token)
      returns (ok: bool, indices: Indices)
      requires Codable(exTypeRef) && Codable(stateTypeRef) && (ret.NoValue? ==> Codable(ret.callTargetReturn))
      requires FitsBuffer(orig, ret, exTypeRef, stateTypeRef)
      modifies reWriter`tkLocalVarSig, reWriter`generateTinyHeader
      ensures var token := md.tokenFromSig(NewSignature(orig, ret, exTypeRef, stateTypeRef));
              && (ok <==> token.Some?)
              && (ok ==> reWriter.tkLocalVarSig == token.value && !reWriter.generateTinyHeader)
      ensures ok ==> indices == NewIndices(OldCount(orig), ret.Value?)
      ensures !ok ==> reWriter.tkLocalVarSig == old(reWriter.tkLocalVarSig)
                      && reWriter.generateTinyHeader == old(reWriter.generateTinyHeader)
    {
      hide NumAt, NumBytes, TokenBytes, NewSignature, Rest, Added;
      indices := Indices(0, 0, 0, 0);
      var state, ex := TokenBytes(stateTypeRef), TokenBytes(exTypeRef);
      var newLocalsCount := if ret.Value? then 4 else 3;
      var callTargetReturn: seq<byte> := if ret.Value? then ret.typeSpec else TokenBytes(ret.callTargetReturn);
      var newSignatureSize := |orig| + (if ret.Value? then |ret.signature| else 0) + (1 + |ex|)
        + (if ret.Value? then |callTargetReturn| else 1 + |callTargetReturn|) + (1 + |state|);
      var oldLocalsLen := 0;
      var newLocals;
      if |orig| == 0 {
        newSignatureSize := newSignatureSize + 2;
        newLocals := Compress(newLocalsCount).value;
      } else {
        var oldLocals := NumAt(orig, 1, |orig|).value;
        oldLocalsLen := oldLocals.width;
        newLocalsCount := newLocalsCount + oldLocals.value;
        newLocals := Compress(newLocalsCount).value;
        newSignatureSize := newSignatureSize + newLocals.width - oldLocalsLen;
      }
      WritesWhatItDeclares(orig, ret, exTypeRef, stateTypeRef);
      InPieces(orig, ret, exTypeRef, stateTypeRef);
      ghost var blob := NewSignature(orig, ret, exTypeRef, stateTypeRef);

      var buffer := new byte[SIGNATURE_BUFFER_SIZE];
      var offset := WriteSignature(buffer, orig, newLocals, oldLocalsLen, ret, ex, callTargetReturn, state);
      assert buffer[..offset] == blob && offset == newSignatureSize;

      var newLocalVarSig := md.tokenFromSig(buffer[..newSignatureSize]);
      if newLocalVarSig.None? {
        return false, indices;
      }
      reWriter.SetTkLocalVarSig(newLocalVarSig.value);
      var returnValueIndex := if ret.Value? then newLocalsCount - 4 else NO_INDEX;
      indices := Indices(returnValueIndex, newLocalsCount - 3, newLocalsCount - 2, newLocalsCount - 1);
      return true, indices;
    }

    /** The bytes, through the moving offset. */
    method WriteSignature(buffer: array<byte>, orig: seq<byte>, newLocals: Num, oldLocalsLen: nat, ret: Return,
                          ex: seq<byte>, callTargetReturn: seq<byte>, state: seq<byte>) returns (offset: nat)
      requires ValidNum(newLocals) && (|orig| > 0 ==> 1 + oldLocalsLen <= |orig|)
      requires 1 + newLocals.width + |Rest(orig, oldLocalsLen)| + |Added(ret, ex, callTargetReturn, state)| <= buffer.Length
      modifies buffer
      ensures offset <= buffer.Length
      ensures buffer[..offset] ==
              [LOCAL_SIG] + NumBytes(newLocals) + Rest(orig, oldLocalsLen) + Added(ret, ex, callTargetReturn, state)
    {
      NumLength(newLocals);
      hide NumBytes, Added;
      offset := Put(buffer, 0, [LOCAL_SIG]);
      assert buffer[..offset] == [LOCAL_SIG];
      offset := Put(buffer, offset, NumBytes(newLocals));
      if |orig| > 0 {
        offset := Put(buffer, offset, orig[1 + oldLocalsLen..]);
      }
      assert buffer[..offset] == [LOCAL_SIG] + NumBytes(newLocals) + Rest(orig, oldLocalsLen);
      offset := WriteNewLocals(buffer, offset, ret, ex, callTargetReturn, state);
    }

    method WriteNewLocals(buffer: array<byte>, from: nat, ret: Return, ex: seq<byte>, callTargetReturn: seq<byte>,
                          state: seq<byte>) returns (offset: nat)
      requires from + |Added(ret, ex, callTargetReturn, state)| <= buffer.Length
      modifies buffer
      ensures offset == from + |Added(ret, ex, callTargetReturn, state)|
      ensures buffer[..offset] == old(buffer[..from]) + Added(ret, ex, callTargetReturn, state)
    {
      offset := from;
      ghost var front := buffer[..from];
      if ret.Value? {
        offset := Put(buffer, offset, ret.signature);
      }
      ghost var signature := if ret.Value? then ret.signature else [];
      assert buffer[..offset] == front + signature;
      offset := Put(buffer, offset, [CLASS]);
      offset := Put(buffer, offset, ex);
      if ret.NoValue? {
        offset := Put(buffer, offset, [VALUETYPE]);
      }
      ghost var tag := if ret.Value? then [] else [VALUETYPE];
      assert buffer[..offset] == front + signature + [CLASS] + ex + tag;
      offset := Put(buffer, offset, callTargetReturn);
      offset := Put(buffer, offset, [VALUETYPE]);
      offset := Put(buffer, offset, state);
      Together(front, signature, ex, tag, callTargetReturn, state);
    }
  }

  function Rest(orig: seq<byte>, oldLocalsLen: nat): seq<byte>
    requires |orig| > 0 ==> 1 + oldLocalsLen <= |orig|
  {
    if |orig| > 0 then orig[1 + oldLocalsLen..] else []
  }

  function Added(ret: Return, ex: seq<byte>, callTargetReturn: seq<byte>, state: seq<byte>): seq<byte>
  {
    (if ret.Value? then ret.signature else []) + [CLASS] + ex
    + (if ret.Value? then [] else [VALUETYPE]) + callTargetReturn + [VALUETYPE] + state
  }

  lemma Together(front: seq<byte>, signature: seq<byte>, ex: seq<byte>, tag: seq<byte>, c: seq<byte>, state: seq<byte>)
    ensures front + signature + [CLASS] + ex + tag + c + [VALUETYPE] + state ==
            front + (signature + [CLASS] + ex + tag + c + [VALUETYPE] + state)
  {
  }

  /** The new signature in the pieces it is written in. */
  lemma InPieces(orig: seq<byte>, ret: Return, ex: Token, state: Token)
    requires HasCount(orig) && NewCount(orig, ret) <= 0x1FFF_FFFF
    requires Codable(ex) && Codable(state) && (ret.NoValue? ==> Codable(ret.callTargetReturn))
    ensures var oldLocalsLen := if orig == [] then 0 else NumAt(orig, 1, |orig|).value.width;
            var callTargetReturn := if ret.Value? then ret.typeSpec else TokenBytes(ret.callTargetReturn);
            && (orig != [] ==> 1 + oldLocalsLen <= |orig|)
            && NewSignature(orig, ret, ex, state) ==
               [LOCAL_SIG] + NumBytes(Compress(NewCount(orig, ret)).value) + Rest(orig, oldLocalsLen)
               + Added(ret, TokenBytes(ex), callTargetReturn, TokenBytes(state))
  {
    hide *;
    FlattenIsAdded(ret, ex, state);
    PiecesOf(orig, ret, ex, state);
  }

  lemma PiecesOf(orig: seq<byte>, ret: Return, ex: Token, state: Token)
    requires HasCount(orig) && NewCount(orig, ret) <= 0x1FFF_FFFF
    requires Codable(ex) && Codable(state) && (ret.NoValue? ==> Codable(ret.callTargetReturn))
    ensures var oldLocalsLen := if orig == [] then 0 else NumAt(orig, 1, |orig|).value.width;
            && (orig != [] ==> 1 + oldLocalsLen <= |orig|)
            && NewSignature(orig, ret, ex, state) ==
               [LOCAL_SIG] + NumBytes(Compress(NewCount(orig, ret)).value) + Rest(orig, oldLocalsLen)
               + Flatten(NewLocals(ret, ex, state))
  {
    hide NewLocals, TokenBytes, Flatten, NumBytes, NewCount, NumAt, Compress;
  }

  lemma FlattenIsAdded(ret: Return, ex: Token, state: Token)
    requires Codable(ex) && Codable(state) && (ret.NoValue? ==> Codable(ret.callTargetReturn))
    ensures Flatten(NewLocals(ret, ex, state)) ==
            Added(ret, TokenBytes(ex), if ret.Value? then ret.typeSpec else TokenBytes(ret.callTargetReturn),
                  TokenBytes(state))
  {
    hide NewLocals, TokenBytes, Flatten;
    FlattenNew(ret, ex, state);
    var front := (if ret.Value? then ret.signature else []) + [CLASS] + TokenBytes(ex);
    if ret.Value? {
      Regroup(front, [], ret.typeSpec);
    } else {
      Regroup(front, [VALUETYPE], TokenBytes(ret.callTargetReturn));
    }
  }

  lemma Regroup(front: seq<byte>, tag: seq<byte>, c: seq<byte>)
    ensures front + (tag + c) == front + tag + c && [] + c == c
  {
  }

  lemma GuardIs(orig: seq<byte>, token: Token)
    requires Codable(token)
    ensures var state := TokenBytes(token);
            var at := |orig| - |state|;
            EndsWithState(orig, token) <==> at > 0 && orig[at - 1] == VALUETYPE && orig[at..] == state
  {
    hide TokenBytes, Codable, CompressToken, EndsIn;
    EndsInTwo(orig, VALUETYPE, TokenBytes(token));
  }

  lemma EndsInTwo(s: seq<byte>, b: byte, end: seq<byte>)
    ensures var at := |s| - |end|;
            EndsIn(s, [b] + end) <==> at > 0 && s[at - 1] == b && s[at..] == end
  {
    var at := |s| - |end|;
    if at > 0 {
      assert s[at - 1..] == [s[at - 1]] + s[at..];
      assert ([b] + end)[0] == b && ([b] + end)[1..] == end;
    }
  }
}
