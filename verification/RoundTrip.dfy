/** ImportIL and Export are inverse to each other: on code bytes exactly, on lists up to the widening of branches. */
module RoundTrip {
  import opened Words
  import opened Opcodes
  import opened ILCode
  import opened Relaxation
  import opened Assembler

  /** raw is the complete disassembly of bs. */
  predicate Scanned(bs: seq<byte>, raw: Code)
  {
    && (forall i :: 0 <= i < |raw| ==> RawOk(raw, i) && LaidAt(bs, raw, i))
    && Pending(raw, |raw|) <= 0
    && CodeSize(raw) == |bs|
  }

  lemma SamePrefix(bs: seq<byte>, raw: Code, raw': Code, i: nat)
    requires i < |raw| && i < |raw'| && raw[..i + 1] == raw'[..i + 1]
    ensures RawOk(raw, i) == RawOk(raw', i) && LaidAt(bs, raw, i) == LaidAt(bs, raw', i)
  {
    assert forall j :: 0 <= j <= i ==> raw[j] == raw[..i + 1][j] == raw'[j];
    PrefixFacts(raw, raw', i);
    PrefixFacts(raw, raw', i + 1);
  }

  lemma {:induction false} ScanComplete(bs: seq<byte>, raw: Code, i: nat)
    requires Scanned(bs, raw) && i <= |raw|
    ensures CodeSize(raw[..i]) <= |bs| && Scan(bs, raw[..i]) == Ok(raw)
    decreases |raw| - i
  {
    hide RawOk, LaidAt, Next;
    PrefixFacts(raw, raw[..i], i);
    if i == |raw| {
      assert raw[..i] == raw;
    } else {
      assert RawOk(raw, i) && LaidAt(bs, raw, i);
      NextComplete(bs, raw, i);
      assert raw[..i + 1] == raw[..i] + [raw[i]];
      ScanComplete(bs, raw, i + 1);
    }
  }

  lemma {:induction false} ScanSound(bs: seq<byte>, acc: Code)
    requires CodeSize(acc) <= |bs|
    requires forall i :: 0 <= i < |acc| ==> RawOk(acc, i) && LaidAt(bs, acc, i)
    ensures Scan(bs, acc).Ok? ==> Scanned(bs, Scan(bs, acc).value)
    decreases |bs| - CodeSize(acc)
  {
    hide RawOk, LaidAt, Next;
    if !(Pending(acc, |acc|) <= 0 && CodeSize(acc) == |bs|) && Next(bs, acc).Ok? {
      var ins := Next(bs, acc).value;
      NextSound(bs, acc);
      CodeSizeExtend(acc, ins);
      var longer := acc + [ins];
      forall i | 0 <= i < |longer| ensures RawOk(longer, i) && LaidAt(bs, longer, i) {
        if i < |acc| {
          assert acc[..i + 1] == longer[..i + 1];
          SamePrefix(bs, acc, longer, i);
        }
      }
      ScanSound(bs, longer);
    }
  }

  /** The scanner succeeds exactly on the complete disassemblies, and the disassembly is unique. */
  lemma ScanExact(bs: seq<byte>, raw: Code)
    ensures Scan(bs, []) == Ok(raw) <==> Scanned(bs, raw)
  {
    if Scanned(bs, raw) {
      ScanComplete(bs, raw, 0);
      assert raw[..0] == [];
    }
    if Scan(bs, []) == Ok(raw) {
      ScanSound(bs, []);
    }
  }

  lemma {:induction false} AssembledAt(raw: Code, i: nat, j: nat)
    requires j < i <= |raw|
    ensures Off(raw, j) <= Off(raw, j + 1) <= Off(raw, i)
    ensures |Assemble(raw, i)| == Off(raw, i)
    ensures Assemble(raw, i)[Off(raw, j)..Off(raw, j + 1)] == InstrCode(raw, j)
  {
    hide Assemble, InstrCode, Off;
    AssembleStep(raw, i);
    var before, last := Assemble(raw, i - 1), InstrCode(raw, i - 1);
    if j < i - 1 {
      AssembledAt(raw, i - 1, j);
      SliceOfFront(before, last, Off(raw, j), Off(raw, j + 1));
    } else {
      assert (before + last)[|before|..|before| + |last|] == last;
    }
  }

  lemma AssembleStep(raw: Code, i: nat)
    requires 0 < i <= |raw|
    ensures Assemble(raw, i) == Assemble(raw, i - 1) + InstrCode(raw, i - 1)
    ensures |Assemble(raw, i)| == Off(raw, i) && |Assemble(raw, i - 1)| == Off(raw, i - 1)
    ensures Off(raw, i) == Off(raw, i - 1) + |InstrCode(raw, i - 1)|
  {
    hide Size;
  }

  lemma SliceOfFront<T>(front: seq<T>, back: seq<T>, p: nat, q: nat)
    requires p <= q <= |front|
    ensures (front + back)[p..q] == front[p..q]
  {
  }

  lemma {:induction false} LaidIsAssembled(bs: seq<byte>, raw: Code, i: nat)
    requires i <= |raw| && forall j :: 0 <= j < i ==> LaidAt(bs, raw, j)
    ensures Off(raw, i) <= |bs| && bs[..Off(raw, i)] == Assemble(raw, i)
  {
    hide InstrCode;
    if i > 0 {
      LaidIsAssembled(bs, raw, i - 1);
      assert LaidAt(bs, raw, i - 1);
      assert bs[..Off(raw, i)] == bs[..Off(raw, i - 1)] + bs[Off(raw, i - 1)..Off(raw, i)];
    }
  }

  /** Complete disassemblies are what the assembler writes. */
  lemma ScannedIsAssembled(bs: seq<byte>, raw: Code)
    ensures Scanned(bs, raw) <==>
              && bs == Assemble(raw, |raw|)
              && Pending(raw, |raw|) <= 0
              && forall i :: 0 <= i < |raw| ==> RawOk(raw, i)
  {
    hide RawOk, InstrCode;
    if Scanned(bs, raw) {
      LaidIsAssembled(bs, raw, |raw|);
    }
    if bs == Assemble(raw, |raw|) {
      forall i | 0 <= i < |raw| ensures LaidAt(bs, raw, i) {
        AssembledAt(raw, |raw|, i);
      }
    }
  }

  // ---------- positions and offsets ----------

  predicate SameShape(code: Code, raw: Code)
  {
    && |raw| == |code|
    && forall i :: 0 <= i < |code| ==> raw[i].op == code[i].op && (code[i].op == SWITCH ==> raw[i].arg == code[i].arg)
  }

  lemma SwitchHasNoTarget()
    ensures !HasTarget(SWITCH) && !IsShort(SWITCH_ARG)
  {
  }

  /** An offset names the instruction that starts there. */
  lemma {:induction false} IndexAtOff(raw: Code, j: nat, t: nat)
    requires NonEmptySizes(raw) && t <= j <= |raw| && ValidTarget(raw, t)
    ensures IndexAt(raw, j, Off(raw, t)) == Ok(t)
  {
    hide Size;
    if t < j {
      OffMonotone(raw, t, j);
      IndexAtOff(raw, j - 1, t);
    }
  }

  lemma ResolveLocate(code: Code)
    requires WellFormed(code)
    ensures TargetsInside(code) && Resolve(Locate(code)) == Ok(code)
  {
    hide OperandOf, Size, Off;
    WellFormedFacts(code);
    var raw := Locate(code);
    forall i | 0 <= i < |raw| ensures Resolvable(raw, raw[i]) && Resolved(raw, raw[i]) == code[i] {
      assert InstrOk(code, i) && raw[i] == Located(code, code[i]);
      if HasTarget(code[i].op) {
        LocateKeepsShape(code);
        var t := code[i].target;
        PrefixFacts(code, raw, t);
        assert t < |raw| ==> raw[t] == Located(code, code[t]);
        IndexAtOff(raw, |raw|, t);
      } else {
        assert ValidArg(code[i].op, code[i].arg);
      }
    }
    assert Resolve(raw).value == code;
  }

  lemma LocateKeepsShape(code: Code)
    requires TargetsInside(code)
    ensures SameShape(code, Locate(code))
    ensures NonEmptySizes(code) ==> NonEmptySizes(Locate(code))
  {
    SwitchHasNoTarget();
  }

  lemma ResolveKeepsShape(raw: Code)
    requires Resolve(raw).Ok? && forall i :: 0 <= i < |raw| ==> raw[i].target == 0
    ensures var code := Resolve(raw).value; SameShape(code, raw) && TargetsInside(code)
  {
    hide OperandOf;
    var code := Resolve(raw).value;
    SwitchHasNoTarget();
    forall i | 0 <= i < |raw|
      ensures code[i].op == raw[i].op && (code[i].op == SWITCH ==> raw[i].arg == code[i].arg)
      ensures code[i].target <= |code|
    {
      assert code[i] == Resolved(raw, raw[i]) && Resolvable(raw, raw[i]);
    }
  }

  lemma LocateResolve(raw: Code)
    requires Resolve(raw).Ok? && forall i :: 0 <= i < |raw| ==> raw[i].target == 0
    ensures var code := Resolve(raw).value;
            TargetsInside(code) && SameShape(code, raw) && Locate(code) == raw
  {
    hide OperandOf, Off;
    var code := Resolve(raw).value;
    ResolveKeepsShape(raw);
    forall i | 0 <= i < |raw| ensures Locate(code)[i] == raw[i] {
      assert code[i] == Resolved(raw, raw[i]) && Resolvable(raw, raw[i]);
      PrefixFacts(code, raw, code[i].target);
    }
  }

  // ---------- the two round trips ----------

  const MAX_CODE: int := 0x8000_0000

  lemma ValidArgIsOk(op: nat, origin: int, arg: int)
    requires ValidArg(op, arg) && !HasTarget(op)
    ensures ArgOk(op, origin, arg)
  {
    hide OperandOf;
  }

  /** An offset inside the code is reachable from any place in the code by a displacement that does not wrap. */
  lemma OffsetIsOk(op: nat, origin: int, o: int)
    requires HasTarget(op) && 0 <= o < MAX_CODE
    requires IsShort(op) ==> 0 <= origin < MAX_CODE
    ensures ArgOk(op, origin, o) <==> (IsShort(op) ==> Fits8(o - origin))
  {
    hide OperandOf;
  }

  lemma OffInside(code: Code, i: nat)
    requires NonEmptySizes(code) && i <= |code| && CodeSize(code) < MAX_CODE
    ensures 0 <= Off(code, i) < MAX_CODE
  {
    OffMonotone(code, i, |code|);
  }

  lemma LocatedOk(code: Code, i: nat)
    requires WellFormed(code) && TargetsInside(code) && CodeSize(code) < MAX_CODE
    requires i < |code| && ShortFits(code, i)
    ensures RawOk(Locate(code), i)
  {
    hide OperandOf, Size, Off, Pending, Base, ArgOk, ValidArg;
    WellFormedFacts(code);
    LocateKeepsShape(code);
    SwitchHasNoTarget();
    var raw, op := Locate(code), code[i].op;
    assert InstrOk(code, i) && raw[i] == Located(code, code[i]);
    PrefixFacts(code, raw, i);
    PrefixFacts(code, raw, i + 1);
    OffInside(code, i + 1);
    if HasTarget(op) {
      OffInside(code, code[i].target);
      OffsetIsOk(op, Origin(raw, i), raw[i].arg);
    } else {
      ValidArgIsOk(op, Origin(raw, i), code[i].arg);
    }
  }

  /** A well-formed list whose short branches fit survives assembling and disassembling unchanged. */
  lemma DecodeEncode(code: Code)
    requires WellFormed(code) && TargetsInside(code) && AllFit(code) && CodeSize(code) < MAX_CODE
    ensures Decode(Encode(code)) == Ok(code)
  {
    hide OperandOf, Size, Off, Pending, Base, RawOk, WellFormed, ShortFits;
    var raw := Locate(code);
    forall i | 0 <= i < |raw| ensures RawOk(raw, i) {
      LocatedOk(code, i);
    }
    LocateKeepsShape(code);
    PrefixFacts(code, raw, |code|);
    assert Pending(code, |code|) <= 0 by { NothingPending(code); }
    ScannedIsAssembled(Encode(code), raw);
    ScanExact(Encode(code), raw);
    ResolveLocate(code);
  }

  lemma NothingPending(code: Code)
    requires WellFormed(code)
    ensures Pending(code, |code|) <= 0
  {
  }

  /** A switch cannot owe more arguments than the code has instructions left. */
  lemma {:induction false} PendingBound(raw: Code, i: nat)
    requires i <= |raw| && Pending(raw, |raw|) <= 0 && forall j :: 0 <= j < |raw| ==> RawOk(raw, j)
    ensures Pending(raw, i) <= |raw| - i
    decreases |raw| - i
  {
    if i < |raw| {
      hide ArgOk;
      PendingBound(raw, i + 1);
      assert RawOk(raw, i);
    }
  }

  predicate Disassembly(raw: Code)
  {
    && Resolve(raw).Ok? && CodeSize(raw) < MAX_CODE && Pending(raw, |raw|) <= 0
    && forall i :: 0 <= i < |raw| ==> RawOk(raw, i)
  }

  lemma RawFacts(raw: Code)
    requires forall i :: 0 <= i < |raw| ==> RawOk(raw, i)
    ensures NonEmptySizes(raw) && forall i :: 0 <= i < |raw| ==> raw[i].target == 0
  {
    hide ArgOk, Pending;
    forall i | 0 <= i < |raw| ensures raw[i].target == 0 && Size(raw[i].op) >= 1 {
      assert RawOk(raw, i);
    }
  }

  lemma ResolvedArg(op: nat, origin: int, arg: int)
    requires ArgOk(op, origin, arg) && !HasTarget(op) && (op == SWITCH ==> arg < MAX_CODE)
    ensures ValidArg(op, arg)
  {
  }

  lemma ResolvedOk(raw: Code, i: nat)
    requires Disassembly(raw) && i < |raw|
    ensures var code := Resolve(raw).value;
            TargetsInside(code) && InstrOk(code, i) && ShortFits(code, i)
  {
    hide OperandOf, Size, Off, Pending, Base, ArgOk, ValidArg, Resolve;
    var code := Resolve(raw).value;
    RawFacts(raw);
    ResolveKeepsShape(raw);
    SwitchHasNoTarget();
    ResolveAt(raw, i);
    assert RawOk(raw, i);
    PrefixFacts(code, raw, i);
    PrefixFacts(code, raw, i + 1);
    if HasTarget(raw[i].op) {
      var t := code[i].target;
      PrefixFacts(code, raw, t);
      assert t < |code| ==> code[t].op == raw[t].op;
      OffInside(raw, i + 1);
      OffInside(raw, t);
      OffsetIsOk(raw[i].op, Origin(raw, i), raw[i].arg);
      assert ValidArg(code[i].op, 0) by { TargetHasNoArg(code[i].op); }
    } else {
      if raw[i].op == SWITCH {
        SwitchArgBound(raw, i);
      }
      ResolvedArg(raw[i].op, Origin(raw, i), raw[i].arg);
    }
  }

  lemma TargetHasNoArg(op: nat)
    requires HasTarget(op)
    ensures ValidArg(op, 0)
  {
  }

  lemma ResolveAt(raw: Code, i: nat)
    requires Resolve(raw).Ok? && i < |raw|
    ensures Resolvable(raw, raw[i]) && Resolve(raw).value[i] == Resolved(raw, raw[i])
  {
  }

  lemma SwitchArgBound(raw: Code, i: nat)
    requires Disassembly(raw) && i < |raw| && raw[i].op == SWITCH
    ensures raw[i].arg < MAX_CODE
  {
    PendingBound(raw, i + 1);
    RawFacts(raw);
    OffMonotone(raw, 0, |raw|);
  }

  /** A resolved disassembly is a well-formed list. */
  lemma ResolvedWellFormed(raw: Code)
    requires Disassembly(raw)
    ensures var code := Resolve(raw).value;
            && WellFormed(code) && TargetsInside(code) && AllFit(code)
            && SameShape(code, raw) && Locate(code) == raw
  {
    hide InstrOk, RawOk, ShortFits, Resolve, Locate, Off, Pending;
    RawFacts(raw);
    LocateResolve(raw);
    var code := Resolve(raw).value;
    forall i | 0 <= i < |code| ensures InstrOk(code, i) && ShortFits(code, i) {
      ResolvedOk(raw, i);
    }
    PrefixFacts(code, raw, |code|);
  }

  /** Import accepts well-formed lists only, and re-encoding an imported list gives back the very bytes it came from. */
  lemma EncodeDecode(bs: seq<byte>)
    requires |bs| < MAX_CODE && Decode(bs).Ok?
    ensures var code := Decode(bs).value;
            && WellFormed(code) && TargetsInside(code) && AllFit(code)
            && CodeSize(code) == |bs| && Encode(code) == bs
  {
    hide RawOk, WellFormed, Resolve, Locate, Assemble, Off, Pending;
    var raw := Scan(bs, []).value;
    ScanExact(bs, raw);
    ScannedIsAssembled(bs, raw);
    ResolvedWellFormed(raw);
    PrefixFacts(Resolve(raw).value, raw, |raw|);
  }

  /** Export of an unedited method: no branch is widened and the code bytes are reproduced exactly. */
  lemma ExportAfterImport(bs: seq<byte>)
    requires |bs| < MAX_CODE && Decode(bs).Ok?
    ensures var code := Decode(bs).value;
            TargetsInside(code) && Relax(code) == code && Encode(Relax(code)) == bs
  {
    EncodeDecode(bs);
    RelaxIdentity(Decode(bs).value);
  }

  /** Import of an exported list: the same list, with the same target graph, up to the branches Export had to widen. */
  lemma ImportAfterExport(code: Code)
    requires WellFormed(code) && 10 * |code| < MAX_CODE
    ensures TargetsInside(code)
    ensures Decode(Encode(Relax(code))) == Ok(Relax(code)) && WidenedFrom(code, Relax(code))
  {
    WellFormedFacts(code);
    RelaxFits(code);
    RelaxKeepsWellFormed(code);
    OffBound(Relax(code), |code|);
    DecodeEncode(Relax(code));
  }
}
