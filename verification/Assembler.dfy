/**
 * The assembler and disassembler inside the rewriter, as functions: ImportIL turns code bytes into a list, Export
 * turns a list into code bytes. Both go through an intermediate list whose branches still hold the absolute byte
 * offset of their target (m_Arg32) instead of a position (m_pTarget).
 */
module Assembler {
  import opened Words
  import opened Opcodes
  import opened ILCode

  datatype Result<T> = Ok(value: T) | InvalidProgram

  /** The INT32 holding x modulo 2^32. */
  function Signed32(x: int): (r: int)
    ensures -0x8000_0000 <= r < 0x8000_0000
    ensures -0x8000_0000 <= x < 0x8000_0000 ==> r == x
  {
    (x + 0x8000_0000) % TWO32 - 0x8000_0000
  }

  // ---------- Export: list to bytes ----------

  function OpcodeCode(op: nat): (s: seq<byte>)
    ensures |s| == OpcodeBytes(op)
  {
    if op >= COUNT then [] else if op >= 0x100 then [PREFIX1, op % 0x100] else [op]
  }

  /** Operand bytes; a branch stores the distance from origin to the absolute offset in arg. */
  function WriteArg(op: nat, origin: int, arg: int): (s: seq<byte>)
    ensures |s| == OperandBytes(op)
  {
    match OperandOf(op)
    case NoOperand => []
    case Inline(w) => Store(w, arg)
    case ShortTarget => Store(1, arg - origin)
    case LongTarget => Store(4, arg - origin)
    case SwitchCount => Store(4, arg)
  }

  /** Where the displacement of the branch or switch argument at position i is counted from. */
  function Origin(raw: Code, i: nat): int
    requires i < |raw|
  {
    if raw[i].op == SWITCH_ARG then Base(raw, i) else Off(raw, i + 1)
  }

  function InstrCode(raw: Code, i: nat): (s: seq<byte>)
    requires i < |raw|
    ensures |s| == Size(raw[i].op)
  {
    OpcodeCode(raw[i].op) + WriteArg(raw[i].op, Origin(raw, i), raw[i].arg)
  }

  function Assemble(raw: Code, i: nat): (s: seq<byte>)
    requires i <= |raw|
    ensures |s| == Off(raw, i)
  {
    if i == 0 then [] else Assemble(raw, i - 1) + InstrCode(raw, i - 1)
  }

  /** Every branch holding the offset of its target in place of the position. */
  function Located(code: Code, ins: Instr): Instr
    requires ins.target <= |code|
  {
    if HasTarget(ins.op) then Instr(ins.op, Off(code, ins.target), 0) else ins
  }

  function Locate(code: Code): (raw: Code)
    requires TargetsInside(code)
    ensures |raw| == |code|
    ensures forall i :: 0 <= i < |code| ==> raw[i] == Located(code, code[i])
  {
    seq(|code|, i requires 0 <= i < |code| => Located(code, code[i]))
  }

  /** The code bytes of a list, with all displacements filled in and no branch widened. */
  function Encode(code: Code): (s: seq<byte>)
    requires TargetsInside(code)
  {
    Assemble(Locate(code), |code|)
  }

  // ---------- Import: bytes to list ----------

  function ReadArg(op: nat, origin: int, operand: seq<byte>): int
    requires |operand| == OperandBytes(op)
  {
    match OperandOf(op)
    case NoOperand => 0
    case Inline(_) => Load(operand)
    case ShortTarget => (origin + Load(operand)) % TWO32
    case LongTarget => (origin + Load(operand)) % TWO32
    case SwitchCount => Load(operand) % TWO32
  }

  /** The opcode that starts at byte p, if there is one and Import supports it. */
  function ReadOpcode(bs: seq<byte>, p: nat): (r: Result<nat>)
    ensures r.Ok? ==> Encodable(r.value) && p + OpcodeBytes(r.value) <= |bs|
  {
    if p >= |bs| || (bs[p] == PREFIX1 && p + 1 >= |bs|) then InvalidProgram
    else
      var op: nat := if bs[p] == PREFIX1 then 0x100 + bs[p + 1] as nat else bs[p];
      if Encodable(op) then Ok(op) else InvalidProgram
  }

  /** Disassembles the one instruction or switch argument that follows the instructions read so far. */
  function Next(bs: seq<byte>, acc: Code): (r: Result<Instr>)
    requires CodeSize(acc) <= |bs|
    ensures r.Ok? ==> Size(r.value.op) >= 1 && CodeSize(acc) + Size(r.value.op) <= |bs|
  {
    var p := CodeSize(acc);
    var opcode := if Pending(acc, |acc|) > 0 then Ok(SWITCH_ARG) else ReadOpcode(bs, p);
    if opcode.InvalidProgram? || p + Size(opcode.value) > |bs| then InvalidProgram
    else
      var op, end := opcode.value, p + Size(opcode.value);
      var origin := if op == SWITCH_ARG then Base(acc, |acc|) else end;
      Ok(Instr(op, ReadArg(op, origin, bs[p + OpcodeBytes(op)..end]), 0))
  }

  lemma CodeSizeExtend(acc: Code, ins: Instr)
    ensures CodeSize(acc + [ins]) == CodeSize(acc) + Size(ins.op)
  {
    PrefixFacts(acc, acc + [ins], |acc|);
  }

  function Scan(bs: seq<byte>, acc: Code): Result<Code>
    requires CodeSize(acc) <= |bs|
    decreases |bs| - CodeSize(acc)
  {
    if Pending(acc, |acc|) <= 0 && CodeSize(acc) == |bs| then Ok(acc)
    else match Next(bs, acc)
      case InvalidProgram => InvalidProgram
      case Ok(ins) => CodeSizeExtend(acc, ins); Scan(bs, acc + [ins])
  }

  /** m_pOffsetToInstr: the position up to j that starts at byte o and is not inside a switch table. */
  function IndexAt(raw: Code, j: nat, o: int): (r: Result<nat>)
    requires j <= |raw|
    ensures r.Ok? ==> r.value <= j && Off(raw, r.value) == o && ValidTarget(raw, r.value)
    ensures r.InvalidProgram? ==> forall k :: 0 <= k <= j && ValidTarget(raw, k) ==> Off(raw, k) != o
  {
    if Off(raw, j) == o && ValidTarget(raw, j) then Ok(j)
    else if j == 0 then InvalidProgram
    else IndexAt(raw, j - 1, o)
  }

  predicate Resolvable(raw: Code, ins: Instr)
  {
    HasTarget(ins.op) ==> IndexAt(raw, |raw|, ins.arg).Ok?
  }

  function Resolved(raw: Code, ins: Instr): Instr
    requires Resolvable(raw, ins)
  {
    if HasTarget(ins.op) then Instr(ins.op, 0, IndexAt(raw, |raw|, ins.arg).value) else ins
  }

  function Resolve(raw: Code): (r: Result<Code>)
    ensures r.Ok? <==> forall i :: 0 <= i < |raw| ==> Resolvable(raw, raw[i])
    ensures r.Ok? ==> |r.value| == |raw| && forall i :: 0 <= i < |raw| ==> r.value[i] == Resolved(raw, raw[i])
  {
    if forall i :: 0 <= i < |raw| ==> Resolvable(raw, raw[i])
    then Ok(seq(|raw|, i requires 0 <= i < |raw| && Resolvable(raw, raw[i]) => Resolved(raw, raw[i])))
    else InvalidProgram
  }

  /** ImportIL. */
  function Decode(bs: seq<byte>): Result<Code>
  {
    match Scan(bs, [])
    case InvalidProgram => InvalidProgram
    case Ok(raw) => Resolve(raw)
  }

  // ---------- scanning and assembling are inverse ----------

  predicate ArgOk(op: nat, origin: int, arg: int)
  {
    match OperandOf(op)
    case NoOperand => arg == 0
    case Inline(w) => FitsSigned(w, arg)
    case ShortTarget => 0 <= arg < TWO32 && Fits8(Signed32(arg - origin))
    case LongTarget => 0 <= arg < TWO32
    case SwitchCount => 0 <= arg < TWO32
  }

  /** Adding a displacement back to its origin recovers the offset, whatever multiple of 2^32 was lost. */
  lemma Rebase(origin: int, d: int, arg: int)
    requires 0 <= arg < TWO32 && d % TWO32 == (arg - origin) % TWO32
    ensures (origin + d) % TWO32 == arg
  {
    var k := d / TWO32 - (arg - origin) / TWO32;
    assert origin + d == arg + k * TWO32;
  }

  lemma ReadWriteArg(op: nat, origin: int, arg: int)
    requires ArgOk(op, origin, arg)
    ensures ReadArg(op, origin, WriteArg(op, origin, arg)) == arg
  {
    hide OperandOf, Load, Store;
    match OperandOf(op)
    case NoOperand =>
    case Inline(w) => LoadStore(w, arg);
    case ShortTarget =>
      var d := Signed32(arg - origin);
      assert d % TWO32 == (arg - origin) % TWO32;
      StoreCongruent(1, arg - origin, d);
      LoadStore(1, d);
      Rebase(origin, d, arg);
    case LongTarget =>
      LoadStoreMod32(arg - origin);
      Rebase(origin, Load(Store(4, arg - origin)), arg);
    case SwitchCount => LoadStoreMod32(arg);
  }

  /** The displacement a target was read from, modulo 2^32, and exactly when it is one signed byte. */
  lemma Displaced(origin: int, d: int)
    ensures ((origin + d) % TWO32 - origin) % TWO32 == d % TWO32
    ensures Fits8(d) ==> Signed32((origin + d) % TWO32 - origin) == d
  {
    var k := (origin + d) / TWO32;
    assert (origin + d) % TWO32 - origin == d + (-k) * TWO32;
    SameRest(d, -k);
  }

  lemma WriteReadArg(op: nat, origin: int, operand: seq<byte>)
    requires |operand| == OperandBytes(op)
    ensures var arg := ReadArg(op, origin, operand);
            ArgOk(op, origin, arg) && WriteArg(op, origin, arg) == operand
  {
    hide OperandOf, Load, Store, Signed32;
    var arg := ReadArg(op, origin, operand);
    if operand != [] {
      LoadFits(operand);
      StoreLoad(operand);
      match OperandOf(op)
      case NoOperand =>
      case Inline(w) =>
      case ShortTarget =>
        Displaced(origin, Load(operand));
        StoreCongruent(1, arg - origin, Load(operand));
      case LongTarget =>
        Displaced(origin, Load(operand));
        StoreCongruent(4, arg - origin, Load(operand));
      case SwitchCount => StoreCongruent(4, arg, Load(operand));
    }
  }

  /** What one scanned instruction can look like. */
  predicate RawOk(raw: Code, i: nat)
    requires i < |raw|
  {
    && (Encodable(raw[i].op) || raw[i].op == SWITCH_ARG)
    && (raw[i].op == SWITCH_ARG <==> Pending(raw, i) > 0)
    && raw[i].target == 0
    && ArgOk(raw[i].op, Origin(raw, i), raw[i].arg)
  }

  /** Position i of raw is what stands at its offset in bs. */
  predicate LaidAt(bs: seq<byte>, raw: Code, i: nat)
    requires i < |raw|
  {
    Off(raw, i + 1) <= |bs| && bs[Off(raw, i)..Off(raw, i + 1)] == InstrCode(raw, i)
  }

  lemma ReadOpcodeComplete(bs: seq<byte>, p: nat, op: nat)
    requires Encodable(op) && p + OpcodeBytes(op) <= |bs| && bs[p..p + OpcodeBytes(op)] == OpcodeCode(op)
    ensures ReadOpcode(bs, p) == Ok(op)
  {
    hide OperandOf;
    assert bs[p] == bs[p..p + OpcodeBytes(op)][0];
    if op >= 0x100 {
      assert bs[p + 1] == bs[p..p + OpcodeBytes(op)][1];
    }
  }

  lemma ReadOpcodeSound(bs: seq<byte>, p: nat)
    requires ReadOpcode(bs, p).Ok?
    ensures var op := ReadOpcode(bs, p).value; bs[p..p + OpcodeBytes(op)] == OpcodeCode(op)
  {
  }

  lemma OffStep(raw: Code, i: nat)
    requires i < |raw|
    ensures Off(raw, i + 1) == Off(raw, i) + OpcodeBytes(raw[i].op) + OperandBytes(raw[i].op)
    ensures Size(raw[i].op) == OpcodeBytes(raw[i].op) + OperandBytes(raw[i].op)
    ensures OpcodeBytes(SWITCH_ARG) == 0 && OpcodeCode(SWITCH_ARG) == []
  {
  }

  /** Reading the bytes of a scanned instruction gives that instruction back. */
  lemma NextComplete(bs: seq<byte>, raw: Code, i: nat)
    requires i < |raw| && RawOk(raw, i) && LaidAt(bs, raw, i)
    ensures CodeSize(raw[..i]) == Off(raw, i) <= |bs| && Next(bs, raw[..i]) == Ok(raw[i])
  {
    hide OperandOf, WriteArg, ReadArg, OpcodeCode, OpcodeBytes, OperandBytes, Size, Off, Pending, Base;
    var acc, op := raw[..i], raw[i].op;
    PrefixFacts(raw, acc, i);
    OffStep(raw, i);
    var p := Off(raw, i);
    var operand := WriteArg(op, Origin(raw, i), raw[i].arg);
    ReadWriteArg(op, Origin(raw, i), raw[i].arg);
    SplitSlice(bs, p, p + OpcodeBytes(op), Off(raw, i + 1), OpcodeCode(op), operand);
    if op != SWITCH_ARG {
      ReadOpcodeComplete(bs, p, op);
    }
  }

  /** Whatever the scanner reads is what assembling would write. */
  lemma NextSound(bs: seq<byte>, acc: Code)
    requires CodeSize(acc) <= |bs| && Next(bs, acc).Ok?
    ensures var raw := acc + [Next(bs, acc).value];
            RawOk(raw, |acc|) && LaidAt(bs, raw, |acc|)
  {
    hide OperandOf, WriteArg, ReadArg, OpcodeCode, OpcodeBytes, OperandBytes, Size, Off, Pending, Base;
    var ins := Next(bs, acc).value;
    var raw, i := acc + [ins], |acc|;
    PrefixFacts(acc, raw, i);
    OffStep(raw, i);
    var p, q, e := Off(raw, i), Off(raw, i) + OpcodeBytes(ins.op), Off(raw, i + 1);
    WriteReadArg(ins.op, Origin(raw, i), bs[q..e]);
    assert bs[p..e] == bs[p..q] + bs[q..e];
    if ins.op != SWITCH_ARG {
      ReadOpcodeSound(bs, p);
    }
  }
}
