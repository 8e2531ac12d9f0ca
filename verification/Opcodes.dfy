/**
 * The opcode table of opcode.def, in the enumeration order of the rewriter: one-byte opcodes have their own
 * value, two-byte opcodes 0xFE nn have the value 0x100 + nn, and the table ends with CEE_COUNT and the internal
 * pseudo opcode CEE_SWITCH_ARG.
 */
module Opcodes {
  const LDARG_0: nat := 0x02
  const LDLOC_0: nat := 0x06
  const STLOC_0: nat := 0x0A
  const LDARG_S: nat := 0x0E
  const LDLOC_S: nat := 0x11
  const LDLOCA_S: nat := 0x12
  const STLOC_S: nat := 0x13
  const LDNULL: nat := 0x14
  const LDC_I4_0: nat := 0x16
  const LDC_I4_S: nat := 0x1F
  const LDC_I4: nat := 0x20
  const DUP: nat := 0x25
  const POP: nat := 0x26
  const CALL: nat := 0x28
  const RET: nat := 0x2A
  const BR_S: nat := 0x2B
  const BLT_UN_S: nat := 0x37
  const BR: nat := 0x38
  const BRFALSE: nat := 0x39
  const BLT_UN: nat := 0x44
  const SWITCH: nat := 0x45
  const CALLVIRT: nat := 0x6F
  const LDSTR: nat := 0x72
  const NEWARR: nat := 0x8D
  const STELEM_REF: nat := 0xA2
  const LEAVE: nat := 0xDD
  const LEAVE_S: nat := 0xDE
  const PREFIX7: nat := 0xF8
  const PREFIX2: nat := 0xFD
  const PREFIX1: nat := 0xFE
  const LDARG: nat := 0x109
  const LDLOC: nat := 0x10C
  const LDLOCA: nat := 0x10D
  const STLOC: nat := 0x10E
  const COUNT: nat := 0x126
  const SWITCH_ARG: nat := 0x127

  /** What follows an opcode: s_OpCodeFlags with its size, branch-target and switch bits spelled out. */
  datatype Operand =
    | NoOperand
    | Inline(width: nat)
    | ShortTarget
    | LongTarget
    | SwitchCount

  predicate In(lo: nat, op: nat, hi: nat) { lo <= op <= hi }

  function OperandOf(op: nat): (k: Operand)
    ensures k.Inline? ==> k.width == 1 || k.width == 2 || k.width == 4 || k.width == 8
    ensures k.ShortTarget? <==> In(BR_S, op, BLT_UN_S) || op == LEAVE_S
    ensures k.LongTarget? <==> In(BR, op, BLT_UN) || op == LEAVE || op == SWITCH_ARG
    ensures k.SwitchCount? <==> op == SWITCH
  {
    if In(BR_S, op, BLT_UN_S) || op == LEAVE_S then ShortTarget
    else if In(BR, op, BLT_UN) || op == LEAVE || op == SWITCH_ARG then LongTarget
    else if op == SWITCH then SwitchCount
    else if In(0x0E, op, 0x13) || op == 0x1F || op == 0x112 then Inline(1)
    else if In(0x109, op, 0x10E) then Inline(2)
    else if op == 0x21 || op == 0x23 then Inline(8)
    else if || op == 0x20 || op == 0x22 || In(0x27, op, 0x29) || In(0x6F, op, 0x75) || op == 0x79
            || In(0x7B, op, 0x81) || In(0x8C, op, 0x8D) || op == 0x8F || In(0xA3, op, 0xA5) || op == 0xC2
            || op == 0xC6 || op == 0xD0 || In(0x106, op, 0x107) || In(0x115, op, 0x116) || op == 0x11C
    then Inline(4)
    else NoOperand
  }

  /** k_rgnStackPushes: how many values an instruction pushes (VarPush counts as one). */
  function Pushes(op: nat): (n: nat)
    ensures n <= 2
  {
    if op == DUP then 2
    else if || In(0x02, op, 0x09) || In(0x0E, op, 0x0F) || In(0x11, op, 0x12) || In(0x14, op, 0x23)
            || In(0x28, op, 0x29) || In(0x46, op, 0x50) || In(0x58, op, 0x6F) || In(0x71, op, 0x76) || op == 0x79
            || In(0x7B, op, 0x7C) || In(0x7E, op, 0x7F) || In(0x82, op, 0x9A) || op == 0xA3 || op == 0xA5
            || In(0xB3, op, 0xBA) || In(0xC2, op, 0xC3) || op == 0xC6 || In(0xD0, op, 0xDB) || op == 0xE0
            || In(0x100, op, 0x107) || In(0x109, op, 0x10A) || In(0x10C, op, 0x10D) || op == 0x10F
            || In(0x11C, op, 0x11D)
    then 1
    else 0
  }

  /** An opcode Import can produce from bytes: in the table, and no prefix byte. */
  predicate Encodable(op: nat)
  {
    op < COUNT && !In(PREFIX7, op, PREFIX1)
  }

  predicate HasTarget(op: nat)
  {
    OperandOf(op).ShortTarget? || OperandOf(op).LongTarget?
  }

  predicate IsShort(op: nat)
  {
    OperandOf(op).ShortTarget?
  }

  /** The long form Export substitutes for a short branch. */
  function Widen(op: nat): (w: nat)
    requires IsShort(op)
    ensures OperandOf(w).LongTarget? && Encodable(w) && w != SWITCH_ARG
  {
    if op == LEAVE_S then LEAVE else op - BR_S + BR
  }

  /** Number of opcode bytes: none for the pseudo opcode, a 0xFE lead byte for the two-byte opcodes. */
  function OpcodeBytes(op: nat): (n: nat)
  {
    if op >= COUNT then 0 else if op >= 0x100 then 2 else 1
  }

  function OperandBytes(op: nat): (n: nat)
  {
    match OperandOf(op)
    case NoOperand => 0
    case Inline(w) => w
    case ShortTarget => 1
    case LongTarget => 4
    case SwitchCount => 4
  }

  /** Bytes an instruction occupies; never more than the ten the output buffer reserves for it. */
  function Size(op: nat): (n: nat)
    ensures n <= 10
    ensures Encodable(op) || op == SWITCH_ARG ==> n >= 1
  {
    OpcodeBytes(op) + OperandBytes(op)
  }

  /** Widening changes the length of a branch only, by exactly three bytes, and loses no information. */
  lemma WidenFacts(op: nat)
    requires IsShort(op)
    ensures Encodable(op) && Size(op) == 2 && Size(Widen(op)) == 5
    ensures Pushes(Widen(op)) == Pushes(op) == 0
    ensures forall other: nat :: IsShort(other) && Widen(other) == Widen(op) ==> other == op
  {
  }
}
