/**
 * Instruction lists as values: the contents of the rewriter's linked list, with every node named by its position.
 * A target is a position of the list; the length of the list stands for the sentinel node m_IL.
 */
module ILCode {
  import opened Opcodes
  import opened Words

  datatype Instr = Instr(op: nat, arg: int, target: nat)
  type Code = seq<Instr>

  /** Byte offset of position i when the instructions are laid out back to back. */
  function Off(code: Code, i: nat): nat
    requires i <= |code|
  {
    if i == 0 then 0 else Off(code, i - 1) + Size(code[i - 1].op)
  }

  function CodeSize(code: Code): nat { Off(code, |code|) }

  /** How many switch arguments position i still owes to the switch before it. */
  function Pending(code: Code, i: nat): int
    requires i <= |code|
  {
    if i == 0 then 0
    else if code[i - 1].op == SWITCH then code[i - 1].arg
    else if Pending(code, i - 1) > 0 then Pending(code, i - 1) - 1
    else 0
  }

  /** The offset just after the table of the last switch before position i. */
  function Base(code: Code, i: nat): int
    requires i <= |code|
  {
    if i == 0 then 0
    else if code[i - 1].op == SWITCH then Off(code, i - 1) + 1 + 4 * (code[i - 1].arg + 1)
    else Base(code, i - 1)
  }

  /** A branch may lead to any instruction or to the end of the code, but not into a switch table. */
  predicate ValidTarget(code: Code, t: nat)
  {
    t <= |code| && (t < |code| ==> code[t].op != SWITCH_ARG)
  }

  predicate ValidArg(op: nat, arg: int)
  {
    match OperandOf(op)
    case Inline(w) => FitsSigned(w, arg)
    case SwitchCount => 0 <= arg && FitsSigned(4, arg)
    case _ => arg == 0
  }

  /**
   * Position i is encodable: a switch argument exactly where a switch before it still owes one, an operand that fits,
   * and a target inside the code exactly for the branches and switch arguments.
   */
  predicate InstrOk(code: Code, i: nat)
    requires i < |code|
  {
    && (Encodable(code[i].op) || code[i].op == SWITCH_ARG)
    && (code[i].op == SWITCH_ARG <==> Pending(code, i) > 0)
    && ValidArg(code[i].op, code[i].arg)
    && (if HasTarget(code[i].op) then ValidTarget(code, code[i].target) else code[i].target == 0)
  }

  /** Every switch is directly followed by exactly its switch arguments, and every position is encodable. */
  predicate WellFormed(code: Code)
  {
    (forall i :: 0 <= i < |code| ==> InstrOk(code, i)) && Pending(code, |code|) <= 0
  }

  /** Displacement of the branch at position i, counted from the instruction after it. */
  function Delta(code: Code, i: nat): int
    requires i < |code| && code[i].target <= |code|
  {
    Off(code, code[i].target) - Off(code, i + 1)
  }

  predicate Fits8(d: int) { -128 <= d <= 127 }

  predicate ShortFits(code: Code, i: nat)
    requires i < |code| && code[i].target <= |code|
  {
    IsShort(code[i].op) ==> Fits8(Delta(code, i))
  }

  predicate TargetsInside(code: Code)
  {
    forall i :: 0 <= i < |code| ==> code[i].target <= |code|
  }

  /** Every short branch can hold its displacement. */
  predicate AllFit(code: Code)
    requires TargetsInside(code)
  {
    forall i :: 0 <= i < |code| ==> ShortFits(code, i)
  }

  /** Offsets, pending counts and switch bases at position i depend on the instructions before it only. */
  lemma {:induction false} PrefixFacts(code: Code, code': Code, i: nat)
    requires i <= |code| && i <= |code'|
    requires forall j :: 0 <= j < i ==> code[j].op == code'[j].op && (code[j].op == SWITCH ==> code[j].arg == code'[j].arg)
    ensures Off(code, i) == Off(code', i) && Pending(code, i) == Pending(code', i) && Base(code, i) == Base(code', i)
  {
    if i > 0 {
      PrefixFacts(code, code', i - 1);
    }
  }

  predicate NonEmptySizes(code: Code)
  {
    forall i :: 0 <= i < |code| ==> Size(code[i].op) >= 1
  }

  lemma WellFormedFacts(code: Code)
    requires WellFormed(code)
    ensures TargetsInside(code) && NonEmptySizes(code)
  {
    hide Pending;
    forall i | 0 <= i < |code| ensures code[i].target <= |code| && Size(code[i].op) >= 1 {
      assert InstrOk(code, i);
    }
  }

  /** Distinct positions have distinct offsets, in list order. */
  lemma {:induction false} OffMonotone(code: Code, i: nat, j: nat)
    requires i <= j <= |code| && NonEmptySizes(code)
    ensures Off(code, i) + (j - i) <= Off(code, j)
  {
    if i < j {
      OffMonotone(code, i, j - 1);
    }
  }

  /** A layout pass never needs more than ten bytes an instruction. */
  lemma {:induction false} OffBound(code: Code, i: nat)
    requires i <= |code|
    ensures Off(code, i) <= 10 * i
  {
    if i > 0 {
      OffBound(code, i - 1);
    }
  }
}
