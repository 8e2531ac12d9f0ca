/**
 * A CIL stack machine for the instructions the loader emits. Calls are opaque: a table gives their arity, and
 * uninterpreted functions their result and their effect on arrays and locals.
 */
module StackMachine {
  import opened Opcodes
  import opened ILCode

  datatype Value = Int(n: int) | Str(s: string) | Null | Ref(arr: nat) | Address(local: nat) | Other(id: nat)

  datatype State = State(stack: seq<Value>, arrays: seq<seq<Value>>, locals: seq<Value>)

  datatype Signature = Signature(pops: nat, hasResult: bool)

  /** What the metadata and the called methods contribute to a run. */
  datatype Runtime = Runtime(
    userString: int -> string,
    signature: int -> Signature,
    result: (int, seq<Value>) -> Value,
    effect: (int, seq<Value>, State) -> State)

  datatype Outcome = Running(st: State) | Fault

  function Push(st: State, v: Value): State { st.(stack := st.stack + [v]) }

  /** The state with the n topmost values removed. */
  function Drop(st: State, n: nat): State
    requires n <= |st.stack|
  {
    st.(stack := st.stack[..|st.stack| - n])
  }

  function Top(st: State, k: nat): Value
    requires k < |st.stack|
  {
    st.stack[|st.stack| - 1 - k]
  }

  function LocalIndex(ins: Instr): int
  {
    if LDLOC_0 <= ins.op <= LDLOC_0 + 3 then ins.op - LDLOC_0
    else if STLOC_0 <= ins.op <= STLOC_0 + 3 then ins.op - STLOC_0
    else if ins.op == LDLOC || ins.op == STLOC || ins.op == LDLOCA then ins.arg % 0x1_0000
    else ins.arg % 0x100
  }

  predicate IsLoadLocal(op: nat) { LDLOC_0 <= op <= LDLOC_0 + 3 || op == LDLOC_S || op == LDLOC }
  predicate IsStoreLocal(op: nat) { STLOC_0 <= op <= STLOC_0 + 3 || op == STLOC_S || op == STLOC }

  /** A call hands its arguments to the callee, which may change arrays and locals but not the caller's stack. */
  function Call(rt: Runtime, token: int, st: State): Outcome
  {
    var sig := rt.signature(token);
    if |st.stack| < sig.pops then Fault
    else
      var args := st.stack[|st.stack| - sig.pops..];
      var after := rt.effect(token, args, Drop(st, sig.pops)).(stack := Drop(st, sig.pops).stack);
      Running(if sig.hasResult then Push(after, rt.result(token, args)) else after)
  }

  /** One instruction that does not transfer control. */
  function Exec(rt: Runtime, ins: Instr, st: State): Outcome
  {
    var n := |st.stack|;
    if LDC_I4_0 <= ins.op <= LDC_I4_0 + 8 then Running(Push(st, Int(ins.op - LDC_I4_0)))
    else if ins.op == LDC_I4_S || ins.op == LDC_I4 then Running(Push(st, Int(ins.arg)))
    else if ins.op == LDNULL then Running(Push(st, Null))
    else if ins.op == LDSTR then Running(Push(st, Str(rt.userString(ins.arg))))
    else if IsLoadLocal(ins.op) then
      if LocalIndex(ins) < |st.locals| && LocalIndex(ins) >= 0 then Running(Push(st, st.locals[LocalIndex(ins)])) else Fault
    else if ins.op == LDLOCA_S || ins.op == LDLOCA then
      if 0 <= LocalIndex(ins) < |st.locals| then Running(Push(st, Address(LocalIndex(ins)))) else Fault
    else if IsStoreLocal(ins.op) then
      if n >= 1 && 0 <= LocalIndex(ins) < |st.locals|
      then Running(Drop(st, 1).(locals := st.locals[LocalIndex(ins) := Top(st, 0)])) else Fault
    else if ins.op == DUP then if n >= 1 then Running(Push(st, Top(st, 0))) else Fault
    else if ins.op == POP then if n >= 1 then Running(Drop(st, 1)) else Fault
    else if ins.op == NEWARR then
      if n >= 1 && Top(st, 0).Int? && Top(st, 0).n >= 0
      then Running(Push(Drop(st, 1), Ref(|st.arrays|)).(arrays := st.arrays + [seq(Top(st, 0).n, _ => Null)])) else Fault
    else if ins.op == STELEM_REF then
      if && n >= 3 && Top(st, 2).Ref? && Top(st, 1).Int?
         && Top(st, 2).arr < |st.arrays| && 0 <= Top(st, 1).n < |st.arrays[Top(st, 2).arr]|
      then
        var a, i := Top(st, 2).arr, Top(st, 1).n;
        Running(Drop(st, 3).(arrays := st.arrays[a := st.arrays[a][i := Top(st, 0)]]))
      else Fault
    else if ins.op == CALL || ins.op == CALLVIRT then Call(rt, ins.arg, st)
    else Fault
  }

  /** A straight-line block. */
  function ExecAll(rt: Runtime, code: Code, st: State): Outcome
  {
    if code == [] then Running(st)
    else match Exec(rt, code[0], st)
      case Fault => Fault
      case Running(next) => ExecAll(rt, code[1..], next)
  }

  lemma {:induction false} ExecConcat(rt: Runtime, a: Code, b: Code, st: State)
    ensures ExecAll(rt, a + b, st) ==
            match ExecAll(rt, a, st) case Fault => Fault case Running(mid) => ExecAll(rt, b, mid)
  {
    hide Exec;
    if a == [] {
      assert a + b == b;
    } else {
      assert (a + b)[1..] == a[1..] + b && (a + b)[0] == a[0];
      if Exec(rt, a[0], st).Running? {
        ExecConcat(rt, a[1..], b, Exec(rt, a[0], st).st);
      }
    }
  }

  lemma ExecOne(rt: Runtime, ins: Instr, st: State)
    ensures ExecAll(rt, [ins], st) == Exec(rt, ins, st)
  {
    hide Exec;
    assert [ins][1..] == [];
  }
}
