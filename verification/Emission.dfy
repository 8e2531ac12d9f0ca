/** What the wrapper emits for constants, locals and string arrays, and what running it does. */
module Emission {
  import opened Words
  import opened Opcodes
  import opened ILCode
  import opened StackMachine

  /** LoadInt32: ldc.i4.0 to ldc.i4.8, ldc.i4.s for one signed byte, else ldc.i4. */
  function LoadInt32(value: int): Instr
  {
    if 0 <= value <= 8 then Instr(LDC_I4_0 + value, 0, 0)
    else if -128 <= value <= 127 then Instr(LDC_I4_S, value, 0)
    else Instr(LDC_I4, value, 0)
  }

  /** Whichever encoding is chosen, the value is pushed. */
  lemma LoadInt32Pushes(rt: Runtime, value: int, st: State)
    ensures Exec(rt, LoadInt32(value), st) == Running(Push(st, Int(value)))
  {
  }

  /** A byte operand: index as UINT8 stored into the signed m_Arg8. */
  function Arg8(index: nat): int
    requires index < 0x100
  {
    if index < 0x80 then index else index - 0x100
  }

  function Arg16(index: nat): int
  {
    if index % 0x1_0000 < 0x8000 then index % 0x1_0000 else index % 0x1_0000 - 0x1_0000
  }

  function LoadLocal(index: nat): Instr
  {
    if index <= 3 then Instr(LDLOC_0 + index, 0, 0)
    else if index <= 255 then Instr(LDLOC_S, Arg8(index), 0)
    else Instr(LDLOC, Arg16(index), 0)
  }

  function StLocal(index: nat): Instr
  {
    if index <= 3 then Instr(STLOC_0 + index, 0, 0)
    else if index <= 255 then Instr(STLOC_S, Arg8(index), 0)
    else Instr(STLOC, Arg16(index), 0)
  }

  function LoadLocalAddress(index: nat): Instr
  {
    if index <= 255 then Instr(LDLOCA_S, Arg8(index), 0) else Instr(LDLOCA, Arg16(index), 0)
  }

  /** All encodings of a local access agree, and name the local the caller meant exactly up to the 16 bits CIL has for it. */
  lemma LocalEncodings(index: nat)
    ensures LocalIndex(LoadLocal(index)) == LocalIndex(StLocal(index)) == LocalIndex(LoadLocalAddress(index))
    ensures LocalIndex(LoadLocal(index)) == index <==> index < 0x1_0000
    ensures IsLoadLocal(LoadLocal(index).op) && IsStoreLocal(StLocal(index).op)
  {
    hide Arg8, Arg16;
    ArgWords(index);
  }

  /** A stored operand reads back as the low bytes of what it was made from. */
  lemma ArgWords(index: nat)
    ensures index < 0x100 ==> Arg8(index) % 0x100 == index
    ensures Arg16(index) % 0x1_0000 == index % 0x1_0000
  {
  }

  function LoadArgument(index: nat): Instr
  {
    if index <= 3 then Instr(LDARG_0 + index, 0, 0)
    else if index <= 255 then Instr(LDARG_S, Arg8(index), 0)
    else Instr(LDARG, Arg16(index), 0)
  }

  /** The argument an instruction loads, if it loads one: ldarg reads its operand as an unsigned word of its width. */
  function ArgumentIndex(ins: Instr): int
  {
    if LDARG_0 <= ins.op <= LDARG_0 + 3 then ins.op - LDARG_0
    else if ins.op == LDARG_S then ins.arg % 0x100
    else if ins.op == LDARG then ins.arg % 0x1_0000
    else -1
  }

  /**
   * An argument load names the argument the caller meant exactly up to 16 bits, and its operand always fits; of two loads
   * within that range only equal indices agree.
   */
  lemma ArgumentEncodings(index: nat, other: nat)
    ensures ArgumentIndex(LoadArgument(index)) == index <==> index < 0x1_0000
    ensures ValidArg(LoadArgument(index).op, LoadArgument(index).arg)
    ensures index < 0x1_0000 && other < 0x1_0000 ==> (LoadArgument(index) == LoadArgument(other) <==> index == other)
  {
    hide Arg8, Arg16;
    ArgWords(index);
    ArgWords(other);
    ArgFits(index);
  }

  lemma ArgFits(index: nat)
    ensures index < 0x100 ==> FitsSigned(1, Arg8(index))
    ensures FitsSigned(2, Arg16(index))
  {
    assert HalfRange(2) == 0x8000;
  }

  function BeginLoadValueIntoArray(index: int): Code { [Instr(DUP, 0, 0), LoadInt32(index)] }

  const END_LOAD: Instr := Instr(STELEM_REF, 0, 0)

  function StoreString(index: nat, token: int): Code
  {
    BeginLoadValueIntoArray(index) + [Instr(LDSTR, token, 0), END_LOAD]
  }

  function StoreStrings(tokens: seq<int>, from: nat): Code
    requires from <= |tokens|
    decreases |tokens| - from
  {
    if from == |tokens| then [] else StoreString(from, tokens[from]) + StoreStrings(tokens, from + 1)
  }

  function CreateArray(typeRef: int, size: int): Code { [LoadInt32(size), Instr(NEWARR, typeRef, 0)] }

  /** WriteAssembliesStringArray for strings that were given these tokens. */
  function StringArray(typeRef: int, tokens: seq<int>): Code
  {
    CreateArray(typeRef, |tokens|) + StoreStrings(tokens, 0)
  }

  function StringsOf(rt: Runtime, tokens: seq<int>): (vs: seq<Value>)
    ensures |vs| == |tokens| && forall i :: 0 <= i < |tokens| ==> vs[i] == Str(rt.userString(tokens[i]))
  {
    seq(|tokens|, i requires 0 <= i < |tokens| => Str(rt.userString(tokens[i])))
  }

  lemma CreateArrayRuns(rt: Runtime, typeRef: int, size: nat, st: State)
    ensures ExecAll(rt, CreateArray(typeRef, size), st) ==
            Running(Push(st, Ref(|st.arrays|)).(arrays := st.arrays + [seq(size, _ => Null)]))
  {
    var code := CreateArray(typeRef, size);
    LoadInt32Pushes(rt, size, st);
    assert code[1..] == [Instr(NEWARR, typeRef, 0)];
    ExecOne(rt, code[1], Push(st, Int(size)));
    assert Drop(Push(st, Int(size)), 1) == st;
  }

  lemma BeginLoadRuns(rt: Runtime, index: int, st: State)
    requires st.stack != []
    ensures ExecAll(rt, BeginLoadValueIntoArray(index), st) == Running(Push(Push(st, Top(st, 0)), Int(index)))
  {
    var code := BeginLoadValueIntoArray(index);
    assert code[1..] == [LoadInt32(index)];
    ExecOne(rt, LoadInt32(index), Push(st, Top(st, 0)));
    LoadInt32Pushes(rt, index, Push(st, Top(st, 0)));
  }

  lemma EndLoadRuns(rt: Runtime, st: State, arr: nat, index: int, v: Value)
    requires arr < |st.arrays| && 0 <= index < |st.arrays[arr]|
    ensures Exec(rt, END_LOAD, Push(Push(Push(st, Ref(arr)), Int(index)), v)) ==
            Running(st.(arrays := st.arrays[arr := st.arrays[arr][index := v]]))
  {
    var full := Push(Push(Push(st, Ref(arr)), Int(index)), v);
    assert Drop(full, 3).stack == st.stack;
  }

  /** One dup / index / ldstr / stelem.ref group fills one slot of the array on top of the stack and keeps it there. */
  lemma StoreStringRuns(rt: Runtime, index: nat, token: int, st: State, arr: nat)
    requires st.stack != [] && Top(st, 0) == Ref(arr) && arr < |st.arrays| && index < |st.arrays[arr]|
    ensures ExecAll(rt, StoreString(index, token), st) ==
            Running(st.(arrays := st.arrays[arr := st.arrays[arr][index := Str(rt.userString(token))]]))
  {
    var mid := Push(Push(st, Ref(arr)), Int(index));
    BeginLoadRuns(rt, index, st);
    ExecConcat(rt, BeginLoadValueIntoArray(index), [Instr(LDSTR, token, 0), END_LOAD], st);
    assert [Instr(LDSTR, token, 0), END_LOAD][1..] == [END_LOAD];
    ExecOne(rt, END_LOAD, Push(mid, Str(rt.userString(token))));
    EndLoadRuns(rt, st, arr, index, Str(rt.userString(token)));
  }

  lemma {:induction false} StoreStringsRun(rt: Runtime, tokens: seq<int>, from: nat, st: State, arr: nat)
    requires from <= |tokens| && st.stack != [] && Top(st, 0) == Ref(arr) && arr < |st.arrays|
    requires |st.arrays[arr]| == |tokens| && st.arrays[arr][..from] == StringsOf(rt, tokens)[..from]
    ensures ExecAll(rt, StoreStrings(tokens, from), st) == Running(st.(arrays := st.arrays[arr := StringsOf(rt, tokens)]))
    decreases |tokens| - from
  {
    hide Exec, StoreString;
    if from == |tokens| {
      assert st.arrays[arr] == StringsOf(rt, tokens);
      assert st.arrays[arr := StringsOf(rt, tokens)] == st.arrays;
    } else {
      var filled := st.arrays[arr][from := Str(rt.userString(tokens[from]))];
      var next := st.(arrays := st.arrays[arr := filled]);
      StoreStringRuns(rt, from, tokens[from], st, arr);
      ExecConcat(rt, StoreString(from, tokens[from]), StoreStrings(tokens, from + 1), st);
      assert filled[..from + 1] == StringsOf(rt, tokens)[..from + 1];
      StoreStringsRun(rt, tokens, from + 1, next, arr);
      assert next.arrays[arr := StringsOf(rt, tokens)] == st.arrays[arr := StringsOf(rt, tokens)];
    }
  }

  /**
   * Running the emitted array construction pushes one reference, to a new array that holds exactly the given strings
   * in order, and changes nothing else.
   */
  lemma StringArrayRuns(rt: Runtime, typeRef: int, tokens: seq<int>, st: State)
    ensures ExecAll(rt, StringArray(typeRef, tokens), st) ==
            Running(Push(st, Ref(|st.arrays|)).(arrays := st.arrays + [StringsOf(rt, tokens)]))
  {
    hide Exec, CreateArray, StoreStrings;
    var n := |st.arrays|;
    var blank := seq(|tokens|, _ => Null);
    var mid := Push(st, Ref(n)).(arrays := st.arrays + [blank]);
    CreateArrayRuns(rt, typeRef, |tokens|, st);
    ExecConcat(rt, CreateArray(typeRef, |tokens|), StoreStrings(tokens, 0), st);
    StoreStringsRun(rt, tokens, 0, mid, n);
    assert mid.arrays[n := StringsOf(rt, tokens)] == st.arrays + [StringsOf(rt, tokens)];
  }
}
