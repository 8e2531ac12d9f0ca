/** The body of the generated loader method: what it computes, and that both ways through it return cleanly. */
module LoaderBody {
  import opened Opcodes
  import opened ILCode
  import opened StackMachine
  import opened Emission

  /** The metadata tokens the body refers to. */
  datatype Tokens = Tokens(
    assemblyName: int, getBytes: int, byteType: int, marshalCopy: int, assemblyLoad: int, typeName: int,
    assemblyGetType: int, runName: int, typeGetMethod: int, objectType: int, stringType: int, invoke: int)

  function Load(op: nat, arg: int): Instr { Instr(op, arg, 0) }

  /** Step 1: ask the native side for the assembly and symbol bytes. */
  function Head(t: Tokens): Code
  {
    [LoadLocalAddress(0), LoadLocalAddress(1), LoadLocalAddress(2), LoadLocalAddress(3),
     Load(LDSTR, t.assemblyName), Load(CALL, t.getBytes)]
  }

  /** Steps 2 and 3: a new byte array in a local, and one native buffer copied into it. */
  function AllocBytes(t: Tokens, size: nat, bytes: nat): Code
  {
    [LoadLocal(size), Load(NEWARR, t.byteType), StLocal(bytes)]
  }

  function CopyInto(t: Tokens, pointer: nat, size: nat, bytes: nat): Code
  {
    [LoadLocal(pointer), LoadLocal(bytes), LoadInt32(0), LoadLocal(size), Load(CALL, t.marshalCopy)]
  }

  function CopyBytes(t: Tokens, pointer: nat, size: nat, bytes: nat): Code
  {
    AllocBytes(t, size, bytes) + CopyInto(t, pointer, size, bytes)
  }

  /** Step 4: load the assembly from the two byte arrays. */
  function LoadAssembly(t: Tokens): Code
  {
    [LoadLocal(4), LoadLocal(5), Load(CALL, t.assemblyLoad)]
  }

  /** Steps 5 and 6: look up its Run method. */
  function LookUpRun(t: Tokens): Code
  {
    [Load(LDSTR, t.typeName), LoadInt32(1), Load(CALLVIRT, t.assemblyGetType), Load(LDSTR, t.runName),
     Load(CALLVIRT, t.typeGetMethod)]
  }

  function FindRun(t: Tokens): Code { LoadAssembly(t) + LookUpRun(t) }

  /** One element of the argument array. */
  function StoreArgument(t: Tokens, index: int, strings: seq<int>): Code
  {
    BeginLoadValueIntoArray(index) + StringArray(t.stringType, strings) + [END_LOAD]
  }

  /** Step 7: null and the object array holding the two string arrays. */
  function Arguments(t: Tokens, first: seq<int>, second: seq<int>): Code
  {
    [Load(LDNULL, 0)] + CreateArray(t.objectType, 2) + StoreArgument(t, 0, first) + StoreArgument(t, 1, second)
  }

  function Middle(t: Tokens, first: seq<int>, second: seq<int>): Code
  {
    CopyBytes(t, 0, 1, 4) + (CopyBytes(t, 2, 3, 5) + (FindRun(t) + (Arguments(t, first, second)
    + [Load(CALLVIRT, t.invoke), Load(POP, 0)])))
  }

  /** The whole body; brfalse leads to the final ret. */
  function Body(t: Tokens, first: seq<int>, second: seq<int>): (code: Code)
  {
    var middle := Middle(t, first, second);
    Head(t) + [Instr(BRFALSE, 0, 7 + |middle|)] + middle + [Load(RET, 0)]
  }

  // ---------- running it ----------

  /** A callee changes a caller's local only if it was handed its address, and no run loses a local. */
  ghost predicate WellBehaved(rt: Runtime)
  {
    forall token: int, args: seq<Value>, st: State ::
      var after := rt.effect(token, args, st);
      && |after.locals| == |st.locals|
      && forall i :: 0 <= i < |st.locals| && Address(i) !in args ==> after.locals[i] == st.locals[i]
  }

  /** The members the tokens stand for have the arity the body relies on. */
  predicate Signatures(rt: Runtime, t: Tokens)
  {
    && rt.signature(t.getBytes) == Signature(5, true)
    && rt.signature(t.marshalCopy) == Signature(4, false)
    && rt.signature(t.assemblyLoad) == Signature(2, true)
    && rt.signature(t.assemblyGetType) == Signature(3, true)
    && rt.signature(t.typeGetMethod) == Signature(2, true)
    && rt.signature(t.invoke) == Signature(3, true)
  }

  predicate IsFalse(v: Value) { v == Int(0) || v == Null }

  datatype Final = Returned(st: State) | Broken | OutOfFuel

  function Run(rt: Runtime, code: Code, pc: nat, st: State, fuel: nat): Final
    decreases fuel
  {
    if fuel == 0 then OutOfFuel
    else if pc >= |code| then Broken
    else if code[pc].op == RET then Returned(st)
    else if code[pc].op == BRFALSE then
      if st.stack == [] then Broken
      else Run(rt, code, if IsFalse(Top(st, 0)) then code[pc].target else pc + 1, Drop(st, 1), fuel - 1)
    else match Exec(rt, code[pc], st)
      case Fault => Broken
      case Running(next) => Run(rt, code, pc + 1, next, fuel - 1)
  }

  /** A straight-line block inside a body runs as a whole. */
  lemma {:induction false} RunBlock(rt: Runtime, code: Code, pc: nat, block: Code, st: State, fuel: nat)
    requires pc + |block| <= |code| && code[pc..pc + |block|] == block && fuel >= |block|
    requires forall i :: 0 <= i < |block| ==> block[i].op != RET && block[i].op != BRFALSE
    requires ExecAll(rt, block, st).Running?
    ensures Run(rt, code, pc, st, fuel) == Run(rt, code, pc + |block|, ExecAll(rt, block, st).st, fuel - |block|)
    decreases |block|
  {
    hide Exec;
    if block != [] {
      assert code[pc] == block[0];
      assert code[pc + 1..pc + 1 + |block[1..]|] == block[1..];
      RunBlock(rt, code, pc + 1, block[1..], Exec(rt, block[0], st).st, fuel - 1);
    }
  }

  lemma StoreArgumentRuns(rt: Runtime, t: Tokens, index: nat, strings: seq<int>, st: State, arr: nat)
    requires st.stack != [] && Top(st, 0) == Ref(arr) && arr < |st.arrays| && index < |st.arrays[arr]|
    ensures ExecAll(rt, StoreArgument(t, index, strings), st) ==
            Running(st.(arrays := st.arrays[arr := st.arrays[arr][index := Ref(|st.arrays|)]]
                                  + [StringsOf(rt, strings)]))
  {
    hide Exec, StringArray, BeginLoadValueIntoArray;
    var begin, build := BeginLoadValueIntoArray(index), StringArray(t.stringType, strings);
    var st1 := Push(Push(st, Ref(arr)), Int(index));
    var st2 := Push(st1, Ref(|st.arrays|)).(arrays := st.arrays + [StringsOf(rt, strings)]);
    BeginLoadRuns(rt, index, st);
    StringArrayRuns(rt, t.stringType, strings, st1);
    ExecConcat(rt, begin, build, st);
    ExecConcat(rt, begin + build, [END_LOAD], st);
    ExecOne(rt, END_LOAD, st2);
    var grown := st.(arrays := st.arrays + [StringsOf(rt, strings)]);
    assert st2 == Push(Push(Push(grown, Ref(arr)), Int(index)), Ref(|st.arrays|));
    EndLoadRuns(rt, grown, arr, index, Ref(|st.arrays|));
    assert grown.arrays[arr := grown.arrays[arr][index := Ref(|st.arrays|)]] ==
      st.arrays[arr := st.arrays[arr][index := Ref(|st.arrays|)]] + [StringsOf(rt, strings)];
  }

  /**
   * The arguments handed to Run: null, and a new two-element array whose elements are new arrays holding exactly the
   * strings of the default and of the other application domains, in order.
   */
  lemma ArgumentsRun(rt: Runtime, t: Tokens, first: seq<int>, second: seq<int>, st: State)
    ensures var n := |st.arrays|;
            ExecAll(rt, Arguments(t, first, second), st) ==
            Running(Push(Push(st, Null), Ref(n)).(
                    arrays := st.arrays + [[Ref(n + 1), Ref(n + 2)], StringsOf(rt, first), StringsOf(rt, second)]))
  {
    hide Exec, CreateArray, StoreArgument;
    var n := |st.arrays|;
    var st1 := Push(st, Null);
    var st2 := Push(st1, Ref(n)).(arrays := st.arrays + [seq(2, _ => Null)]);
    var st3 := st2.(arrays := st.arrays + [[Ref(n + 1), Null], StringsOf(rt, first)]);
    var create := CreateArray(t.objectType, 2);
    PushesNull(rt, t, st);
    CreateArrayRuns(rt, t.objectType, 2, st1);
    ExecConcat(rt, [Load(LDNULL, 0)], create, st);
    StoreArgumentRuns(rt, t, 0, first, st2, n);
    assert st2.arrays[n][0 := Ref(n + 1)] == [Ref(n + 1), Null];
    assert st2.arrays[n := [Ref(n + 1), Null]] + [StringsOf(rt, first)] == st3.arrays;
    ExecConcat(rt, [Load(LDNULL, 0)] + create, StoreArgument(t, 0, first), st);
    StoreArgumentRuns(rt, t, 1, second, st3, n);
    assert st3.arrays[n][1 := Ref(n + 2)] == [Ref(n + 1), Ref(n + 2)];
    assert st3.arrays[n := [Ref(n + 1), Ref(n + 2)]] + [StringsOf(rt, second)] ==
      st.arrays + [[Ref(n + 1), Ref(n + 2)], StringsOf(rt, first), StringsOf(rt, second)];
    ExecConcat(rt, [Load(LDNULL, 0)] + create + StoreArgument(t, 0, first), StoreArgument(t, 1, second), st);
  }

  lemma PushesNull(rt: Runtime, t: Tokens, st: State)
    ensures ExecAll(rt, [Load(LDNULL, 0)], st) == Running(Push(st, Null))
  {
    ExecOne(rt, Load(LDNULL, 0), st);
  }

  predicate HoldsSize(st: State, local: nat)
  {
    local < |st.locals| && st.locals[local].Int? && st.locals[local].n >= 0
  }

  /** A block runs through the states listed if every instruction leads from one to the next. */
  lemma {:induction false} Trace(rt: Runtime, code: Code, states: seq<State>)
    requires |states| == |code| + 1
    requires forall k :: 0 <= k < |code| ==> Exec(rt, code[k], states[k]) == Running(states[k + 1])
    ensures ExecAll(rt, code, states[0]) == Running(states[|code|])
    decreases |code|
  {
    hide Exec;
    if code != [] {
      assert Exec(rt, code[0], states[0]) == Running(states[1]);
      Trace(rt, code[1..], states[1..]);
    }
  }

  lemma LoadLocalRuns(rt: Runtime, index: nat, st: State)
    requires index < 6 == |st.locals|
    ensures Exec(rt, LoadLocal(index), st) == Running(Push(st, st.locals[index]))
    ensures Exec(rt, LoadLocalAddress(index), st) == Running(Push(st, Address(index)))
  {
    LocalEncodings(index);
  }

  lemma StLocalRuns(rt: Runtime, index: nat, st: State)
    requires index < 6 == |st.locals| && st.stack != []
    ensures Exec(rt, StLocal(index), st) == Running(Drop(st, 1).(locals := st.locals[index := Top(st, 0)]))
  {
    LocalEncodings(index);
  }

  lemma NewArrRuns(rt: Runtime, typeRef: int, st: State)
    requires st.stack != [] && Top(st, 0).Int? && Top(st, 0).n >= 0
    ensures Exec(rt, Load(NEWARR, typeRef), st) ==
            Running(Push(Drop(st, 1), Ref(|st.arrays|)).(arrays := st.arrays + [seq(Top(st, 0).n, _ => Null)]))
  {
  }

  lemma LdStrRuns(rt: Runtime, token: int, st: State)
    ensures Exec(rt, Load(LDSTR, token), st) == Running(Push(st, Str(rt.userString(token))))
  {
  }

  /** What a call to a well-behaved member with few enough arguments leaves behind. */
  lemma CallRuns(rt: Runtime, op: nat, token: int, st: State) returns (next: State)
    requires WellBehaved(rt) && (op == CALL || op == CALLVIRT) && |st.stack| >= rt.signature(token).pops
    ensures Exec(rt, Load(op, token), st) == Running(next)
    ensures |next.locals| == |st.locals|
    ensures var sig, base := rt.signature(token), |st.stack| - rt.signature(token).pops;
            && |next.stack| == base + (if sig.hasResult then 1 else 0)
            && next.stack[..base] == st.stack[..base]
            && forall i :: 0 <= i < |st.locals| && Address(i) !in st.stack[base..] ==> next.locals[i] == st.locals[i]
  {
    next := Call(rt, token, st).st;
  }

  lemma AllocBytesRuns(rt: Runtime, t: Tokens, size: nat, bytes: nat, st: State)
    requires |st.locals| == 6 && st.stack == [] && size < 4 && 4 <= bytes < 6 && HoldsSize(st, size)
    ensures ExecAll(rt, AllocBytes(t, size, bytes), st) ==
            Running(st.(locals := st.locals[bytes := Ref(|st.arrays|)],
                        arrays := st.arrays + [seq(st.locals[size].n, _ => Null)]))
  {
    hide Exec, LoadLocal, StLocal;
    var s1 := Push(st, st.locals[size]);
    LoadLocalRuns(rt, size, st);
    NewArrRuns(rt, t.byteType, s1);
    var s2 := Push(Drop(s1, 1), Ref(|st.arrays|)).(arrays := st.arrays + [seq(st.locals[size].n, _ => Null)]);
    StLocalRuns(rt, bytes, s2);
    var s3 := Drop(s2, 1).(locals := s2.locals[bytes := Ref(|st.arrays|)]);
    Trace(rt, AllocBytes(t, size, bytes), [st, s1, s2, s3]);
  }

  lemma CopyIntoRuns(rt: Runtime, t: Tokens, pointer: nat, size: nat, bytes: nat, st: State)
    requires WellBehaved(rt) && Signatures(rt, t) && |st.locals| == 6 && st.stack == []
    requires pointer < 4 && size < 4 && 4 <= bytes < 6
    requires !st.locals[pointer].Address? && !st.locals[size].Address? && !st.locals[bytes].Address?
    ensures var r := ExecAll(rt, CopyInto(t, pointer, size, bytes), st);
            r.Running? && r.st.stack == [] && r.st.locals == st.locals
  {
    hide Exec, LoadLocal, LoadInt32, Signatures;
    LoadLocalRuns(rt, pointer, st);
    var s1 := Push(st, st.locals[pointer]);
    LoadLocalRuns(rt, bytes, s1);
    var s2 := Push(s1, st.locals[bytes]);
    LoadInt32Pushes(rt, 0, s2);
    var s3 := Push(s2, Int(0));
    LoadLocalRuns(rt, size, s3);
    var s4 := Push(s3, st.locals[size]);
    assert s4.stack == [st.locals[pointer], st.locals[bytes], Int(0), st.locals[size]];
    CopyArity(rt, t);
    var s5 := CallRuns(rt, CALL, t.marshalCopy, s4);
    Trace(rt, CopyInto(t, pointer, size, bytes), [st, s1, s2, s3, s4, s5]);
  }

  /** One Marshal.Copy step leaves the stack as it was and the first four locals in place. */
  lemma CopyBytesRuns(rt: Runtime, t: Tokens, pointer: nat, size: nat, bytes: nat, st: State)
    requires WellBehaved(rt) && Signatures(rt, t) && |st.locals| == 6 && st.stack == []
    requires pointer < 4 && size < 4 && 4 <= bytes < 6 && HoldsSize(st, size) && !st.locals[pointer].Address?
    ensures var r := ExecAll(rt, CopyBytes(t, pointer, size, bytes), st);
            && r.Running? && r.st.stack == [] && |r.st.locals| == 6
            && forall i :: 0 <= i < 4 ==> r.st.locals[i] == st.locals[i]
  {
    hide AllocBytes, CopyInto, WellBehaved, Signatures;
    AllocBytesRuns(rt, t, size, bytes, st);
    ExecConcat(rt, AllocBytes(t, size, bytes), CopyInto(t, pointer, size, bytes), st);
    CopyIntoRuns(rt, t, pointer, size, bytes, ExecAll(rt, AllocBytes(t, size, bytes), st).st);
  }

  lemma CopyArity(rt: Runtime, t: Tokens)
    requires Signatures(rt, t)
    ensures rt.signature(t.marshalCopy) == Signature(4, false)
  {
  }

  /** The first call leaves its answer alone on the stack. */
  lemma HeadRuns(rt: Runtime, t: Tokens, st: State)
    requires WellBehaved(rt) && Signatures(rt, t) && |st.locals| == 6 && st.stack == []
    ensures var r := ExecAll(rt, Head(t), st);
            r.Running? && |r.st.stack| == 1 && |r.st.locals| == 6
  {
    hide Exec, LoadLocalAddress;
    LoadLocalRuns(rt, 0, st);
    var s1 := Push(st, Address(0));
    LoadLocalRuns(rt, 1, s1);
    var s2 := Push(s1, Address(1));
    LoadLocalRuns(rt, 2, s2);
    var s3 := Push(s2, Address(2));
    LoadLocalRuns(rt, 3, s3);
    var s4 := Push(s3, Address(3));
    LdStrRuns(rt, t.assemblyName, s4);
    var s5 := Push(s4, Str(rt.userString(t.assemblyName)));
    var s6 := CallRuns(rt, CALL, t.getBytes, s5);
    Trace(rt, Head(t), [st, s1, s2, s3, s4, s5, s6]);
  }

  lemma FindRunRuns(rt: Runtime, t: Tokens, st: State)
    requires WellBehaved(rt) && Signatures(rt, t) && |st.locals| == 6 && st.stack == []
    ensures var r := ExecAll(rt, FindRun(t), st);
            r.Running? && |r.st.stack| == 1
  {
    hide Exec, LoadLocal, LoadInt32;
    LoadLocalRuns(rt, 4, st);
    var s1 := Push(st, st.locals[4]);
    LoadLocalRuns(rt, 5, s1);
    var s2 := Push(s1, s1.locals[5]);
    var s3 := CallRuns(rt, CALL, t.assemblyLoad, s2);
    LdStrRuns(rt, t.typeName, s3);
    var s4 := Push(s3, Str(rt.userString(t.typeName)));
    LoadInt32Pushes(rt, 1, s4);
    var s5 := Push(s4, Int(1));
    var s6 := CallRuns(rt, CALLVIRT, t.assemblyGetType, s5);
    LdStrRuns(rt, t.runName, s6);
    var s7 := Push(s6, Str(rt.userString(t.runName)));
    var s8 := CallRuns(rt, CALLVIRT, t.typeGetMethod, s7);
    Trace(rt, FindRun(t), [st, s1, s2, s3, s4, s5, s6, s7, s8]);
  }

  /** Invoke consumes the method, null and the argument array; its answer is popped. */
  lemma InvokeRuns(rt: Runtime, t: Tokens, st: State)
    requires WellBehaved(rt) && Signatures(rt, t) && |st.stack| == 3
    ensures var r := ExecAll(rt, [Load(CALLVIRT, t.invoke), Load(POP, 0)], st);
            r.Running? && r.st.stack == []
  {
    hide WellBehaved;
    var s1 := CallRuns(rt, CALLVIRT, t.invoke, st);
    Trace(rt, [Load(CALLVIRT, t.invoke), Load(POP, 0)], [st, s1, Drop(s1, 1)]);
  }

  /** Once the sizes are known the whole middle part runs and leaves nothing on the stack. */
  lemma MiddleRuns(rt: Runtime, t: Tokens, first: seq<int>, second: seq<int>, st: State)
    requires WellBehaved(rt) && Signatures(rt, t) && |st.locals| == 6 && st.stack == []
    requires HoldsSize(st, 1) && HoldsSize(st, 3) && !st.locals[0].Address? && !st.locals[2].Address?
    ensures var r := ExecAll(rt, Middle(t, first, second), st); r.Running? && r.st.stack == []
  {
    hide Exec, CopyBytes, FindRun, Arguments, WellBehaved, Signatures;
    var last := [Load(CALLVIRT, t.invoke), Load(POP, 0)];
    var c1, c2, c3, c4 := CopyBytes(t, 0, 1, 4), CopyBytes(t, 2, 3, 5), FindRun(t), Arguments(t, first, second);
    CopyBytesRuns(rt, t, 0, 1, 4, st);
    var s1 := ExecAll(rt, c1, st).st;
    CopyBytesRuns(rt, t, 2, 3, 5, s1);
    var s2 := ExecAll(rt, c2, s1).st;
    FindRunRuns(rt, t, s2);
    var s3 := ExecAll(rt, c3, s2).st;
    ArgumentsRun(rt, t, first, second, s3);
    var s4 := ExecAll(rt, c4, s3).st;
    InvokeRuns(rt, t, s4);
    ExecConcat(rt, c1, c2 + (c3 + (c4 + last)), st);
    ExecConcat(rt, c2, c3 + (c4 + last), s1);
    ExecConcat(rt, c3, c4 + last, s2);
    ExecConcat(rt, c4, last, s3);
  }

  // ---------- both ways through the body ----------

  predicate StraightLine(code: Code)
  {
    forall i :: 0 <= i < |code| ==> code[i].op != RET && code[i].op != BRFALSE
  }

  lemma {:induction false} StoreStringsStraight(tokens: seq<int>, from: nat)
    requires from <= |tokens|
    ensures StraightLine(StoreStrings(tokens, from))
    decreases |tokens| - from
  {
    if from < |tokens| {
      StoreStringsStraight(tokens, from + 1);
    }
  }

  lemma MiddleStraight(t: Tokens, first: seq<int>, second: seq<int>)
    ensures StraightLine(Middle(t, first, second)) && StraightLine(Head(t))
  {
    hide StoreStrings;
    StoreStringsStraight(first, 0);
    StoreStringsStraight(second, 0);
    assert StraightLine(StringArray(t.stringType, first)) && StraightLine(StringArray(t.stringType, second));
    assert StraightLine(Arguments(t, first, second));
    assert StraightLine(CopyBytes(t, 0, 1, 4)) && StraightLine(CopyBytes(t, 2, 3, 5)) && StraightLine(FindRun(t));
  }

  /** What the native side promises: when it answers yes, both sizes are set and the pointers are plain values. */
  predicate Answered(st: State)
  {
    && |st.stack| == 1 && |st.locals| == 6
    && (!IsFalse(st.stack[0]) ==>
          && HoldsSize(st, 1) && HoldsSize(st, 3)
          && !st.locals[0].Address? && !st.locals[2].Address?)
  }

  /** The generated body reaches ret with an empty stack, whether the native side has an assembly to load or not. */
  lemma BodyReturns(rt: Runtime, t: Tokens, first: seq<int>, second: seq<int>, st: State, fuel: nat)
    requires WellBehaved(rt) && Signatures(rt, t) && |st.locals| == 6 && st.stack == []
    requires ExecAll(rt, Head(t), st).Running? ==> Answered(ExecAll(rt, Head(t), st).st)
    requires fuel > |Body(t, first, second)|
    ensures var r := Run(rt, Body(t, first, second), 0, st, fuel); r.Returned? && r.st.stack == []
  {
    hide Exec, Head, Middle, WellBehaved, Signatures;
    var code, middle := Body(t, first, second), Middle(t, first, second);
    HeadRuns(rt, t, st);
    MiddleStraight(t, first, second);
    var asked := ExecAll(rt, Head(t), st).st;
    HeadSize(t);
    assert code[0..6] == Head(t);
    RunBlock(rt, code, 0, Head(t), st, fuel);
    var free := Drop(asked, 1);
    assert code[6] == Instr(BRFALSE, 0, 7 + |middle|) && code[7 + |middle|] == Load(RET, 0);
    if !IsFalse(Top(asked, 0)) {
      MiddleRuns(rt, t, first, second, free);
      assert code[7..7 + |middle|] == middle;
      RunBlock(rt, code, 7, middle, free, fuel - 7);
    }
  }

  lemma HeadSize(t: Tokens)
    ensures |Head(t)| == 6
  {
  }
}
