/** EmitDDLoadInitializationAssembliesMethod: the loader method is emitted call by call through the wrapper. */
module GeneratedLoader {
  import opened Words
  import opened Opcodes
  import opened ILCode
  import opened Relaxation
  import opened Assembler
  import opened RoundTrip
  import opened Instructions
  import opened ListViews
  import opened StackPushes
  import opened Layout
  import opened Rewriter
  import opened Wrapper
  import Emission
  import LoaderBody

  /** DefineUserString: the token of a string, unless the metadata cannot hold it. */
  datatype StringToken = Token(token: int) | Refused

  function TokensOf(define: string -> StringToken, strings: seq<string>): (tokens: seq<int>)
    ensures |tokens| == |strings|
  {
    seq(|strings|, i requires 0 <= i < |strings| => if define(strings[i]).Token? then define(strings[i]).token else 0)
  }

  predicate AllDefined(define: string -> StringToken, strings: seq<string>)
  {
    forall i :: 0 <= i < |strings| ==> define(strings[i]).Token?
  }

  /** Blocks that hold no branch. */
  predicate Straight(block: Code)
  {
    Branchless(block) && forall i :: 0 <= i < |block| ==> block[i].target == 0
  }

  lemma StraightTwice(a: Code, b: Code)
    requires Straight(a) && Straight(b)
    ensures Straight(a + b)
  {
    hide HasTarget;
  }

  lemma StraightParts(block: Code)
    requires Straight(block)
    ensures Branchless(block) && forall i :: 0 <= i < |block| ==> block[i].target == 0
  {
    hide HasTarget;
  }

  lemma StoreParts(index: nat, token: int)
    ensures Emission.StoreString(index, token) ==
            Emission.BeginLoadValueIntoArray(index) + [Instr(LDSTR, token, 0)] + [Instr(STELEM_REF, 0, 0)]
    ensures Branchless(Emission.BeginLoadValueIntoArray(index))
    ensures Branchless(Emission.BeginLoadValueIntoArray(index) + [Instr(LDSTR, token, 0)])
    ensures Straight(Emission.StoreString(index, token))
  {
  }

  lemma ArrayParts(typeRef: int, size: int)
    ensures Straight(Emission.CreateArray(typeRef, size))
  {
  }

  /** The first half of a group. */
  method BeginString(w: ILRewriterWrapper, index: nat, token: int)
    requires w.Ready()
    modifies w.rewriter`nodes, w.rewriter`maxStack, w.rewriter`nInstrs
    modifies w.rewriter.nodes`next, w.rewriter.nodes`prev, w.rewriter.il`next, w.rewriter.il`prev
    ensures w.Spliced(Emission.BeginLoadValueIntoArray(index) + [Instr(LDSTR, token, 0)])
  {
    hide *;
    StoreParts(index, token);
    ghost var k, a := IndexOf(w.rewriter.nodes, w.position), Emission.BeginLoadValueIntoArray(index);
    w.BeginLoadValueIntoArray(index);
    ghost var first := w.SplicedFacts(a);
    label between:
    ghost var n, c, b := w.rewriter.nodes, w.Emitted(), [Instr(LDSTR, token, 0)];
    w.LoadStr(token);
    ghost var second := w.SplicedFacts@between(b);
    w.SplicedThen(n, c, k, first, a, second, b);
  }

  /** One group of the array construction, wherever the wrapper stands. */
  method StoreString(w: ILRewriterWrapper, index: nat, token: int)
    requires w.Ready()
    modifies w.rewriter`nodes, w.rewriter`maxStack, w.rewriter`nInstrs
    modifies w.rewriter.nodes`next, w.rewriter.nodes`prev, w.rewriter.il`next, w.rewriter.il`prev
    ensures w.Spliced(Emission.StoreString(index, token))
  {
    hide *;
    StoreParts(index, token);
    ghost var k := IndexOf(w.rewriter.nodes, w.position);
    ghost var a := Emission.BeginLoadValueIntoArray(index) + [Instr(LDSTR, token, 0)];
    BeginString(w, index, token);
    ghost var first := w.SplicedFacts(a);
    label between:
    ghost var n, c, b := w.rewriter.nodes, w.Emitted(), [Instr(STELEM_REF, 0, 0)];
    w.EndLoadValueIntoArray();
    ghost var second := w.SplicedFacts@between(b);
    w.SplicedThen(n, c, k, first, a, second, b);
  }

  /**
   * Since the list was was, the nodes added, holding block, have been put in at k, in front of the wrapper's position; code
   * is what the list held then.
   */
  ghost predicate PutIn(w: ILRewriterWrapper, was: seq<ILInstr>, code: Code, k: nat, added: seq<ILInstr>, block: Code)
    reads w, w.rewriter, w.rewriter.il`next, w.rewriter.il`prev
    reads w.rewriter.nodes`next, w.rewriter.nodes`prev, w.rewriter.nodes`opcode, w.rewriter.nodes`arg, w.rewriter.nodes`target
  {
    && w.Ready() && Straight(block) && k <= |was| && |added| == |block|
    && w.rewriter.nodes == was[..k] + added + was[k..]
    && IndexOf(w.rewriter.nodes, w.position) == k + |block|
    && k <= |code| && w.Emitted() == Splice(code, k, block)
  }

  lemma PutInFacts(w: ILRewriterWrapper, was: seq<ILInstr>, code: Code, k: nat, added: seq<ILInstr>, block: Code)
    requires PutIn(w, was, code, k, added, block)
    ensures w.Ready() && Straight(block) && |added| == |block| && k <= |was|
    ensures w.rewriter.nodes == was[..k] + added + was[k..]
    ensures IndexOf(w.rewriter.nodes, w.position) == k + |block| && k <= |code| && w.Emitted() == Splice(code, k, block)
  {
    hide ILRewriterWrapper.Ready, ILRewriterWrapper.Emitted, Straight, IndexOf, Splice;
  }

  lemma FirstPutIn(w: ILRewriterWrapper, was: seq<ILInstr>, code: Code, k: nat, added: seq<ILInstr>, block: Code)
    requires w.Ready() && Straight(block) && |added| == |block| && k <= |was|
    requires w.rewriter.nodes == was[..k] + added + was[k..]
    requires IndexOf(w.rewriter.nodes, w.position) == k + |block| && k <= |code| && w.Emitted() == Splice(code, k, block)
    ensures PutIn(w, was, code, k, added, block)
  {
    hide ILRewriterWrapper.Ready, ILRewriterWrapper.Emitted, Straight, IndexOf, Splice;
  }

  lemma PutInThen(w: ILRewriterWrapper, was: seq<ILInstr>, code: Code, k: nat, first: seq<ILInstr>, a: Code,
                  mid: seq<ILInstr>, c: Code, second: seq<ILInstr>, b: Code)
    requires w.Ready() && Straight(a) && Straight(b) && |first| == |a| && |second| == |b|
    requires k <= |was| && mid == was[..k] + first + was[k..] && k <= |code| && c == Splice(code, k, a)
    requires k + |a| <= |c| && w.rewriter.nodes == mid[..k + |a|] + second + mid[k + |a|..]
    requires IndexOf(w.rewriter.nodes, w.position) == k + |a| + |b| && w.Emitted() == Splice(c, k + |a|, b)
    ensures PutIn(w, was, code, k, first + second, a + b)
  {
    hide *;
    StraightTwice(a, b);
    StraightParts(a);
    SpliceTwice(code, k, a, b);
    NotMoved(k + |a|, |b|, a);
    PutInTwice(was, k, first, second);
    FirstPutIn(w, was, code, k, first + second, a + b);
  }

  /** One round of the loop. */
  method StoreNext(w: ILRewriterWrapper, index: nat, token: int, ghost was: seq<ILInstr>, ghost code: Code, ghost k: nat,
                   ghost added: seq<ILInstr>, ghost block: Code) returns (ghost more: seq<ILInstr>)
    requires PutIn(w, was, code, k, added, block)
    modifies w.rewriter`nodes, w.rewriter`maxStack, w.rewriter`nInstrs
    modifies w.rewriter.nodes`next, w.rewriter.nodes`prev, w.rewriter.il`next, w.rewriter.il`prev
    ensures w.position == old(w.position) && fresh(more)
    ensures PutIn(w, was, code, k, added + more, block + Emission.StoreString(index, token))
  {
    hide *;
    ghost var n, c, b := w.rewriter.nodes, w.Emitted(), Emission.StoreString(index, token);
    StoreParts(index, token);
    PutInFacts(w, was, code, k, added, block);
    HeldAtLeast(w, code, k, block);
    StoreString(w, index, token);
    more := w.SplicedFacts(b);
    PutInThen(w, was, code, k, added, block, n, c, more, b);
  }

  lemma HeldAtLeast(w: ILRewriterWrapper, code: Code, k: nat, block: Code)
    requires k <= |code| && w.Emitted() == Splice(code, k, block)
    ensures k + |block| <= |w.Emitted()|
  {
    hide ILRewriterWrapper.Emitted;
  }

  /**
   * WriteAssembliesStringArray: splices in the construction of an array of the given strings, or what comes before the
   * first string that is refused.
   */
  method WriteAssembliesStringArray(w: ILRewriterWrapper, define: string -> StringToken, strings: seq<string>, typeRef: int)
    returns (ok: bool, ghost block: Code)
    requires w.Ready()
    modifies w.rewriter`nodes, w.rewriter`maxStack, w.rewriter`nInstrs
    modifies w.rewriter.nodes`next, w.rewriter.nodes`prev, w.rewriter.il`next, w.rewriter.il`prev
    ensures w.Spliced(block) && (old(w.Appending()) ==> w.Appended(block))
    ensures ok <==> AllDefined(define, strings)
    ensures ok ==> block == Emission.StringArray(typeRef, TokensOf(define, strings))
    ensures block <= Emission.StringArray(typeRef, TokensOf(define, strings))
  {
    hide Ring, PushSum, OpcodesOf, CodeOf, HasTarget, ILRewriterWrapper.Spliced, ILRewriterWrapper.Appended, Splice;
    hide ILRewriterWrapper.Ready, ILRewriterWrapper.Appending, ILRewriterWrapper.Emitted, Straight, IndexOf, Branchless;
    hide Emission.StoreString, Emission.StoreStrings, Emission.CreateArray, PutIn;
    ghost var tokens, was, code := TokensOf(define, strings), w.rewriter.nodes, w.Emitted();
    ghost var k, all := IndexOf(was, w.position), Emission.StringArray(typeRef, tokens);
    block := Emission.CreateArray(typeRef, |strings|);
    ghost var added := StartArray(w, typeRef, |strings|);
    for i := 0 to |strings|
      invariant PutIn(w, was, code, k, added, block) && w.position == old(w.position)
      invariant fresh(added) && k <= |was| && w.rewriter.nodes == was[..k] + added + was[k..]
      invariant forall j :: 0 <= j < i ==> define(strings[j]).Token?
      invariant block + Emission.StoreStrings(tokens, i) == all
    {
      match define(strings[i]) {
        case Refused =>
          AllPutIn(w, was, code, k, added, block);
          Begins(block, Emission.StoreStrings(tokens, i));
          return false, block;
        case Token(token) =>
          ghost var more := StoreNext(w, i, token, was, code, k, added, block);
          StringsLeft(tokens, i, block);
          added, block := added + more, block + Emission.StoreString(i, token);
          PutInFacts(w, was, code, k, added, block);
      }
    }
    ok := true;
    NoneLeft(tokens, block);
    AllPutIn(w, was, code, k, added, block);
  }

  lemma StringsLeft(tokens: seq<int>, i: nat, block: Code)
    requires i < |tokens|
    ensures block + Emission.StoreStrings(tokens, i) ==
            block + Emission.StoreString(i, tokens[i]) + Emission.StoreStrings(tokens, i + 1)
  {
    hide Emission.StoreString;
  }

  lemma NoneLeft(tokens: seq<int>, block: Code)
    ensures block + Emission.StoreStrings(tokens, |tokens|) == block
  {
  }

  lemma Begins(a: Code, b: Code)
    ensures a <= a + b
  {
  }

  method StartArray(w: ILRewriterWrapper, typeRef: int, size: nat) returns (ghost added: seq<ILInstr>)
    requires w.Ready()
    modifies w.rewriter`nodes, w.rewriter`maxStack, w.rewriter`nInstrs
    modifies w.rewriter.nodes`next, w.rewriter.nodes`prev, w.rewriter.il`next, w.rewriter.il`prev
    ensures w.position == old(w.position) && fresh(added)
    ensures var was, k := old(w.rewriter.nodes), IndexOf(old(w.rewriter.nodes), w.position);
            && k <= |was| && w.rewriter.nodes == was[..k] + added + was[k..]
            && PutIn(w, was, old(w.Emitted()), k, added, Emission.CreateArray(typeRef, size))
  {
    hide *;
    ghost var was, code, block := w.rewriter.nodes, w.Emitted(), Emission.CreateArray(typeRef, size);
    ghost var k := IndexOf(was, w.position);
    PositionInside(w);
    w.CreateArray(typeRef, size);
    added := w.SplicedFacts(block);
    ArrayParts(typeRef, size);
    FirstPutIn(w, was, code, k, added, block);
  }

  lemma PositionInside(w: ILRewriterWrapper)
    ensures IndexOf(w.rewriter.nodes, w.position) <= |w.rewriter.nodes| == |w.Emitted()|
  {
  }

  /** What has been put in since the beginning is spliced in. */
  twostate lemma AllPutIn(w: ILRewriterWrapper, new was: seq<ILInstr>, new code: Code, new k: nat, new added: seq<ILInstr>,
                          new block: Code)
    requires PutIn(w, was, code, k, added, block) && w.position == old(w.position) && fresh(added)
    requires was == old(w.rewriter.nodes) && code == old(w.Emitted()) && k == IndexOf(was, w.position)
    ensures w.Spliced(block) && (old(w.Appending()) ==> w.Appended(block))
  {
    hide *;
    PutInFacts(w, was, code, k, added, block);
    StraightParts(block);
    w.SplicedIs(k, added, block);
    w.AtTheEnd(block);
  }

  /** Steps 2 to 6: everything between the branch and the arguments. */
  function Preparation(t: LoaderBody.Tokens): Code
  {
    LoaderBody.CopyBytes(t, 0, 1, 4) + LoaderBody.CopyBytes(t, 2, 3, 5) + LoaderBody.FindRun(t)
  }

  /** Each part of the body is what its calls emit one after the other. */
  lemma StepParts(t: LoaderBody.Tokens)
    ensures LoaderBody.Head(t) == Addresses() + [Instr(LDSTR, t.assemblyName, 0)] + [Instr(CALL, t.getBytes, 0)]
    ensures Addresses() ==
            [Emission.LoadLocalAddress(0)] + [Emission.LoadLocalAddress(1)] + [Emission.LoadLocalAddress(2)] +
            [Emission.LoadLocalAddress(3)]
    ensures LoaderBody.LoadAssembly(t) ==
            [Emission.LoadLocal(4)] + [Emission.LoadLocal(5)] + [Instr(CALL, t.assemblyLoad, 0)]
    ensures LoaderBody.LookUpRun(t) ==
            [Instr(LDSTR, t.typeName, 0)] + [Emission.LoadInt32(1)] + [Instr(CALLVIRT, t.assemblyGetType, 0)] +
            [Instr(LDSTR, t.runName, 0)] + [Instr(CALLVIRT, t.typeGetMethod, 0)]
    ensures Preparation(t) == LoaderBody.CopyBytes(t, 0, 1, 4) + LoaderBody.CopyBytes(t, 2, 3, 5) +
                              LoaderBody.LoadAssembly(t) + LoaderBody.LookUpRun(t)
  {
    hide Emission.LoadLocal, Emission.LoadLocalAddress, Emission.LoadInt32, LoaderBody.CopyBytes;
  }

  lemma CopyParts(t: LoaderBody.Tokens, pointer: nat, size: nat, bytes: nat)
    ensures LoaderBody.AllocBytes(t, size, bytes) ==
            [Emission.LoadLocal(size)] + [Instr(NEWARR, t.byteType, 0)] + [Emission.StLocal(bytes)]
    ensures LoaderBody.CopyInto(t, pointer, size, bytes) ==
            [Emission.LoadLocal(pointer)] + [Emission.LoadLocal(bytes)] + [Emission.LoadInt32(0)] +
            [Emission.LoadLocal(size)] + [Instr(CALL, t.marshalCopy, 0)]
    ensures LoaderBody.CopyBytes(t, pointer, size, bytes) ==
            LoaderBody.AllocBytes(t, size, bytes) + LoaderBody.CopyInto(t, pointer, size, bytes)
  {
    hide Emission.LoadLocal, Emission.StLocal, Emission.LoadInt32;
  }

  lemma IsReady(w: ILRewriterWrapper)
    requires w.Appending()
    ensures w.Ready()
  {
    hide ILRewriterWrapper.Ready;
  }

  /** The addresses of the first four locals, for the native side to write to. */
  function Addresses(): Code
  {
    [Emission.LoadLocalAddress(0)] + [Emission.LoadLocalAddress(1)] + [Emission.LoadLocalAddress(2)]
    + [Emission.LoadLocalAddress(3)]
  }

  /** The first half of step 1. */
  method EmitAddresses(w: ILRewriterWrapper, t: LoaderBody.Tokens)
    requires w.Appending()
    modifies w.rewriter`nodes, w.rewriter`maxStack, w.rewriter`nInstrs
    modifies w.rewriter.nodes`next, w.rewriter.nodes`prev, w.rewriter.il`next, w.rewriter.il`prev
    ensures w.Appended(Addresses())
  {
    hide *;
    StepParts(t);
    IsReady(w);
    ghost var a := [Emission.LoadLocalAddress(0)];
    w.LoadLocalAddress(0);
    w.Emits(a);
    w.Extends();
    label one:
    ghost var n, c, b := w.rewriter.nodes, w.Emitted(), [Emission.LoadLocalAddress(1)];
    w.LoadLocalAddress(1);
    w.Emits@one(b);
    w.Extends@one();
    w.Then(n, c, a, b);
    w.Extends();
    label two:
    n, c, a, b := w.rewriter.nodes, w.Emitted(), a + b, [Emission.LoadLocalAddress(2)];
    w.LoadLocalAddress(2);
    w.Emits@two(b);
    w.Extends@two();
    w.Then(n, c, a, b);
    w.Extends();
    label three:
    n, c, a, b := w.rewriter.nodes, w.Emitted(), a + b, [Emission.LoadLocalAddress(3)];
    w.LoadLocalAddress(3);
    w.Emits@three(b);
    w.Extends@three();
    w.Then(n, c, a, b);
  }

  /** Step 1 of the body. */
  method EmitHead(w: ILRewriterWrapper, t: LoaderBody.Tokens)
    requires w.Appending()
    modifies w.rewriter`nodes, w.rewriter`maxStack, w.rewriter`nInstrs
    modifies w.rewriter.nodes`next, w.rewriter.nodes`prev, w.rewriter.il`next, w.rewriter.il`prev
    ensures w.Appended(LoaderBody.Head(t))
  {
    hide *;
    StepParts(t);
    IsReady(w);
    ghost var a := Addresses();
    EmitAddresses(w, t);
    w.Emits(a);
    w.Extends();
    label one:
    ghost var n, c, b := w.rewriter.nodes, w.Emitted(), [Instr(LDSTR, t.assemblyName, 0)];
    w.LoadStr(t.assemblyName);
    w.Emits@one(b);
    w.Extends@one();
    w.Then(n, c, a, b);
    w.Extends();
    label two:
    n, c, a, b := w.rewriter.nodes, w.Emitted(), a + b, [Instr(CALL, t.getBytes, 0)];
    w.CallMember(t.getBytes, false);
    w.Emits@two(b);
    w.Extends@two();
    w.Then(n, c, a, b);
  }

  /** A new byte array in a local. */
  method EmitAllocBytes(w: ILRewriterWrapper, t: LoaderBody.Tokens, size: nat, bytes: nat)
    requires w.Appending()
    modifies w.rewriter`nodes, w.rewriter`maxStack, w.rewriter`nInstrs
    modifies w.rewriter.nodes`next, w.rewriter.nodes`prev, w.rewriter.il`next, w.rewriter.il`prev
    ensures w.Appended(LoaderBody.AllocBytes(t, size, bytes))
  {
    hide *;
    CopyParts(t, 0, size, bytes);
    IsReady(w);
    ghost var a := [Emission.LoadLocal(size)];
    w.LoadLocal(size);
    w.Emits(a);
    w.Extends();
    label one:
    ghost var n, c, b := w.rewriter.nodes, w.Emitted(), [Instr(NEWARR, t.byteType, 0)];
    w.NewArray(t.byteType);
    w.Emits@one(b);
    w.Extends@one();
    w.Then(n, c, a, b);
    w.Extends();
    label two:
    n, c, a, b := w.rewriter.nodes, w.Emitted(), a + b, [Emission.StLocal(bytes)];
    w.StLocal(bytes);
    w.Emits@two(b);
    w.Extends@two();
    w.Then(n, c, a, b);
  }

  /** One native buffer copied into it. */
  method EmitCopyInto(w: ILRewriterWrapper, t: LoaderBody.Tokens, pointer: nat, size: nat, bytes: nat)
    requires w.Appending()
    modifies w.rewriter`nodes, w.rewriter`maxStack, w.rewriter`nInstrs
    modifies w.rewriter.nodes`next, w.rewriter.nodes`prev, w.rewriter.il`next, w.rewriter.il`prev
    ensures w.Appended(LoaderBody.CopyInto(t, pointer, size, bytes))
  {
    hide *;
    CopyParts(t, pointer, size, bytes);
    IsReady(w);
    ghost var a := [Emission.LoadLocal(pointer)];
    w.LoadLocal(pointer);
    w.Emits(a);
    w.Extends();
    label one:
    ghost var n, c, b := w.rewriter.nodes, w.Emitted(), [Emission.LoadLocal(bytes)];
    w.LoadLocal(bytes);
    w.Emits@one(b);
    w.Extends@one();
    w.Then(n, c, a, b);
    w.Extends();
    label two:
    n, c, a, b := w.rewriter.nodes, w.Emitted(), a + b, [Emission.LoadInt32(0)];
    w.LoadInt32(0);
    w.Emits@two(b);
    w.Extends@two();
    w.Then(n, c, a, b);
    w.Extends();
    label three:
    n, c, a, b := w.rewriter.nodes, w.Emitted(), a + b, [Emission.LoadLocal(size)];
    w.LoadLocal(size);
    w.Emits@three(b);
    w.Extends@three();
    w.Then(n, c, a, b);
    w.Extends();
    label four:
    n, c, a, b := w.rewriter.nodes, w.Emitted(), a + b, [Instr(CALL, t.marshalCopy, 0)];
    w.CallMember(t.marshalCopy, false);
    w.Emits@four(b);
    w.Extends@four();
    w.Then(n, c, a, b);
  }

  /** Steps 2 and 3 of the body. */
  method EmitCopyBytes(w: ILRewriterWrapper, t: LoaderBody.Tokens, pointer: nat, size: nat, bytes: nat)
    requires w.Appending()
    modifies w.rewriter`nodes, w.rewriter`maxStack, w.rewriter`nInstrs
    modifies w.rewriter.nodes`next, w.rewriter.nodes`prev, w.rewriter.il`next, w.rewriter.il`prev
    ensures w.Appended(LoaderBody.CopyBytes(t, pointer, size, bytes))
  {
    hide *;
    CopyParts(t, pointer, size, bytes);
    IsReady(w);
    ghost var a := LoaderBody.AllocBytes(t, size, bytes);
    EmitAllocBytes(w, t, size, bytes);
    w.Emits(a);
    w.Extends();
    label one:
    ghost var n, c, b := w.rewriter.nodes, w.Emitted(), LoaderBody.CopyInto(t, pointer, size, bytes);
    EmitCopyInto(w, t, pointer, size, bytes);
    w.Emits@one(b);
    w.Extends@one();
    w.Then(n, c, a, b);
  }

  /** Step 4 of the body. */
  method EmitLoadAssembly(w: ILRewriterWrapper, t: LoaderBody.Tokens)
    requires w.Appending()
    modifies w.rewriter`nodes, w.rewriter`maxStack, w.rewriter`nInstrs
    modifies w.rewriter.nodes`next, w.rewriter.nodes`prev, w.rewriter.il`next, w.rewriter.il`prev
    ensures w.Appended(LoaderBody.LoadAssembly(t))
  {
    hide *;
    StepParts(t);
    IsReady(w);
    ghost var a := [Emission.LoadLocal(4)];
    w.LoadLocal(4);
    w.Emits(a);
    w.Extends();
    label one:
    ghost var n, c, b := w.rewriter.nodes, w.Emitted(), [Emission.LoadLocal(5)];
    w.LoadLocal(5);
    w.Emits@one(b);
    w.Extends@one();
    w.Then(n, c, a, b);
    w.Extends();
    label two:
    n, c, a, b := w.rewriter.nodes, w.Emitted(), a + b, [Instr(CALL, t.assemblyLoad, 0)];
    w.CallMember(t.assemblyLoad, false);
    w.Emits@two(b);
    w.Extends@two();
    w.Then(n, c, a, b);
  }

  /** Steps 5 and 6 of the body. */
  method EmitLookUpRun(w: ILRewriterWrapper, t: LoaderBody.Tokens)
    requires w.Appending()
    modifies w.rewriter`nodes, w.rewriter`maxStack, w.rewriter`nInstrs
    modifies w.rewriter.nodes`next, w.rewriter.nodes`prev, w.rewriter.il`next, w.rewriter.il`prev
    ensures w.Appended(LoaderBody.LookUpRun(t))
  {
    hide *;
    StepParts(t);
    IsReady(w);
    ghost var a := [Instr(LDSTR, t.typeName, 0)];
    w.LoadStr(t.typeName);
    w.Emits(a);
    w.Extends();
    label one:
    ghost var n, c, b := w.rewriter.nodes, w.Emitted(), [Emission.LoadInt32(1)];
    w.LoadInt32(1);
    w.Emits@one(b);
    w.Extends@one();
    w.Then(n, c, a, b);
    w.Extends();
    label two:
    n, c, a, b := w.rewriter.nodes, w.Emitted(), a + b, [Instr(CALLVIRT, t.assemblyGetType, 0)];
    w.CallMember(t.assemblyGetType, true);
    w.Emits@two(b);
    w.Extends@two();
    w.Then(n, c, a, b);
    w.Extends();
    label three:
    n, c, a, b := w.rewriter.nodes, w.Emitted(), a + b, [Instr(LDSTR, t.runName, 0)];
    w.LoadStr(t.runName);
    w.Emits@three(b);
    w.Extends@three();
    w.Then(n, c, a, b);
    w.Extends();
    label four:
    n, c, a, b := w.rewriter.nodes, w.Emitted(), a + b, [Instr(CALLVIRT, t.typeGetMethod, 0)];
    w.CallMember(t.typeGetMethod, true);
    w.Emits@four(b);
    w.Extends@four();
    w.Then(n, c, a, b);
  }

  /** Steps 2 to 6 of the body. */
  method EmitPreparation(w: ILRewriterWrapper, t: LoaderBody.Tokens)
    requires w.Appending()
    modifies w.rewriter`nodes, w.rewriter`maxStack, w.rewriter`nInstrs
    modifies w.rewriter.nodes`next, w.rewriter.nodes`prev, w.rewriter.il`next, w.rewriter.il`prev
    ensures w.Appended(Preparation(t))
  {
    hide *;
    StepParts(t);
    IsReady(w);
    ghost var a := LoaderBody.CopyBytes(t, 0, 1, 4);
    EmitCopyBytes(w, t, 0, 1, 4);
    w.Emits(a);
    w.Extends();
    label one:
    ghost var n, c, b := w.rewriter.nodes, w.Emitted(), LoaderBody.CopyBytes(t, 2, 3, 5);
    EmitCopyBytes(w, t, 2, 3, 5);
    w.Emits@one(b);
    w.Extends@one();
    w.Then(n, c, a, b);
    w.Extends();
    label two:
    n, c, a, b := w.rewriter.nodes, w.Emitted(), a + b, LoaderBody.LoadAssembly(t);
    EmitLoadAssembly(w, t);
    w.Emits@two(b);
    w.Extends@two();
    w.Then(n, c, a, b);
    w.Extends();
    label three:
    n, c, a, b := w.rewriter.nodes, w.Emitted(), a + b, LoaderBody.LookUpRun(t);
    EmitLookUpRun(w, t);
    w.Emits@three(b);
    w.Extends@three();
    w.Then(n, c, a, b);
  }

  lemma ArgumentParts(t: LoaderBody.Tokens, index: int, strings: seq<int>, others: seq<int>)
    ensures LoaderBody.StoreArgument(t, index, strings) ==
            Emission.BeginLoadValueIntoArray(index) + Emission.StringArray(t.stringType, strings) + [Instr(STELEM_REF, 0, 0)]
    ensures LoaderBody.Arguments(t, strings, others) ==
            [Instr(LDNULL, 0, 0)] + Emission.CreateArray(t.objectType, 2) +
            LoaderBody.StoreArgument(t, 0, strings) + LoaderBody.StoreArgument(t, 1, others)
  {
    hide Emission.BeginLoadValueIntoArray, Emission.StringArray, Emission.CreateArray;
  }

  /** One string array stored into the argument array. */
  method EmitArgument(w: ILRewriterWrapper, t: LoaderBody.Tokens, define: string -> StringToken, index: int, strings: seq<string>)
    returns (ok: bool)
    requires w.Appending()
    modifies w.rewriter`nodes, w.rewriter`maxStack, w.rewriter`nInstrs
    modifies w.rewriter.nodes`next, w.rewriter.nodes`prev, w.rewriter.il`next, w.rewriter.il`prev
    ensures w.Longer()
    ensures ok <==> AllDefined(define, strings)
    ensures ok ==> w.Appended(LoaderBody.StoreArgument(t, index, TokensOf(define, strings)))
  {
    hide *;
    ArgumentParts(t, index, TokensOf(define, strings), []);
    IsReady(w);
    ghost var a := Emission.BeginLoadValueIntoArray(index);
    w.BeginLoadValueIntoArray(index);
    w.Emits(a);
    w.Extends();
    label one:
    ghost var n, c, b := w.rewriter.nodes, w.Emitted(), a;
    ok, b := WriteAssembliesStringArray(w, define, strings, t.stringType);
    w.Emits@one(b);
    w.Extends@one();
    w.StillLonger(n);
    if ok {
      w.Then(n, c, a, b);
      w.Extends();
      label two:
      n, c, a, b := w.rewriter.nodes, w.Emitted(), a + b, [Instr(STELEM_REF, 0, 0)];
      w.EndLoadValueIntoArray();
      w.Emits@two(b);
      w.Extends@two();
      w.Then(n, c, a, b);
    }
  }

  /** Step 7 of the body; it stops at the first string the metadata refuses. */
  method EmitArguments(w: ILRewriterWrapper, t: LoaderBody.Tokens, define: string -> StringToken,
                       first: seq<string>, second: seq<string>)
    returns (ok: bool)
    requires w.Appending()
    modifies w.rewriter`nodes, w.rewriter`maxStack, w.rewriter`nInstrs
    modifies w.rewriter.nodes`next, w.rewriter.nodes`prev, w.rewriter.il`next, w.rewriter.il`prev
    ensures w.Longer()
    ensures ok <==> AllDefined(define, first) && AllDefined(define, second)
    ensures ok ==> w.Appended(LoaderBody.Arguments(t, TokensOf(define, first), TokensOf(define, second)))
  {
    hide *;
    ghost var one, two := TokensOf(define, first), TokensOf(define, second);
    ArgumentParts(t, 0, one, two);
    IsReady(w);
    ghost var a := [Instr(LDNULL, 0, 0)];
    w.LoadNull();
    w.Emits(a);
    w.Extends();
    label null_:
    ghost var n, c, b := w.rewriter.nodes, w.Emitted(), Emission.CreateArray(t.objectType, 2);
    w.CreateArray(t.objectType, 2);
    w.Emits@null_(b);
    w.Extends@null_();
    w.Then(n, c, a, b);
    w.Extends();
    label array_:
    n, c, a, b := w.rewriter.nodes, w.Emitted(), a + b, LoaderBody.StoreArgument(t, 0, one);
    ok := EmitArgument(w, t, define, 0, first);
    w.Extends@array_();
    w.StillLonger(n);
    if ok {
      w.Emits@array_(b);
      w.Then(n, c, a, b);
      w.Extends();
      label argument:
      n, c, a, b := w.rewriter.nodes, w.Emitted(), a + b, LoaderBody.StoreArgument(t, 1, two);
      ok := EmitArgument(w, t, define, 1, second);
      w.Extends@argument();
      w.StillLonger(n);
      if ok {
        w.Emits@argument(b);
        w.Then(n, c, a, b);
      }
    }
  }

  // ---------- the finished body ----------

  /** An instruction that is no branch and no switch, with an operand that fits. */
  predicate Plain(ins: Instr)
  {
    Encodable(ins.op) && !HasTarget(ins.op) && ins.op != SWITCH && ValidArg(ins.op, ins.arg) && ins.target == 0
  }

  predicate AllPlain(code: Code)
  {
    forall i :: 0 <= i < |code| ==> Plain(code[i])
  }

  predicate TokensFit(t: LoaderBody.Tokens)
  {
    && FitsSigned(4, t.assemblyName) && FitsSigned(4, t.getBytes) && FitsSigned(4, t.byteType)
    && FitsSigned(4, t.marshalCopy) && FitsSigned(4, t.assemblyLoad) && FitsSigned(4, t.typeName)
    && FitsSigned(4, t.assemblyGetType) && FitsSigned(4, t.runName) && FitsSigned(4, t.typeGetMethod)
    && FitsSigned(4, t.objectType) && FitsSigned(4, t.stringType) && FitsSigned(4, t.invoke)
  }

  predicate StringsFit(tokens: seq<int>)
  {
    |tokens| < MAX_CODE && forall i :: 0 <= i < |tokens| ==> FitsSigned(4, tokens[i])
  }

  lemma IntIsPlain(value: int)
    requires FitsSigned(4, value)
    ensures Plain(Emission.LoadInt32(value))
  {
  }

  lemma LocalsArePlain(index: nat)
    requires index < 6
    ensures Plain(Emission.LoadLocal(index)) && Plain(Emission.StLocal(index)) && Plain(Emission.LoadLocalAddress(index))
  {
  }

  lemma TokenIsPlain(token: int)
    requires FitsSigned(4, token)
    ensures Plain(Instr(CALL, token, 0)) && Plain(Instr(CALLVIRT, token, 0)) && Plain(Instr(LDSTR, token, 0))
    ensures Plain(Instr(NEWARR, token, 0))
    ensures Plain(Instr(DUP, 0, 0)) && Plain(Instr(STELEM_REF, 0, 0)) && Plain(Instr(LDNULL, 0, 0))
    ensures Plain(Instr(POP, 0, 0)) && Plain(Instr(RET, 0, 0))
  {
  }

  lemma {:induction false} StoreStringsPlain(tokens: seq<int>, from: nat)
    requires from <= |tokens| && StringsFit(tokens)
    ensures AllPlain(Emission.StoreStrings(tokens, from))
    decreases |tokens| - from
  {
    hide Plain, Emission.LoadInt32;
    if from < |tokens| {
      IntIsPlain(from);
      TokenIsPlain(tokens[from]);
      StoreStringsPlain(tokens, from + 1);
    }
  }

  lemma ArgumentPlain(t: LoaderBody.Tokens, index: int, tokens: seq<int>)
    requires TokensFit(t) && StringsFit(tokens) && 0 <= index < 2
    ensures AllPlain(LoaderBody.StoreArgument(t, index, tokens))
  {
    hide Plain, Emission.LoadInt32, Emission.StoreStrings;
    StoreStringsPlain(tokens, 0);
    IntIsPlain(index);
    IntIsPlain(|tokens|);
    TokenIsPlain(t.stringType);
  }

  lemma PartsPlain(t: LoaderBody.Tokens)
    requires TokensFit(t)
    ensures AllPlain(LoaderBody.Head(t)) && AllPlain(Preparation(t))
  {
    hide Plain, Emission.LoadInt32, Emission.LoadLocal, Emission.StLocal, Emission.LoadLocalAddress;
    IntIsPlain(0);
    IntIsPlain(1);
    LocalsArePlain(0);
    LocalsArePlain(1);
    LocalsArePlain(2);
    LocalsArePlain(3);
    LocalsArePlain(4);
    LocalsArePlain(5);
    TokenIsPlain(t.assemblyName);
    TokenIsPlain(t.getBytes);
    TokenIsPlain(t.byteType);
    TokenIsPlain(t.marshalCopy);
    TokenIsPlain(t.assemblyLoad);
    TokenIsPlain(t.typeName);
    TokenIsPlain(t.assemblyGetType);
    TokenIsPlain(t.runName);
    TokenIsPlain(t.typeGetMethod);
  }

  lemma MiddlePlain(t: LoaderBody.Tokens, first: seq<int>, second: seq<int>)
    requires TokensFit(t) && StringsFit(first) && StringsFit(second)
    ensures AllPlain(LoaderBody.Head(t)) && AllPlain(LoaderBody.Middle(t, first, second))
  {
    hide Plain, Preparation, LoaderBody.Middle, LoaderBody.Head, Emission.LoadInt32, LoaderBody.StoreArgument;
    PartsPlain(t);
    ArgumentPlain(t, 0, first);
    ArgumentPlain(t, 1, second);
    IntIsPlain(2);
    TokenIsPlain(t.objectType);
    TokenIsPlain(t.invoke);
    assert AllPlain(LoaderBody.Arguments(t, first, second));
    MiddleParts(t, first, second);
  }

  lemma MiddleParts(t: LoaderBody.Tokens, first: seq<int>, second: seq<int>)
    ensures LoaderBody.Middle(t, first, second) ==
            Preparation(t) + LoaderBody.Arguments(t, first, second) + [Instr(CALLVIRT, t.invoke, 0)] + [Instr(POP, 0, 0)]
  {
    hide LoaderBody.CopyBytes, LoaderBody.FindRun, LoaderBody.Arguments;
  }

  /** A list with one long branch at position k among plain instructions is well formed and needs no widening. */
  lemma OneBranchWellFormed(code: Code, k: nat)
    requires k < |code| && code[k] == Instr(BRFALSE, 0, code[k].target) && code[k].target < |code|
    requires forall i :: 0 <= i < |code| && i != k ==> Plain(code[i])
    ensures WellFormed(code) && TargetsInside(code) && AllFit(code) && Relax(code) == code
  {
    hide ValidArg;
    forall i | 0 <= i <= |code| ensures Pending(code, i) == 0 {
      NeverPending(code, k, i);
    }
    BranchIsLong();
    forall i | 0 <= i < |code| ensures InstrOk(code, i) && ShortFits(code, i) && code[i].target <= |code| {
      assert i != k ==> Plain(code[i]);
      var t := code[i].target;
      assert t != k ==> Plain(code[t]);
    }
    RelaxIdentity(code);
  }

  lemma BranchIsLong()
    ensures HasTarget(BRFALSE) && !IsShort(BRFALSE) && Encodable(BRFALSE) && ValidArg(BRFALSE, 0)
    ensures HasTarget(SWITCH_ARG) && BRFALSE != SWITCH_ARG
  {
  }

  lemma {:induction false} NeverPending(code: Code, k: nat, i: nat)
    requires i <= |code| && k < |code| && code[k].op == BRFALSE
    requires forall j :: 0 <= j < |code| && j != k ==> Plain(code[j])
    ensures Pending(code, i) == 0
  {
    hide ValidArg, OperandOf;
    if i > 0 {
      NeverPending(code, k, i - 1);
      assert i - 1 != k ==> Plain(code[i - 1]);
    }
  }

  lemma BodyWellFormed(t: LoaderBody.Tokens, first: seq<int>, second: seq<int>)
    requires TokensFit(t) && StringsFit(first) && StringsFit(second)
    ensures var code := LoaderBody.Body(t, first, second);
            && WellFormed(code) && TargetsInside(code) && AllFit(code) && Relax(code) == code
            && |code| >= 8 && code[6] == Instr(BRFALSE, 0, |code| - 1)
            && forall i :: 0 <= i < |code| && i != 6 ==> Plain(code[i])
  {
    hide Plain, LoaderBody.Middle, LoaderBody.Head;
    MiddlePlain(t, first, second);
    LoaderBody.HeadSize(t);
    TokenIsPlain(0);
    OneBranchWellFormed(LoaderBody.Body(t, first, second), 6);
  }

  /** The exported code of the generated method decodes to exactly the body whose runs are known. */
  lemma BodySurvivesExport(t: LoaderBody.Tokens, first: seq<int>, second: seq<int>)
    requires TokensFit(t) && StringsFit(first) && StringsFit(second)
    requires CodeSize(LoaderBody.Body(t, first, second)) < MAX_CODE
    ensures TargetsInside(LoaderBody.Body(t, first, second))
    ensures Decode(Encode(LoaderBody.Body(t, first, second))) == Ok(LoaderBody.Body(t, first, second))
  {
    hide LoaderBody.Body, Plain;
    BodyWellFormed(t, first, second);
    DecodeEncode(LoaderBody.Body(t, first, second));
  }

  /** The body with its branch not yet attached to the final ret. */
  function OpenBody(t: LoaderBody.Tokens, first: seq<int>, second: seq<int>): Code
  {
    LoaderBody.Head(t) + [Instr(BRFALSE, UNATTACHED, 0)] + LoaderBody.Middle(t, first, second) + [Instr(RET, 0, 0)]
  }

  /** What follows the branch, up to the ret. */
  method EmitRest(w: ILRewriterWrapper, t: LoaderBody.Tokens, define: string -> StringToken,
                  first: seq<string>, second: seq<string>)
    returns (ok: bool)
    requires w.Appending()
    modifies w.rewriter`nodes, w.rewriter`maxStack, w.rewriter`nInstrs
    modifies w.rewriter.nodes`next, w.rewriter.nodes`prev, w.rewriter.il`next, w.rewriter.il`prev
    ensures w.Longer()
    ensures ok <==> AllDefined(define, first) && AllDefined(define, second)
    ensures ok ==> w.Appended(LoaderBody.Middle(t, TokensOf(define, first), TokensOf(define, second)))
  {
    hide *;
    ghost var one, two := TokensOf(define, first), TokensOf(define, second);
    MiddleParts(t, one, two);
    IsReady(w);
    ghost var a := Preparation(t);
    EmitPreparation(w, t);
    w.Emits(a);
    w.Extends();
    label prepared:
    ghost var n, c, b := w.rewriter.nodes, w.Emitted(), LoaderBody.Arguments(t, one, two);
    ok := EmitArguments(w, t, define, first, second);
    w.Extends@prepared();
    w.StillLonger(n);
    if ok {
      w.Emits@prepared(b);
      w.Then(n, c, a, b);
      w.Extends();
      label arguments:
      n, c, a, b := w.rewriter.nodes, w.Emitted(), a + b, [Instr(CALLVIRT, t.invoke, 0)];
      w.CallMember(t.invoke, true);
      w.Emits@arguments(b);
      w.Extends@arguments();
      w.Then(n, c, a, b);
      w.Extends();
      label invoked:
      n, c, a, b := w.rewriter.nodes, w.Emitted(), a + b, [Instr(POP, 0, 0)];
      w.Pop();
      w.Emits@invoked(b);
      w.Extends@invoked();
      w.Then(n, c, a, b);
    }
  }

  /** Step 1 and the branch. */
  method EmitStart(w: ILRewriterWrapper, t: LoaderBody.Tokens) returns (branch: ILInstr)
    requires w.rewriter.nodes == []
    requires w.Appending()
    modifies w.rewriter`nodes, w.rewriter`maxStack, w.rewriter`nInstrs
    modifies w.rewriter.nodes`next, w.rewriter.nodes`prev, w.rewriter.il`next, w.rewriter.il`prev
    ensures w.Appended(LoaderBody.Head(t) + [NewInstr(BRFALSE, 0)])
    ensures |w.rewriter.nodes| == 7 && w.rewriter.nodes[6] == branch
  {
    hide *;
    HeadSize(w, t);
    IsReady(w);
    ghost var a := LoaderBody.Head(t);
    EmitHead(w, t);
    w.Emits(a);
    w.Extends();
    HeadSize(w, t);
    label head:
    ghost var n, c, b := w.rewriter.nodes, w.Emitted(), [NewInstr(BRFALSE, 0)];
    branch := w.Insert(BRFALSE, 0);
    w.Emits@head(b);
    w.Extends@head();
    w.Then(n, c, a, b);
  }

  /** Emits the whole list; the branch and the ret are handed back so that one can be attached to the other. */
  method EmitOpenBody(w: ILRewriterWrapper, t: LoaderBody.Tokens, define: string -> StringToken,
                      first: seq<string>, second: seq<string>)
    returns (ok: bool, branch: ILInstr, ret: ILInstr)
    requires w.rewriter.nodes == []
    requires w.Appending()
    modifies w.rewriter`nodes, w.rewriter`maxStack, w.rewriter`nInstrs
    modifies w.rewriter.nodes`next, w.rewriter.nodes`prev, w.rewriter.il`next, w.rewriter.il`prev
    ensures w.Longer()
    ensures ok <==> AllDefined(define, first) && AllDefined(define, second)
    ensures ok ==> w.Appended(OpenBody(t, TokensOf(define, first), TokensOf(define, second)))
    ensures ok ==> |w.rewriter.nodes| > 7 && w.rewriter.nodes[6] == branch
    ensures ok ==> w.rewriter.nodes[|w.rewriter.nodes| - 1] == ret
  {
    hide *;
    ghost var one, two := TokensOf(define, first), TokensOf(define, second);
    OpenParts(t, one, two);
    IsReady(w);
    ghost var a := LoaderBody.Head(t) + [NewInstr(BRFALSE, 0)];
    branch := EmitStart(w, t);
    ret := branch;
    w.Emits(a);
    w.Extends();
    label branched:
    ghost var n, c, b := w.rewriter.nodes, w.Emitted(), LoaderBody.Middle(t, one, two);
    ok := EmitRest(w, t, define, first, second);
    w.Extends@branched();
    w.StillLonger(n);
    if ok {
      w.Emits@branched(b);
      w.Then(n, c, a, b);
      w.Extends();
      label rest:
      n, c, a, b := w.rewriter.nodes, w.Emitted(), a + b, [NewInstr(RET, 0)];
      ret := w.Insert(RET, 0);
      w.Emits@rest(b);
      w.Extends@rest();
      w.Then(n, c, a, b);
    }
  }

  lemma HeadSize(w: ILRewriterWrapper, t: LoaderBody.Tokens)
    ensures |w.Emitted()| == |w.rewriter.nodes| && |LoaderBody.Head(t)| == 6
  {
    LoaderBody.HeadSize(t);
  }

  lemma OpenParts(t: LoaderBody.Tokens, first: seq<int>, second: seq<int>)
    ensures OpenBody(t, first, second) ==
            LoaderBody.Head(t) + [NewInstr(BRFALSE, 0)] + LoaderBody.Middle(t, first, second) + [NewInstr(RET, 0)]
  {
    hide LoaderBody.Middle, LoaderBody.Head;
  }

  /** Points the branch at the ret: the list now holds the finished body, ready for export. */
  method AttachBranch(rewriter: ILRewriter, branch: ILInstr, ret: ILInstr, t: LoaderBody.Tokens,
                      ghost first: seq<int>, ghost second: seq<int>)
    requires rewriter.Valid() && TokensFit(t) && StringsFit(first) && StringsFit(second)
    requires |rewriter.nodes| > 7 && rewriter.nodes[6] == branch && rewriter.nodes[|rewriter.nodes| - 1] == ret
    requires CodeOf(rewriter.nodes) == OpenBody(t, first, second)
    modifies branch`target
    ensures rewriter.Exportable() && CodeOf(rewriter.nodes) == LoaderBody.Body(t, first, second)
  {
    hide Ring, PushSum, OpcodesOf, WellFormed, LoaderBody.Head, LoaderBody.Middle, Plain, OperandOf;
    ghost var nodes, open := rewriter.nodes, CodeOf(rewriter.nodes);
    RingFacts(nodes, rewriter.il);
    LoaderBody.HeadSize(t);
    BodyWellFormed(t, first, second);
    ghost var body := LoaderBody.Body(t, first, second);
    assert forall i :: 0 <= i < |open| && i != 6 ==> open[i] == body[i];
    assert forall i :: 0 <= i < |nodes| ==> ViewOf(nodes, nodes[i]) == open[i];
    branch.target := ret;
    IndexOfAt(nodes, |nodes| - 1);
    forall i | 0 <= i < |nodes|
      ensures CodeOf(nodes)[i] == body[i]
      ensures HasTarget(nodes[i].opcode) ==>
                nodes[i].target != null && (nodes[i].target == rewriter.il || nodes[i].target in nodes)
    {
      BranchIsLong();
      if i != 6 {
        assert Plain(body[i]);
        PlainHasNoTarget(body[i]);
      }
    }
    assert CodeOf(nodes) == body;
  }

  lemma PlainHasNoTarget(ins: Instr)
    requires Plain(ins)
    ensures !HasTarget(ins.op)
  {
  }

  /** An empty rewriter for a new method, and a wrapper that emits to its end. */
  method NewWrapper(localsSignature: nat) returns (w: ILRewriterWrapper)
    ensures fresh(w) && fresh(w.rewriter) && fresh(w.rewriter.il) && w.rewriter.nodes == [] && w.Appending()
    ensures w.rewriter.initialStack == 8 && w.rewriter.eh == []
    ensures !w.rewriter.generateTinyHeader && !w.rewriter.initLocals && w.rewriter.tkLocalVarSig == localsSignature
  {
    hide Ring, PushSum, OpcodesOf;
    var rewriter := new ILRewriter();
    rewriter.InitializeTiny();
    rewriter.SetTkLocalVarSig(localsSignature);
    EmptyRing(rewriter);
    w := new ILRewriterWrapper(rewriter, rewriter.il.next);
  }

  /** A fresh rewriter holding the generated body. */
  method BuildLoaderList(t: LoaderBody.Tokens, define: string -> StringToken, first: seq<string>, second: seq<string>,
                         localsSignature: nat)
    returns (ok: bool, rewriter: ILRewriter)
    requires TokensFit(t) && StringsFit(TokensOf(define, first)) && StringsFit(TokensOf(define, second))
    ensures fresh(rewriter) && fresh(rewriter.il) && fresh(rewriter.nodes)
    ensures ok <==> AllDefined(define, first) && AllDefined(define, second)
    ensures ok ==> rewriter.Exportable() && rewriter.initialStack == 8 && rewriter.eh == []
    ensures ok ==> !rewriter.generateTinyHeader && !rewriter.initLocals && rewriter.tkLocalVarSig == localsSignature
    ensures ok ==> CodeOf(rewriter.nodes) == LoaderBody.Body(t, TokensOf(define, first), TokensOf(define, second))
  {
    hide Ring, PushSum, OpcodesOf, CodeOf, WellFormed, LoaderBody.Body, OpenBody, AllDefined, Plain, TokensFit, StringsFit;
    hide TargetsLinked, ILRewriterWrapper.Emitted, ILRewriterWrapper.Appending, ILRewriter.Valid, ILRewriter.Exportable;
    hide TokensOf;
    var w := NewWrapper(localsSignature);
    rewriter := w.rewriter;
    var branch, ret;
    ok, branch, ret := EmitOpenBody(w, t, define, first, second);
    assert rewriter.nodes == Added([], rewriter.nodes);
    if ok {
      IsReady(w);
      EmittedIs(w);
      AttachBranch(rewriter, branch, ret, t, TokensOf(define, first), TokensOf(define, second));
    }
  }

  /** The generated method: a fat header without clauses, the given locals, and the code of the body. */
  method EmitLoaderMethod(t: LoaderBody.Tokens, define: string -> StringToken, first: seq<string>, second: seq<string>,
                          localsSignature: nat)
    returns (r: Exported)
    requires TokensFit(t) && StringsFit(TokensOf(define, first)) && StringsFit(TokensOf(define, second))
    ensures r.Exported? <==> AllDefined(define, first) && AllDefined(define, second)
    ensures r.Exported? ==>
              var code := LoaderBody.Body(t, TokensOf(define, first), TokensOf(define, second));
              && TargetsInside(code)
              && r.body == Fat(false, false, (8 + PushSum(Ops(code))) % 0x1_0000, localsSignature, Encode(code), [])
  {
    hide Ring, PushSum, OpcodesOf, CodeOf, WellFormed, Relax, Encode, LoaderBody.Body, AllDefined, TokensFit, StringsFit;
    hide TargetsLinked, TargetsInside, AllFit, Plain, TokensOf, Ops;
    var ok, rewriter := BuildLoaderList(t, define, first, second, localsSignature);
    if !ok {
      return Failed;
    }
    OpcodesAreOps(rewriter.nodes);
    BodyWellFormed(t, TokensOf(define, first), TokensOf(define, second));
    r := rewriter.Export();
  }

  lemma EmptyRing(rewriter: ILRewriter)
    requires rewriter.Valid() && rewriter.nodes == []
    ensures rewriter.il.next == rewriter.il
  {
  }
}
