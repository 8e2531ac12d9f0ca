/**
 * TryParseSignatureTypes: the second printer of type names. It scans the bytes of a method signature once, with a stack
 * that counts the generic arguments still to come at each open level.
 */
module SignatureNames {
  import opened Words
  import opened Compressed
  import opened SigTypes
  import opened MethodSignature
  import TypeNames

  /** The names of the one-byte types; any other tag except END is printed as a number. */
  function Text(tag: byte): string
  {
    match tag
    case 0x01 => "System.Void"
    case 0x02 => "System.Boolean"
    case 0x03 => "System.Char16"
    case 0x04 => "System.SByte"
    case 0x05 => "System.Byte"
    case 0x06 => "System.Int16"
    case 0x07 => "System.UInt16"
    case 0x08 => "System.Int32"
    case 0x09 => "System.UInt32"
    case 0x0a => "System.Int64"
    case 0x0b => "System.UInt64"
    case 0x0c => "System.Single"
    case 0x0d => "System.Double"
    case 0x0e => "System.String"
    case 0x10 => "ref"
    case 0x1c => "System.Object"
    case _ => TypeNames.Decimal(tag)
  }

  const END: byte := 0x00

  /**
   * What the scan asks the metadata: the name of the type with a coded index, the same with the enclosing classes of a
   * nested class in front, and the number after the last backtick of a name, if one can be read there.
   */
  datatype Metadata = Metadata(names: nat -> string, nested: nat -> string, arity: string -> Option<int>)

  // ---------- what a name should be ----------

  function Dims(n: nat): string
  {
    if n == 0 then "" else Dims(n - 1) + "[]"
  }

  function Name(md: Metadata, t: SigType): string
  {
    match t
    case Simple(tag) => Text(tag)
    case Named(_, token) => md.nested(token.value)
    case SzArray(elem) => Name(md, elem) + "[]"
    case Inst(_, token, _, args) => md.names(token.value) + "<" + Join(md, args) + ">"
    case Var(_) => "T"
    case MVar(_) => "T"
  }

  function Join(md: Metadata, ts: seq<SigType>): string
  {
    if ts == [] then ""
    else if |ts| == 1 then Name(md, ts[0])
    else Name(md, ts[0]) + ", " + Join(md, ts[1..])
  }

  /** The element type under all array dimensions, and their number. */
  function Core(t: SigType): (r: SigType)
    ensures !r.SzArray?
  {
    if t.SzArray? then Core(t.elem) else t
  }

  /**
   * The types the scan can follow: no END tag, one-byte variable numbers and argument counts, and instances whose type
   * name announces the number of arguments they have, at least one.
   */
  predicate Scannable(md: Metadata, t: SigType)
  {
    match t
    case Simple(tag) => tag != END
    case Named(_, token) => true
    case SzArray(elem) => Scannable(md, elem)
    case Inst(_, token, count, args) =>
      count.width == 1 && args != [] && md.arity(md.names(token.value)) == Some(|args|) && AllScannable(md, args)
    case Var(number) => number.width == 1
    case MVar(number) => number.width == 1
  }

  predicate AllScannable(md: Metadata, ts: seq<SigType>)
  {
    ts == [] || (Scannable(md, ts[0]) && AllScannable(md, ts[1..]))
  }

  /** Nowhere in t is there an array of generic instances. */
  predicate NoArrayOfInst(t: SigType)
  {
    match t
    case SzArray(elem) => !Core(elem).Inst? && NoArrayOfInst(elem)
    case Inst(_, _, _, args) => NoArraysOfInst(args)
    case _ => true
  }

  predicate NoArraysOfInst(ts: seq<SigType>)
  {
    ts == [] || (NoArrayOfInst(ts[0]) && NoArraysOfInst(ts[1..]))
  }

  function Wrap(n: nat, t: SigType): SigType
  {
    if n == 0 then t else SzArray(Wrap(n - 1, t))
  }

  /**
   * The type the scan names when it meets t with n array dimensions held back: the dimensions float inwards, through
   * every instance into its first argument, and come to rest on the leftmost leaf.
   */
  function Floated(t: SigType, n: nat): SigType
  {
    match t
    case SzArray(elem) => Floated(elem, n + 1)
    case Inst(tag, token, count, args) =>
      if args == [] then t else Inst(tag, token, count, [Floated(args[0], n)] + FloatedAll(args[1..]))
    case _ => Wrap(n, t)
  }

  function FloatedAll(ts: seq<SigType>): (r: seq<SigType>)
    ensures |r| == |ts|
  {
    if ts == [] then [] else [Floated(ts[0], 0)] + FloatedAll(ts[1..])
  }

  // ---------- the scan as a state machine ----------

  /** The variables of the loop: index, append_to_type, current_type_name, generic_arg_stack and the names finished. */
  datatype State = State(index: nat, suffix: string, current: string, stack: seq<int>, done: seq<string>)

  /**
   * Finished: the scan is over with these names. Failed: it answers false. Undefined: it reads outside the signature
   * or meets a number that is not encoded.
   */
  datatype Outcome = Running(st: State) | Finished(done: seq<string>) | Failed | Undefined

  function Top(stack: seq<int>): int
    requires stack != []
  {
    stack[|stack| - 1]
  }

  function Pop(stack: seq<int>): seq<int>
    requires stack != []
  {
    stack[..|stack| - 1]
  }

  /** One argument of the innermost open level is accounted for. */
  function Counted(stack: seq<int>): (r: seq<int>)
    ensures |r| == |stack|
  {
    if stack == [] then [] else Pop(stack) + [Top(stack) - 1]
  }

  function Comma(stack: seq<int>): string
  {
    if stack != [] && Top(stack) > 0 then ", " else ""
  }

  /** Closes the levels with no arguments left. */
  function Unwound(current: string, stack: seq<int>): (string, seq<int>)
    decreases |stack|
  {
    if stack != [] && Top(stack) == 0 then Unwound(current + ">" + Comma(Pop(stack)), Pop(stack))
    else (current, stack)
  }

  /** After a type has been printed and counted: separate or close, and hand out the name at the outermost level. */
  function Settle(limit: nat, st: State): (r: Outcome)
    ensures r.Running? || r.Failed?
    ensures r.Running? ==> r.st.index == st.index
  {
    var (current, stack) := Unwound(st.current + Comma(st.stack), st.stack);
    if stack != [] then Running(st.(current := current, stack := stack))
    else if |st.done| >= limit then Failed
    else Running(st.(current := "", stack := [], done := st.done + [current]))
  }

  function Finish(limit: nat, st: State): (r: Outcome)
    ensures r.Running? || r.Failed?
    ensures r.Running? ==> r.st.index == st.index
  {
    Settle(limit, st.(suffix := "", current := st.current + st.suffix, stack := Counted(st.stack)))
  }

  /** The number of SZARRAY tags from i on; None if they reach the end of the signature. */
  function ArraysAt(bs: seq<byte>, i: nat): (r: Option<nat>)
    ensures r.Some? ==> i + r.value < |bs|
    decreases |bs| - i
  {
    if i >= |bs| then None
    else if bs[i] != SZARRAY then Some(0)
    else
      var more := ArraysAt(bs, i + 1);
      if more.None? then None else Some(more.value + 1)
  }

  /** One round of the loop. */
  function Step(md: Metadata, bs: seq<byte>, limit: nat, st: State): (r: Outcome)
    requires st.index < |bs|
    ensures !r.Finished?
    ensures r.Running? ==> r.st.index > st.index
  {
    var i := st.index;
    var tag := bs[i];
    if NamedTag(tag) then
      var token := NumAt(bs, i + 1, |bs|);
      if token.None? then Undefined
      else Finish(limit, st.(index := i + 1 + token.value.width, current := st.current + md.nested(token.value.value)))
    else if tag == SZARRAY then
      var more := ArraysAt(bs, i + 1);
      if more.None? then Undefined
      else Running(st.(index := i + 1 + more.value, suffix := st.suffix + Dims(1 + more.value)))
    else if tag == MVAR || tag == VAR then
      Finish(limit, st.(index := i + 2, current := st.current + "T"))
    else if tag == GENERICINST then
      var token := NumAt(bs, i + 2, |bs|);
      if token.None? then Undefined
      else
        var name := md.names(token.value.value);
        var count := md.arity(name);
        if count.None? then Failed
        else Running(st.(index := i + 2 + token.value.width + 1, current := st.current + name + "<",
                         stack := Counted(st.stack) + [count.value]))
    else if tag == END then Running(st.(index := i + 1))
    else Finish(limit, st.(index := i + 1, current := st.current + Text(tag)))
  }

  function Run(md: Metadata, bs: seq<byte>, limit: nat, st: State): Outcome
    decreases |bs| - st.index
  {
    if st.index >= |bs| then Finished(st.done)
    else
      var o := Step(md, bs, limit, st);
      if o.Running? then Run(md, bs, limit, o.st) else o
  }

  function After(md: Metadata, bs: seq<byte>, limit: nat, o: Outcome): Outcome
  {
    if o.Running? then Run(md, bs, limit, o.st) else o
  }

  // ---------- the scan prints the names of the types ----------

  lemma WrapName(md: Metadata, n: nat, t: SigType)
    ensures Name(md, Wrap(n, t)) == Name(md, t) + Dims(n)
  {
    if n > 0 {
      WrapName(md, n - 1, t);
    } else {
      assert Name(md, t) + "" == Name(md, t);
    }
  }

  /**
   * From a printed type on, with n dimensions held back, the scan comes to the point after that type with the name of
   * the floated type appended, whatever the levels around it and whatever follows.
   */
  lemma {:induction false} TypeRuns(
      md: Metadata, bs: seq<byte>, limit: nat, st: State, n: nat, t: SigType)
    requires WellFormed(t) && Scannable(md, t) && At(bs, st.index, Print(t)) && st.suffix == Dims(n)
    ensures Run(md, bs, limit, st) ==
            After(md, bs, limit,
                  Finish(limit, st.(index := st.index + |Print(t)|, suffix := "",
                                    current := st.current + Name(md, Floated(t, n)))))
    decreases t
  {
    hide At, Run, Finish, Name, Settle, Step, ArraysAt, Dims, Join, NumBytes, PrintAll, AllWellFormed;
    match t
    case SzArray(elem) =>
      AtOne(bs, st.index, SZARRAY, Print(elem));
      ArraysStand(bs, st.index, t);
      OneArray(md, bs, limit, st);
      DimsStep(n);
      TypeRuns(md, bs, limit, st.(index := st.index + 1, suffix := Dims(n + 1)), n + 1, elem);
    case Inst(tag, token, count, args) =>
      InstBegins(md, bs, limit, st, t);
      var q := st.index + 2 + token.width + 1;
      var inside := st.(index := q, current := st.current + md.names(token.value) + "<",
                        stack := Counted(st.stack) + [|args|]);
      ArgsRun(md, bs, limit, inside, Counted(st.stack), n, args);
      InstEnds(md, limit, st.(index := st.index + |Print(t)|, suffix := ""), Floated(t, n));
    case _ =>
      LeafRuns(md, bs, limit, st, n, t);
  }

  /** The arguments of an instance, up to and with the closing bracket. */
  lemma {:induction false} ArgsRun(md: Metadata, bs: seq<byte>, limit: nat, st: State,
                                   outer: seq<int>, n: nat, ts: seq<SigType>)
    requires AllWellFormed(ts) && AllScannable(md, ts) && ts != []
    requires At(bs, st.index, PrintAll(ts)) && st.suffix == Dims(n) && st.stack == outer + [|ts|]
    ensures var names := Join(md, [Floated(ts[0], n)] + FloatedAll(ts[1..]));
            Run(md, bs, limit, st) ==
            After(md, bs, limit,
                  Settle(limit, st.(index := st.index + |PrintAll(ts)|, suffix := "",
                                    current := st.current + names + ">", stack := outer)))
    decreases ts
  {
    hide At, Run, Settle, Finish, Name, Print, Floated, Scannable, WellFormed, Dims;
    AtAppend(bs, st.index, Print(ts[0]), PrintAll(ts[1..]));
    TypeRuns(md, bs, limit, st, n, ts[0]);
    var first := Floated(ts[0], n);
    var st1 := st.(index := st.index + |Print(ts[0])|, suffix := "", current := st.current + Name(md, first));
    JoinFirst(md, first, FloatedAll(ts[1..]));
    if |ts| == 1 {
      LastArgument(limit, st1, outer);
      assert PrintAll(ts[1..]) == [];
    } else {
      NextArgument(limit, st1, outer, |ts|);
      var next := st1.(current := st1.current + ", ", stack := outer + [|ts| - 1]);
      NoDims();
      ArgsRun(md, bs, limit, next, outer, 0, ts[1..]);
      assert FloatedAll(ts[1..]) == [Floated(ts[1], 0)] + FloatedAll(ts[2..]) by { assert ts[1..][1..] == ts[2..]; }
      Punctuated(st.current, Name(md, first), Join(md, FloatedAll(ts[1..])));
      assert After(md, bs, limit, Running(next)) == Run(md, bs, limit, next);
    }
  }

  lemma Punctuated(a: string, b: string, c: string)
    ensures a + b + ", " + c + ">" == a + (b + ", " + c) + ">"
  {
  }

  lemma JoinFirst(md: Metadata, t: SigType, ts: seq<SigType>)
    ensures Join(md, [t] + ts) == if ts == [] then Name(md, t) else Name(md, t) + ", " + Join(md, ts)
  {
    assert ([t] + ts)[1..] == ts;
  }

  lemma NoDims()
    ensures Dims(0) == ""
  {
  }

  lemma DimsStep(n: nat)
    ensures Dims(n + 1) == Dims(n) + "[]"
  {
  }

  lemma {:induction false} DimsFront(n: nat)
    ensures Dims(n + 1) == "[]" + Dims(n)
  {
    if n == 0 {
      assert Dims(1) == Dims(0) + "[]";
    } else {
      DimsFront(n - 1);
    }
  }

  /** Meeting several SZARRAY tags in a row is meeting them one after the other. */
  lemma OneArray(md: Metadata, bs: seq<byte>, limit: nat, st: State)
    requires st.index < |bs| && bs[st.index] == SZARRAY && ArraysAt(bs, st.index).Some?
    ensures Run(md, bs, limit, st) == Run(md, bs, limit, st.(index := st.index + 1, suffix := st.suffix + "[]"))
  {
    hide Finish, Text, NumAt, Dims;
    var i := st.index;
    var k := ArraysAt(bs, i + 1).value;
    DimsFront(k);
    assert Step(md, bs, limit, st) == Running(st.(index := i + 1 + k, suffix := st.suffix + Dims(1 + k)));
    assert st.suffix + ("[]" + Dims(k)) == st.suffix + "[]" + Dims(k);
    if k == 0 {
      NoDims();
      assert st.suffix + "[]" + "" == st.suffix + "[]";
    }
  }

  lemma {:induction false} ArraysStand(bs: seq<byte>, p: nat, t: SigType)
    requires WellFormed(t) && At(bs, p, Print(t))
    ensures p < |bs| && bs[p] == Print(t)[0] && ArraysAt(bs, p).Some?
    decreases t
  {
    hide At;
    TypeNames.FirstByte(bs, p, t);
    if t.SzArray? {
      AtOne(bs, p, SZARRAY, Print(t.elem));
      ArraysStand(bs, p + 1, t.elem);
    }
  }

  lemma NextArgument(limit: nat, st: State, outer: seq<int>, left: nat)
    requires st.suffix == "" && st.stack == outer + [left] && left > 1
    ensures Finish(limit, st) == Running(st.(current := st.current + ", ", stack := outer + [left - 1]))
  {
    assert st.current + "" == st.current;
    assert Counted(st.stack) == outer + [left - 1];
  }

  lemma LastArgument(limit: nat, st: State, outer: seq<int>)
    requires st.suffix == "" && st.stack == outer + [1]
    ensures Finish(limit, st) == Settle(limit, st.(current := st.current + ">", stack := outer))
  {
    assert st.current + "" == st.current;
    assert Counted(st.stack) == outer + [0] && Pop(outer + [0]) == outer;
  }

  lemma InstBegins(md: Metadata, bs: seq<byte>, limit: nat, st: State, t: SigType)
    requires t.Inst? && WellFormed(t) && Scannable(md, t) && At(bs, st.index, Print(t))
    ensures At(bs, st.index + 2 + t.token.width + 1, PrintAll(t.args))
    ensures st.index + |Print(t)| == st.index + 2 + t.token.width + 1 + |PrintAll(t.args)|
    ensures Run(md, bs, limit, st) ==
            Run(md, bs, limit, st.(index := st.index + 2 + t.token.width + 1,
                                             current := st.current + md.names(t.token.value) + "<",
                                             stack := Counted(st.stack) + [|t.args|]))
  {
    hide At, NumBytes, NumAt, PrintAll, Finish, Text, ArraysAt, AllWellFormed, AllScannable;
    InstStands(bs, st.index, t);
    TypeNames.NumHere(bs, st.index + 2, t.token);
    TypeNames.NumHere(bs, st.index + 2 + t.token.width, t.count);
  }

  lemma InstEnds(md: Metadata, limit: nat, st: State, t: SigType)
    requires t.Inst? && st.suffix == ""
    ensures Finish(limit, st.(current := st.current + Name(md, t))) ==
            Settle(limit, st.(current := st.current + md.names(t.token.value) + "<" + Join(md, t.args) + ">",
                              stack := Counted(st.stack)))
  {
    hide Settle;
    assert st.current + Name(md, t) + "" == st.current + md.names(t.token.value) + "<" + Join(md, t.args) + ">";
  }

  lemma LeafRuns(md: Metadata, bs: seq<byte>, limit: nat, st: State, n: nat, t: SigType)
    requires !t.SzArray? && !t.Inst? && WellFormed(t) && Scannable(md, t) && At(bs, st.index, Print(t))
    requires st.suffix == Dims(n)
    ensures Run(md, bs, limit, st) ==
            After(md, bs, limit,
                  Finish(limit, st.(index := st.index + |Print(t)|, suffix := "",
                                    current := st.current + Name(md, Wrap(n, t)))))
  {
    hide At, Run, Settle, Name, Print, WellFormed, Scannable;
    LeafSteps(md, bs, limit, st, t);
    WrapName(md, n, t);
    assert st.current + Name(md, t) + Dims(n) == st.current + (Name(md, t) + Dims(n)) + "";
  }

  lemma LeafSteps(md: Metadata, bs: seq<byte>, limit: nat, st: State, t: SigType)
    requires !t.SzArray? && !t.Inst? && WellFormed(t) && Scannable(md, t) && At(bs, st.index, Print(t))
    ensures Run(md, bs, limit, st) ==
            After(md, bs, limit,
                  Finish(limit, st.(index := st.index + |Print(t)|, current := st.current + Name(md, t))))
  {
    hide At, NumBytes, NumAt, Finish, Text;
    TypeNames.FirstByte(bs, st.index, t);
    match t
    case Named(tag, token) =>
      AtOne(bs, st.index, tag, NumBytes(token));
      TypeNames.NumHere(bs, st.index + 1, token);
    case Var(number) =>
      AtOne(bs, st.index, VAR, NumBytes(number));
      TypeNames.NumHere(bs, st.index + 1, number);
    case MVar(number) =>
      AtOne(bs, st.index, MVAR, NumBytes(number));
      TypeNames.NumHere(bs, st.index + 1, number);
    case Simple(tag) =>
  }

  // ---------- which types are named correctly ----------

  lemma {:induction false} DimsLength(n: nat)
    ensures |Dims(n)| == 2 * n
  {
    if n > 0 {
      DimsLength(n - 1);
    }
  }

  /** Floating moves the n dimensions held back, but loses none: the name grows by exactly their length. */
  lemma {:induction false} FloatedLength(md: Metadata, t: SigType, n: nat)
    requires Scannable(md, t)
    ensures |Name(md, Floated(t, n))| == |Name(md, t)| + 2 * n
    decreases t
  {
    match t
    case SzArray(elem) =>
      FloatedLength(md, elem, n + 1);
    case Inst(_, _, _, args) =>
      JoinLength(md, args, n);
    case _ =>
      WrapName(md, n, t);
      DimsLength(n);
  }

  lemma {:induction false} JoinLength(md: Metadata, ts: seq<SigType>, n: nat)
    requires ts != [] && AllScannable(md, ts)
    ensures |Join(md, [Floated(ts[0], n)] + FloatedAll(ts[1..]))| == |Join(md, ts)| + 2 * n
    decreases ts
  {
    hide Name, Floated, Scannable;
    FloatedLength(md, ts[0], n);
    JoinFirst(md, Floated(ts[0], n), FloatedAll(ts[1..]));
    if |ts| > 1 {
      JoinLength(md, ts[1..], 0);
    }
  }

  lemma {:induction false} FloatedInst(t: SigType, n: nat)
    requires Core(t).Inst? && Core(t).args != []
    ensures Floated(t, n).Inst?
    decreases t
  {
    if t.SzArray? {
      FloatedInst(t.elem, n + 1);
    }
  }

  lemma {:induction false} ScannableCore(md: Metadata, t: SigType)
    requires Scannable(md, t)
    ensures Core(t).Inst? ==> Core(t).args != []
    decreases t
  {
    if t.SzArray? {
      ScannableCore(md, t.elem);
    }
  }

  /** Over a leaf the dimensions stay where they are. */
  lemma {:induction false} FloatedLeaf(t: SigType, n: nat)
    requires !Core(t).Inst?
    ensures Floated(t, n) == Wrap(n, t) && NoArrayOfInst(t)
    decreases t
  {
    if t.SzArray? {
      FloatedLeaf(t.elem, n + 1);
      WrapInside(n, t.elem);
    }
  }

  lemma {:induction false} WrapInside(n: nat, t: SigType)
    ensures Wrap(n + 1, t) == Wrap(n, SzArray(t))
  {
    if n > 0 {
      WrapInside(n - 1, t);
    }
  }

  /**
   * A type the scan can follow is named correctly if and only if there is no array of generic instances in it, whatever
   * the names are.
   */
  lemma {:induction false} NamedExactly(md: Metadata, t: SigType)
    requires Scannable(md, t)
    ensures Name(md, Floated(t, 0)) == Name(md, t) <==> NoArrayOfInst(t)
    decreases t
  {
    hide Join, Floated, FloatedAll, Dims;
    if !Core(t).Inst? {
      FloatedLeaf(t, 0);
    } else if t.SzArray? {
      ScannableCore(md, t);
      FloatedInst(t, 0);
      var a, b := Name(md, Floated(t, 0)), Name(md, t);
      assert a[|a| - 1] == '>' && b[|b| - 1] == ']';
    } else {
      var head := md.names(t.token.value) + "<";
      JoinedExactly(md, t.args);
      FloatedArgs(t);
      Brackets(head, Join(md, FloatedAll(t.args)), Join(md, t.args));
    }
  }

  lemma FloatedArgs(t: SigType)
    requires t.Inst? && t.args != []
    ensures Floated(t, 0) == t.(args := FloatedAll(t.args))
  {
  }

  lemma Brackets(head: string, a: string, b: string)
    ensures head + a + ">" == head + b + ">" <==> a == b
  {
    var x, y := head + a + ">", head + b + ">";
    assert a == x[|head|..|x| - 1] && b == y[|head|..|y| - 1];
  }

  lemma {:induction false} JoinedExactly(md: Metadata, ts: seq<SigType>)
    requires ts != [] && AllScannable(md, ts)
    ensures Join(md, FloatedAll(ts)) == Join(md, ts) <==> NoArraysOfInst(ts)
    decreases ts
  {
    hide Name, Floated, Scannable, NoArrayOfInst;
    var a, b := Name(md, Floated(ts[0], 0)), Name(md, ts[0]);
    FloatedLength(md, ts[0], 0);
    NamedExactly(md, ts[0]);
    JoinFirst(md, Floated(ts[0], 0), FloatedAll(ts[1..]));
    if |ts| > 1 {
      JoinedExactly(md, ts[1..]);
      Separated(a, Join(md, FloatedAll(ts[1..])), b, Join(md, ts[1..]));
    } else {
      assert NoArraysOfInst(ts[1..]);
    }
  }

  lemma Separated(a: string, c: string, b: string, d: string)
    requires |a| == |b|
    ensures a + ", " + c == b + ", " + d <==> a == b && c == d
  {
    var x, y := a + ", " + c, b + ", " + d;
    assert a == x[..|a|] && b == y[..|b|] && c == x[|a| + 2..] && d == y[|b| + 2..];
  }

  lemma {:induction false} NamesExactly(md: Metadata, ts: seq<SigType>)
    requires AllScannable(md, ts)
    ensures Names(md, FloatedAll(ts)) == Names(md, ts) <==> NoArraysOfInst(ts)
    decreases ts
  {
    hide Name, Floated, Scannable, NoArrayOfInst;
    if ts != [] {
      NamedExactly(md, ts[0]);
      NamesExactly(md, ts[1..]);
      var a, b := Names(md, FloatedAll(ts)), Names(md, ts);
      assert FloatedAll(ts)[0] == Floated(ts[0], 0) && FloatedAll(ts)[1..] == FloatedAll(ts[1..]);
      assert a[0] == Name(md, Floated(ts[0], 0)) && b[0] == Name(md, ts[0]);
      assert a[1..] == Names(md, FloatedAll(ts[1..])) && b[1..] == Names(md, ts[1..]);
    }
  }

  function Names(md: Metadata, ts: seq<SigType>): (r: seq<string>)
    ensures |r| == |ts|
  {
    if ts == [] then [] else [Name(md, ts[0])] + Names(md, ts[1..])
  }

  /**
   * On the printed forms of types it can follow, to the end of the signature, the scan delivers the names of the floated
   * types in order; it fails if and only if there are more types than expected.
   */
  lemma {:induction false} TypesRun(md: Metadata, bs: seq<byte>, limit: nat, p: nat,
                                    done: seq<string>, ts: seq<SigType>)
    requires AllWellFormed(ts) && AllScannable(md, ts)
    requires p <= |bs| && bs[p..] == PrintAll(ts) && |done| <= limit
    ensures Run(md, bs, limit, State(p, "", "", [], done)) ==
            if |done| + |ts| <= limit then Finished(done + Names(md, FloatedAll(ts))) else Failed
    decreases |ts|
  {
    hide *;
    if ts == [] {
      NothingLeft(md, bs, limit, p, done);
    } else {
      FirstOf(md, ts);
      var q, name := p + |Print(ts[0])|, Name(md, Floated(ts[0], 0));
      PrintedTail(bs, p, ts);
      OutermostRuns(md, bs, limit, p, done, ts[0]);
      if |done| < limit {
        TypesRun(md, bs, limit, q, done + [name], ts[1..]);
        assert done + ([name] + Names(md, FloatedAll(ts[1..]))) == done + [name] + Names(md, FloatedAll(ts[1..]));
      }
    }
  }

  lemma NothingLeft(md: Metadata, bs: seq<byte>, limit: nat, p: nat,
                    done: seq<string>)
    requires p <= |bs| && bs[p..] == PrintAll([])
    ensures Run(md, bs, limit, State(p, "", "", [], done)) == Finished(done + Names(md, FloatedAll([])))
  {
    assert done + Names(md, FloatedAll([])) == done;
  }

  lemma FirstOf(md: Metadata, ts: seq<SigType>)
    requires ts != [] && AllWellFormed(ts) && AllScannable(md, ts)
    ensures WellFormed(ts[0]) && AllWellFormed(ts[1..])
    ensures Scannable(md, ts[0]) && AllScannable(md, ts[1..])
    ensures Names(md, FloatedAll(ts)) == [Name(md, Floated(ts[0], 0))] + Names(md, FloatedAll(ts[1..]))
  {
    assert FloatedAll(ts)[1..] == FloatedAll(ts[1..]);
  }

  lemma OutermostRuns(md: Metadata, bs: seq<byte>, limit: nat, p: nat,
                      done: seq<string>, t: SigType)
    requires WellFormed(t) && Scannable(md, t) && At(bs, p, Print(t))
    ensures Run(md, bs, limit, State(p, "", "", [], done)) ==
            if |done| >= limit then Failed
            else Run(md, bs, limit, State(p + |Print(t)|, "", "", [], done + [Name(md, Floated(t, 0))]))
  {
    hide Name, Print, Finish, At, Run, Scannable, WellFormed, Floated, Dims;
    var name := Name(md, Floated(t, 0));
    NoDims();
    TypeRuns(md, bs, limit, State(p, "", "", [], done), 0, t);
    assert "" + name == name;
    OutermostType(limit, p + |Print(t)|, name, done);
  }

  lemma OutermostType(limit: nat, p: nat, name: string, done: seq<string>)
    ensures Finish(limit, State(p, "", name, [], done)) ==
            if |done| >= limit then Failed else Running(State(p, "", "", [], done + [name]))
  {
    assert name + "" == name;
  }

  // ---------- brackets balance in every run ----------

  /** Opening minus closing angle brackets. */
  function Level(s: string): int
  {
    if s == [] then 0
    else
      var c := s[|s| - 1];
      Level(s[..|s| - 1]) + (if c == '<' then 1 else if c == '>' then -1 else 0)
  }

  /** No prefix closes more than it opens. */
  predicate Nested(s: string)
  {
    s == [] || (Nested(s[..|s| - 1]) && Level(s) >= 0)
  }

  predicate Balanced(s: string)
  {
    Nested(s) && Level(s) == 0
  }

  predicate Plain(s: string)
  {
    '<' !in s && '>' !in s
  }

  /** The names the metadata gives are balanced, as far as they can get into a finished name. */
  ghost predicate BalancedNames(md: Metadata)
  {
    forall n :: n <= 0x1FFF_FFFF ==> Balanced(md.nested(n)) && (TakesArguments(md, md.names(n)) ==> Balanced(md.names(n)))
  }

  predicate TakesArguments(md: Metadata, name: string)
  {
    md.arity(name).Some? && md.arity(name).value > 0
  }

  lemma OneMore(s: string, c: char)
    ensures Level(s + [c]) == Level(s) + (if c == '<' then 1 else if c == '>' then -1 else 0)
    ensures Nested(s + [c]) <==> Nested(s) && Level(s + [c]) >= 0
  {
    assert (s + [c])[..|s|] == s;
  }

  lemma NestedLevel(s: string)
    requires Nested(s)
    ensures Level(s) >= 0
  {
  }

  lemma {:induction false} NestedAppended(s: string, t: string)
    requires Nested(s) && Nested(t)
    ensures Level(s + t) == Level(s) + Level(t) && Nested(s + t)
    decreases |t|
  {
    hide Level, Nested;
    if t == [] {
      assert s + t == s;
      EmptyBalanced();
    } else {
      var front, c := t[..|t| - 1], t[|t| - 1];
      assert t == front + [c] && s + t == s + front + [c];
      OneMore(front, c);
      OneMore(s + front, c);
      NestedAppended(s, front);
      NestedLevel(s);
      NestedLevel(t);
    }
  }

  lemma {:induction false} NestedFront(s: string, t: string)
    requires Nested(s + t)
    ensures Nested(s)
    decreases |t|
  {
    hide Level, Nested;
    if t == [] {
      assert s + t == s;
    } else {
      var front, c := t[..|t| - 1], t[|t| - 1];
      assert s + t == s + front + [c];
      OneMore(s + front, c);
      NestedFront(s, front);
    }
  }

  lemma {:induction false} PlainAppended(s: string, t: string)
    requires Plain(t) && Nested(s)
    ensures Level(s + t) == Level(s) && Nested(s + t)
    decreases |t|
  {
    if t == [] {
      assert s + t == s;
    } else {
      PlainAppended(s, t[..|t| - 1]);
      assert (s + t)[..|s + t| - 1] == s + t[..|t| - 1];
    }
  }

  lemma BracketAppended(s: string, c: char)
    requires Nested(s) && (c == '<' || (c == '>' && Level(s) > 0))
    ensures Level(s + [c]) == Level(s) + (if c == '<' then 1 else -1) && Nested(s + [c])
  {
    assert (s + [c])[..|s|] == s;
  }

  lemma {:induction false} DecimalPlain(n: nat)
    ensures Plain(TypeNames.Decimal(n))
  {
    if n >= 10 {
      DecimalPlain(n / 10);
    }
  }

  lemma TextPlain(tag: byte)
    ensures Plain(Text(tag))
  {
    hide Plain;
    if tag <= 0x07 {
      Literals1();
    } else {
      Literals2();
    }
    DecimalPlain(tag);
  }

  lemma Literals1()
    ensures Plain("System.Void") && Plain("System.Boolean") && Plain("System.Char16") && Plain("System.SByte")
    ensures Plain("System.Byte") && Plain("System.Int16") && Plain("System.UInt16")
  {
  }

  lemma Literals2()
    ensures Plain("System.Int32") && Plain("System.UInt32") && Plain("System.Int64") && Plain("System.UInt64")
    ensures Plain("System.Single") && Plain("System.Double") && Plain("System.String") && Plain("System.Object")
    ensures Plain("ref")
  {
  }

  lemma {:induction false} DimsPlain(n: nat)
    ensures Plain(Dims(n))
  {
    if n > 0 {
      DimsPlain(n - 1);
    }
  }

  /** Some level can never be closed any more, because its arguments were counted below zero. */
  predicate Doomed(stack: seq<int>)
  {
    stack != [] && (Top(stack) <= 0 || exists i :: 0 <= i < |stack| && stack[i] < 0)
  }

  /**
   * Finished names are balanced; and unless no name will ever be finished again, the brackets open in the name under
   * construction are the levels on the stack.
   */
  ghost predicate Open(st: State)
  {
    && AllBalanced(st.done)
    && (Doomed(st.stack) || (Nested(st.current) && Level(st.current) == |st.stack| && Plain(st.suffix)))
  }

  ghost predicate AllBalanced(names: seq<string>)
  {
    forall i :: 0 <= i < |names| ==> Balanced(names[i])
  }

  lemma {:induction false} UnwoundOpen(current: string, stack: seq<int>)
    requires Nested(current) && Level(current) == |stack|
    ensures var r := Unwound(current, stack); Nested(r.0) && Level(r.0) == |r.1|
    decreases |stack|
  {
    hide Level, Nested;
    if stack != [] && Top(stack) == 0 {
      BracketAppended(current, '>');
      PlainAppended(current + ">", Comma(Pop(stack)));
      UnwoundOpen(current + ">" + Comma(Pop(stack)), Pop(stack));
    }
  }

  /** A level below zero is never closed. */
  lemma {:induction false} UnwoundDoomed(current: string, stack: seq<int>, i: nat)
    requires i < |stack| && stack[i] < 0
    ensures var r := Unwound(current, stack); i < |r.1| && r.1[i] < 0
    decreases |stack|
  {
    if Top(stack) == 0 {
      UnwoundDoomed(current + ">" + Comma(Pop(stack)), Pop(stack), i);
    }
  }

  /** The level below zero a doomed stack has once another argument is counted. */
  lemma DoomedLevel(stack: seq<int>) returns (i: nat)
    requires Doomed(stack)
    ensures i < |Counted(stack)| && Counted(stack)[i] < 0
  {
    if Top(stack) <= 0 {
      i := |stack| - 1;
    } else {
      i :| i < |stack| && stack[i] < 0;
    }
  }

  lemma FinishOpen(limit: nat, st: State)
    requires Open(st)
    ensures var r := Finish(limit, st); r.Running? ==> Open(r.st)
  {
    hide Level, Unwound, Balanced;
    var stack := Counted(st.stack);
    if Doomed(st.stack) {
      var i := DoomedLevel(st.stack);
      UnwoundDoomed(st.current + st.suffix + Comma(stack), stack, i);
    } else {
      PlainAppended(st.current, st.suffix);
      PlainAppended(st.current + st.suffix, Comma(stack));
      UnwoundOpen(st.current + st.suffix + Comma(stack), stack);
      EmptyBalanced();
      BalancedWhen(Unwound(st.current + st.suffix + Comma(stack), stack).0);
    }
  }

  lemma BalancedWhen(s: string)
    ensures Nested(s) && Level(s) == 0 ==> Balanced(s)
  {
  }

  lemma EmptyBalanced()
    ensures Nested("") && Level("") == 0
  {
  }

  /** Text of balanced brackets leaves the name as open as it was. */
  lemma TextOpen(limit: nat, st: State, text: string, index: nat)
    requires Open(st) && (Balanced(text) || Plain(text))
    ensures var r := Finish(limit, st.(index := index, current := st.current + text)); r.Running? ==> Open(r.st)
  {
    hide Level, Nested, Finish;
    if !Doomed(st.stack) {
      if Balanced(text) {
        NestedAppended(st.current, text);
      } else {
        PlainAppended(st.current, text);
      }
    }
    FinishOpen(limit, st.(index := index, current := st.current + text));
  }

  lemma InstanceOpen(md: Metadata, st: State, name: string, count: int, index: nat)
    requires Open(st) && (count > 0 ==> Balanced(name))
    ensures Open(st.(index := index, current := st.current + name + "<", stack := Counted(st.stack) + [count]))
  {
    hide Level, Nested;
    var stack := Counted(st.stack) + [count];
    if Doomed(st.stack) {
      var i := DoomedLevel(st.stack);
      assert stack[i] < 0;
    } else if count > 0 {
      NestedAppended(st.current, name);
      BracketAppended(st.current + name, '<');
    }
  }

  lemma StepOpen(md: Metadata, bs: seq<byte>, limit: nat, st: State)
    requires BalancedNames(md) && Open(st) && st.index < |bs|
    ensures var r := Step(md, bs, limit, st); r.Running? ==> Open(r.st)
  {
    hide Finish, Text, NumAt, Balanced, ArraysAt, Dims, Open, TakesArguments;
    var i := st.index;
    var tag := bs[i];
    if NamedTag(tag) {
      var token := NumAt(bs, i + 1, |bs|);
      if token.Some? {
        NumSmall(bs, i + 1);
        TextOpen(limit, st, md.nested(token.value.value), i + 1 + token.value.width);
      }
    } else if tag == SZARRAY {
      var more := ArraysAt(bs, i + 1);
      if more.Some? {
        DimsOpen(st, 1 + more.value, i + 1 + more.value);
      }
    } else if tag == MVAR || tag == VAR {
      TextOpen(limit, st, "T", i + 2);
    } else if tag == GENERICINST {
      var token := NumAt(bs, i + 2, |bs|);
      if token.Some? {
        NumSmall(bs, i + 2);
        var name := md.names(token.value.value);
        NameCounts(md, name);
        if md.arity(name).Some? {
          InstanceOpen(md, st, name, md.arity(name).value, i + 2 + token.value.width + 1);
        }
      }
    } else if tag == END {
      Further(st, i + 1);
    } else {
      TextPlain(tag);
      TextOpen(limit, st, Text(tag), i + 1);
    }
  }

  lemma NumSmall(bs: seq<byte>, p: nat)
    ensures NumAt(bs, p, |bs|).Some? ==> NumAt(bs, p, |bs|).value.value <= 0x1FFF_FFFF
  {
  }

  lemma NameCounts(md: Metadata, name: string)
    ensures TakesArguments(md, name) <==> md.arity(name).Some? && md.arity(name).value > 0
  {
  }

  lemma Further(st: State, index: nat)
    requires Open(st)
    ensures Open(st.(index := index))
  {
  }

  lemma DimsOpen(st: State, n: nat, index: nat)
    requires Open(st)
    ensures Open(st.(index := index, suffix := st.suffix + Dims(n)))
  {
    hide Dims, Doomed;
    DimsPlain(n);
  }

  lemma {:induction false} RunOpen(md: Metadata, bs: seq<byte>, limit: nat, st: State)
    requires BalancedNames(md) && Open(st)
    ensures var r := Run(md, bs, limit, st); r.Finished? ==> AllBalanced(r.done)
    decreases |bs| - st.index
  {
    hide Step, Balanced, Level, Nested, BalancedNames;
    if st.index < |bs| {
      StepOpen(md, bs, limit, st);
      var o := Step(md, bs, limit, st);
      if o.Running? {
        RunOpen(md, bs, limit, o.st);
      }
    }
  }

  /** Every name handed out for any bytes and counts whatever has balanced angle brackets. */
  ghost predicate HandsOutBalanced(md: Metadata)
  {
    forall bs, typeArguments, arguments ::
      ScanOf(md, bs, typeArguments, arguments).Finished? ==> AllBalanced(ScanOf(md, bs, typeArguments, arguments).done)
  }

  /** The scan of a signature with the given counts. */
  function ScanOf(md: Metadata, bs: seq<byte>, typeArguments: nat, arguments: nat): Outcome
  {
    Run(md, bs, arguments + 1, Start(typeArguments))
  }

  /** k arguments of one type. */
  function Copies(k: nat): (ts: seq<SigType>)
    ensures |ts| == k
  {
    if k == 0 then [] else [Simple(0x08)] + Copies(k - 1)
  }

  lemma {:induction false} CopiesFacts(md: Metadata, k: nat)
    ensures AllWellFormed(Copies(k)) && AllScannable(md, Copies(k)) && FloatedAll(Copies(k)) == Copies(k)
    ensures Plain(Join(md, Copies(k)))
    decreases k
  {
    if k > 0 {
      CopiesFacts(md, k - 1);
      assert Copies(k)[1..] == Copies(k - 1) && Copies(k)[0] == Simple(0x08);
      assert Plain(Text(0x08)) by { TextPlain(0x08); }
    }
  }

  /** One name alone in a signature is handed out as it is. */
  lemma NestedHandedOut(md: Metadata, n: nat) returns (bs: seq<byte>)
    requires n <= 0x1FFF_FFFF
    ensures Run(md, bs, 1, Start(0)) == Finished([md.nested(n)])
  {
    hide Run, NumBytes, At;
    var t := Named(CLASS, Compress(n).value);
    bs := [0, 0] + Print(t);
    OneType(t);
    assert bs[2..] == PrintAll([t]);
    TypesRun(md, bs, 1, 2, [], [t]);
    assert FloatedAll([t]) == [t] && Names(md, [t]) == [md.nested(n)] && [] + [md.nested(n)] == [md.nested(n)] by {
      assert [t][1..] == [];
    }
  }

  lemma OneType(t: SigType)
    requires WellFormed(t)
    ensures AllWellFormed([t]) && PrintAll([t]) == Print(t)
  {
    assert [t][0] == t && [t][1..] == [];
    assert PrintAll([t]) == Print(t) + PrintAll([]);
  }

  /** A generic instance whose name asks for k arguments is handed out with k of them in brackets. */
  lemma InstanceHandedOut(md: Metadata, n: nat, k: nat) returns (bs: seq<byte>)
    requires n <= 0x1FFF_FFFF && k > 0 && md.arity(md.names(n)) == Some(k)
    ensures Run(md, bs, 1, Start(0)) == Finished([md.names(n) + "<" + Join(md, Copies(k)) + ">"])
  {
    hide Run, NumBytes, NumAt, PrintAll, Copies, FloatedAll, Join, Floated, AllWellFormed, AllScannable, At;
    var token, ts := Compress(n).value, Copies(k);
    CopiesFacts(md, k);
    var args := PrintAll(ts);
    CopiesStart(k);
    bs := [0, 0, GENERICINST, CLASS] + NumBytes(token) + [0] + args;
    var q := 4 + token.width + 1;
    NumLength(token);
    SliceAt([0, 0, GENERICINST, CLASS], NumBytes(token), [0] + args);
    SliceAt([0, 0, GENERICINST, CLASS] + NumBytes(token) + [0], args, []);
    assert bs == [0, 0, GENERICINST, CLASS] + NumBytes(token) + ([0] + args) && bs[2] == GENERICINST;
    assert bs == [0, 0, GENERICINST, CLASS] + NumBytes(token) + [0] + args + [];
    NumExact(bs, 4, |bs|, token);
    var inside := State(q, "", md.names(n) + "<", [k], []);
    assert Run(md, bs, 1, Start(0)) == Run(md, bs, 1, inside) by { InstanceStep(md, bs, n, k, q); }
    AtEnd(bs, q, args);
    NoDims();
    assert [] + [k] == [k];
    ArgsRun(md, bs, 1, inside, [], 0, ts);
    assert [Floated(ts[0], 0)] + FloatedAll(ts[1..]) == ts;
    var name := md.names(n) + "<" + Join(md, ts) + ">";
    Settled(|bs|, name);
    NothingMore(md, bs, [name]);
  }

  lemma SliceAt(a: seq<byte>, b: seq<byte>, c: seq<byte>)
    ensures (a + b + c)[|a|..|a| + |b|] == b && (c == [] ==> (a + b + c)[|a|..] == b)
  {
  }

  lemma AtEnd(bs: seq<byte>, q: nat, s: seq<byte>)
    requires q <= |bs| && bs[q..] == s
    ensures At(bs, q, s) && q + |s| == |bs|
  {
  }

  lemma CopiesStart(k: nat)
    requires k > 0
    ensures Copies(k) != [] && [Floated(Copies(k)[0], 0)] + FloatedAll(Copies(k)[1..]) == FloatedAll(Copies(k))
  {
  }

  lemma InstanceStep(md: Metadata, bs: seq<byte>, n: nat, k: nat, q: nat)
    requires |bs| > 4 && bs[2] == GENERICINST && NumAt(bs, 4, |bs|).Some? && NumAt(bs, 4, |bs|).value.value == n
    requires q == 4 + NumAt(bs, 4, |bs|).value.width + 1 && md.arity(md.names(n)) == Some(k)
    ensures Run(md, bs, 1, Start(0)) == Run(md, bs, 1, State(q, "", md.names(n) + "<", [k], []))
  {
    hide NumAt, Finish, Text, ArraysAt;
    assert "" + md.names(n) + "<" == md.names(n) + "<" && Counted([]) + [k] == [k];
  }

  lemma Settled(index: nat, name: string)
    ensures Settle(1, State(index, "", name, [], [])) == Running(State(index, "", "", [], [name]))
  {
    assert name + "" == name;
  }

  lemma NothingMore(md: Metadata, bs: seq<byte>, done: seq<string>)
    ensures Run(md, bs, 1, State(|bs|, "", "", [], done)) == Finished(done)
  {
  }

  /** If such a name is balanced, so is the name of the type it begins with. */
  lemma NameBalanced(name: string, args: string)
    requires Plain(args) && Balanced(name + "<" + args + ">")
    ensures Balanced(name)
  {
    hide Level;
    var whole := name + "<" + args + ">";
    assert whole == name + ("<" + args + ">");
    NestedFront(name, "<" + args + ">");
    NestedLevel(name);
    BracketAppended(name, '<');
    PlainAppended(name + "<", args);
    BracketAppended(name + "<" + args, '>');
  }

  /**
   * The scan hands out balanced names for all inputs if and only if the names the metadata gives are balanced: those of
   * the types, and of the generic types that announce arguments.
   */
  lemma RunBalanced(md: Metadata)
    ensures HandsOutBalanced(md) <==> BalancedNames(md)
  {
    hide Run, Balanced;
    if BalancedNames(md) {
      forall bs: seq<byte>, typeArguments: nat, arguments: nat
        ensures var r := ScanOf(md, bs, typeArguments, arguments); r.Finished? ==> AllBalanced(r.done)
      {
        EmptyBalanced();
        RunOpen(md, bs, arguments + 1, Start(typeArguments));
      }
    }
    if HandsOutBalanced(md) {
      forall n: nat | n <= 0x1FFF_FFFF
        ensures Balanced(md.nested(n)) && (TakesArguments(md, md.names(n)) ==> Balanced(md.names(n)))
      {
        NamesBalanced(md, n);
      }
    }
  }

  lemma NamesBalanced(md: Metadata, n: nat)
    requires HandsOutBalanced(md) && n <= 0x1FFF_FFFF
    ensures Balanced(md.nested(n)) && (TakesArguments(md, md.names(n)) ==> Balanced(md.names(n)))
  {
    hide Run, Balanced, Start;
    var bs := NestedHandedOut(md, n);
    assert ScanOf(md, bs, 0, 0) == Finished([md.nested(n)]);
    assert Balanced([md.nested(n)][0]);
    if TakesArguments(md, md.names(n)) {
      var k := md.arity(md.names(n)).value;
      var bs2 := InstanceHandedOut(md, n, k);
      var name := md.names(n) + "<" + Join(md, Copies(k)) + ">";
      assert ScanOf(md, bs2, 0, 0) == Finished([name]);
      assert Balanced([name][0]);
      CopiesFacts(md, k);
      NameBalanced(md.names(n), Join(md, Copies(k)));
    }
  }

  // ---------- the scan as written ----------

  /** Where the types begin: after the calling convention, the counts being taken for one byte each. */
  function FirstType(typeArguments: nat): nat
  {
    if typeArguments > 0 then 3 else 2
  }

  function Start(typeArguments: nat): State
  {
    State(FirstType(typeArguments), "", "", [], [])
  }

  function Blank(n: nat): (r: seq<string>)
    ensures |r| == n
  {
    seq(n, _ => "")
  }

  /** The part of the loop after the switch: brackets, dimensions and commas after a printed type. */
  method CloseLevels(appendToType: string, currentTypeName: string, stack: seq<int>)
    returns (current: string, left: seq<int>)
    ensures (current, left) == Unwound(currentTypeName + appendToType + Comma(Counted(stack)), Counted(stack))
  {
    current, left := currentTypeName, stack;
    if appendToType != [] {
      current := current + appendToType;
    }
    assert current == currentTypeName + appendToType;
    if left != [] {
      left := left[..|left| - 1] + [left[|left| - 1] - 1];
      if left[|left| - 1] > 0 {
        current := current + ", ";
      }
    }
    assert current == currentTypeName + appendToType + Comma(left);
    ghost var all := Unwound(current, left);
    while left != [] && left[|left| - 1] == 0
      invariant Unwound(current, left) == all
      decreases |left|
    {
      left := left[..|left| - 1];
      ghost var before := current;
      current := current + ">";
      if left != [] && left[|left| - 1] > 0 {
        current := current + ", ";
      }
      assert current == before + ">" + Comma(left);
    }
  }

  /**
   * It must not be called where it would read outside the signature. A signature with fewer types than its counts
   * announce leaves the missing names empty.
   */
  method TryParseSignatureTypes(md: Metadata, data: seq<byte>, typeArguments: nat, arguments: nat)
    returns (ok: bool, result: seq<string>)
    requires !Run(md, data, arguments + 1, Start(typeArguments)).Undefined?
    ensures var r := Run(md, data, arguments + 1, Start(typeArguments));
            && (ok <==> r.Finished?)
            && (ok ==> |r.done| <= arguments + 1 && result == r.done + Blank(arguments + 1 - |r.done|))
  {
    hide Run, NumAt, Text, Unwound, ArraysAt, Dims, After;
    var expected := arguments + 1;
    var index := FirstType(typeArguments);
    var typeIndex := 0;
    var typeNames := Blank(expected);
    var stack: seq<int> := [];
    var appendToType, current := "", "";
    ghost var all := Run(md, data, expected, Start(typeArguments));
    ghost var done: seq<string> := [];
    while index < |data|
      invariant Run(md, data, expected, State(index, appendToType, current, stack, done)) == all
      invariant |done| == typeIndex <= expected && typeNames == done + Blank(expected - typeIndex)
      decreases |data| - index
    {
      ghost var st := State(index, appendToType, current, stack, done);
      RunStep(md, data, expected, st);
      var tag := data[index];
      var printed := true;
      if tag == VALUETYPE || tag == CLASS {
        index := index + 1;
        var token := NumAt(data, index, |data|).value;
        index := index + token.width - 1;
        current := current + md.nested(token.value);
      } else if tag == SZARRAY {
        index, appendToType := SkipArrays(data, index, appendToType);
        printed := false;
      } else if tag == MVAR || tag == VAR {
        current := current + "T";
        index := index + 1;
      } else if tag == GENERICINST {
        index := index + 2;
        var token := NumAt(data, index, |data|).value;
        var typeName := md.names(token.value);
        current := current + typeName;
        current := current + "<";
        if stack != [] {
          stack := stack[..|stack| - 1] + [stack[|stack| - 1] - 1];
        }
        var count := md.arity(typeName);
        if count.None? {
          return false, [];
        }
        stack := stack + [count.value];
        index := index + token.width;
        printed := false;
      } else if tag == END {
        printed := false;
      } else {
        current := current + Text(tag);
      }
      if printed {
        current, stack := CloseLevels(appendToType, current, stack);
        appendToType := "";
        if stack == [] {
          if typeIndex >= expected {
            return false, [];
          }
          typeNames := typeNames[typeIndex := current];
          done := done + [current];
          current := "";
          typeIndex := typeIndex + 1;
        }
      }
      index := index + 1;
    }
    RunEnd(md, data, expected, State(index, appendToType, current, stack, done));
    return true, typeNames;
  }

  lemma RunStep(md: Metadata, bs: seq<byte>, limit: nat, st: State)
    requires st.index < |bs|
    ensures var o := Step(md, bs, limit, st);
            Run(md, bs, limit, st) == if o.Running? then Run(md, bs, limit, o.st) else o
  {
  }

  lemma RunEnd(md: Metadata, bs: seq<byte>, limit: nat, st: State)
    requires st.index >= |bs|
    ensures Run(md, bs, limit, st) == Finished(st.done)
  {
  }

  /** The SZARRAY case: one pair of brackets for each tag in a row; it stops on the last one. */
  method SkipArrays(data: seq<byte>, index: nat, appendToType: string) returns (last: nat, suffix: string)
    requires index < |data| && ArraysAt(data, index + 1).Some?
    ensures last == index + ArraysAt(data, index + 1).value
    ensures suffix == appendToType + Dims(1 + ArraysAt(data, index + 1).value)
  {
    last, suffix := index, appendToType + "[]";
    ghost var n := ArraysAt(data, index + 1).value;
    assert Dims(1) == Dims(0) + "[]" == "[]";
    while data[last + 1] == SZARRAY
      invariant index <= last && ArraysAt(data, last + 1) == Some(n - (last - index))
      invariant suffix == appendToType + Dims(1 + last - index)
      decreases |data| - last
    {
      assert appendToType + Dims(1 + last - index) + "[]" == appendToType + Dims(2 + last - index);
      suffix := suffix + "[]";
      last := last + 1;
    }
  }

  // ---------- whole method signatures ----------

  function TypeOf(x: Slot): SigType
  {
    if x == NoValue then Simple(VOID) else x.t
  }

  function TypesOf(items: seq<Item>): (r: seq<SigType>)
    ensures |r| == |items|
  {
    if items == [] then [] else [TypeOf(items[0].slot)] + TypesOf(items[1..])
  }

  /** No by-reference parameter and no sentinel. */
  predicate ItemsFlat(items: seq<Item>)
  {
    items == [] || (!items[0].sentinel && items[0].slot.Slot? && !items[0].slot.byRef && ItemsFlat(items[1..]))
  }

  /** No by-reference type, no sentinel, counts of one byte, and a generic signature has type arguments. */
  predicate Flat(sig: MethodSig)
  {
    && sig.count.width == 1 && (sig.ret.Slot? ==> !sig.ret.byRef) && ItemsFlat(sig.items)
    && (sig.typeCount.Some? ==> sig.typeCount.value.width == 1 && sig.typeCount.value.value > 0)
  }

  function TypeArguments(sig: MethodSig): nat
  {
    if sig.typeCount.Some? then sig.typeCount.value.value else 0
  }

  function AllTypes(sig: MethodSig): seq<SigType>
  {
    [TypeOf(sig.ret)] + TypesOf(sig.items)
  }

  lemma {:induction false} FlatItems(items: seq<Item>, seen: bool)
    requires ItemsOk(items, seen) && ItemsFlat(items)
    ensures AllWellFormed(TypesOf(items)) && PrintItems(items, seen) == PrintAll(TypesOf(items))
    decreases |items|
  {
    hide Print, WellFormed;
    if items != [] {
      FlatItems(items[1..], seen);
      var ts := TypesOf(items);
      assert ts[0] == items[0].slot.t && ts[1..] == TypesOf(items[1..]);
      assert Mark(items[0]) == [];
    }
  }

  lemma FlatSignature(sig: MethodSig)
    requires SigOk(sig) && Flat(sig)
    ensures AllWellFormed(AllTypes(sig))
    ensures var first := FirstType(TypeArguments(sig));
            first <= |PrintSig(sig)| && PrintSig(sig)[first..] == PrintAll(AllTypes(sig))
  {
    hide PrintItems, ItemsOk, ItemsFlat, Print;
    FlatItems(sig.items, false);
    var ts := AllTypes(sig);
    assert ts[0] == TypeOf(sig.ret) && ts[1..] == TypesOf(sig.items);
    assert PrintSlot(sig.ret) == Print(ts[0]);
    NumLength(sig.count);
    assert |Head(sig)| == FirstType(TypeArguments(sig));
  }

  /**
   * On the printed form of a signature without by-reference types, with one-byte counts and types it can follow, the
   * call succeeds with one name for each type the signature parser cuts out. They are the names of those types, in
   * order, if and only if none of the types has an array of generic instances in it.
   */
  lemma SignaturePrinted(md: Metadata, sig: MethodSig)
    requires SigOk(sig) && Flat(sig) && AllScannable(md, AllTypes(sig))
    ensures var r := Run(md, PrintSig(sig), sig.count.value + 1, Start(TypeArguments(sig)));
            && r == Finished(Names(md, FloatedAll(AllTypes(sig))))
            && (r == Finished(Names(md, AllTypes(sig))) <==> NoArraysOfInst(AllTypes(sig)))
  {
    hide Run, PrintSig, AllWellFormed, AllScannable, Names, ItemsOk, Flat, FloatedAll, NoArraysOfInst;
    var ts := AllTypes(sig);
    FlatSignature(sig);
    TypesRun(md, PrintSig(sig), |ts|, FirstType(TypeArguments(sig)), [], ts);
    assert [] + Names(md, FloatedAll(ts)) == Names(md, FloatedAll(ts));
    NamesExactly(md, ts);
  }
}
