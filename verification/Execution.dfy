/**
 * Runs of a method body on an arbitrary machine. What an instruction does to the data is uninterpreted; where control goes
 * next is CIL's: fall through, branches, switch tables, leave through the finally handlers on the way, and two-pass
 * exception handling with filter code and finally and fault handlers (ECMA-335 Partition I, section 12.4.2).
 */
module Execution {
  import opened Opcodes
  import opened ILCode
  import opened Relaxation

  /** How an instruction leaves: what the machine decides, apart from where targets are. */
  datatype Move = Next | Taken | Case(k: nat) | Leave | Raise | EndFinally | EndFilter(handles: bool) | Stop

  datatype Machine<!D> = Machine(exec: (nat, int, D) -> (D, Move), accepts: (nat, D) -> bool)

  /** An exception clause in terms of positions; token is the class a catch clause is for. */
  datatype Clause = Clause(flags: nat, tryBegin: nat, tryEnd: nat, handlerBegin: nat, filter: nat, token: nat)

  /**
   * What a handler or filter that is running goes back to: a leave on its way to target, the search for a handler, or
   * the second pass towards the clause that handles. The clause whose code is running is owner, and from is where the
   * leave or the exception happened.
   */
  datatype Frame =
    | Leaving(owner: nat, from: nat, target: nat)
    | Filtering(owner: nat, from: nat)
    | Unwinding(owner: nat, from: nat, handler: nat)

  datatype Config<D> = At(pc: nat, data: D, frames: seq<Frame>) | Done(data: D)

  /** Short and long branches are the same operation. */
  function LongForm(op: nat): nat
  {
    if IsShort(op) then Widen(op) else op
  }

  predicate IsFilterClause(c: Clause) { c.flags % 2 == 1 }

  predicate IsFinally(c: Clause) { !IsFilterClause(c) && c.flags / 2 % 2 == 1 }

  predicate IsFault(c: Clause) { !IsFilterClause(c) && !IsFinally(c) && c.flags / 4 % 2 == 1 }

  predicate IsCatch(c: Clause) { !IsFilterClause(c) && !IsFinally(c) && !IsFault(c) }

  predicate Protects(c: Clause, pc: nat)
  {
    c.tryBegin <= pc < c.tryEnd
  }

  /** The instruction control falls through to; a switch is followed by its table. */
  function After(code: Code, pc: nat): nat
    requires pc < |code|
  {
    if code[pc].op == SWITCH && code[pc].arg >= 0 then pc + 1 + code[pc].arg else pc + 1
  }

  /** A leave runs the finally handlers of the blocks it goes out of, innermost first, and then reaches its target. */
  function LeaveOn<D>(eh: seq<Clause>, i: nat, from: nat, target: nat, d: D, frames: seq<Frame>): Config<D>
    decreases |eh| - i
  {
    if i >= |eh| then At(target, d, frames)
    else if IsFinally(eh[i]) && Protects(eh[i], from) && !Protects(eh[i], target) then
      At(eh[i].handlerBegin, d, [Leaving(i, from, target)] + frames)
    else LeaveOn(eh, i + 1, from, target, d, frames)
  }

  /** What was pending in handlers inside the block that c protects is given up. */
  function Exited(eh: seq<Clause>, c: Clause, frames: seq<Frame>): (r: seq<Frame>)
    ensures |r| <= |frames|
  {
    if frames == [] then []
    else
      var owner := frames[0].owner;
      if owner < |eh| && Protects(c, eh[owner].handlerBegin) then Exited(eh, c, frames[1..]) else frames
  }

  /** Second pass: the finally and fault handlers between the exception and clause h, and then the handler of h. */
  function Unwind<D>(eh: seq<Clause>, i: nat, from: nat, h: nat, d: D, frames: seq<Frame>): Config<D>
    requires h < |eh|
    decreases |eh| - i
  {
    if i >= h then At(eh[h].handlerBegin, d, Exited(eh, eh[h], frames))
    else if (IsFinally(eh[i]) || IsFault(eh[i])) && Protects(eh[i], from) then
      At(eh[i].handlerBegin, d, [Unwinding(i, from, h)] + frames)
    else Unwind(eh, i + 1, from, h, d, frames)
  }

  /** The filter that is running, if any, counted from the innermost frame. */
  function RunningFilter(frames: seq<Frame>): (k: nat)
    ensures k <= |frames| && (k < |frames| ==> frames[k].Filtering?)
  {
    if frames == [] || frames[0].Filtering? then 0 else 1 + RunningFilter(frames[1..])
  }

  /** While a filter runs only the clauses inside it can handle an exception. */
  predicate InScope(eh: seq<Clause>, frames: seq<Frame>, c: Clause)
  {
    var k := RunningFilter(frames);
    k < |frames| && frames[k].owner < |eh| ==>
      eh[frames[k].owner].filter <= c.tryBegin < eh[frames[k].owner].handlerBegin
  }

  /** First pass: clause by clause until one handles; an exception nobody handles in a filter counts as its refusal. */
  function Search<D>(m: Machine<D>, eh: seq<Clause>, i: nat, pc: nat, d: D, frames: seq<Frame>): Config<D>
    decreases |frames|, |eh| - i
  {
    if i >= |eh| then
      var k := RunningFilter(frames);
      if k == |frames| then Done(d)
      else Search(m, eh, frames[k].owner + 1, frames[k].from, d, frames[k + 1..])
    else if Protects(eh[i], pc) && InScope(eh, frames, eh[i]) && IsFilterClause(eh[i]) then
      At(eh[i].filter, d, [Filtering(i, pc)] + frames)
    else if Protects(eh[i], pc) && InScope(eh, frames, eh[i]) && IsCatch(eh[i]) && m.accepts(eh[i].token, d) then
      Unwind(eh, 0, pc, i, d, frames)
    else Search(m, eh, i + 1, pc, d, frames)
  }

  /** The end of a handler or filter takes up what was pending; without anything pending the body is not valid. */
  function EndOf<D>(m: Machine<D>, eh: seq<Clause>, d: D, frames: seq<Frame>, move: Move): Config<D>
  {
    if frames == [] then Done(d)
    else
      match (frames[0], move)
      case (Leaving(owner, from, target), EndFinally) => LeaveOn(eh, owner + 1, from, target, d, frames[1..])
      case (Unwinding(owner, from, h), EndFinally) =>
        if h < |eh| then Unwind(eh, owner + 1, from, h, d, frames[1..]) else Done(d)
      case (Filtering(owner, from), EndFilter(handles)) =>
        if handles && owner < |eh| then Unwind(eh, 0, from, owner, d, frames[1..])
        else Search(m, eh, owner + 1, from, d, frames[1..])
      case _ => Done(d)
  }

  function Go<D>(m: Machine<D>, code: Code, eh: seq<Clause>, pc: nat, d: D, frames: seq<Frame>, move: Move): Config<D>
    requires pc < |code|
  {
    match move
    case Next => At(After(code, pc), d, frames)
    case Taken => At(if HasTarget(code[pc].op) then code[pc].target else After(code, pc), d, frames)
    case Case(k) =>
      if code[pc].op == SWITCH && pc + 1 + k < |code| && code[pc + 1 + k].op == SWITCH_ARG
      then At(code[pc + 1 + k].target, d, frames) else At(After(code, pc), d, frames)
    case Leave => LeaveOn(eh, 0, pc, if HasTarget(code[pc].op) then code[pc].target else After(code, pc), d, frames)
    case Raise => Search(m, eh, 0, pc, d, frames)
    case Stop => Done(d)
    case _ => EndOf(m, eh, d, frames, move)
  }

  function Step<D>(m: Machine<D>, code: Code, eh: seq<Clause>, c: Config<D>): Config<D>
  {
    match c
    case Done(_) => c
    case At(pc, d, frames) =>
      if pc >= |code| then Done(d)
      else
        var r := m.exec(LongForm(code[pc].op), code[pc].arg, d);
        Go(m, code, eh, pc, r.0, frames, r.1)
  }

  function Run<D>(m: Machine<D>, code: Code, eh: seq<Clause>, c: Config<D>, n: nat): Config<D>
    decreases n
  {
    if n == 0 then c else Run(m, code, eh, Step(m, code, eh, c), n - 1)
  }

  // ---------- the same, one position later ----------

  function ShiftFrame(f: Frame): Frame
  {
    match f
    case Leaving(owner, from, target) => Leaving(owner, from + 1, target + 1)
    case Filtering(owner, from) => Filtering(owner, from + 1)
    case Unwinding(owner, from, h) => Unwinding(owner, from + 1, h)
  }

  function ShiftFrames(frames: seq<Frame>): (r: seq<Frame>)
    ensures |r| == |frames| && forall k :: 0 <= k < |frames| ==> r[k] == ShiftFrame(frames[k])
  {
    seq(|frames|, k requires 0 <= k < |frames| => ShiftFrame(frames[k]))
  }

  function Shift<D>(c: Config<D>): Config<D>
  {
    match c
    case At(pc, d, frames) => At(pc + 1, d, ShiftFrames(frames))
    case Done(d) => Done(d)
  }

  function ShiftClause(c: Clause): Clause
  {
    Clause(c.flags, c.tryBegin + 1, c.tryEnd + 1, c.handlerBegin + 1, c.filter + 1, c.token)
  }

  function ShiftClauses(eh: seq<Clause>): (r: seq<Clause>)
    ensures |r| == |eh| && forall i :: 0 <= i < |eh| ==> r[i] == ShiftClause(eh[i])
  {
    seq(|eh|, i requires 0 <= i < |eh| => ShiftClause(eh[i]))
  }

  function MovedOn(ins: Instr): Instr
  {
    if HasTarget(ins.op) then ins.(target := ins.target + 1) else ins
  }

  /** code' is code behind one more instruction, with some branches in long form. */
  predicate Prefixed(code: Code, ins: Instr, code': Code)
  {
    && |code'| == |code| + 1 && SameOrWidened(ins, code'[0])
    && forall i :: 0 <= i < |code| ==> SameOrWidened(MovedOn(code[i]), code'[i + 1])
  }

  lemma PrefixedAt(code: Code, ins: Instr, code': Code, i: nat)
    requires Prefixed(code, ins, code') && i < |code|
    ensures |code'| == |code| + 1
    ensures SameOrWidened(MovedOn(code[i]), code'[i + 1])
    ensures LongForm(code'[i + 1].op) == LongForm(code[i].op) && code'[i + 1].arg == code[i].arg
    ensures HasTarget(code'[i + 1].op) == HasTarget(code[i].op)
    ensures HasTarget(code[i].op) ==> code'[i + 1].target == code[i].target + 1
    ensures code'[i + 1].op == SWITCH <==> code[i].op == SWITCH
    ensures code'[i + 1].op == SWITCH_ARG <==> code[i].op == SWITCH_ARG
  {
  }

  lemma ShiftTail(frames: seq<Frame>, k: nat)
    requires k <= |frames|
    ensures ShiftFrames(frames)[k..] == ShiftFrames(frames[k..])
  {
  }

  lemma ShiftPush(f: Frame, frames: seq<Frame>)
    ensures ShiftFrames([f] + frames) == [ShiftFrame(f)] + ShiftFrames(frames)
  {
  }

  lemma {:induction false} LeaveShift<D>(eh: seq<Clause>, i: nat, from: nat, target: nat, d: D, frames: seq<Frame>)
    ensures LeaveOn(ShiftClauses(eh), i, from + 1, target + 1, d, ShiftFrames(frames)) ==
            Shift(LeaveOn(eh, i, from, target, d, frames))
    decreases |eh| - i
  {
    hide ShiftClauses, ShiftFrames;
    if i < |eh| {
      ClauseShift(eh, i);
      ShiftPush(Leaving(i, from, target), frames);
      LeaveShift(eh, i + 1, from, target, d, frames);
    } else {
      ClauseShiftSize(eh);
    }
  }

  lemma ClauseShift(eh: seq<Clause>, i: nat)
    requires i < |eh|
    ensures |ShiftClauses(eh)| == |eh| && ShiftClauses(eh)[i] == ShiftClause(eh[i])
  {
  }

  lemma ClauseShiftSize(eh: seq<Clause>)
    ensures |ShiftClauses(eh)| == |eh|
  {
  }

  lemma FrameShift(frames: seq<Frame>, k: nat)
    requires k < |frames|
    ensures |ShiftFrames(frames)| == |frames| && ShiftFrames(frames)[k] == ShiftFrame(frames[k])
  {
  }

  lemma NoFrames(frames: seq<Frame>)
    ensures |ShiftFrames(frames)| == |frames|
  {
  }

  lemma {:induction false} ExitedShift(eh: seq<Clause>, c: Clause, frames: seq<Frame>)
    ensures Exited(ShiftClauses(eh), ShiftClause(c), ShiftFrames(frames)) == ShiftFrames(Exited(eh, c, frames))
    decreases |frames|
  {
    hide ShiftClauses, ShiftFrames;
    NoFrames(frames);
    ClauseShiftSize(eh);
    if frames != [] {
      FrameShift(frames, 0);
      ShiftTail(frames, 1);
      if frames[0].owner < |eh| {
        ClauseShift(eh, frames[0].owner);
      }
      ExitedShift(eh, c, frames[1..]);
    } else {
      NoFrames([]);
    }
  }

  lemma {:induction false} UnwindShift<D>(eh: seq<Clause>, i: nat, from: nat, h: nat, d: D, frames: seq<Frame>)
    requires h < |eh|
    ensures |ShiftClauses(eh)| == |eh|
    ensures Unwind(ShiftClauses(eh), i, from + 1, h, d, ShiftFrames(frames)) ==
            Shift(Unwind(eh, i, from, h, d, frames))
    decreases |eh| - i
  {
    hide ShiftClauses, ShiftFrames, Exited;
    ClauseShiftSize(eh);
    if i >= h {
      ClauseShift(eh, h);
      ExitedShift(eh, eh[h], frames);
    } else {
      ClauseShift(eh, i);
      ShiftPush(Unwinding(i, from, h), frames);
      UnwindShift(eh, i + 1, from, h, d, frames);
    }
  }

  lemma {:induction false} FilterShift(frames: seq<Frame>)
    ensures RunningFilter(ShiftFrames(frames)) == RunningFilter(frames)
    decreases |frames|
  {
    hide ShiftFrames;
    NoFrames(frames);
    if frames != [] {
      FrameShift(frames, 0);
      ShiftTail(frames, 1);
      FilterShift(frames[1..]);
    }
  }

  lemma ScopeShift(eh: seq<Clause>, frames: seq<Frame>, c: Clause)
    ensures InScope(ShiftClauses(eh), ShiftFrames(frames), ShiftClause(c)) == InScope(eh, frames, c)
  {
    hide ShiftClauses, ShiftFrames, RunningFilter;
    var k := RunningFilter(frames);
    FilterShift(frames);
    NoFrames(frames);
    ClauseShiftSize(eh);
    if k < |frames| {
      FrameShift(frames, k);
      if frames[k].owner < |eh| {
        ClauseShift(eh, frames[k].owner);
      }
    }
  }

  lemma {:induction false} SearchShift<D>(m: Machine<D>, eh: seq<Clause>, i: nat, pc: nat, d: D, frames: seq<Frame>)
    ensures Search(m, ShiftClauses(eh), i, pc + 1, d, ShiftFrames(frames)) == Shift(Search(m, eh, i, pc, d, frames))
    decreases |frames|, |eh| - i
  {
    hide ShiftClauses, ShiftFrames, Unwind, InScope, RunningFilter;
    NoFrames(frames);
    ClauseShiftSize(eh);
    if i >= |eh| {
      SearchEnds(m, eh, i, pc, d, frames);
      SearchEnds(m, ShiftClauses(eh), i, pc + 1, d, ShiftFrames(frames));
      FilterShift(frames);
      var k := RunningFilter(frames);
      FilterAt(frames);
      if k < |frames| {
        FrameShift(frames, k);
        ShiftTail(frames, k + 1);
        SearchShift(m, eh, frames[k].owner + 1, frames[k].from, d, frames[k + 1..]);
      }
    } else {
      ClauseShift(eh, i);
      ScopeShift(eh, frames, eh[i]);
      ShiftPush(Filtering(i, pc), frames);
      UnwindShift(eh, 0, pc, i, d, frames);
      SearchShift(m, eh, i + 1, pc, d, frames);
    }
  }

  lemma FilterAt(frames: seq<Frame>)
    ensures var k := RunningFilter(frames); k <= |frames| && (k < |frames| ==> frames[k].Filtering?)
  {
  }

  lemma SearchEnds<D>(m: Machine<D>, eh: seq<Clause>, i: nat, pc: nat, d: D, frames: seq<Frame>)
    requires i >= |eh|
    ensures var k := RunningFilter(frames);
            && k <= |frames|
            && Search(m, eh, i, pc, d, frames) ==
               if k == |frames| then Done(d) else Search(m, eh, frames[k].owner + 1, frames[k].from, d, frames[k + 1..])
  {
  }

  lemma EndShift<D>(m: Machine<D>, eh: seq<Clause>, d: D, frames: seq<Frame>, move: Move)
    ensures EndOf(m, ShiftClauses(eh), d, ShiftFrames(frames), move) == Shift(EndOf(m, eh, d, frames, move))
  {
    hide ShiftClauses, ShiftFrames, LeaveOn, Unwind, Search;
    NoFrames(frames);
    ClauseShiftSize(eh);
    if frames != [] {
      FrameShift(frames, 0);
      ShiftTail(frames, 1);
      var rest := frames[1..];
      match frames[0] {
        case Leaving(owner, from, target) => LeaveShift(eh, owner + 1, from, target, d, rest);
        case Unwinding(owner, from, h) =>
          if h < |eh| {
            UnwindShift(eh, owner + 1, from, h, d, rest);
          }
        case Filtering(owner, from) =>
          SearchShift(m, eh, owner + 1, from, d, rest);
          if owner < |eh| {
            UnwindShift(eh, 0, from, owner, d, rest);
          }
      }
    }
  }

  /** One step of the longer body is the image of one step of the original. */
  lemma StepShift<D>(m: Machine<D>, code: Code, ins: Instr, code': Code, eh: seq<Clause>, c: Config<D>)
    requires Prefixed(code, ins, code')
    ensures Step(m, code', ShiftClauses(eh), Shift(c)) == Shift(Step(m, code, eh, c))
  {
    hide OperandOf, LongForm, Prefixed, ShiftClauses, ShiftFrames, LeaveOn, Search, EndOf;
    if c.At? && c.pc < |code| {
      var pc, d, frames := c.pc, c.data, c.frames;
      PrefixedAt(code, ins, code', pc);
      var r := m.exec(LongForm(code[pc].op), code[pc].arg, d);
      match r.1 {
        case Next =>
        case Taken =>
        case Case(k) =>
          if pc + 1 + k < |code| {
            PrefixedAt(code, ins, code', pc + 1 + k);
            SwitchArgHasTarget();
          }
        case Leave =>
          LeaveShift(eh, 0, pc, if HasTarget(code[pc].op) then code[pc].target else After(code, pc), r.0, frames);
        case Raise => SearchShift(m, eh, 0, pc, r.0, frames);
        case Stop =>
        case EndFinally => EndShift(m, eh, r.0, frames, r.1);
        case EndFilter(_) => EndShift(m, eh, r.0, frames, r.1);
      }
    } else if c.At? {
      PrefixedSize(code, ins, code');
    }
  }

  lemma SwitchArgHasTarget()
    ensures HasTarget(SWITCH_ARG)
  {
  }

  lemma PrefixedSize(code: Code, ins: Instr, code': Code)
    requires Prefixed(code, ins, code')
    ensures |code'| == |code| + 1
  {
  }

  lemma {:induction false} RunShift<D>(m: Machine<D>, code: Code, ins: Instr, code': Code, eh: seq<Clause>, c: Config<D>,
                                       n: nat)
    requires Prefixed(code, ins, code')
    ensures Run(m, code', ShiftClauses(eh), Shift(c), n) == Shift(Run(m, code, eh, c, n))
    decreases n
  {
    hide Step, Prefixed, ShiftClauses, Shift;
    if n > 0 {
      StepShift(m, code, ins, code', eh, c);
      RunShift(m, code, ins, code', eh, Step(m, code, eh, c), n - 1);
    }
  }

  /** Every run of the longer body is the inserted instruction once, and then a run of the original body. */
  lemma PrefixedRuns<D>(m: Machine<D>, code: Code, ins: Instr, code': Code, eh: seq<Clause>, d: D, n: nat)
    requires Prefixed(code, ins, code') && !IsShort(ins.op) && ins.op != SWITCH
    requires m.exec(ins.op, ins.arg, d).1 == Next
    ensures Run(m, code', ShiftClauses(eh), At(0, d, []), n + 1) ==
            Shift(Run(m, code, eh, At(0, m.exec(ins.op, ins.arg, d).0, []), n))
    ensures n > 0 ==>
              var c := Run(m, code', ShiftClauses(eh), At(0, d, []), n);
              c.At? ==> c.pc != 0
  {
    hide Prefixed, ShiftClauses;
    var d1 := m.exec(ins.op, ins.arg, d).0;
    FirstStays(code, ins, code');
    assert ShiftFrames([]) == [];
    assert Step(m, code', ShiftClauses(eh), At(0, d, [])) == Shift(At(0, d1, []));
    RunShift(m, code, ins, code', eh, At(0, d1, []), n);
    if n > 0 {
      RunShift(m, code, ins, code', eh, At(0, d1, []), n - 1);
    }
  }

  lemma FirstStays(code: Code, ins: Instr, code': Code)
    requires Prefixed(code, ins, code') && !IsShort(ins.op)
    ensures |code'| == |code| + 1 && code'[0] == ins
  {
  }
}
