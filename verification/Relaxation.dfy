/** Branch relaxation: the `goto again` loop of Export, which widens the short branches that no longer fit. */
module Relaxation {
  import opened Opcodes
  import opened ILCode

  function WidenInstr(ins: Instr): Instr
    requires IsShort(ins.op)
  {
    ins.(op := Widen(ins.op))
  }

  predicate SameOrWidened(a: Instr, b: Instr)
  {
    b == a || (IsShort(a.op) && b == WidenInstr(a))
  }

  /** code' is code with some of its short branches (its widening set) in long form. */
  predicate WidenedFrom(code: Code, code': Code)
  {
    |code'| == |code| && forall i :: 0 <= i < |code| ==> SameOrWidened(code[i], code'[i])
  }

  /** One pass: all short branches whose displacement does not fit the current layout are widened together. */
  function WidenMisfits(code: Code): (r: Code)
    requires TargetsInside(code)
    ensures WidenedFrom(code, r) && TargetsInside(r)
    ensures r == code <==> AllFit(code)
  {
    var r := seq(|code|, i requires 0 <= i < |code| => if ShortFits(code, i) then code[i] else WidenInstr(code[i]));
    assert forall i :: 0 <= i < |code| ==> (r[i] == code[i] <==> ShortFits(code, i));
    r
  }

  function Shorts(code: Code): (n: nat)
    ensures n <= |code|
  {
    if code == [] then 0 else (if IsShort(code[0].op) then 1 else 0) + Shorts(code[1..])
  }

  /** Widening any branch strictly lowers the number of short branches: each repeat of the loop makes progress. */
  lemma {:induction false} WideningLowersShorts(code: Code, code': Code)
    requires WidenedFrom(code, code')
    ensures Shorts(code') <= Shorts(code)
    ensures code' != code ==> Shorts(code') < Shorts(code)
  {
    if code != [] {
      WideningLowersShorts(code[1..], code'[1..]);
      assert code' == [code'[0]] + code'[1..] && code == [code[0]] + code[1..];
    }
  }

  /** The list Export lays out last. */
  function Relax(code: Code): (r: Code)
    requires TargetsInside(code)
    ensures TargetsInside(r)
    decreases Shorts(code)
  {
    var next := WidenMisfits(code);
    if next == code then code else WideningLowersShorts(code, next); Relax(next)
  }

  lemma WidenedFromTransitive(a: Code, b: Code, c: Code)
    requires WidenedFrom(a, b) && WidenedFrom(b, c)
    ensures WidenedFrom(a, c)
  {
    forall i | 0 <= i < |a| ensures SameOrWidened(a[i], c[i]) {
      assert SameOrWidened(a[i], b[i]) && SameOrWidened(b[i], c[i]);
    }
  }

  /** Widening never brings two positions closer. */
  lemma {:induction false} WideningStretches(code: Code, code': Code, i: nat, j: nat)
    requires WidenedFrom(code, code') && i <= j <= |code|
    ensures Off(code, j) - Off(code, i) <= Off(code', j) - Off(code', i)
    ensures Off(code, i) <= Off(code, j)
  {
    if i < j {
      WideningStretches(code, code', i, j - 1);
      assert SameOrWidened(code[j - 1], code'[j - 1]);
    }
  }

  /** So a short branch that fits a wider layout already fits the narrower one. */
  lemma FitsInNarrower(code: Code, code': Code, i: nat)
    requires WidenedFrom(code, code') && TargetsInside(code) && TargetsInside(code')
    requires i < |code| && IsShort(code[i].op) && code'[i] == code[i] && ShortFits(code', i)
    ensures ShortFits(code, i)
  {
    var t := code[i].target;
    if t <= i {
      WideningStretches(code, code', t, i + 1);
    } else {
      WideningStretches(code, code', i + 1, t);
    }
  }

  /** What any sufficient widening must contain after one pass. */
  lemma MisfitsAreNecessary(code: Code, wide: Code)
    requires TargetsInside(code) && TargetsInside(wide)
    requires WidenedFrom(code, wide) && AllFit(wide)
    ensures WidenedFrom(WidenMisfits(code), wide)
  {
    var next := WidenMisfits(code);
    forall i | 0 <= i < |code| ensures SameOrWidened(next[i], wide[i]) {
      assert SameOrWidened(code[i], wide[i]);
      if !ShortFits(code, i) && wide[i] == code[i] {
        assert ShortFits(wide, i);
        FitsInNarrower(code, wide, i);
      }
    }
  }

  /** The loop ends with a list in which every short branch fits, and that list differs from the input by widening only. */
  lemma {:induction false} RelaxFits(code: Code)
    requires TargetsInside(code)
    ensures WidenedFrom(code, Relax(code)) && AllFit(Relax(code))
    decreases Shorts(code)
  {
    var next := WidenMisfits(code);
    if next != code {
      WideningLowersShorts(code, next);
      RelaxFits(next);
      WidenedFromTransitive(code, next, Relax(code));
    }
  }

  /** Least fixpoint: any widening of code in which every remaining short branch fits contains the set the loop chose. */
  lemma {:induction false} RelaxIsLeast(code: Code, wide: Code)
    requires TargetsInside(code) && TargetsInside(wide)
    requires WidenedFrom(code, wide) && AllFit(wide)
    ensures WidenedFrom(Relax(code), wide)
    decreases Shorts(code)
  {
    var next := WidenMisfits(code);
    if next != code {
      MisfitsAreNecessary(code, wide);
      WideningLowersShorts(code, next);
      RelaxIsLeast(next, wide);
    }
  }

  /** Hence relaxation is the identity exactly on the lists whose short branches already fit. */
  lemma RelaxIdentity(code: Code)
    requires TargetsInside(code)
    ensures Relax(code) == code <==> AllFit(code)
  {
    if !AllFit(code) {
      RelaxFits(code);
    }
  }

  /** Widening keeps a list well formed: the table structure, the operands and the targets do not change. */
  lemma {:induction false} WideningKeepsPending(code: Code, code': Code, i: nat)
    requires WidenedFrom(code, code') && i <= |code|
    ensures Pending(code', i) == Pending(code, i)
  {
    if i > 0 {
      WideningKeepsPending(code, code', i - 1);
      assert SameOrWidened(code[i - 1], code'[i - 1]);
    }
  }

  lemma WideningKeepsWellFormed(code: Code, code': Code)
    requires WidenedFrom(code, code') && WellFormed(code)
    ensures WellFormed(code')
  {
    forall i | 0 <= i < |code| ensures InstrOk(code', i) {
      assert InstrOk(code, i) && SameOrWidened(code[i], code'[i]);
      WideningKeepsPending(code, code', i);
      var t := code[i].target;
      assert t < |code| ==> SameOrWidened(code[t], code'[t]);
    }
    WideningKeepsPending(code, code', |code|);
  }

  lemma RelaxKeepsWellFormed(code: Code)
    requires WellFormed(code)
    ensures TargetsInside(code) && WellFormed(Relax(code))
  {
    WellFormedFacts(code);
    RelaxFits(code);
    WideningKeepsWellFormed(code, Relax(code));
  }
}
