/** Inputs outside the optimizer's assumptions, and what becomes of them. */
module OptimizerLimits {
  import opened Bytes
  import opened Bytecode
  import opened Peephole
  import opened Layout
  import opened Simulation

  lemma NoTargets(code: seq<Byte>, target: seq<bool>)
    requires MarksTargets(code, target) && forall k :: 0 <= k < |code| ==> !IsJump(code[k])
    ensures forall t :: 0 <= t < |code| ==> !target[t]
  {
    forall t: nat | t < |code|
      ensures !IsTarget(code, t)
    {
    }
  }

  /** `true + 0` is an error, but its optimized form returns `true`. */
  lemma IdentityOnBoolean(q: Program, target: seq<bool>, m: seq<int>, byZero: real -> real)
    requires Translates(BooleanPlusZero(), q, target, m, byZero)
    ensures Ends(BooleanPlusZero(), Running(0, []), Failed, byZero)
    ensures Ends(q, Running(0, []), Returned([Bool(true)]), byZero)
  {
    hide *;
    TrueIsKept(q, target, m, byZero);
    RunsToTrue(q, byZero);
    RunsToError(byZero);
  }

  /** The optimized code: the constant is pushed and returned. */
  lemma TrueIsKept(q: Program, target: seq<bool>, m: seq<int>, byZero: real -> real)
    requires Translates(BooleanPlusZero(), q, target, m, byZero)
    ensures |q.code| >= 2 && q.code[0] == OP_TRUE && q.code[1] == OP_RETURN
  {
    hide *;
    var p := BooleanPlusZero();
    TrueTargets(q, target, m, byZero);
    ChosenForTrue(target, byZero);
    CopiedByte(p, q, target, m, byZero, 0);
    DroppedAt(p, q, target, m, byZero, 1);
    CopiedByte(p, q, target, m, byZero, 4);
  }

  lemma TrueTargets(q: Program, target: seq<bool>, m: seq<int>, byZero: real -> real)
    requires Translates(BooleanPlusZero(), q, target, m, byZero)
    ensures |target| == |m| == 5 && m[0] == 0 && forall t :: 0 <= t < 5 ==> !target[t]
  {
    hide Visits, Laid, Retargeted, IsCopiedJump;
    NoTargets(BooleanPlusZero().code, target);
  }

  /** A copied one-byte instruction stands at its new place, and the next place is right behind it. */
  lemma CopiedByte(p: Program, q: Program, target: seq<bool>, m: seq<int>, byZero: real -> real, i: nat)
    requires Translates(p, q, target, m, byZero) && i < |m| == |p.code| == |target| && m[i] >= 0
    requires Whole(p.code, i) && Choose(p, target, i, byZero) == Copy(1) && !IsJump(p.code[i])
    ensures m[i] < |q.code| && q.code[m[i]] == p.code[i] && (i + 1 < |m| ==> m[i + 1] == m[i] + 1)
  {
    LaidIn(p, q, target, m, byZero, i);
    hide *;
    LaidByte(p, q, target, m, byZero, i);
  }

  lemma LaidIn(p: Program, q: Program, target: seq<bool>, m: seq<int>, byZero: real -> real, i: nat)
    requires Translates(p, q, target, m, byZero) && i < |m| && m[i] >= 0
    ensures |m| == |target| == |p.code| && Laid(p, q, target, m, byZero, i)
  {
    hide Laid, Visits, MarksTargets, Retargeted, IsCopiedJump, AllConstants;
  }

  lemma LaidByte(p: Program, q: Program, target: seq<bool>, m: seq<int>, byZero: real -> real, i: nat)
    requires i < |m| == |p.code| == |target| && Laid(p, q, target, m, byZero, i)
    requires Whole(p.code, i) && Choose(p, target, i, byZero) == Copy(1) && !IsJump(p.code[i])
    ensures m[i] < |q.code| && q.code[m[i]] == p.code[i] && (i + 1 < |m| ==> m[i + 1] == m[i] + 1)
  {
    hide Choose, Visits, InstrLength, FoldIndex, Whole, IsJump;
    var out := q.code[m[i]..m[i] + 1];
    assert out[..1][0] == p.code[i..i + 1][0] && out[0] == q.code[m[i]];
  }

  lemma DroppedAt(p: Program, q: Program, target: seq<bool>, m: seq<int>, byZero: real -> real, i: nat)
    requires Translates(p, q, target, m, byZero) && i + 3 < |m| == |p.code| == |target| && m[i] >= 0
    requires Whole(p.code, i) && Choose(p, target, i, byZero) == DropIdentity
    ensures m[i + 3] == m[i]
  {
    LaidIn(p, q, target, m, byZero, i);
    hide Translates, Choose, Visits, Whole, Emits, FoldIndex;
  }

  lemma ChosenForTrue(target: seq<bool>, byZero: real -> real)
    requires |target| == 5 && forall t :: 0 <= t < 5 ==> !target[t]
    ensures var p := BooleanPlusZero();
            && |p.code| == 5 && p.code[0] == OP_TRUE && p.code[4] == OP_RETURN && Whole(p.code, 0)
               && Whole(p.code, 1) && Whole(p.code, 4)
            && !IsJump(p.code[0]) && !IsJump(p.code[4])
            && Choose(p, target, 0, byZero) == Copy(1) && Choose(p, target, 1, byZero) == DropIdentity
            && Choose(p, target, 4, byZero) == Copy(1)
  {
  }

  lemma RunsToTrue(q: Program, byZero: real -> real)
    requires |q.code| >= 2 && q.code[0] == OP_TRUE && q.code[1] == OP_RETURN
    ensures Ends(q, Running(0, []), Returned([Bool(true)]), byZero)
  {
    hide Run;
    assert [] + [Bool(true)] == [Bool(true)];
    assert Step(q, Running(0, []), byZero) == Running(1, [Bool(true)]);
    StepReturn(q, 1, Bool(true), byZero);
    RunOne(q, Running(0, []), byZero);
    assert Run(q, Running(0, []), 2, byZero) == Returned([Bool(true)]);
  }

  lemma RunsToError(byZero: real -> real)
    ensures Ends(BooleanPlusZero(), Running(0, []), Failed, byZero)
  {
    var p := BooleanPlusZero();
    hide Run;
    var s := [Bool(true)];
    assert [] + [Bool(true)] == s;
    assert Step(p, Running(0, []), byZero) == Running(1, s);
    StepConst(p, 1, s, byZero);
    StepArith(p, 3, s + [Num(0.0)], byZero);
    RunOne(p, Running(0, []), byZero);
    assert Run(p, Running(0, []), 3, byZero) == Failed;
  }

  ghost function BooleanPlusZero(): Program {
    Program([OP_TRUE, OP_CONSTANT, 0, OP_ADD, OP_RETURN], [Num(0.0)])
  }

  /**
   * `a + b` on a table of any size: the sum goes to the end of the table, and the code loads what is found there when
   * the index is cut to a byte. Below 256 constants that is the sum; from 256 on an older constant.
   */
  lemma FoldingPastTheTable(p: Program, q: Program, target: seq<bool>, m: seq<int>, a: real, b: real,
                            byZero: real -> real)
    requires p.code == [OP_CONSTANT, 0, OP_CONSTANT, 1, OP_ADD, OP_RETURN]
    requires |p.constants| >= 2 && p.constants[0] == Num(a) && p.constants[1] == Num(b)
    requires Translates(p, q, target, m, byZero)
    ensures Ends(p, Running(0, []), Returned([Num(a + b)]), byZero)
    ensures var all := p.constants + [Num(a + b)];
            Ends(q, Running(0, []), Returned([all[|p.constants| % 0x100]]), byZero)
  {
    hide *;
    NoTargetsInSum(p, q, target, m, byZero);
    SumIsFolded(p, target, a, b, byZero);
    FoldedCode(p, q, target, m, a, b, byZero);
    LoadsConstant(q, byZero);
    OriginalSum(p, a, b, byZero);
  }

  lemma NoTargetsInSum(p: Program, q: Program, target: seq<bool>, m: seq<int>, byZero: real -> real)
    requires p.code == [OP_CONSTANT, 0, OP_CONSTANT, 1, OP_ADD, OP_RETURN] && Translates(p, q, target, m, byZero)
    ensures |target| == |p.code| == 6 && forall t :: 0 <= t < 6 ==> !target[t]
  {
    NoTargets(p.code, target);
  }

  lemma LoadsConstant(q: Program, byZero: real -> real)
    requires |q.code| >= 3 && q.code[0] == OP_CONSTANT && q.code[2] == OP_RETURN && q.code[1] < |q.constants|
    ensures Ends(q, Running(0, []), Returned([q.constants[q.code[1]]]), byZero)
  {
    hide Step, Run;
    var v := q.constants[q.code[1]];
    StepConst(q, 0, [], byZero);
    assert [] + [v] == [v];
    StepReturn(q, 2, v, byZero);
    RunOne(q, Running(0, []), byZero);
    assert Run(q, Running(0, []), 2, byZero) == Returned([v]);
  }

  lemma OriginalSum(p: Program, a: real, b: real, byZero: real -> real)
    requires p.code == [OP_CONSTANT, 0, OP_CONSTANT, 1, OP_ADD, OP_RETURN]
    requires |p.constants| >= 2 && p.constants[0] == Num(a) && p.constants[1] == Num(b)
    ensures Ends(p, Running(0, []), Returned([Num(a + b)]), byZero)
  {
    hide Step, Run;
    StepConst(p, 0, [], byZero);
    StepConst(p, 2, [Num(a)], byZero);
    assert [] + [Num(a)] == [Num(a)];
    StepArith(p, 4, [Num(a)] + [Num(b)], byZero);
    TopTwo([], Num(a), Num(b));
    assert [] + [Num(a)] + [Num(b)] == [Num(a)] + [Num(b)];
    assert [] + [Num(a + b)] == [Num(a + b)];
    StepReturn(p, 5, Num(a + b), byZero);
    RunOne(p, Running(0, []), byZero);
    assert Run(p, Running(0, []), 4, byZero) == Returned([Num(a + b)]);
  }

  lemma StepReturn(p: Program, i: nat, v: Value, byZero: real -> real)
    requires i < |p.code| && p.code[i] == OP_RETURN
    ensures Step(p, Running(i, [v]), byZero) == Returned([v])
  {
    var s := [v];
    assert s[|s| - 1..] == s;
  }

  lemma SumIsFolded(p: Program, target: seq<bool>, a: real, b: real, byZero: real -> real)
    requires p.code == [OP_CONSTANT, 0, OP_CONSTANT, 1, OP_ADD, OP_RETURN] && |target| == 6
    requires forall t :: 0 <= t < 6 ==> !target[t]
    requires |p.constants| >= 2 && p.constants[0] == Num(a) && p.constants[1] == Num(b)
    ensures Choose(p, target, 0, byZero) == FoldBinary(Num(a + b))
    ensures Choose(p, target, 5, byZero) == Copy(1)
    ensures AllConstants(p, target, byZero) == p.constants + [Num(a + b)]
            && FoldIndex(p, target, byZero, 0) == |p.constants|
  {
    assert FoldsBinary(p, 0);
    assert AddedFrom(p, target, byZero, 6) == [];
    assert AddedConstant(p, target, 5, byZero) == [];
    assert AddedFrom(p, target, byZero, 5) == [];
  }

  lemma FoldedCode(p: Program, q: Program, target: seq<bool>, m: seq<int>, a: real, b: real, byZero: real -> real)
    requires p.code == [OP_CONSTANT, 0, OP_CONSTANT, 1, OP_ADD, OP_RETURN] && |target| == 6
    requires Translates(p, q, target, m, byZero)
    requires Choose(p, target, 0, byZero) == FoldBinary(Num(a + b)) && Choose(p, target, 5, byZero) == Copy(1)
    requires AllConstants(p, target, byZero) == p.constants + [Num(a + b)]
             && FoldIndex(p, target, byZero, 0) == |p.constants|
    ensures |q.code| >= 3 && q.code[0] == OP_CONSTANT && q.code[2] == OP_RETURN && q.code[1] == |p.constants| % 0x100
    ensures q.constants == p.constants + [Num(a + b)]
  {
    hide Choose, Visits, MarksTargets, IsStart, FoldIndex, AllConstants;
    assert Laid(p, q, target, m, byZero, 0);
    var out := q.code[0..2];
    assert out[0] == q.code[0] && out[1] == q.code[1];
    assert m[5] == 2 && Laid(p, q, target, m, byZero, 5);
    var ret := q.code[2..3];
    assert ret[..1][0] == p.code[5..6][0] && ret[0] == q.code[2];
  }
}
