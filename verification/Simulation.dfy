/** Optimized code behaves like the original: a block-by-block simulation and its consequence for whole runs. */
module Simulation {
  import opened Bytes
  import opened Bytecode
  import opened Peephole
  import opened Layout

  /** The two frames agree: both run, at corresponding addresses with equal stacks, or both ended alike. */
  ghost predicate Agree(q: Program, m: seq<int>, a: State, b: State) {
    match a
    case Running(pc, s) => 0 <= pc <= |m| && Image(m, q, pc) >= 0 && b == Running(Image(m, q, pc), s)
    case _ => b == a
  }

  /**
   * What a dropped instruction counts on: a numeric operand, or a stack already at the adjusted height (or a
   * producer that fails before it comes to that); and what a folded one does: that its index, cut to a byte, still
   * finds its value in the table.
   */
  ghost predicate Harmless(p: Program, target: seq<bool>, r: Rewrite, i: nat, s: seq<Value>, byZero: real -> real)
    requires |target| == |p.code|
  {
    match r
    case FoldBinary(v) => Lands(p, target, byZero, i, v)
    case FoldNegate(v) => Lands(p, target, byZero, i, v)
    case DropIdentity => s != [] && s[|s| - 1].Num?
    case DropAdjust(len) => i + len + 2 < |p.code|
                            && (|s| == p.code[i + len + 2] || Step(p, Running(i, s), byZero) == Failed)
    case _ => true
  }

  ghost predicate Lands(p: Program, target: seq<bool>, byZero: real -> real, i: nat, v: Value)
    requires |target| == |p.code|
  {
    var all, k := AllConstants(p, target, byZero), FoldIndex(p, target, byZero, i) % 0x100;
    k < |all| && all[k] == v
  }

  /**
   * A folded constant is found exactly when its index fits a byte or the constant at the cut index is the same; so
   * always while the table stays within 256 constants.
   */
  lemma FoldedIsFound(p: Program, target: seq<bool>, byZero: real -> real, i: nat, s: seq<Value>)
    requires |target| == |p.code| && Visits(p, target, byZero, 0, i) && Whole(p.code, i)
    requires var r := Choose(p, target, i, byZero); r.FoldBinary? || r.FoldNegate?
    ensures var r, all, k := Choose(p, target, i, byZero), AllConstants(p, target, byZero), FoldIndex(p, target, byZero, i);
            && 0 <= k < |all|
            && (Harmless(p, target, r, i, s, byZero) <==> k < 0x100 || all[k % 0x100] == r.result)
            && (|all| <= 0x100 ==> Harmless(p, target, r, i, s, byZero))
  {
    hide AllConstants, FoldIndex, Choose;
    FoldIndexIn(p, target, byZero, i);
  }

  function OldSteps(r: Rewrite): (k: nat)
    ensures k > 0
  {
    match r
    case DropAdjust(_) => 3
    case DropIdentity => 2
    case FuseLocal(_) => 4
    case FoldBinary(_) => 3
    case FoldNegate(_) => 2
    case FoldOperand(_) => 2
    case FuseSet(_) => 2
    case Copy(_) => 1
  }

  function NewSteps(r: Rewrite): nat {
    match r
    case DropAdjust(_) => 2
    case DropIdentity => 0
    case _ => 1
  }

  // ----- single steps -----

  lemma StepConst(p: Program, i: nat, s: seq<Value>, byZero: real -> real)
    requires i + 2 <= |p.code| && p.code[i] == OP_CONSTANT && p.code[i + 1] < |p.constants|
    ensures Step(p, Running(i, s), byZero) == Running(i + 2, s + [p.constants[p.code[i + 1]]])
  {
  }

  lemma StepArith(p: Program, i: nat, s: seq<Value>, byZero: real -> real)
    requires i < |p.code| && IsArith(p.code[i])
    ensures Step(p, Running(i, s), byZero) ==
            if |s| < 2 then Failed else Operate(ArithOf(p.code[i]), s[|s| - 2], s[|s| - 1], s[..|s| - 2], i + 1, byZero)
  {
  }

  lemma StepArithConst(p: Program, i: nat, op: Byte, s: seq<Value>, byZero: real -> real)
    requires i + 2 <= |p.code| && IsArith(op) && p.code[i] == ConstOp(op) && p.code[i + 1] < |p.constants|
    ensures Step(p, Running(i, s), byZero) ==
            if s == [] then Failed
               else Operate(ArithOf(op), s[|s| - 1], p.constants[p.code[i + 1]], s[..|s| - 1], i + 2, byZero)
  {
  }

  lemma StepArithLocal(p: Program, i: nat, op: Byte, s: seq<Value>, byZero: real -> real)
    requires i + 3 <= |p.code| && IsArith(op) && p.code[i] == LocalOp(op) && p.code[i + 2] < |p.constants|
    ensures Step(p, Running(i, s), byZero) ==
            if p.code[i + 1] >= |s| then Failed
            else Store(p.code[i + 1], Operate(ArithOf(op), s[p.code[i + 1]], p.constants[p.code[i + 2]], s, i + 3, byZero))
  {
  }

  lemma StepArithSet(p: Program, i: nat, op: Byte, s: seq<Value>, byZero: real -> real)
    requires i + 2 <= |p.code| && IsArith(op) && p.code[i] == SetOp(op)
    ensures Step(p, Running(i, s), byZero) ==
            if |s| < 2 then Failed
            else Store(p.code[i + 1], Operate(ArithOf(op), s[|s| - 2], s[|s| - 1], s[..|s| - 2], i + 2, byZero))
  {
  }

  lemma StepGet(p: Program, i: nat, s: seq<Value>, byZero: real -> real)
    requires i + 2 <= |p.code| && p.code[i] == OP_GET_LOCAL
    ensures Step(p, Running(i, s), byZero) == if p.code[i + 1] >= |s| then Failed
            else Running(i + 2, s + [s[p.code[i + 1]]])
  {
  }

  lemma StepSet(p: Program, i: nat, s: seq<Value>, byZero: real -> real)
    requires i + 2 <= |p.code| && p.code[i] == OP_SET_LOCAL
    ensures Step(p, Running(i, s), byZero) == Store(p.code[i + 1], Running(i + 2, s))
  {
  }

  lemma StepNegate(p: Program, i: nat, s: seq<Value>, n: real, byZero: real -> real)
    requires i < |p.code| && p.code[i] == OP_NEGATE
    ensures Step(p, Running(i, s + [Num(n)]), byZero) == Running(i + 1, s + [Num(-n)])
  {
    assert (s + [Num(n)])[..|s|] == s;
  }

  lemma StepPop(p: Program, i: nat, s: seq<Value>, v: Value, byZero: real -> real)
    requires i < |p.code| && p.code[i] == OP_POP
    ensures Step(p, Running(i, s + [v]), byZero) == Running(i + 1, s)
  {
    assert (s + [v])[..|s|] == s;
  }

  lemma StepAdjust(p: Program, i: nat, s: seq<Value>, byZero: real -> real)
    requires i + 2 <= |p.code| && p.code[i] == OP_ADJUST_STACK
    ensures Step(p, Running(i, s), byZero) == if p.code[i + 1] > |s| then Failed else Running(i + 2, s[..p.code[i + 1]])
  {
  }

  /** A producer pushes one value and goes on, or fails. */
  lemma StepProducer(p: Program, i: nat, s: seq<Value>, byZero: real -> real)
    requires Whole(p.code, i) && IsProducer(p.code[i])
    ensures var st := Step(p, Running(i, s), byZero);
            st == Failed || exists v :: st == Running(i + InstrLength(p.code[i]), s + [v])
  {
  }

  lemma RunOne(p: Program, st: State, byZero: real -> real)
    ensures Run(p, st, 0, byZero) == st
    ensures Run(p, st, 1, byZero) == Step(p, st, byZero)
    ensures Run(p, st, 2, byZero) == Step(p, Step(p, st, byZero), byZero)
    ensures Run(p, st, 3, byZero) == Step(p, Step(p, Step(p, st, byZero), byZero), byZero)
    ensures Run(p, st, 4, byZero) == Step(p, Step(p, Step(p, Step(p, st, byZero), byZero), byZero), byZero)
  {
    var a := Step(p, st, byZero);
    var b := Step(p, a, byZero);
    var c := Step(p, b, byZero);
    assert Run(p, c, 1, byZero) == Step(p, c, byZero);
    assert Run(p, b, 2, byZero) == Run(p, c, 1, byZero);
    assert Run(p, a, 3, byZero) == Run(p, b, 2, byZero);
  }

  lemma OnFailed(p: Program, byZero: real -> real)
    ensures Step(p, Failed, byZero) == Failed
  {
  }

  // ----- the blocks -----

  /** Two operands on top of a stack. */
  lemma TopTwo(s: seq<Value>, a: Value, b: Value)
    ensures var t := s + [a] + [b];
            |t| >= 2 && t[|t| - 2] == a && t[|t| - 1] == b && t[..|t| - 2] == s
  {
  }

  lemma SimFoldBinary(p: Program, q: Program, index: int, r: Rewrite, i: nat, n: nat, s: seq<Value>,
                      byZero: real -> real)
    requires Whole(p.code, i) && Emits(p, q, index, r, i, n) && FoldsBinary(p, i)
             && r == FoldBinary(BinaryResult(p, i, byZero))
    requires index % 0x100 < |q.constants|
    ensures Run(p, Running(i, s), 3, byZero) == Running(i + 5, s + [r.result])
    ensures Run(q, Running(n, s), 1, byZero) == Running(n + 2, s + [q.constants[index % 0x100]])
  {
    hide Step, Run, Whole;
    var a, b := p.constants[p.code[i + 1]], p.constants[p.code[i + 3]];
    StepConst(p, i, s, byZero);
    StepConst(p, i + 2, s + [a], byZero);
    StepArith(p, i + 4, s + [a] + [b], byZero);
    TopTwo(s, a, b);
    RunOne(p, Running(i, s), byZero);
    PushesResult(p, q, index, r, i, n, s, byZero);
  }

  lemma PushSame(s: seq<Value>, a: Value, b: Value)
    ensures s + [a] == s + [b] <==> a == b
  {
    assert (s + [a])[|s|] == a && (s + [b])[|s|] == b;
  }

  /** The constant at the folded one's index, cut to a byte, is pushed in one step. */
  lemma PushesResult(p: Program, q: Program, index: int, r: Rewrite, i: nat, n: nat, s: seq<Value>,
                     byZero: real -> real)
    requires Whole(p.code, i) && Emits(p, q, index, r, i, n) && (r.FoldBinary? || r.FoldNegate?)
    requires index % 0x100 < |q.constants|
    ensures Run(q, Running(n, s), 1, byZero) == Running(n + 2, s + [q.constants[index % 0x100]])
  {
    hide Step, Run, Whole;
    var out := q.code[n..n + r.Size()];
    assert out[0] == q.code[n] && out[1] == q.code[n + 1];
    StepConst(q, n, s, byZero);
    RunOne(q, Running(n, s), byZero);
  }

  lemma SimFoldNegate(p: Program, q: Program, index: int, r: Rewrite, i: nat, n: nat, s: seq<Value>,
                      byZero: real -> real)
    requires Whole(p.code, i) && Emits(p, q, index, r, i, n) && FoldsNegate(p, i) && r == FoldNegate(NegateResult(p, i))
    requires index % 0x100 < |q.constants|
    ensures Run(p, Running(i, s), 2, byZero) == Running(i + 3, s + [r.result])
    ensures Run(q, Running(n, s), 1, byZero) == Running(n + 2, s + [q.constants[index % 0x100]])
  {
    hide Step, Run, Whole;
    StepConst(p, i, s, byZero);
    StepNegate(p, i + 2, s, p.constants[p.code[i + 1]].n, byZero);
    RunOne(p, Running(i, s), byZero);
    PushesResult(p, q, index, r, i, n, s, byZero);
  }

  /** The constant operand moves into the instruction. */
  lemma SimFoldOperand(p: Program, q: Program, index: int, r: Rewrite, i: nat, n: nat, s: seq<Value>,
                       byZero: real -> real)
    requires Whole(p.code, i) && Emits(p, q, index, r, i, n) && i + 2 < |p.code| && p.code[i] == OP_CONSTANT
             && IsArith(p.code[i + 2])
    requires r == FoldOperand(ConstOp(p.code[i + 2])) && p.code[i + 1] < |p.constants| && p.constants <= q.constants
    ensures Matches(Run(p, Running(i, s), 2, byZero), i + 3, Run(q, Running(n, s), 1, byZero), n + 2)
  {
    hide Step, Run, Whole;
    var c := p.constants[p.code[i + 1]];
    var out := q.code[n..n + 2];
    assert out[0] == q.code[n] && out[1] == q.code[n + 1];
    StepConst(p, i, s, byZero);
    StepArith(p, i + 2, s + [c], byZero);
    RunOne(p, Running(i, s), byZero);
    StepArithConst(q, n, p.code[i + 2], s, byZero);
    RunOne(q, Running(n, s), byZero);
    if s != [] {
      assert s == s[..|s| - 1] + [s[|s| - 1]];
      TopTwo(s[..|s| - 1], s[|s| - 1], c);
    }
  }

  /** Both frames ended alike, or run on at the given addresses with equal stacks. */
  ghost predicate Matches(a: State, apc: int, b: State, bpc: int) {
    if a.Running? then a.pc == apc && b == Running(bpc, a.stack) else b == a
  }

  lemma SimFuseSet(p: Program, q: Program, index: int, r: Rewrite, i: nat, n: nat, s: seq<Value>, byZero: real -> real)
    requires Whole(p.code, i) && Emits(p, q, index, r, i, n) && i + 2 < |p.code| && IsArith(p.code[i])
             && p.code[i + 1] == OP_SET_LOCAL
    requires r == FuseSet(SetOp(p.code[i]))
    ensures Matches(Run(p, Running(i, s), 2, byZero), i + 3, Run(q, Running(n, s), 1, byZero), n + 2)
  {
    hide Step, Run, Whole;
    var out := q.code[n..n + 2];
    assert out[0] == q.code[n] && out[1] == q.code[n + 1];
    StepArith(p, i, s, byZero);
    RunOne(p, Running(i, s), byZero);
    StepArithSet(q, n, p.code[i], s, byZero);
    RunOne(q, Running(n, s), byZero);
    if |s| >= 2 {
      var o := Operate(ArithOf(p.code[i]), s[|s| - 2], s[|s| - 1], s[..|s| - 2], i + 1, byZero);
      if o.Running? {
        StepSet(p, i + 1, o.stack, byZero);
      } else {
        OnFailed(p, byZero);
      }
    } else {
      OnFailed(p, byZero);
    }
  }

  lemma SimFuseLocal(p: Program, q: Program, index: int, r: Rewrite, i: nat, n: nat, s: seq<Value>,
                     byZero: real -> real)
    requires Whole(p.code, i) && Emits(p, q, index, r, i, n) && i + 6 < |p.code| && p.constants <= q.constants
    requires p.code[i] == OP_GET_LOCAL && p.code[i + 2] == OP_CONSTANT && p.code[i + 3] < |p.constants|
    requires IsArith(p.code[i + 4]) && p.code[i + 5] == OP_SET_LOCAL && p.code[i + 1] == p.code[i + 6]
    requires r == FuseLocal(LocalOp(p.code[i + 4]))
    ensures Matches(Run(p, Running(i, s), 4, byZero), i + 7, Run(q, Running(n, s), 1, byZero), n + 3)
  {
    hide Step, Run, Whole;
    var slot, c := p.code[i + 1], p.constants[p.code[i + 3]];
    var out := q.code[n..n + 3];
    assert out[0] == q.code[n] && out[1] == q.code[n + 1] && out[2] == q.code[n + 2];
    StepGet(p, i, s, byZero);
    RunOne(p, Running(i, s), byZero);
    StepArithLocal(q, n, p.code[i + 4], s, byZero);
    RunOne(q, Running(n, s), byZero);
    OnFailed(p, byZero);
    if slot < |s| {
      StepConst(p, i + 2, s + [s[slot]], byZero);
      StepArith(p, i + 4, s + [s[slot]] + [c], byZero);
      TopTwo(s, s[slot], c);
      var o := Operate(ArithOf(p.code[i + 4]), s[slot], c, s, i + 5, byZero);
      if o.Running? {
        StepSet(p, i + 5, o.stack, byZero);
      }
    }
  }

  /** Dropping the identity is right exactly when its operand is a number. */
  lemma SimDropIdentity(p: Program, i: nat, s: seq<Value>, byZero: real -> real)
    requires i + 2 < |p.code| && p.code[i] == OP_CONSTANT && IsArith(p.code[i + 2])
    requires IsNumberConstant(p, p.code[i + 1]) && IsIdentity(p.code[i + 2], p.constants[p.code[i + 1]].n)
    ensures Run(p, Running(i, s), 2, byZero) == if s != [] && s[|s| - 1].Num? then Running(i + 3, s) else Failed
  {
    hide Step, Run;
    var c := p.constants[p.code[i + 1]];
    StepConst(p, i, s, byZero);
    StepArith(p, i + 2, s + [c], byZero);
    RunOne(p, Running(i, s), byZero);
    if s != [] {
      var v := s[|s| - 1];
      assert s == s[..|s| - 1] + [v];
      TopTwo(s[..|s| - 1], v, c);
      if v.Num? {
        assert Apply(ArithOf(p.code[i + 2]), v.n, c.n, byZero) == v.n;
      }
    }
  }

  lemma SliceOfSlice(code: seq<Byte>, n: nat, k: nat, len: nat)
    requires k <= len && n + len <= |code|
    ensures code[n..n + len][..k] == code[n..n + k]
  {
  }

  /** Dropping the adjustment keeps the producer and the pop; the original then also cuts the stack. */
  lemma SimDropAdjust(p: Program, q: Program, index: int, i: nat, n: nat, s: seq<Value>, byZero: real -> real)
    requires Whole(p.code, i) && IsProducer(p.code[i]) && Emits(p, q, index, DropAdjust(InstrLength(p.code[i])), i, n)
    requires p.constants <= q.constants && ConstantsKnown(p, i)
    requires var next := i + InstrLength(p.code[i]); p.code[next] == OP_POP && p.code[next + 1] == OP_ADJUST_STACK
    ensures var len := InstrLength(p.code[i]);
            var height := p.code[i + len + 2];
            var a, b := Run(p, Running(i, s), 3, byZero), Run(q, Running(n, s), 2, byZero);
            if Step(p, Running(i, s), byZero) == Failed then a == b == Failed
            else a == (if height > |s| then Failed else Running(i + len + 3, s[..height])) && b == Running(n + len + 1, s)
  {
    hide Step, Run;
    var len := InstrLength(p.code[i]);
    var out := q.code[n..n + len + 1];
    assert out == p.code[i..i + len] + [OP_POP];
    assert out[..len] == p.code[i..i + len];
    SliceOfSlice(q.code, n, len, len + 1);
    assert out[len] == q.code[n + len];
    SameStep(p, q, i, n, s, byZero);
    StepProducer(p, i, s, byZero);
    RunOne(p, Running(i, s), byZero);
    RunOne(q, Running(n, s), byZero);
    OnFailed(p, byZero);
    OnFailed(q, byZero);
    var st := Step(p, Running(i, s), byZero);
    if st != Failed {
      var v :| st == Running(i + len, s + [v]);
      StepPop(p, i + len, s, v, byZero);
      StepPop(q, n + len, s, v, byZero);
      StepAdjust(p, i + len + 1, s, byZero);
    }
  }

  // ----- copied instructions -----

  /** The constant operand, if the instruction has one, is in the table. */
  ghost predicate ConstantsKnown(p: Program, i: nat)
    requires Whole(p.code, i)
  {
    match Decode(p.code, i)
    case Const(c) => c < |p.constants|
    case BinaryConst(_, c) => c < |p.constants|
    case LocalConst(_, _, c) => c < |p.constants|
    case _ => true
  }

  lemma WellFormedConstants(p: Program, i: nat)
    requires WellFormed(p) && IsStart(p.code, i) && i < |p.code|
    ensures Whole(p.code, i) && ConstantsKnown(p, i)
  {
    hide IsStart;
    assert Whole(p.code, i);
  }

  lemma SameBytes(a: seq<Byte>, b: seq<Byte>, i: nat, n: nat, len: nat)
    requires i + len <= |a| && n + len <= |b| && b[n..n + len] == a[i..i + len]
    ensures len > 0 ==> b[n] == a[i]
    ensures len > 1 ==> b[n + 1] == a[i + 1]
    ensures len > 2 ==> b[n + 2] == a[i + 2]
    ensures len > 3 ==> b[n + 3] == a[i + 3]
    ensures len > 4 ==> b[n + 4] == a[i + 4]
  {
    var x, y := a[i..i + len], b[n..n + len];
    assert len > 0 ==> x[0] == a[i] && y[0] == b[n];
    assert len > 1 ==> x[1] == a[i + 1] && y[1] == b[n + 1];
    assert len > 2 ==> x[2] == a[i + 2] && y[2] == b[n + 2];
    assert len > 3 ==> x[3] == a[i + 3] && y[3] == b[n + 3];
    assert len > 4 ==> x[4] == a[i + 4] && y[4] == b[n + 4];
  }

  lemma SameDecode(a: seq<Byte>, b: seq<Byte>, i: nat, n: nat)
    requires Whole(a, i) && n + InstrLength(a[i]) <= |b|
    requires b[n..n + InstrLength(a[i])] == a[i..i + InstrLength(a[i])]
    ensures Whole(b, n) && b[n] == a[i] && Decode(b, n) == Decode(a, i)
  {
    SameBytes(a, b, i, n, InstrLength(a[i]));
  }

  ghost predicate IsJumpInstr(instr: Instr) {
    instr.Jump? || instr.JumpIf? || instr.Loop? || instr.ForPrep? || instr.ForLoop?
  }

  /** Away from jumps an instruction does the same anywhere, as long as its constants are there. */
  lemma SameExec(instr: Instr, c: seq<Value>, d: seq<Value>, next: int, other: int, s: seq<Value>, byZero: real -> real)
    requires !IsJumpInstr(instr) && c <= d
    requires match instr
             case Const(k) => k < |c|
             case BinaryConst(_, k) => k < |c|
             case LocalConst(_, _, k) => k < |c|
             case _ => true
    ensures Matches(Exec(instr, c, next, s, byZero), next, Exec(instr, d, other, s, byZero), other)
  {
  }

  lemma DecodedJump(code: seq<Byte>, i: nat)
    requires Whole(code, i)
    ensures IsJumpInstr(Decode(code, i)) <==> IsJump(code[i])
  {
  }

  /** A copied instruction that does not jump does the same at its new address. */
  lemma SameStep(p: Program, q: Program, i: nat, n: nat, s: seq<Value>, byZero: real -> real)
    requires Whole(p.code, i) && !IsJump(p.code[i]) && p.constants <= q.constants && ConstantsKnown(p, i)
    requires n + InstrLength(p.code[i]) <= |q.code|
             && q.code[n..n + InstrLength(p.code[i])] == p.code[i..i + InstrLength(p.code[i])]
    ensures Matches(Step(p, Running(i, s), byZero), i + InstrLength(p.code[i]),
                    Step(q, Running(n, s), byZero), n + InstrLength(p.code[i]))
  {
    hide Decode, Exec, InstrLength;
    SameDecode(p.code, q.code, i, n);
    DecodedJump(p.code, i);
    SameExec(Decode(p.code, i), p.constants, q.constants, i + InstrLength(p.code[i]), n + InstrLength(p.code[i]), s, byZero);
  }

  /** A jump whose two outcomes are the next address and its target. */
  lemma JumpExec(code: seq<Byte>, i: nat, c: seq<Value>, s: seq<Value>, byZero: real -> real)
    requires Whole(code, i) && IsJump(code[i])
    ensures var st := Exec(Decode(code, i), c, i + InstrLength(code[i]), s, byZero);
            st == JumpEffect(code[i], JumpSlots(code, i), i + InstrLength(code[i]), JumpTarget(code, i), s)
  {
  }

  function JumpSlots(code: seq<Byte>, i: nat): (nat, nat)
    requires Whole(code, i)
  {
    if code[i] == OP_FOR_PREP || code[i] == OP_FOR_LOOP then (code[i + 1], code[i + 2]) else (0, 0)
  }

  /** What a jump does, given the address it falls through to and the one it leads to. */
  function JumpEffect(op: Byte, slots: (nat, nat), next: int, there: int, s: seq<Value>): State {
    if op == OP_JUMP || op == OP_LOOP then Running(there, s)
    else if op == OP_JUMP_IF_FALSE || op == OP_JUMP_IF_TRUE then
      if s == [] then Failed
      else Running(if Falsey(s[|s| - 1]) == (op == OP_JUMP_IF_FALSE) then there else next, s)
    else if slots.0 >= |s| || slots.1 >= |s| || !s[slots.0].Num? || !s[slots.1].Num? then Failed
    else if op == OP_FOR_PREP then Running(if s[slots.0].n > s[slots.1].n then there else next, s)
    else Running(if s[slots.0].n + 1.0 <= s[slots.1].n then there else next, s[slots.0 := Num(s[slots.0].n + 1.0)])
  }

  /** A copied jump takes the same side, and its other side is the image of the old target. */
  lemma SimJump(p: Program, q: Program, m: seq<int>, i: nat, s: seq<Value>, byZero: real -> real)
    requires |m| == |p.code| && i < |m| && Retargeted(p, q, m, i)
    requires KeepsSlots(p, q, i, m[i])
    requires var next := i + InstrLength(p.code[i]);
             next <= |m| && Image(m, q, next) == m[i] + InstrLength(p.code[i])
    ensures Agree(q, m, Step(p, Running(i, s), byZero), Step(q, Running(m[i], s), byZero))
  {
    hide Decode, Exec, InstrLength;
    var n: nat := m[i];
    JumpExec(p.code, i, p.constants, s, byZero);
    JumpExec(q.code, n, q.constants, s, byZero);
  }

  ghost predicate KeepsSlots(p: Program, q: Program, i: nat, n: nat) {
    Whole(p.code, i) && Whole(q.code, n) && JumpSlots(p.code, i) == JumpSlots(q.code, n)
  }

  lemma CopiedSlots(p: Program, q: Program, index: int, m: seq<int>, i: nat)
    requires |m| == |p.code| && i < |m| && Retargeted(p, q, m, i)
    requires Emits(p, q, index, Copy(InstrLength(p.code[i])), i, m[i])
    ensures KeepsSlots(p, q, i, m[i])
  {
    var op := p.code[i];
    var n: nat := m[i];
    SliceOfSlice(q.code, n, KeptLength(op), InstrLength(op));
    SameBytes(p.code, q.code, i, n, KeptLength(op));
  }

  // ----- one visited place -----

  /** Everything the simulation uses about the code and its translation. */
  ghost predicate Sound(p: Program, q: Program, target: seq<bool>, m: seq<int>, byZero: real -> real) {
    WellFormed(p) && Translates(p, q, target, m, byZero)
  }

  lemma PlaceKnown(p: Program, q: Program, target: seq<bool>, m: seq<int>, i: nat, byZero: real -> real)
    requires Sound(p, q, target, m, byZero) && i < |m| && m[i] >= 0
    ensures |m| == |target| == |p.code| && p.constants <= q.constants == AllConstants(p, target, byZero)
    ensures Visits(p, target, byZero, 0, i)
    ensures IsStart(p.code, i) && Whole(p.code, i) && ConstantsKnown(p, i)
    ensures Laid(p, q, target, m, byZero, i)
    ensures IsCopiedJump(p, target, byZero, i) ==> Retargeted(p, q, m, i)
  {
    AddedToAll(p, target, byZero);
    hide WellFormed, IsStart, Visits, Laid, Retargeted, IsCopiedJump, Whole, ConstantsKnown, MarksTargets, AllConstants;
    StartsAtZero(p.code);
    VisitedStarts(p, target, byZero, 0, i);
    WellFormedConstants(p, i);
  }

  /** The constants of the instructions behind the first. */
  lemma LaterConstants(p: Program, i: nat)
    requires WellFormed(p) && IsStart(p.code, i) && i < |p.code| && Whole(p.code, i)
    ensures p.code[i] == OP_CONSTANT ==> p.code[i + 1] < |p.constants|
    ensures p.code[i] == OP_GET_LOCAL && i + 2 < |p.code| && p.code[i + 2] == OP_CONSTANT ==>
            i + 3 < |p.code| && p.code[i + 3] < |p.constants|
  {
    hide IsStart;
    NextIsStart(p, i);
  }

  /** A folded constant: both push it, if the new code finds it. */
  lemma SimFold(p: Program, q: Program, target: seq<bool>, m: seq<int>, i: nat, s: seq<Value>, byZero: real -> real)
    requires |m| == |target| == |p.code| && i < |m| && Laid(p, q, target, m, byZero, i) && Whole(p.code, i)
    requires q.constants == AllConstants(p, target, byZero) && Visits(p, target, byZero, 0, i)
    requires var r := Choose(p, target, i, byZero); r.FoldBinary? || r.FoldNegate?
    ensures var r := Choose(p, target, i, byZero);
            Agree(q, m, Run(p, Running(i, s), OldSteps(r), byZero), Run(q, Running(m[i], s), NewSteps(r), byZero))
            <==> Harmless(p, target, r, i, s, byZero)
  {
    hide Visits, Whole, Step, Run, InstrLength, FoldIndex, AllConstants;
    var r := Choose(p, target, i, byZero);
    var n: nat, index := m[i], FoldIndex(p, target, byZero, i);
    FoldIndexIn(p, target, byZero, i);
    PushSame(s, r.result, q.constants[index % 0x100]);
    if r.FoldBinary? { SimFoldBinary(p, q, index, r, i, n, s, byZero); }
       else { SimFoldNegate(p, q, index, r, i, n, s, byZero); }
  }

  /** A copied instruction. */
  lemma SimCopy(p: Program, q: Program, target: seq<bool>, m: seq<int>, i: nat, s: seq<Value>, byZero: real -> real)
    requires |m| == |target| == |p.code| && i < |m| && Laid(p, q, target, m, byZero, i) && Whole(p.code, i)
    requires ConstantsKnown(p, i) && p.constants <= q.constants
    requires IsCopiedJump(p, target, byZero, i) ==> Retargeted(p, q, m, i)
    requires Choose(p, target, i, byZero).Copy?
    ensures Agree(q, m, Run(p, Running(i, s), 1, byZero), Run(q, Running(m[i], s), 1, byZero))
  {
    hide Retargeted, Whole, ConstantsKnown, Step, Run, InstrLength, FoldIndex;
    var len := Choose(p, target, i, byZero).len;
    var n: nat := m[i];
    RunOne(p, Running(i, s), byZero);
    RunOne(q, Running(n, s), byZero);
    if IsJump(p.code[i]) {
      CopiedSlots(p, q, FoldIndex(p, target, byZero, i), m, i);
      SimJump(p, q, m, i, s, byZero);
    } else {
      SliceOfSlice(q.code, n, len, len);
      SameStep(p, q, i, n, s, byZero);
    }
  }

  /**
   * One visited place: after the old steps and the new steps the frames agree exactly when the rewrite was
   * harmless for that stack.
   */
  lemma SimPlace(p: Program, q: Program, target: seq<bool>, m: seq<int>, i: nat, s: seq<Value>, byZero: real -> real)
    requires Sound(p, q, target, m, byZero) && i < |m| && m[i] >= 0
    ensures |target| == |p.code| && Whole(p.code, i)
    ensures var r := Choose(p, target, i, byZero);
            Agree(q, m, Run(p, Running(i, s), OldSteps(r), byZero), Run(q, Running(m[i], s), NewSteps(r), byZero))
            <==> Harmless(p, target, r, i, s, byZero)
  {
    hide WellFormed, IsStart, Visits, Retargeted, Whole, ConstantsKnown, Step, Run, Translates, InstrLength, FoldIndex,
      AllConstants;
    PlaceKnown(p, q, target, m, i, byZero);
    LaterConstants(p, i);
    RewriteCovers(p, target, byZero, i);
    var r := Choose(p, target, i, byZero);
    var n: nat, index := m[i], FoldIndex(p, target, byZero, i);
    match r
    case DropAdjust(len) => SimDropAdjust(p, q, index, i, n, s, byZero);
    case DropIdentity =>
      SimDropIdentity(p, i, s, byZero);
      RunOne(q, Running(n, s), byZero);
    case FuseLocal(_) => SimFuseLocal(p, q, index, r, i, n, s, byZero);
    case FoldBinary(_) => SimFold(p, q, target, m, i, s, byZero);
    case FoldNegate(_) => SimFold(p, q, target, m, i, s, byZero);
    case FoldOperand(_) => SimFoldOperand(p, q, index, r, i, n, s, byZero);
    case FuseSet(_) => SimFuseSet(p, q, index, r, i, n, s, byZero);
    case Copy(len) => SimCopy(p, q, target, m, i, s, byZero);
  }
}
