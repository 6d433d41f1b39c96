/** What optimized code is like: no longer than the original, well formed again, and where it may go wrong. */
module OptimizedCode {
  import opened Bytes
  import opened Bytecode
  import opened Peephole
  import opened Layout

  /** From any instruction the rewriting loop reaches the end of the code. */
  lemma {:induction false} ReachesEnd(p: Program, target: seq<bool>, byZero: real -> real, i: nat)
    requires WellFormed(p) && |target| == |p.code| && IsStart(p.code, i) && i <= |p.code|
    ensures Visits(p, target, byZero, i, |p.code|)
    decreases |p.code| - i
  {
    hide WellFormed, IsStart, Choose, Whole;
    if i < |p.code| {
      RewriteCovers(p, target, byZero, i);
      ReachesEnd(p, target, byZero, i + Choose(p, target, i, byZero).Span());
    }
  }

  lemma TranslatesLaid(p: Program, q: Program, target: seq<bool>, m: seq<int>, byZero: real -> real)
    requires WellFormed(p) && Translates(p, q, target, m, byZero)
    ensures |m| == |target| == |p.code| && LaidOut(p, q, target, m, byZero)
  {
    hide WellFormed, IsStart, Visits, Laid, Retargeted, IsCopiedJump, MarksTargets;
    StartsAtZero(p.code);
    ReachesEnd(p, target, byZero, 0);
  }

  /** The optimized code is no longer than the original, and no jump in it reaches further than the one it copies. */
  lemma NeverGrows(p: Program, q: Program, target: seq<bool>, m: seq<int>, byZero: real -> real)
    requires WellFormed(p) && Translates(p, q, target, m, byZero)
    ensures |q.code| <= |p.code| == |m| == |target|
    ensures forall i: nat :: i < |m| && m[i] >= 0 && IsCopiedJump(p, target, byZero, i) ==> JumpShrinks(p, q, m, i)
  {
    hide WellFormed, IsStart, Laid, Retargeted, IsCopiedJump, MarksTargets, Whole, IsJump;
    TranslatesLaid(p, q, target, m, byZero);
    StartsAtZero(p.code);
    ReachesEnd(p, target, byZero, 0);
    Shortened(p, q, target, m, byZero, 0, |m|);
    forall i: nat | i < |m| && m[i] >= 0 && IsCopiedJump(p, target, byZero, i)
      ensures JumpShrinks(p, q, m, i)
    {
      NewDistance(p, q, target, m, byZero, i);
      CopySpan(p, target, byZero, i);
      DistanceOf(p, q, target, m, byZero, i);
    }
  }

  /** The copy of a jump has at most the distance of the original. */
  ghost predicate JumpShrinks(p: Program, q: Program, m: seq<int>, i: nat)
    requires i < |m|
  {
    && Whole(p.code, i) && IsJump(p.code[i]) && m[i] >= 0 && Whole(q.code, m[i]) && q.code[m[i]] == p.code[i]
    && ReadShort(q.code, m[i] + JumpOperand(p.code[i])) <= ReadShort(p.code, i + JumpOperand(p.code[i]))
  }

  lemma DistanceOf(p: Program, q: Program, target: seq<bool>, m: seq<int>, byZero: real -> real, i: nat)
    requires |m| == |p.code| && i < |m| && Retargeted(p, q, m, i)
    requires var t := JumpTarget(p.code, i);
             && 0 <= t < |m|
             && 0 <= JumpSign(p.code[i]) * (m[t] - (m[i] + InstrLength(p.code[i]))) <= ReadShort(p.code, i + JumpOperand(p.code[i]))
    ensures JumpShrinks(p, q, m, i)
  {
    hide ReadShort, InstrLength;
  }

  // ----- well-formedness of the result -----

  /** The instructions of a rewrite's output start at its first byte and, for a dropped adjustment, at the pop. */
  ghost predicate EmittedStart(r: Rewrite, n: int, x: nat) {
    (x == n && r.Size() > 0) || (r.DropAdjust? && x == n + r.len)
  }

  ghost predicate Emitting(p: Program, target: seq<bool>, m: seq<int>, byZero: real -> real, j: nat, x: nat)
    requires |target| == |p.code| == |m|
  {
    j < |m| && m[j] >= 0 && Whole(p.code, j) && EmittedStart(Choose(p, target, j, byZero), m[j], x)
  }

  /** Every instruction of the optimized code comes from a visited place. */
  lemma {:induction false} StartsAreEmitted(p: Program, q: Program, target: seq<bool>, m: seq<int>,
                                            byZero: real -> real, i: nat, x: nat)
    returns (j: nat)
    requires LaidOut(p, q, target, m, byZero) && |target| == |p.code| == |m| && i <= |m|
             && Visits(p, target, byZero, 0, i)
    requires Image(m, q, i) >= 0 && Reaches(q.code, Image(m, q, i), x) && x < |q.code|
    ensures Emitting(p, target, m, byZero, j, x)
    decreases |m| - i
  {
    hide LaidOut, Visits, Choose, Whole, IsStart, InstrLength, Laid;
    if i == |m| {
      assert false;
    } else {
      ImagePlaced(p, q, target, m, byZero, i);
      LaidAt(p, q, target, m, byZero, i);
      var r := Choose(p, target, i, byZero);
      var n: nat := m[i];
      if EmittedStart(r, n, x) {
        j := i;
      } else {
        EmittedInstructions(p, q, target, m, byZero, i);
        SkipEmitted(q.code, r, n, x);
        ImageAfter(p, q, target, m, byZero, i);
        SpanPositive(p, target, byZero, i);
        j := StartsAreEmitted(p, q, target, m, byZero, i + r.Span(), x);
      }
    }
  }

  lemma ImagePlaced(p: Program, q: Program, target: seq<bool>, m: seq<int>, byZero: real -> real, i: nat)
    requires LaidOut(p, q, target, m, byZero) && i < |m| && Visits(p, target, byZero, 0, i)
    ensures m[i] >= 0
  {
  }

  lemma SpanPositive(p: Program, target: seq<bool>, byZero: real -> real, i: nat)
    requires |target| == |p.code| && Whole(p.code, i)
    ensures Choose(p, target, i, byZero).Span() > 0
  {
  }

  /** The bytes at `n` are the whole instructions a rewrite of this shape emits. */
  ghost predicate Instructions(code: seq<Byte>, r: Rewrite, n: nat) {
    && n + r.Size() <= |code|
    && (r.Size() > 0 ==>
          && Whole(code, n)
          && (if r.DropAdjust? then InstrLength(code[n]) == r.len && Whole(code, n + r.len)
               && InstrLength(code[n + r.len]) == 1
              else InstrLength(code[n]) == r.Size()))
  }

  lemma EmittedInstructions(p: Program, q: Program, target: seq<bool>, m: seq<int>, byZero: real -> real, i: nat)
    requires LaidOut(p, q, target, m, byZero) && |target| == |p.code| == |m| && i < |m|
             && Laid(p, q, target, m, byZero, i)
    ensures Whole(p.code, i) && Instructions(q.code, Choose(p, target, i, byZero), m[i])
  {
    hide LaidOut, Laid;
    EmitsOf(p, q, target, m, byZero, i);
    var r := Choose(p, target, i, byZero);
    var n: nat := m[i];
    var out := q.code[n..n + r.Size()];
    if r.Size() > 0 {
      assert out[0] == q.code[n];
      if r.DropAdjust? {
        assert out[r.len] == q.code[n + r.len];
        assert p.code[i..i + r.len][0] == p.code[i];
      } else if r.Copy? {
        var kept := KeptLength(p.code[i]);
        assert out[..kept][0] == p.code[i..i + kept][0];
      }
    }
  }

  lemma EmitsOf(p: Program, q: Program, target: seq<bool>, m: seq<int>, byZero: real -> real, i: nat)
    requires |target| == |p.code| == |m| && i < |m| && Laid(p, q, target, m, byZero, i)
    ensures m[i] >= 0 && Whole(p.code, i)
            && Emits(p, q, FoldIndex(p, target, byZero, i), Choose(p, target, i, byZero), i, m[i])
  {
  }

  /** Past the instructions of one rewrite, decoding goes on behind them. */
  lemma SkipEmitted(code: seq<Byte>, r: Rewrite, n: nat, x: nat)
    requires Instructions(code, r, n) && Reaches(code, n, x) && !EmittedStart(r, n, x)
    ensures Reaches(code, n + r.Size(), x)
  {
    hide InstrLength;
  }

  /** A visited place's image is the start of an instruction, and so is every instruction start within it. */
  lemma {:induction false} ImagesStart(p: Program, q: Program, target: seq<bool>, m: seq<int>, byZero: real -> real,
                                       i: nat, j: nat)
    requires LaidOut(p, q, target, m, byZero) && |target| == |p.code| == |m| && i <= j <= |m|
    requires Visits(p, target, byZero, 0, i) && Visits(p, target, byZero, i, j)
    requires Image(m, q, i) >= 0 && IsStart(q.code, Image(m, q, i))
    ensures Image(m, q, j) >= 0 && IsStart(q.code, Image(m, q, j))
    decreases j - i
  {
    hide LaidOut, Choose, Whole, InstrLength, Laid, IsStart;
    if i < j {
      ImagePlaced(p, q, target, m, byZero, i);
      LaidAt(p, q, target, m, byZero, i);
      EmittedInstructions(p, q, target, m, byZero, i);
      ImageAfter(p, q, target, m, byZero, i);
      SpanPositive(p, target, byZero, i);
      var r := Choose(p, target, i, byZero);
      OverEmitted(q.code, r, m[i]);
      VisitsForward(p, target, byZero, i + r.Span(), j);
      ImagesStart(p, q, target, m, byZero, i + r.Span(), j);
    }
  }

  lemma OverEmitted(code: seq<Byte>, r: Rewrite, n: nat)
    requires Instructions(code, r, n) && IsStart(code, n)
    ensures IsStart(code, n + r.Size())
  {
    hide InstrLength;
    var end := n + r.Size();
    assert Reaches(code, end, end);
    if r.DropAdjust? && r.Size() > 0 {
      assert Reaches(code, n + r.len, end);
    }
    assert Reaches(code, n, end);
    ReachesOn(code, 0, n, end);
  }

  /** The constant operands of the instruction at `x` are in the table. */
  ghost predicate OperandsIn(q: Program, x: nat)
    requires Whole(q.code, x)
  {
    && (q.code[x] in {OP_CONSTANT, OP_ADD_CONST, OP_SUB_CONST, OP_MUL_CONST, OP_DIV_CONST} ==>
         q.code[x + 1] < |q.constants|)
    && (q.code[x] in {OP_INC_LOCAL, OP_SUB_LOCAL_CONST, OP_MUL_LOCAL_CONST, OP_DIV_LOCAL_CONST} ==>
         q.code[x + 2] < |q.constants|)
  }

  lemma WellFormedOperands(p: Program, i: nat)
    requires WellFormed(p) && IsStart(p.code, i) && i < |p.code|
    ensures Whole(p.code, i) && OperandsIn(p, i)
  {
    hide IsStart, InstrLength;
  }

  lemma CopiedOperands(p: Program, q: Program, i: nat, n: nat)
    requires Whole(p.code, i) && OperandsIn(p, i) && Whole(q.code, n) && p.constants <= q.constants
    requires n + InstrLength(p.code[i]) <= |q.code| && i + InstrLength(p.code[i]) <= |p.code|
    requires !IsJump(p.code[i]) && q.code[n..n + InstrLength(p.code[i])] == p.code[i..i + InstrLength(p.code[i])]
    ensures q.code[n] == p.code[i] && OperandsIn(q, n)
  {
    var a, b := p.code[i..i + InstrLength(p.code[i])], q.code[n..n + InstrLength(p.code[i])];
    assert a[0] == p.code[i] && b[0] == q.code[n];
    if InstrLength(p.code[i]) > 1 { assert a[1] == p.code[i + 1] && b[1] == q.code[n + 1]; }
    if InstrLength(p.code[i]) > 2 { assert a[2] == p.code[i + 2] && b[2] == q.code[n + 2]; }
  }

  /** What an emitted instruction may rely on: its constants, and no jumps but the copied ones. */
  lemma EmittedOperands(p: Program, q: Program, target: seq<bool>, m: seq<int>, byZero: real -> real, i: nat, x: nat)
    requires LaidOut(p, q, target, m, byZero) && |target| == |p.code| == |m|
             && q.constants == AllConstants(p, target, byZero)
    requires Emitting(p, target, m, byZero, i, x)
    ensures Whole(q.code, x) && OperandsIn(q, x)
    ensures IsJump(q.code[x]) ==> x == m[i] && IsCopiedJump(p, target, byZero, i)
  {
    hide *;
    AddedToAll(p, target, byZero);
    EmittingIs(p, target, m, byZero, i, x);
    LaidAt(p, q, target, m, byZero, i);
    EmittedInstructions(p, q, target, m, byZero, i);
    EmitsOf(p, q, target, m, byZero, i);
    LaidWellFormed(p, q, target, m, byZero);
    WellFormedOperands(p, i);
    var r := Choose(p, target, i, byZero);
    var n: nat := m[i];
    ShapeOf(p, target, byZero, i);
    match r
    case DropAdjust(len) =>
      DroppedOperands(p, q, FoldIndex(p, target, byZero, i), i, n);
      PopIsNoJump(q, n + len);
    case FoldBinary(_) => FoldedOperand(p, q, target, byZero, i, n); ConstantIsNoJump();
    case FoldNegate(_) => FoldedOperand(p, q, target, byZero, i, n); ConstantIsNoJump();
    case Copy(len) => CopyOperands(p, q, FoldIndex(p, target, byZero, i), i, n); CopiesJump(p, target, byZero, i);
    case DropIdentity =>
    case _ => FusedOperands(p, q, target, byZero, i, n);
  }

  lemma EmittingIs(p: Program, target: seq<bool>, m: seq<int>, byZero: real -> real, j: nat, x: nat)
    requires |target| == |p.code| == |m| && Emitting(p, target, m, byZero, j, x)
    ensures j < |m| && m[j] >= 0 && Whole(p.code, j)
    ensures var r := Choose(p, target, j, byZero);
            !r.DropIdentity? && (x == m[j] || (r.DropAdjust? && x == m[j] + r.len))
  {
    hide Choose, Whole;
  }

  lemma ShapeOf(p: Program, target: seq<bool>, byZero: real -> real, i: nat)
    requires |target| == |p.code| && Whole(p.code, i)
    ensures var r := Choose(p, target, i, byZero);
            && (r.DropAdjust? ==> r == DropAdjust(InstrLength(p.code[i])) && IsProducer(p.code[i]))
            && (r.Copy? ==> r == Copy(InstrLength(p.code[i])))
  {
    hide InstrLength, IsProducer;
  }

  lemma PopIsNoJump(q: Program, x: nat)
    requires x < |q.code| && q.code[x] == OP_POP
    ensures !IsJump(q.code[x])
  {
  }

  lemma ConstantIsNoJump()
    ensures !IsJump(OP_CONSTANT)
  {
  }

  lemma CopiesJump(p: Program, target: seq<bool>, byZero: real -> real, i: nat)
    requires |target| == |p.code| && Whole(p.code, i) && Choose(p, target, i, byZero).Copy?
    ensures IsJump(p.code[i]) ==> IsCopiedJump(p, target, byZero, i)
  {
    hide Choose, Whole, IsJump;
  }

  /** The fused and folded forms name a constant the original named. */
  lemma FusedOperands(p: Program, q: Program, target: seq<bool>, byZero: real -> real, i: nat, n: nat)
    requires WellFormed(p) && |target| == |p.code| && IsStart(p.code, i) && i < |p.code| && Whole(p.code, i)
             && p.constants <= q.constants
    requires var r := Choose(p, target, i, byZero);
             && (r.FuseLocal? || r.FoldOperand? || r.FuseSet?)
             && Emits(p, q, FoldIndex(p, target, byZero, i), r, i, n) && Instructions(q.code, r, n)
    ensures Whole(q.code, n) && OperandsIn(q, n) && !IsJump(q.code[n])
  {
    hide WellFormed, IsStart, FoldIndex;
    OperandsKnown(p, i);
    var r := Choose(p, target, i, byZero);
    var out := q.code[n..n + r.Size()];
    assert out[0] == q.code[n] && out[1] == q.code[n + 1] && (r.FuseLocal? ==> out[2] == q.code[n + 2]);
  }

  lemma FoldedOperand(p: Program, q: Program, target: seq<bool>, byZero: real -> real, i: nat, n: nat)
    requires |target| == |p.code| && Whole(p.code, i) && Visits(p, target, byZero, 0, i)
             && q.constants == AllConstants(p, target, byZero)
    requires var r := Choose(p, target, i, byZero);
             (r.FoldBinary? || r.FoldNegate?) && Emits(p, q, FoldIndex(p, target, byZero, i), r, i, n)
    ensures Whole(q.code, n) && OperandsIn(q, n) && q.code[n] == OP_CONSTANT
  {
    hide Choose, AllConstants, FoldIndex, Visits;
    FoldIndexIn(p, target, byZero, i);
    var out := q.code[n..n + 2];
    assert out[0] == q.code[n] && out[1] == q.code[n + 1];
  }

  lemma DroppedOperands(p: Program, q: Program, index: int, i: nat, n: nat)
    requires Whole(p.code, i) && OperandsIn(p, i) && p.constants <= q.constants && IsProducer(p.code[i])
    requires var r := DropAdjust(InstrLength(p.code[i])); Emits(p, q, index, r, i, n) && Instructions(q.code, r, n)
    ensures var len := InstrLength(p.code[i]);
            && Whole(q.code, n) && OperandsIn(q, n) && !IsJump(q.code[n])
            && n + len < |q.code| && q.code[n + len] == OP_POP && Whole(q.code, n + len) && OperandsIn(q, n + len)
  {
    var len := InstrLength(p.code[i]);
    var out := q.code[n..n + len + 1];
    SliceOf(q.code, n, len, len + 1);
    assert out[..len] == p.code[i..i + len];
    CopiedOperands(p, q, i, n);
    assert out[len] == q.code[n + len];
  }

  lemma CopyOperands(p: Program, q: Program, index: int, i: nat, n: nat)
    requires Whole(p.code, i) && OperandsIn(p, i) && p.constants <= q.constants
    requires var r := Copy(InstrLength(p.code[i])); Emits(p, q, index, r, i, n) && Instructions(q.code, r, n)
    ensures Whole(q.code, n) && OperandsIn(q, n) && q.code[n] == p.code[i]
  {
    var len, kept := InstrLength(p.code[i]), KeptLength(p.code[i]);
    var out := q.code[n..n + len];
    SliceOf(q.code, n, kept, len);
    if IsJump(p.code[i]) {
      assert out[..kept][0] == p.code[i..i + kept][0];
    } else {
      CopiedOperands(p, q, i, n);
    }
  }

  lemma SliceOf(code: seq<Byte>, n: nat, k: nat, len: nat)
    requires k <= len && n + len <= |code|
    ensures code[n..n + k] == code[n..n + len][..k]
  {
  }

  lemma LaidWellFormed(p: Program, q: Program, target: seq<bool>, m: seq<int>, byZero: real -> real)
    requires LaidOut(p, q, target, m, byZero)
    ensures WellFormed(p)
  {
  }

  /** A jump target's rewrite emits something, so its image is an instruction. */
  lemma TargetEmits(p: Program, target: seq<bool>, byZero: real -> real, t: nat)
    requires |target| == |p.code| && t < |p.code| && target[t] && Whole(p.code, t)
    ensures Choose(p, target, t, byZero).Size() > 0
  {
  }

  lemma JumpLandsInside(p: Program, q: Program, target: seq<bool>, m: seq<int>, byZero: real -> real, i: nat)
    requires LaidOut(p, q, target, m, byZero) && |target| == |p.code| == |m| && i < |m| && m[i] >= 0
    requires IsCopiedJump(p, target, byZero, i) && Retargeted(p, q, m, i)
    ensures 0 <= JumpTarget(q.code, m[i]) < |q.code| && IsStart(q.code, JumpTarget(q.code, m[i]))
  {
    hide LaidOut, Choose, InstrLength, JumpTarget, IsStart, Visits, Emitted;
    LaidAt(p, q, target, m, byZero, i);
    LaidWellFormed(p, q, target, m, byZero);
    TargetVisited(p, q, target, m, byZero, i);
    var t: nat := JumpTarget(p.code, i);
    LaidAt(p, q, target, m, byZero, t);
    TargetMarked(p, q, target, m, byZero, i, t);
    TargetEmits(p, target, byZero, t);
    AllImagesStart(p, q, target, m, byZero, t);
  }

  lemma TargetMarked(p: Program, q: Program, target: seq<bool>, m: seq<int>, byZero: real -> real, i: nat, t: nat)
    requires LaidOut(p, q, target, m, byZero) && |target| == |p.code| && t < |target|
    requires IsStart(p.code, i) && Whole(p.code, i) && IsJump(p.code[i]) && JumpTarget(p.code, i) == t
    ensures target[t]
  {
    assert LeadsTo(p.code, i, t);
  }

  lemma AllImagesStart(p: Program, q: Program, target: seq<bool>, m: seq<int>, byZero: real -> real, j: nat)
    requires LaidOut(p, q, target, m, byZero) && |target| == |p.code| == |m| && j <= |m|
             && Visits(p, target, byZero, 0, j)
    ensures Image(m, q, j) >= 0 && IsStart(q.code, Image(m, q, j))
  {
    hide WellFormed, Laid, Choose, Whole, MarksTargets;
    ImagesStart(p, q, target, m, byZero, 0, j);
  }

  /** Optimized code is well formed again: whole instructions, known constants, jumps to instructions. */
  lemma OptimizedIsWellFormed(p: Program, q: Program, target: seq<bool>, m: seq<int>, byZero: real -> real)
    requires WellFormed(p) && Translates(p, q, target, m, byZero)
    ensures WellFormed(q)
  {
    hide LaidOut, Laid, Retargeted, IsCopiedJump, Choose, Visits, IsStart, InstrLength, JumpTarget, IsJump, Emitting;
    TranslatesLaid(p, q, target, m, byZero);
    StartsAtZero(p.code);
    ReachesEnd(p, target, byZero, 0);
    AllImagesStart(p, q, target, m, byZero, |m|);
    forall x: nat | IsStart(q.code, x) && x < |q.code|
      ensures Whole(q.code, x) && OperandsIn(q, x)
      ensures IsJump(q.code[x]) ==> 0 <= JumpTarget(q.code, x) < |q.code| && IsStart(q.code, JumpTarget(q.code, x))
    {
      StartIsFine(p, q, target, m, byZero, x);
    }
  }

  lemma StartIsFine(p: Program, q: Program, target: seq<bool>, m: seq<int>, byZero: real -> real, x: nat)
    requires LaidOut(p, q, target, m, byZero) && Translates(p, q, target, m, byZero)
    requires IsStart(q.code, x) && x < |q.code|
    ensures Whole(q.code, x) && OperandsIn(q, x)
    ensures IsJump(q.code[x]) ==> 0 <= JumpTarget(q.code, x) < |q.code| && IsStart(q.code, JumpTarget(q.code, x))
  {
    hide LaidOut, Laid, Retargeted, IsCopiedJump, Choose, InstrLength, JumpTarget, IsJump, WellFormed, MarksTargets;
    var j := StartsAreEmitted(p, q, target, m, byZero, 0, x);
    EmittedOperands(p, q, target, m, byZero, j, x);
    if IsJump(q.code[x]) {
      JumpLandsInside(p, q, target, m, byZero, j);
    }
  }
}
