/** `optimize_chunk`: marking jump targets, rewriting in one forward pass, patching the jumps. */
module Optimizer {
  import opened Bytes
  import opened Bytecode
  import opened Peephole
  import opened Layout
  import opened Equivalence
  import opened OptimizedCode

  // ----- marking -----

  ghost predicate MarkedBelow(code: seq<Byte>, i: nat, t: nat) {
    exists j: nat :: j < i && LeadsTo(code, j, t)
  }

  lemma MarkStep(p: Program, i: nat, t: nat)
    requires WellFormed(p) && IsStart(p.code, i) && i < |p.code|
    ensures Whole(p.code, i)
    ensures MarkedBelow(p.code, i + InstrLength(p.code[i]), t) <==> MarkedBelow(p.code, i, t) || LeadsTo(p.code, i, t)
  {
    hide LeadsTo;
    var next := i + InstrLength(p.code[i]);
    NextIsStart(p, i);
    if MarkedBelow(p.code, next, t) {
      var j: nat :| j < next && LeadsTo(p.code, j, t);
      OnlyStart(p, i, j, t);
    }
  }

  lemma OnlyStart(p: Program, i: nat, j: nat, t: nat)
    requires IsStart(p.code, i) && Whole(p.code, i) && LeadsTo(p.code, j, t)
    ensures i < j ==> j >= i + InstrLength(p.code[i])
  {
    hide InstrLength;
    if i < j {
      NextStart(p.code, 0, i, j);
    }
  }

  /** The first loop: marks exactly the offsets some jump leads to. */
  method MarkJumpTargets(code: seq<Byte>, ghost p: Program) returns (isJumpTarget: array<bool>)
    requires WellFormed(p) && p.code == code
    ensures fresh(isJumpTarget) && isJumpTarget.Length == |code| && MarksTargets(code, isJumpTarget[..])
  {
    hide WellFormed, IsStart, LeadsTo, MarkedBelow;
    isJumpTarget := new bool[|code|](_ => false);
    var i: nat := 0;
    StartsAtZero(code);
    NothingMarked(code);
    while i < |code|
      invariant i <= |code| && IsStart(code, i)
      invariant forall t: nat :: t < |code| ==> (isJumpTarget[t] <==> MarkedBelow(code, i, t))
    {
      NextIsStart(p, i);
      forall t: nat
        ensures MarkedBelow(code, i + InstrLength(code[i]), t) <==> MarkedBelow(code, i, t) || LeadsTo(code, i, t)
      {
        MarkStep(p, i, t);
      }
      JumpLeads(code, i);
      if IsJump(code[i]) {
        var target := JumpTarget(code, i);
        if 0 <= target < |code| {
          isJumpTarget[target] := true;
        }
      }
      assert forall t: nat :: t < |code| ==> (isJumpTarget[t] <==> MarkedBelow(code, i, t) || LeadsTo(code, i, t));
      i := i + InstrLength(code[i]);
    }
    AllMarked(p, isJumpTarget[..]);
  }

  lemma NothingMarked(code: seq<Byte>)
    ensures forall t: nat :: !MarkedBelow(code, 0, t)
  {
  }

  lemma JumpLeads(code: seq<Byte>, i: nat)
    requires IsStart(code, i) && Whole(code, i)
    ensures forall t: nat :: LeadsTo(code, i, t) <==> IsJump(code[i]) && JumpTarget(code, i) == t
  {
  }

  lemma AllMarked(p: Program, target: seq<bool>)
    requires |target| == |p.code|
    requires forall t: nat :: t < |p.code| ==> (target[t] <==> MarkedBelow(p.code, |p.code|, t))
    ensures MarksTargets(p.code, target)
  {
    forall t: nat | t < |p.code|
      ensures IsTarget(p.code, t) <==> MarkedBelow(p.code, |p.code|, t)
    {
      if IsTarget(p.code, t) {
        var j: nat :| LeadsTo(p.code, j, t);
      }
    }
  }

  lemma Consequences(p: Program, q: Program, target: seq<bool>, m: seq<int>, byZero: real -> real)
    requires WellFormed(p) && Translates(p, q, target, m, byZero)
    ensures WellFormed(q) && |q.code| <= |p.code|
    ensures SameRuns(p, q, target, byZero)
  {
    hide *;
    OptimizedIsWellFormed(p, q, target, m, byZero);
    NeverGrows(p, q, target, m, byZero);
    TranslationRuns(p, q, target, m, byZero);
  }

  class Chunk {
    var code: seq<Byte>
    var lines: seq<int>
    var constants: seq<Value>

    /** `fold_binary_numbers`: the index of the folded constant, if both operands are numbers. */
    method FoldBinaryNumbers(offset: nat, byZero: real -> real) returns (folded: bool, outConst: nat)
      requires offset + 4 < |code| && code[offset + 1] < |constants| && code[offset + 3] < |constants|
      modifies `constants
      ensures folded <==> IsArith(code[offset + 4]) && old(constants[code[offset + 1]]).Num?
                          && old(constants[code[offset + 3]]).Num?
      ensures !folded ==> constants == old(constants)
      ensures folded ==>
        && constants == old(constants) + [Num(Apply(ArithOf(code[offset + 4]), old(constants[code[offset + 1]]).n,
                                                    old(constants[code[offset + 3]]).n, byZero))]
        && outConst == |old(constants)|
      ensures folded ==>
        var a, b, op := old(constants[code[offset + 1]]).n, old(constants[code[offset + 3]]).n, code[offset + 4];
        && (op == OP_ADD ==> constants == old(constants) + [Num(a + b)])
        && (op == OP_SUBTRACT ==> constants == old(constants) + [Num(a - b)])
        && (op == OP_MULTIPLY ==> constants == old(constants) + [Num(a * b)])
        && (op == OP_DIVIDE ==> constants == old(constants) + [Num(if b == 0.0 then byZero(a) else a / b)])
    {
      if !IsArith(code[offset + 4]) {
        return false, 0;
      }
      var v1, v2 := constants[code[offset + 1]], constants[code[offset + 3]];
      if !v1.Num? || !v2.Num? {
        return false, 0;
      }
      constants := constants + [Num(Apply(ArithOf(code[offset + 4]), v1.n, v2.n, byZero))];
      return true, |constants| - 1;
    }

    /** `fold_unary_number` */
    method FoldUnaryNumber(offset: nat) returns (folded: bool, outConst: nat)
      requires offset + 2 < |code| && code[offset + 1] < |constants|
      modifies `constants
      ensures folded <==> code[offset + 2] == OP_NEGATE && old(constants[code[offset + 1]]).Num?
      ensures !folded ==> constants == old(constants)
      ensures folded ==> constants == old(constants) + [Num(-old(constants[code[offset + 1]]).n)]
                         && outConst == |old(constants)|
    {
      if code[offset + 2] != OP_NEGATE {
        return false, 0;
      }
      var v := constants[code[offset + 1]];
      if !v.Num? {
        return false, 0;
      }
      constants := constants + [Num(-v.n)];
      return true, |constants| - 1;
    }

    /** The dropped, fused and folded forms that do not touch the constant table; tried first. */
    method DropOrFuse(isJumpTarget: array<bool>, i: nat, ghost p: Program, ghost byZero: real -> real)
      returns (done: bool, next: nat, out: seq<Byte>)
      requires WellFormed(p) && p.code == code && p.constants <= constants
      requires isJumpTarget.Length == |code| && IsStart(code, i) && i < |code|
      ensures Whole(code, i)
      ensures done <==> DropsAdjust(code, isJumpTarget[..], i) || DropsIdentity(p, isJumpTarget[..], i)
                        || FusesLocal(p, isJumpTarget[..], i)
      ensures done ==> Rewritten(p, |constants|, isJumpTarget[..], byZero, i, next, out)
    {
      hide WellFormed, IsStart;
      OperandsKnown(p, i);
      RewriteCovers(p, isJumpTarget[..], byZero, i);
      next, out := 0, [];
      if IsProducer(code[i]) {
        var len := InstrLength(code[i]);
        var pop := i + len;
        if pop < |code| && code[pop] == OP_POP {
          if pop + 1 < |code| && code[pop + 1] == OP_ADJUST_STACK {
            if !isJumpTarget[i] && !isJumpTarget[pop] && !isJumpTarget[pop + 1] {
              return true, pop + 3, code[i..i + len] + [OP_POP];
            }
          }
        }
      }
      if i + 2 < |code| && code[i] == OP_CONSTANT && IsArith(code[i + 2]) {
        var v := constants[code[i + 1]];
        if v.Num? && IsIdentity(code[i + 2], v.n) && !isJumpTarget[i] && !isJumpTarget[i + 2] {
          return true, i + 3, [];
        }
      }
      if i + 6 < |code| && code[i] == OP_GET_LOCAL && code[i + 2] == OP_CONSTANT && code[i + 5] == OP_SET_LOCAL
         && IsArith(code[i + 4]) && code[i + 1] == code[i + 6]
         && (code[i + 4] != OP_ADD || constants[code[i + 3]].Num?)
         && !isJumpTarget[i + 2] && !isJumpTarget[i + 4] && !isJumpTarget[i + 5] {
        return true, i + 7, [LocalOp(code[i + 4]), code[i + 1], code[i + 3]];
      }
      return false, 0, [];
    }

    /** Everything else: folding constants (which adds to the table first), operand folding, set fusion, copying. */
    method FoldOrCopy(isJumpTarget: array<bool>, i: nat, at: nat, ghost p: Program, byZero: real -> real)
      returns (next: nat, out: seq<Byte>, patch: seq<JumpPatch>)
      requires WellFormed(p) && p.code == code && p.constants <= constants
      requires isJumpTarget.Length == |code| && IsStart(code, i) && i < |code|
      requires !DropsAdjust(code, isJumpTarget[..], i) && !DropsIdentity(p, isJumpTarget[..], i)
               && !FusesLocal(p, isJumpTarget[..], i)
      modifies `constants
      ensures constants == old(constants) + AddedConstant(p, isJumpTarget[..], i, byZero)
      ensures Rewritten(p, old(|constants|), isJumpTarget[..], byZero, i, next, out)
      ensures patch == if IsCopiedJump(p, isJumpTarget[..], byZero, i) then [PatchFor(code, i, at)] else []
    {
      hide WellFormed, IsStart;
      OperandsKnown(p, i);
      RewriteCovers(p, isJumpTarget[..], byZero, i);
      if i + 4 < |code| && code[i] == OP_CONSTANT && code[i + 2] == OP_CONSTANT {
        var folded, newConst := FoldBinaryNumbers(i, byZero);
        if folded {
          if !isJumpTarget[i + 2] && !isJumpTarget[i + 4] {
            return i + 5, [OP_CONSTANT, newConst % 0x100], [];
          }
        }
      }
      if i + 2 < |code| && code[i] == OP_CONSTANT {
        var folded, newConst := FoldUnaryNumber(i);
        if folded {
          if !isJumpTarget[i + 2] {
            return i + 3, [OP_CONSTANT, newConst % 0x100], [];
          }
        }
      }
      if i + 2 < |code| && code[i] == OP_CONSTANT && IsArith(code[i + 2]) && !isJumpTarget[i] && !isJumpTarget[i + 2] {
        return i + 3, [ConstOp(code[i + 2]), code[i + 1]], [];
      }
      if i + 2 < |code| && IsArith(code[i]) && code[i + 1] == OP_SET_LOCAL && !isJumpTarget[i] && !isJumpTarget[i + 1] {
        return i + 3, [SetOp(code[i]), code[i + 2]], [];
      }
      CopyEmitted(p, old(|constants|), i);
      patch := if IsJump(code[i]) then [PatchFor(code, i, at)] else [];
      return i + InstrLength(code[i]), code[i..i + InstrLength(code[i])], patch;
    }

    /** One turn of the rewriting loop. */
    method RewriteAt(isJumpTarget: array<bool>, i: nat, at: nat, ghost p: Program, byZero: real -> real)
      returns (next: nat, out: seq<Byte>, patch: seq<JumpPatch>)
      requires WellFormed(p) && p.code == code && p.constants <= constants
      requires isJumpTarget.Length == |code| && IsStart(code, i) && i < |code|
      modifies `constants
      ensures Whole(code, i) && constants == old(constants) + AddedConstant(p, isJumpTarget[..], i, byZero)
      ensures Rewritten(p, old(|constants|), isJumpTarget[..], byZero, i, next, out)
      ensures patch == if IsCopiedJump(p, isJumpTarget[..], byZero, i) then [PatchFor(code, i, at)] else []
    {
      hide WellFormed, IsStart, Rewritten, DropsAdjust, DropsIdentity, FusesLocal;
      var done;
      done, next, out := DropOrFuse(isJumpTarget, i, p, byZero);
      patch := [];
      if !done {
        next, out, patch := FoldOrCopy(isJumpTarget, i, at, p, byZero);
      }
    }

    /** The rewriting loop over the whole chunk. */
    method RewriteAll(isJumpTarget: array<bool>, ghost p: Program, byZero: real -> real)
      returns (newCode: seq<Byte>, newLines: seq<int>, oldToNew: array<int>, patches: seq<JumpPatch>)
      requires WellFormed(p) && p == Program(code, constants) && |lines| == |code| == isJumpTarget.Length
      modifies `constants
      ensures fresh(oldToNew) && oldToNew.Length == |code|
      ensures LaidUpTo(p, Program(newCode, constants), isJumpTarget[..], oldToNew[..], byZero)
      ensures Recorded(p, isJumpTarget[..], oldToNew[..], byZero, patches)
      ensures |newLines| == |newCode| && LinesFollow(p, isJumpTarget[..], oldToNew[..], byZero, lines, newLines)
      ensures constants == AllConstants(p, isJumpTarget[..], byZero)
    {
      hide *;
      oldToNew := new int[|code|](_ => -1);
      newCode, newLines, patches := [], [], [];
      ghost var target := isJumpTarget[..];
      ghost var m: seq<int> := [];
      var i: nat := 0;
      NothingLaid(p, target, lines, byZero);
      assert constants + AddedFrom(p, target, byZero, 0) ==
             AllConstants(p, target, byZero) by { AllIs(p, target, byZero); }
      while i < |code|
        invariant i == |m| <= |code| && m == oldToNew[..i] && target == isJumpTarget[..]
        invariant forall k :: i <= k < |code| ==> oldToNew[k] == -1
        invariant p.constants <= constants && |newLines| == |newCode|
        invariant LaidUpTo(p, Program(newCode, constants), target, m, byZero)
        invariant Recorded(p, target, m, byZero, patches)
        invariant LinesFollow(p, target, m, byZero, lines, newLines)
        invariant constants + AddedFrom(p, target, byZero, i) == AllConstants(p, target, byZero)
      {
        ghost var q := Program(newCode, constants);
        LaidStart(p, q, target, m, byZero);
        oldToNew[i] := |newCode|;
        var next, out, patch := RewriteAt(isJumpTarget, i, |newCode|, p, byZero);
        IndexIs(p, target, byZero, i, q.constants);
        RewrittenSize(p, |q.constants|, target, byZero, i, next, out);
        LayOn(p, q, constants, target, m, byZero, next, out);
        RecordOn(p, target, m, byZero, patches, |newCode|, next, patch);
        LinesOn(p, target, m, byZero, lines, newLines, next, |out|);
        AddedOn(p, target, byZero, i, next, p.constants, q.constants, constants);
        m := Extended(m, |newCode|, next);
        newCode := newCode + out;
        var line := lines[i];
        newLines := newLines + seq(|out|, _ => line);
        patches := patches + patch;
        i := next;
      }
      AddedEnd(p, target, byZero, i);
      assert oldToNew[..] == m;
    }

    /** The last loop: writes the new distance into every recorded jump. */
    method PatchJumps(laid: seq<Byte>, patches: seq<JumpPatch>, oldToNew: array<int>, ghost p: Program,
                      ghost target: seq<bool>, byZero: real -> real)
      returns (newCode: seq<Byte>)
      requires p.code == code && LaidOut(p, Program(laid, constants), target, oldToNew[..], byZero)
      requires Recorded(p, target, oldToNew[..], byZero, patches)
      ensures |newCode| == |laid| && LaidOut(p, Program(newCode, constants), target, oldToNew[..], byZero)
      ensures oldToNew.Length == |code|
      ensures forall k :: 0 <= k < |patches| ==>
                patches[k].oldOffset < oldToNew.Length && Retargeted(p, Program(newCode, constants), oldToNew[..], patches[k].oldOffset)
    {
      hide *;
      newCode := laid;
      ghost var m := oldToNew[..];
      LaidLengths(p, Program(laid, constants), target, m, byZero);
      var i := 0;
      while i < |patches|
        invariant 0 <= i <= |patches| && |newCode| == |laid| && |m| == |p.code| == |target|
        invariant LaidOut(p, Program(newCode, constants), target, m, byZero)
        invariant forall k :: 0 <= k < i ==>
                    patches[k].oldOffset < |m| && Retargeted(p, Program(newCode, constants), m, patches[k].oldOffset)
      {
        var patch := patches[i];
        ghost var q := Program(newCode, constants);
        PatchIs(p, target, m, byZero, patches, i);
        PatchFits(p, q, target, m, byZero, patch);
        var oldTarget := patch.oldOffset + InstrLength(code[patch.oldOffset]) + patch.sign * patch.oldJump;
        if 0 <= oldTarget < |code| {
          var newTarget := oldToNew[oldTarget];
          if newTarget >= 0 {
            var newJump := patch.sign * (newTarget - (patch.newOffset + InstrLength(code[patch.oldOffset])));
            var at := patch.newOffset + JumpOperand(code[patch.oldOffset]);
            WritesIs(p, q, m, patch.oldOffset, at, newJump);
            newCode := newCode[at := newJump / 0x100 % 0x100][at + 1 := newJump % 0x100];
            PatchWorks(p, q, Program(newCode, constants), target, m, byZero, patches, i);
          }
        }
        i := i + 1;
      }
    }

    /**
     * `optimize_chunk`: the code becomes a translation of itself, no longer than before; the constants grow by
     * the folded ones; each byte has the line of what it replaces.
     */
    method OptimizeChunk(byZero: real -> real) returns (ghost target: seq<bool>, ghost m: seq<int>)
      requires |lines| == |code| && WellFormed(Program(code, constants))
      modifies this
      ensures Translates(old(Program(code, constants)), Program(code, constants), target, m, byZero)
      ensures |target| == |old(code)| && constants == AllConstants(old(Program(code, constants)), target, byZero)
      ensures |lines| == |code| && LinesFollow(old(Program(code, constants)), target, m, byZero, old(lines), lines)
      ensures WellFormed(Program(code, constants)) && |code| <= |old(code)|
      ensures SameRuns(old(Program(code, constants)), Program(code, constants), target, byZero)
    {
      hide *;
      ghost var p := Program(code, constants);
      if |code| == 0 {
        target, m := [], [];
        EmptyTranslates(p, byZero);
        Consequences(p, p, target, m, byZero);
        return;
      }
      var isJumpTarget := MarkJumpTargets(code, p);
      var newCode, newLines, oldToNew, patches := RewriteAll(isJumpTarget, p, byZero);
      target, m := isJumpTarget[..], oldToNew[..];
      AllLaid(p, Program(newCode, constants), target, m, byZero);
      newCode := PatchJumps(newCode, patches, oldToNew, p, target, byZero);
      Finished(p, Program(newCode, constants), target, m, byZero, patches);
      Consequences(p, Program(newCode, constants), target, m, byZero);
      code, lines := newCode, newLines;
    }
  }
}
