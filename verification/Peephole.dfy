/** The rewrites of `optimize_chunk`: which one applies at an offset, and what it replaces by what. */
module Peephole {
  import opened Bytes
  import opened Bytecode

  // ----- instruction starts -----

  /** Decoding from `from` onwards, instruction by instruction, arrives at `i`. */
  ghost predicate Reaches(code: seq<Byte>, from: nat, i: nat)
    decreases i - from
  {
    from == i || (from < i && Whole(code, from) && Reaches(code, from + InstrLength(code[from]), i))
  }

  ghost predicate IsStart(code: seq<Byte>, i: nat) {
    Reaches(code, 0, i)
  }

  lemma StartsAtZero(code: seq<Byte>)
    ensures IsStart(code, 0)
  {
  }

  lemma {:induction false} ReachesOn(code: seq<Byte>, from: nat, i: nat, j: nat)
    requires Reaches(code, from, i) && Reaches(code, i, j)
    ensures Reaches(code, from, j)
    decreases i - from
  {
    if from < i { ReachesOn(code, from + InstrLength(code[from]), i, j); }
  }

  /** The next instruction starts right after this one, and none starts inside it. */
  lemma {:induction false} NextStart(code: seq<Byte>, from: nat, i: nat, j: nat)
    requires Reaches(code, from, i) && Whole(code, i) && Reaches(code, from, j) && i < j
    ensures j >= i + InstrLength(code[i]) && Reaches(code, i + InstrLength(code[i]), j)
    decreases i - from
  {
    if from < i { NextStart(code, from + InstrLength(code[from]), i, j); }
  }

  predicate IsJump(op: Byte) {
    op in {OP_JUMP, OP_JUMP_IF_FALSE, OP_JUMP_IF_TRUE, OP_LOOP, OP_FOR_PREP, OP_FOR_LOOP}
  }

  /** Where the 16-bit distance of a jump sits inside the instruction. */
  function JumpOperand(op: Byte): nat {
    if op == OP_FOR_PREP || op == OP_FOR_LOOP then 3 else 1
  }

  function JumpSign(op: Byte): int {
    if op == OP_LOOP || op == OP_FOR_LOOP then -1 else 1
  }

  function JumpTarget(code: seq<Byte>, i: nat): int
    requires Whole(code, i) && IsJump(code[i])
  {
    i + InstrLength(code[i]) + JumpSign(code[i]) * ReadShort(code, i + JumpOperand(code[i]))
  }

  /** What the optimizer may rely on: whole instructions of the fragment, known constants, jumps to instructions. */
  ghost predicate WellFormed(p: Program) {
    && IsStart(p.code, |p.code|)
    && (forall i: nat :: IsStart(p.code, i) && i < |p.code| ==> Whole(p.code, i))
    && (forall i: nat :: IsStart(p.code, i) && i < |p.code| &&
                           p.code[i] in {OP_CONSTANT, OP_ADD_CONST, OP_SUB_CONST, OP_MUL_CONST, OP_DIV_CONST} ==>
          p.code[i + 1] < |p.constants|)
    && (forall i: nat :: IsStart(p.code, i) && i < |p.code| &&
                           p.code[i] in {OP_INC_LOCAL, OP_SUB_LOCAL_CONST, OP_MUL_LOCAL_CONST, OP_DIV_LOCAL_CONST} ==>
          p.code[i + 2] < |p.constants|)
    && (forall i: nat :: IsStart(p.code, i) && i < |p.code| && IsJump(p.code[i]) ==>
          0 <= JumpTarget(p.code, i) < |p.code| && IsStart(p.code, JumpTarget(p.code, i)))
  }

  // ----- choosing a rewrite -----

  datatype Rewrite =
    | DropAdjust(len: nat)
    | DropIdentity
    | FuseLocal(newOp: Byte)
    | FoldBinary(result: Value)
    | FoldNegate(result: Value)
    | FoldOperand(newOp: Byte)
    | FuseSet(newOp: Byte)
    | Copy(len: nat)
  {
    /** Bytes of old code covered. */
    function Span(): nat {
      match this
      case DropAdjust(len) => len + 3
      case DropIdentity => 3
      case FuseLocal(_) => 7
      case FoldBinary(_) => 5
      case FoldNegate(_) => 3
      case FoldOperand(_) => 3
      case FuseSet(_) => 3
      case Copy(len) => len
    }

    /** Bytes of new code emitted. */
    function Size(): nat {
      match this
      case DropAdjust(len) => len + 1
      case DropIdentity => 0
      case FuseLocal(_) => 3
      case FoldBinary(_) => 2
      case FoldNegate(_) => 2
      case FoldOperand(_) => 2
      case FuseSet(_) => 2
      case Copy(len) => len
    }
  }

  /** `is_safe_single_producer` on the fragment. */
  predicate IsProducer(op: Byte) {
    op in {OP_CONSTANT, OP_NIL, OP_TRUE, OP_FALSE, OP_GET_LOCAL, OP_DUP}
  }

  predicate IsArith(op: Byte) {
    op in {OP_ADD, OP_SUBTRACT, OP_MULTIPLY, OP_DIVIDE}
  }

  function ArithOf(op: Byte): Arith
    requires IsArith(op)
  {
    if op == OP_ADD then Add else if op == OP_SUBTRACT then Sub else if op == OP_MULTIPLY then Mul else Div
  }

  function ConstOp(op: Byte): Byte
    requires IsArith(op)
  {
    if op == OP_ADD then OP_ADD_CONST else if op == OP_SUBTRACT then OP_SUB_CONST
       else if op == OP_MULTIPLY then OP_MUL_CONST else OP_DIV_CONST
  }

  function LocalOp(op: Byte): Byte
    requires IsArith(op)
  {
    if op == OP_ADD then OP_INC_LOCAL else if op == OP_SUBTRACT then OP_SUB_LOCAL_CONST
       else if op == OP_MULTIPLY then OP_MUL_LOCAL_CONST else OP_DIV_LOCAL_CONST
  }

  function SetOp(op: Byte): Byte
    requires IsArith(op)
  {
    if op == OP_ADD then OP_ADD_SET_LOCAL else if op == OP_SUBTRACT then OP_SUB_SET_LOCAL
       else if op == OP_MULTIPLY then OP_MUL_SET_LOCAL else OP_DIV_SET_LOCAL
  }

  predicate IsNumberConstant(p: Program, c: nat) {
    c < |p.constants| && p.constants[c].Num?
  }

  /** `x + 0`, `x - 0`, `x * 1`, `x / 1`. */
  predicate IsIdentity(op: Byte, n: real) {
    ((op == OP_ADD || op == OP_SUBTRACT) && n == 0.0) || ((op == OP_MULTIPLY || op == OP_DIVIDE) && n == 1.0)
  }

  /** `<producer> POP ADJUST_STACK`, entered nowhere. */
  predicate DropsAdjust(code: seq<Byte>, target: seq<bool>, i: nat)
    requires Whole(code, i) && |target| == |code|
  {
    && IsProducer(code[i])
    && var next := i + InstrLength(code[i]);
       next + 1 < |code| && code[next] == OP_POP && code[next + 1] == OP_ADJUST_STACK
       && !target[i] && !target[next] && !target[next + 1]
  }

  /** `CONST c op` with c the right identity of op. */
  predicate DropsIdentity(p: Program, target: seq<bool>, i: nat)
    requires i < |p.code| && |target| == |p.code|
  {
    && i + 2 < |p.code| && p.code[i] == OP_CONSTANT && IsArith(p.code[i + 2])
    && IsNumberConstant(p, p.code[i + 1]) && IsIdentity(p.code[i + 2], p.constants[p.code[i + 1]].n)
    && !target[i] && !target[i + 2]
  }

  /** `GET_LOCAL s, CONST c, op, SET_LOCAL s`; for addition only with a numeric constant. */
  predicate FusesLocal(p: Program, target: seq<bool>, i: nat)
    requires i < |p.code| && |target| == |p.code|
  {
    && i + 6 < |p.code| && p.code[i] == OP_GET_LOCAL && p.code[i + 2] == OP_CONSTANT
    && IsArith(p.code[i + 4]) && p.code[i + 5] == OP_SET_LOCAL && p.code[i + 1] == p.code[i + 6]
    && (p.code[i + 4] == OP_ADD ==> IsNumberConstant(p, p.code[i + 3]))
    && !target[i + 2] && !target[i + 4] && !target[i + 5]
  }

  /** `fold_binary_numbers`: `CONST a, CONST b, op` on two numbers. */
  predicate FoldsBinary(p: Program, i: nat) {
    && i + 4 < |p.code| && p.code[i] == OP_CONSTANT && p.code[i + 2] == OP_CONSTANT && IsArith(p.code[i + 4])
    && IsNumberConstant(p, p.code[i + 1]) && IsNumberConstant(p, p.code[i + 3])
  }

  /** `fold_unary_number`: `CONST a, NEGATE` on a number. */
  predicate FoldsNegate(p: Program, i: nat) {
    && i + 2 < |p.code| && p.code[i] == OP_CONSTANT && p.code[i + 2] == OP_NEGATE
    && IsNumberConstant(p, p.code[i + 1])
  }

  predicate FoldsOperand(code: seq<Byte>, target: seq<bool>, i: nat)
    requires i < |code| && |target| == |code|
  {
    i + 2 < |code| && code[i] == OP_CONSTANT && IsArith(code[i + 2]) && !target[i] && !target[i + 2]
  }

  predicate FusesSet(code: seq<Byte>, target: seq<bool>, i: nat)
    requires i < |code| && |target| == |code|
  {
    i + 2 < |code| && IsArith(code[i]) && code[i + 1] == OP_SET_LOCAL && !target[i] && !target[i + 1]
  }

  function BinaryResult(p: Program, i: nat, byZero: real -> real): Value
    requires FoldsBinary(p, i)
  {
    Num(Apply(ArithOf(p.code[i + 4]), p.constants[p.code[i + 1]].n, p.constants[p.code[i + 3]].n, byZero))
  }

  function NegateResult(p: Program, i: nat): Value
    requires FoldsNegate(p, i)
  {
    Num(-p.constants[p.code[i + 1]].n)
  }

  /** The first rewrite that applies at `i`, in the order the source tries them. */
  function Choose(p: Program, target: seq<bool>, i: nat, byZero: real -> real): (r: Rewrite)
    requires Whole(p.code, i) && |target| == |p.code|
  {
    if DropsAdjust(p.code, target, i) then DropAdjust(InstrLength(p.code[i]))
    else if DropsIdentity(p, target, i) then DropIdentity
    else if FusesLocal(p, target, i) then FuseLocal(LocalOp(p.code[i + 4]))
    else if FoldsBinary(p, i) && !target[i + 2] && !target[i + 4] then FoldBinary(BinaryResult(p, i, byZero))
    else if FoldsNegate(p, i) && !target[i + 2] then FoldNegate(NegateResult(p, i))
    else if FoldsOperand(p.code, target, i) then FoldOperand(ConstOp(p.code[i + 2]))
    else if FusesSet(p.code, target, i) then FuseSet(SetOp(p.code[i]))
    else Copy(InstrLength(p.code[i]))
  }

  /** The constant added when `i` is visited: folding adds it before the jump targets are looked at. */
  function AddedConstant(p: Program, target: seq<bool>, i: nat, byZero: real -> real): (added: seq<Value>)
    requires Whole(p.code, i) && |target| == |p.code|
    ensures |added| <= 1
  {
    if DropsAdjust(p.code, target, i) || DropsIdentity(p, target, i) || FusesLocal(p, target, i) then []
    else if FoldsBinary(p, i) then [BinaryResult(p, i, byZero)]
    else if FoldsNegate(p, i) then [NegateResult(p, i)]
    else []
  }

  // ----- what a rewrite emits -----

  /** The constants folding adds from `i` on. */
  ghost function AddedFrom(p: Program, target: seq<bool>, byZero: real -> real, i: nat): seq<Value>
    requires |target| == |p.code|
    decreases |p.code| - i
  {
    if !Whole(p.code, i) then []
    else AddedConstant(p, target, i, byZero) + AddedFrom(p, target, byZero, i + Choose(p, target, i, byZero).Span())
  }

  /** The table after the pass. */
  ghost function AllConstants(p: Program, target: seq<bool>, byZero: real -> real): seq<Value>
    requires |target| == |p.code|
  {
    p.constants + AddedFrom(p, target, byZero, 0)
  }

  /** The size of the table when the loop comes to `i`: where a constant folded there goes. */
  ghost function FoldIndex(p: Program, target: seq<bool>, byZero: real -> real, i: nat): int
    requires |target| == |p.code|
  {
    |AllConstants(p, target, byZero)| - |AddedFrom(p, target, byZero, i)|
  }

  /**
   * The bytes `out` are what rewriting the old code at `i` by `r` emits; the index of a folded constant is cut to a byte. The distance of a copied jump is
   * left open: it is patched afterwards.
   */
  ghost predicate Emitted(p: Program, index: int, r: Rewrite, i: nat, out: seq<Byte>)
    requires Whole(p.code, i)
  {
    && i + r.Span() <= |p.code| && |out| == r.Size()
    && match r
       case DropAdjust(len) => out == p.code[i..i + len] + [OP_POP]
       case DropIdentity => true
       case FuseLocal(op) => out == [op, p.code[i + 1], p.code[i + 3]]
       case FoldBinary(_) => out == [OP_CONSTANT, index % 0x100]
       case FoldNegate(_) => out == [OP_CONSTANT, index % 0x100]
       case FoldOperand(op) => out == [op, p.code[i + 1]]
       case FuseSet(op) => out == [op, p.code[i + 2]]
       case Copy(len) =>
         var kept := KeptLength(p.code[i]);
         len == InstrLength(p.code[i]) && out[..kept] == p.code[i..i + kept]
  }

  /** How much of an instruction is copied for good: all of it, or a jump up to its distance. */
  function KeptLength(op: Byte): (k: nat)
    ensures k <= InstrLength(op) && (InstrLength(op) > 0 ==> k > 0)
  {
    if IsJump(op) then JumpOperand(op) else InstrLength(op)
  }

  /** The new code holds at `n` what rewriting at `i` emits. */
  ghost predicate Emits(p: Program, q: Program, index: int, r: Rewrite, i: nat, n: nat)
    requires Whole(p.code, i)
  {
    n + r.Size() <= |q.code| && Emitted(p, index, r, i, q.code[n..n + r.Size()])
  }

  // ----- the pass as a whole -----

  /** Some jump of the code leads to `t`. */
  ghost predicate IsTarget(code: seq<Byte>, t: nat) {
    exists j: nat :: LeadsTo(code, j, t)
  }

  ghost predicate LeadsTo(code: seq<Byte>, j: nat, t: nat) {
    IsStart(code, j) && Whole(code, j) && IsJump(code[j]) && JumpTarget(code, j) == t
  }

  /** The marks of the first loop: exactly the jump targets. */
  ghost predicate MarksTargets(code: seq<Byte>, target: seq<bool>) {
    |target| == |code| && forall t: nat :: t < |code| ==> (target[t] <==> IsTarget(code, t))
  }

  /** The rewriting loop, at `from`, comes to visit `i`. */
  ghost predicate Visits(p: Program, target: seq<bool>, byZero: real -> real, from: nat, i: nat)
    requires |target| == |p.code|
    decreases i - from
  {
    || from == i
    || (from < i && Whole(p.code, from) && Visits(p, target, byZero, from + Choose(p, target, from, byZero).Span(), i))
  }

  /** The new address of an old one: `old_to_new`, and the end for the end. */
  ghost function Image(m: seq<int>, q: Program, i: nat): int
    requires i <= |m|
  {
    if i == |m| then |q.code| else m[i]
  }

  /**
   * What the rewriting loop leaves for the place `i` it visited: the emitted bytes, and the next place right
   * behind. The map `m` may still end where the loop has got to.
   */
  ghost predicate Laid(p: Program, q: Program, target: seq<bool>, m: seq<int>, byZero: real -> real, i: nat)
    requires |m| <= |target| == |p.code| && i < |m|
  {
    && m[i] >= 0 && Whole(p.code, i)
    && var r := Choose(p, target, i, byZero);
       Emits(p, q, FoldIndex(p, target, byZero, i), r, i, m[i]) && i + r.Span() <= |m| && Image(m, q, i + r.Span()) == m[i] + r.Size()
  }

  /** A copied jump leads to the image of its old target. */
  ghost predicate Retargeted(p: Program, q: Program, m: seq<int>, i: nat)
    requires |m| == |p.code| && i < |m|
  {
    && m[i] >= 0 && Whole(p.code, i) && IsJump(p.code[i]) && Whole(q.code, m[i]) && q.code[m[i]] == p.code[i]
    && 0 <= JumpTarget(p.code, i) < |m|
    && JumpTarget(q.code, m[i]) == m[JumpTarget(p.code, i)] >= 0
  }

  /** The copied jumps among the visited places. */
  ghost predicate IsCopiedJump(p: Program, target: seq<bool>, byZero: real -> real, i: nat)
    requires |target| == |p.code|
  {
    Whole(p.code, i) && IsJump(p.code[i]) && Choose(p, target, i, byZero).Copy?
  }

  /**
   * `q` is the optimized form of `p` under the address map `m`, which is -1 exactly at the places the loop does
   * not visit: each visited place holds what its rewrite emits, the next one follows right behind it, and every
   * copied jump leads to the image of its old target.
   */
  ghost predicate Translates(p: Program, q: Program, target: seq<bool>, m: seq<int>, byZero: real -> real) {
    && |m| == |target| == |p.code|
    && MarksTargets(p.code, target)
    && q.constants == AllConstants(p, target, byZero)
    && (if p.code == [] then q.code == [] else m[0] == 0)
    && (forall i: nat :: i < |m| ==> (m[i] >= 0 <==> Visits(p, target, byZero, 0, i)))
    && (forall i: nat :: i < |m| && m[i] >= 0 ==> Laid(p, q, target, m, byZero, i))
    && (forall i: nat :: i < |m| && m[i] >= 0 && IsCopiedJump(p, target, byZero, i) ==> Retargeted(p, q, m, i))
  }

  // ----- where rewrites begin and end -----

  lemma NextIsStart(p: Program, i: nat)
    requires WellFormed(p) && IsStart(p.code, i) && i < |p.code|
    ensures Whole(p.code, i) && IsStart(p.code, i + InstrLength(p.code[i])) && i + InstrLength(p.code[i]) <= |p.code|
  {
    var next := i + InstrLength(p.code[i]);
    assert Reaches(p.code, next, next);
    assert Reaches(p.code, i, next);
    ReachesOn(p.code, 0, i, next);
  }

  /** The starts strictly between `i` and `end` are no jump targets, and `end` is a start. */
  ghost predicate Unentered(code: seq<Byte>, target: seq<bool>, i: nat, end: nat) {
    && |target| == |code| && i < end <= |code| && IsStart(code, end)
    && forall t: nat :: IsStart(code, t) && i < t < end ==> !target[t]
  }

  lemma NextUnentered(p: Program, target: seq<bool>, i: nat)
    requires WellFormed(p) && |target| == |p.code| && IsStart(p.code, i) && i < |p.code|
    ensures Whole(p.code, i) && Unentered(p.code, target, i, i + InstrLength(p.code[i]))
  {
    hide InstrLength;
    NextIsStart(p, i);
    forall t: nat | IsStart(p.code, t) && i < t
      ensures t >= i + InstrLength(p.code[i])
    {
      NextStart(p.code, 0, i, t);
    }
  }

  /** One more instruction may be covered when nothing jumps to it. */
  lemma UnenteredOn(p: Program, target: seq<bool>, i: nat, end: nat)
    requires WellFormed(p) && Unentered(p.code, target, i, end) && end < |p.code| && !target[end]
    ensures Whole(p.code, end) && Unentered(p.code, target, i, end + InstrLength(p.code[end]))
  {
    hide WellFormed, InstrLength, IsStart;
    NextUnentered(p, target, end);
  }

  lemma FusesLocalCovers(p: Program, target: seq<bool>, i: nat)
    requires WellFormed(p) && |target| == |p.code| && IsStart(p.code, i) && i < |p.code| && FusesLocal(p, target, i)
    ensures Unentered(p.code, target, i, i + 7)
  {
    hide WellFormed, IsStart, Unentered;
    NextUnentered(p, target, i);
    UnenteredOn(p, target, i, i + 2);
    UnenteredOn(p, target, i, i + 4);
    UnenteredOn(p, target, i, i + 5);
  }

  lemma DropsAdjustCovers(p: Program, target: seq<bool>, i: nat)
    requires WellFormed(p) && IsStart(p.code, i) && Whole(p.code, i) && |target| == |p.code|
             && DropsAdjust(p.code, target, i)
    ensures Unentered(p.code, target, i, i + InstrLength(p.code[i]) + 3)
  {
    hide WellFormed, IsStart, Unentered;
    var next := i + InstrLength(p.code[i]);
    NextUnentered(p, target, i);
    UnenteredOn(p, target, i, next);
    UnenteredOn(p, target, i, next + 1);
  }

  lemma FoldsBinaryCovers(p: Program, target: seq<bool>, i: nat)
    requires WellFormed(p) && |target| == |p.code| && IsStart(p.code, i) && FoldsBinary(p, i) && !target[i + 2]
             && !target[i + 4]
    ensures Unentered(p.code, target, i, i + 5)
  {
    hide WellFormed, IsStart, Unentered;
    NextUnentered(p, target, i);
    UnenteredOn(p, target, i, i + 2);
    UnenteredOn(p, target, i, i + 4);
  }

  /** The pairs: a first instruction and the one behind it, three bytes together. */
  lemma PairCovers(p: Program, target: seq<bool>, i: nat)
    requires WellFormed(p) && |target| == |p.code| && IsStart(p.code, i) && i < |p.code| && Whole(p.code, i)
    requires var next := i + InstrLength(p.code[i]);
             next < |p.code| && !target[next] && next + InstrLength(p.code[next]) == i + 3
    ensures Unentered(p.code, target, i, i + 3)
  {
    hide WellFormed, IsStart, Unentered;
    NextUnentered(p, target, i);
    UnenteredOn(p, target, i, i + InstrLength(p.code[i]));
  }

  /** A rewrite covers whole instructions, and none after its first is a jump target. */
  lemma RewriteCovers(p: Program, target: seq<bool>, byZero: real -> real, i: nat)
    requires WellFormed(p) && |target| == |p.code| && IsStart(p.code, i) && i < |p.code|
    ensures Whole(p.code, i) && Unentered(p.code, target, i, i + Choose(p, target, i, byZero).Span())
  {
    hide WellFormed, IsStart, Unentered;
    NextUnentered(p, target, i);
    if DropsAdjust(p.code, target, i) {
      DropsAdjustCovers(p, target, i);
    } else if DropsIdentity(p, target, i) {
      PairCovers(p, target, i);
    } else if FusesLocal(p, target, i) {
      FusesLocalCovers(p, target, i);
    } else if FoldsBinary(p, i) && !target[i + 2] && !target[i + 4] {
      FoldsBinaryCovers(p, target, i);
    } else if (FoldsNegate(p, i) && !target[i + 2]) || FoldsOperand(p.code, target, i) || FusesSet(p.code, target, i) {
      PairCovers(p, target, i);
    }
  }

  /** Every visited place is the start of an instruction. */
  lemma {:induction false} VisitedStarts(p: Program, target: seq<bool>, byZero: real -> real, from: nat, i: nat)
    requires WellFormed(p) && |target| == |p.code| && IsStart(p.code, from) && from <= |p.code|
    requires Visits(p, target, byZero, from, i) && i <= |p.code|
    ensures IsStart(p.code, i)
    decreases i - from
  {
    hide Choose, WellFormed, Whole, IsStart;
    if from < i {
      RewriteCovers(p, target, byZero, from);
      VisitedStarts(p, target, byZero, from + Choose(p, target, from, byZero).Span(), i);
    }
  }

  lemma {:induction false} VisitsOn(p: Program, target: seq<bool>, byZero: real -> real, from: nat, i: nat, j: nat)
    requires |target| == |p.code| && Visits(p, target, byZero, from, i) && Visits(p, target, byZero, i, j)
    ensures Visits(p, target, byZero, from, j)
    decreases i - from
  {
    hide WellFormed, IsStart;
    if from < i { VisitsOn(p, target, byZero, from + Choose(p, target, from, byZero).Span(), i, j); }
  }

  /** After `i`, the next visited place is right behind its rewrite. */
  lemma {:induction false} VisitsNext(p: Program, target: seq<bool>, byZero: real -> real, from: nat, i: nat, j: nat)
    requires |target| == |p.code| && Visits(p, target, byZero, from, i) && Visits(p, target, byZero, from, j) && i < j
    ensures Whole(p.code, i) && Visits(p, target, byZero, i + Choose(p, target, i, byZero).Span(), j)
    decreases i - from
  {
    hide WellFormed, IsStart;
    if from < i { VisitsNext(p, target, byZero, from + Choose(p, target, from, byZero).Span(), i, j); }
  }

  /** Of two visited places the loop comes from the lower to the higher. */
  lemma {:induction false} VisitsBetween(p: Program, target: seq<bool>, byZero: real -> real, from: nat, i: nat, j: nat)
    requires |target| == |p.code| && Visits(p, target, byZero, from, i) && Visits(p, target, byZero, from, j) && i <= j
    ensures Visits(p, target, byZero, i, j)
  {
    hide WellFormed, IsStart, Whole, Choose;
    if i < j {
      VisitsNext(p, target, byZero, from, i, j);
    }
  }

  /** Jump targets are never swallowed by a rewrite. */
  lemma {:induction false} TargetsVisited(p: Program, target: seq<bool>, byZero: real -> real, from: nat, t: nat)
    requires WellFormed(p) && |target| == |p.code| && IsStart(p.code, from) && from <= t < |p.code|
    requires IsStart(p.code, t) && target[t]
    ensures Visits(p, target, byZero, from, t)
    decreases t - from
  {
    hide Choose, WellFormed, Whole, IsStart;
    if from < t {
      RewriteCovers(p, target, byZero, from);
      TargetsVisited(p, target, byZero, from + Choose(p, target, from, byZero).Span(), t);
    }
  }

  /** Rewriting never lengthens: between two visited places the new code is at most as long as the old. */
  lemma {:induction false} Shrinks(p: Program, q: Program, target: seq<bool>, m: seq<int>, byZero: real -> real, a: nat,
                                   b: nat)
    requires WellFormed(p) && |m| == |target| == |p.code| && IsStart(p.code, a)
    requires a <= b <= |m| && Visits(p, target, byZero, a, b)
    requires forall i: nat :: a <= i < b && Visits(p, target, byZero, a, i) ==> Laid(p, q, target, m, byZero, i)
    ensures 0 <= Image(m, q, b) - Image(m, q, a) <= b - a
    decreases b - a
  {
    hide Choose, WellFormed, Whole, IsStart, Emitted;
    if a < b {
      assert Visits(p, target, byZero, a, a);
      assert Laid(p, q, target, m, byZero, a);
      RewriteCovers(p, target, byZero, a);
      var r := Choose(p, target, a, byZero);
      var next := a + r.Span();
      forall i: nat | next <= i < b && Visits(p, target, byZero, next, i)
        ensures Laid(p, q, target, m, byZero, i)
      {
        assert Visits(p, target, byZero, a, i);
      }
      Shrinks(p, q, target, m, byZero, next, b);
      assert r.Size() <= r.Span();
    }
  }
}
