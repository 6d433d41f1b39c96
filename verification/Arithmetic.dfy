/** What the machine computes and what folding computes, opcode by opcode. */
module Arithmetic {
  import opened Bytes
  import opened Bytecode
  import opened Peephole

  lemma TopTwo(s: seq<Value>, x: Value, y: Value)
    ensures var t := s + [x, y]; |t| == |s| + 2 && t[|t| - 2] == x && t[|t| - 1] == y && t[..|t| - 2] == s
  {
  }

  lemma TopOne(s: seq<Value>, x: Value)
    ensures var t := s + [x]; |t| == |s| + 1 && t[|t| - 1] == x && t[..|t| - 1] == s
  {
  }

  lemma Operations(a: real, b: real, byZero: real -> real)
    ensures Apply(Add, a, b, byZero) == a + b && Apply(Sub, a, b, byZero) == a - b && Apply(Mul, a, b, byZero) == a * b
    ensures Apply(Div, a, b, byZero) == if b == 0.0 then byZero(a) else a / b
  {
  }

  // ----- the machine -----

  /** Two numbers on top: the lower one is the left operand. */
  lemma BinaryOpcodes(p: Program, i: nat, s: seq<Value>, a: real, b: real, byZero: real -> real)
    requires i < |p.code|
    ensures var before := Running(i, s + [Num(a), Num(b)]);
            && (p.code[i] == OP_ADD ==> Step(p, before, byZero) == Running(i + 1, s + [Num(a + b)]))
            && (p.code[i] == OP_SUBTRACT ==> Step(p, before, byZero) == Running(i + 1, s + [Num(a - b)]))
            && (p.code[i] == OP_MULTIPLY ==> Step(p, before, byZero) == Running(i + 1, s + [Num(a * b)]))
            && (p.code[i] == OP_DIVIDE && b != 0.0 ==> Step(p, before, byZero) == Running(i + 1, s + [Num(a / b)]))
            && (p.code[i] == OP_DIVIDE && b == 0.0 ==> Step(p, before, byZero) == Running(i + 1, s + [Num(byZero(a))]))
  {
    TopTwo(s, Num(a), Num(b));
    Operations(a, b, byZero);
    hide Apply;
  }

  /** Anything but two numbers is an error. */
  lemma BinaryErrors(p: Program, i: nat, s: seq<Value>, x: Value, y: Value, byZero: real -> real)
    requires i < |p.code| && p.code[i] in {OP_ADD, OP_SUBTRACT, OP_MULTIPLY, OP_DIVIDE} && !(x.Num? && y.Num?)
    ensures Step(p, Running(i, s + [x, y]), byZero) == Failed
  {
    TopTwo(s, x, y);
  }

  /** A number on top and a constant as the right operand. */
  lemma ConstantOpcodes(p: Program, i: nat, s: seq<Value>, a: real, b: real, byZero: real -> real)
    requires i + 1 < |p.code| && p.code[i + 1] < |p.constants| && p.constants[p.code[i + 1]] == Num(b)
    ensures var before := Running(i, s + [Num(a)]);
            && (p.code[i] == OP_ADD_CONST ==> Step(p, before, byZero) == Running(i + 2, s + [Num(a + b)]))
            && (p.code[i] == OP_SUB_CONST ==> Step(p, before, byZero) == Running(i + 2, s + [Num(a - b)]))
            && (p.code[i] == OP_MUL_CONST ==> Step(p, before, byZero) == Running(i + 2, s + [Num(a * b)]))
            && (p.code[i] == OP_DIV_CONST && b != 0.0 ==> Step(p, before, byZero) == Running(i + 2, s + [Num(a / b)]))
            && (p.code[i] == OP_DIV_CONST && b == 0.0 ==>
                 Step(p, before, byZero) == Running(i + 2, s + [Num(byZero(a))]))
  {
    TopOne(s, Num(a));
    Operations(a, b, byZero);
    hide Apply;
  }

  /** Two numbers on top; the result also goes to a local slot below them, or is that slot. */
  lemma SetOpcodes(p: Program, i: nat, s: seq<Value>, a: real, b: real, byZero: real -> real)
    requires i + 1 < |p.code| && p.code[i + 1] < |s|
    ensures var before, slot := Running(i, s + [Num(a), Num(b)]), p.code[i + 1];
            && (p.code[i] == OP_ADD_SET_LOCAL ==>
                  Step(p, before, byZero) == Running(i + 2, s[slot := Num(a + b)] + [Num(a + b)]))
            && (p.code[i] == OP_SUB_SET_LOCAL ==>
                  Step(p, before, byZero) == Running(i + 2, s[slot := Num(a - b)] + [Num(a - b)]))
            && (p.code[i] == OP_MUL_SET_LOCAL ==>
                  Step(p, before, byZero) == Running(i + 2, s[slot := Num(a * b)] + [Num(a * b)]))
            && (p.code[i] == OP_DIV_SET_LOCAL && b != 0.0 ==>
                  Step(p, before, byZero) == Running(i + 2, s[slot := Num(a / b)] + [Num(a / b)]))
            && (p.code[i] == OP_DIV_SET_LOCAL && b == 0.0 ==>
                  Step(p, before, byZero) == Running(i + 2, s[slot := Num(byZero(a))] + [Num(byZero(a))]))
  {
    TopTwo(s, Num(a), Num(b));
    StoredBelow(s, p.code[i + 1]);
    Operations(a, b, byZero);
    hide Apply;
  }

  lemma StoredBelow(s: seq<Value>, slot: nat)
    requires slot < |s|
    ensures forall v: Value :: (s + [v])[slot := v] == s[slot := v] + [v]
  {
  }

  /** A number in a local slot and a constant: the result goes to the slot, and on top. */
  lemma LocalOpcodes(p: Program, i: nat, s: seq<Value>, a: real, b: real, byZero: real -> real)
    requires i + 2 < |p.code| && p.code[i + 1] < |s| && s[p.code[i + 1]] == Num(a)
    requires p.code[i + 2] < |p.constants| && p.constants[p.code[i + 2]] == Num(b)
    ensures var before, slot := Running(i, s), p.code[i + 1];
            && (p.code[i] == OP_INC_LOCAL ==>
                  Step(p, before, byZero) == Running(i + 3, s[slot := Num(a + b)] + [Num(a + b)]))
            && (p.code[i] == OP_SUB_LOCAL_CONST ==>
                  Step(p, before, byZero) == Running(i + 3, s[slot := Num(a - b)] + [Num(a - b)]))
            && (p.code[i] == OP_MUL_LOCAL_CONST ==>
                  Step(p, before, byZero) == Running(i + 3, s[slot := Num(a * b)] + [Num(a * b)]))
            && (p.code[i] == OP_DIV_LOCAL_CONST && b != 0.0 ==>
                  Step(p, before, byZero) == Running(i + 3, s[slot := Num(a / b)] + [Num(a / b)]))
            && (p.code[i] == OP_DIV_LOCAL_CONST && b == 0.0 ==>
                  Step(p, before, byZero) == Running(i + 3, s[slot := Num(byZero(a))] + [Num(byZero(a))]))
  {
    StoredBelow(s, p.code[i + 1]);
    Operations(a, b, byZero);
    hide Apply;
  }

  /** The other sign, comparisons of the lower value with the upper one, and truth. */
  lemma OtherOpcodes(p: Program, i: nat, s: seq<Value>, a: real, b: real, v: Value, byZero: real -> real)
    requires i < |p.code|
    ensures p.code[i] == OP_NEGATE ==> Step(p, Running(i, s + [Num(a)]), byZero) == Running(i + 1, s + [Num(0.0 - a)])
    ensures p.code[i] == OP_GREATER ==>
              Step(p, Running(i, s + [Num(a), Num(b)]), byZero) == Running(i + 1, s + [Bool(b < a)])
    ensures p.code[i] == OP_LESS ==>
              Step(p, Running(i, s + [Num(a), Num(b)]), byZero) == Running(i + 1, s + [Bool(a < b)])
    ensures p.code[i] == OP_EQUAL ==>
              Step(p, Running(i, s + [Num(a), Num(b)]), byZero) == Running(i + 1, s + [Bool(!(a < b || b < a))])
    ensures p.code[i] == OP_NOT ==>
              Step(p, Running(i, s + [v]), byZero)
              == Running(i + 1, s + [Bool(v == Nil || v == Bool(false) || v == Num(0.0))])
  {
    TopOne(s, Num(a));
    TopOne(s, v);
    TopTwo(s, Num(a), Num(b));
  }

  /** A conditional jump looks at the top of the stack and leaves it there. */
  lemma JumpOpcodes(p: Program, i: nat, s: seq<Value>, v: Value, byZero: real -> real)
    requires i + 2 < |p.code|
    ensures var before, d := Running(i, s + [v]), ReadShort(p.code, i + 1);
            && (p.code[i] == OP_JUMP ==> Step(p, before, byZero) == Running(i + 3 + d, s + [v]))
            && (p.code[i] == OP_LOOP ==> Step(p, before, byZero) == Running(i + 3 - d, s + [v]))
            && (p.code[i] == OP_JUMP_IF_FALSE ==>
                  Step(p, before, byZero) == Running(if v in {Nil, Bool(false), Num(0.0)} then i + 3 + d else i + 3, s + [v]))
            && (p.code[i] == OP_JUMP_IF_TRUE ==>
                  Step(p, before, byZero) == Running(if v in {Nil, Bool(false), Num(0.0)} then i + 3 else i + 3 + d, s + [v]))
  {
    TopOne(s, v);
  }

  /** A counting loop begins unless it is past its end, and goes round while the next count is not past it. */
  lemma ForOpcodes(p: Program, i: nat, s: seq<Value>, a: real, b: real, byZero: real -> real)
    requires i + 4 < |p.code| && p.code[i + 1] < |s| && p.code[i + 2] < |s|
    requires s[p.code[i + 1]] == Num(a) && s[p.code[i + 2]] == Num(b)
    ensures var before, slot, d := Running(i, s), p.code[i + 1], ReadShort(p.code, i + 3);
            && (p.code[i] == OP_FOR_PREP ==> Step(p, before, byZero) == Running(if b < a then i + 5 + d else i + 5, s))
            && (p.code[i] == OP_FOR_LOOP ==>
                  Step(p, before, byZero)
                  == Running(if b < a + 1.0 then i + 5 else i + 5 - d, s[slot := Num(a + 1.0)]))
  {
  }

  /** Moving values: each opcode on the stack it finds. */
  lemma StackOpcodes(p: Program, i: nat, s: seq<Value>, v: Value, byZero: real -> real)
    requires i + 1 < |p.code|
    ensures var before, n := Running(i, s + [v]), p.code[i + 1];
            && (p.code[i] == OP_POP ==> Step(p, before, byZero) == Running(i + 1, s))
            && (p.code[i] == OP_DUP ==> Step(p, before, byZero) == Running(i + 1, s + [v, v]))
            && (p.code[i] == OP_GET_LOCAL && n < |s| ==> Step(p, before, byZero) == Running(i + 2, s + [v, s[n]]))
            && (p.code[i] == OP_SET_LOCAL && n < |s| ==> Step(p, before, byZero) == Running(i + 2, s[n := v] + [v]))
            && (p.code[i] == OP_ADJUST_STACK && n <= |s| ==> Step(p, before, byZero) == Running(i + 2, s[..n]))
            && (p.code[i] == OP_RETURN ==> Step(p, before, byZero) == Returned([v]))
            && (p.code[i] == OP_TRUE ==> Step(p, Running(i, s), byZero) == Running(i + 1, s + [Bool(true)]))
            && (p.code[i] == OP_FALSE ==> Step(p, Running(i, s), byZero) == Running(i + 1, s + [Bool(false)]))
            && (p.code[i] == OP_NIL ==> Step(p, Running(i, s), byZero) == Running(i + 1, s + [Nil]))
            && (p.code[i] == OP_CONSTANT && n < |p.constants| ==>
                  Step(p, Running(i, s), byZero) == Running(i + 2, s + [p.constants[n]]))
  {
    TopOne(s, v);
    assert s + [v] + [v] == s + [v, v];
    if p.code[i + 1] < |s| {
      assert s + [v] + [s[p.code[i + 1]]] == s + [v, s[p.code[i + 1]]];
      StoredBelow(s, p.code[i + 1]);
    }
    if p.code[i + 1] <= |s| { assert (s + [v])[..p.code[i + 1]] == s[..p.code[i + 1]]; }
  }

  // ----- folding -----

  /** What folding puts in the place of two constants and an operation, and when. */
  lemma FoldedNumbers(p: Program, i: nat, byZero: real -> real)
    requires FoldsBinary(p, i)
    ensures p.code[i + 1] < |p.constants| && p.constants[p.code[i + 1]].Num?
    ensures p.code[i + 3] < |p.constants| && p.constants[p.code[i + 3]].Num?
    ensures p.code[i + 4] in {OP_ADD, OP_SUBTRACT, OP_MULTIPLY, OP_DIVIDE}
    ensures var a, b, v := p.constants[p.code[i + 1]].n, p.constants[p.code[i + 3]].n, BinaryResult(p, i, byZero);
            && (p.code[i + 4] == OP_ADD ==> v == Num(a + b))
            && (p.code[i + 4] == OP_SUBTRACT ==> v == Num(a - b))
            && (p.code[i + 4] == OP_MULTIPLY ==> v == Num(a * b))
            && (p.code[i + 4] == OP_DIVIDE && b != 0.0 ==> v == Num(a / b))
            && (p.code[i + 4] == OP_DIVIDE && b == 0.0 ==> v == Num(byZero(a)))
  {
  }

  lemma FoldedNegation(p: Program, i: nat)
    requires FoldsNegate(p, i)
    ensures p.code[i + 1] < |p.constants| && p.code[i + 2] == OP_NEGATE
    ensures p.constants[p.code[i + 1]].Num? && NegateResult(p, i) == Num(0.0 - p.constants[p.code[i + 1]].n)
  {
  }

  /** Subtraction undoes addition, and division by a number other than 0 undoes multiplication. */
  lemma Undone(a: real, b: real, byZero: real -> real)
    ensures Apply(Sub, Apply(Add, a, b, byZero), b, byZero) == a
    ensures Apply(Add, Apply(Sub, a, b, byZero), b, byZero) == a
    ensures b != 0.0 ==> Apply(Div, Apply(Mul, a, b, byZero), b, byZero) == a
    ensures b != 0.0 ==> Apply(Mul, Apply(Div, a, b, byZero), b, byZero) == a
  {
  }
}
