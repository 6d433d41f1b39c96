/** The numeric fragment of the bytecode: byte encoding, instructions and their effect on a call frame. */
module Bytecode {
  import opened Bytes

  // Opcodes, numbered as the enumeration in the source lists them.
  const OP_CONSTANT: Byte := 0
  const OP_ADD: Byte := 2
  const OP_ADD_CONST: Byte := 4
  const OP_SUBTRACT: Byte := 5
  const OP_SUB_CONST: Byte := 6
  const OP_MULTIPLY: Byte := 7
  const OP_MUL_CONST: Byte := 8
  const OP_DIVIDE: Byte := 9
  const OP_DIV_CONST: Byte := 10
  const OP_NOT: Byte := 11
  const OP_NEGATE: Byte := 12
  const OP_POP: Byte := 15
  const OP_GET_LOCAL: Byte := 20
  const OP_SET_LOCAL: Byte := 21
  const OP_ADD_SET_LOCAL: Byte := 22
  const OP_SUB_SET_LOCAL: Byte := 23
  const OP_MUL_SET_LOCAL: Byte := 24
  const OP_DIV_SET_LOCAL: Byte := 25
  const OP_INC_LOCAL: Byte := 27
  const OP_SUB_LOCAL_CONST: Byte := 28
  const OP_MUL_LOCAL_CONST: Byte := 29
  const OP_DIV_LOCAL_CONST: Byte := 30
  const OP_DUP: Byte := 40
  const OP_JUMP: Byte := 41
  const OP_JUMP_IF_FALSE: Byte := 42
  const OP_JUMP_IF_TRUE: Byte := 43
  const OP_LOOP: Byte := 44
  const OP_RETURN: Byte := 52
  const OP_TRUE: Byte := 53
  const OP_FALSE: Byte := 54
  const OP_NIL: Byte := 55
  const OP_EQUAL: Byte := 56
  const OP_GREATER: Byte := 57
  const OP_LESS: Byte := 58
  const OP_RETURN_N: Byte := 77
  const OP_ADJUST_STACK: Byte := 78
  const OP_FOR_PREP: Byte := 90
  const OP_FOR_LOOP: Byte := 91

  datatype Value = Num(n: real) | Bool(b: bool) | Nil

  datatype Arith = Add | Sub | Mul | Div
  datatype Relation = Equal | Greater | Less

  datatype Instr =
    | Const(c: nat)
    | Push(v: Value)
    | Binary(op: Arith)
    | BinaryConst(op: Arith, c: nat)
    | BinarySet(op: Arith, slot: nat)
    | LocalConst(op: Arith, slot: nat, c: nat)
    | Comparison(cmp: Relation)
    | Negate
    | Not
    | Pop
    | Dup
    | GetLocal(slot: nat)
    | SetLocal(slot: nat)
    | Adjust(height: nat)
    | Jump(distance: nat)
    | JumpIf(when: bool, distance: nat)
    | Loop(distance: nat)
    | ForPrep(slot: nat, end: nat, distance: nat)
    | ForLoop(slot: nat, end: nat, distance: nat)
    | Return(count: nat)

  /** `instr_length` on the fragment; 0 marks an opcode outside it. */
  function InstrLength(op: Byte): nat {
    if op in {OP_CONSTANT, OP_ADD_CONST, OP_SUB_CONST, OP_MUL_CONST, OP_DIV_CONST, OP_GET_LOCAL, OP_SET_LOCAL,
              OP_ADD_SET_LOCAL, OP_SUB_SET_LOCAL, OP_MUL_SET_LOCAL, OP_DIV_SET_LOCAL, OP_RETURN_N, OP_ADJUST_STACK} then 2
    else if op in {OP_INC_LOCAL, OP_SUB_LOCAL_CONST, OP_MUL_LOCAL_CONST, OP_DIV_LOCAL_CONST,
                   OP_JUMP, OP_JUMP_IF_FALSE, OP_JUMP_IF_TRUE, OP_LOOP} then 3
    else if op in {OP_FOR_PREP, OP_FOR_LOOP} then 5
    else if op in {OP_ADD, OP_SUBTRACT, OP_MULTIPLY, OP_DIVIDE, OP_NOT, OP_NEGATE, OP_POP, OP_DUP,
                   OP_RETURN, OP_TRUE, OP_FALSE, OP_NIL, OP_EQUAL, OP_GREATER, OP_LESS} then 1
    else 0
  }

  /** The bytes at `pc` are one whole instruction of the fragment. */
  predicate Whole(code: seq<Byte>, pc: nat) {
    pc < |code| && InstrLength(code[pc]) > 0 && pc + InstrLength(code[pc]) <= |code|
  }

  /** A 16-bit operand, high byte first (`READ_SHORT`). */
  function ReadShort(code: seq<Byte>, at: nat): (d: nat)
    requires at + 2 <= |code|
    ensures d < 0x1_0000
  {
    var hi: int := code[at];
    hi * 0x100 + code[at + 1]
  }

  function Decode(code: seq<Byte>, pc: nat): Instr
    requires Whole(code, pc)
  {
    var op := code[pc];
    if op == OP_CONSTANT then Const(code[pc + 1])
    else if op == OP_TRUE then Push(Bool(true))
    else if op == OP_FALSE then Push(Bool(false))
    else if op == OP_NIL then Push(Nil)
    else if op == OP_ADD then Binary(Add)
    else if op == OP_SUBTRACT then Binary(Sub)
    else if op == OP_MULTIPLY then Binary(Mul)
    else if op == OP_DIVIDE then Binary(Div)
    else if op == OP_ADD_CONST then BinaryConst(Add, code[pc + 1])
    else if op == OP_SUB_CONST then BinaryConst(Sub, code[pc + 1])
    else if op == OP_MUL_CONST then BinaryConst(Mul, code[pc + 1])
    else if op == OP_DIV_CONST then BinaryConst(Div, code[pc + 1])
    else if op == OP_ADD_SET_LOCAL then BinarySet(Add, code[pc + 1])
    else if op == OP_SUB_SET_LOCAL then BinarySet(Sub, code[pc + 1])
    else if op == OP_MUL_SET_LOCAL then BinarySet(Mul, code[pc + 1])
    else if op == OP_DIV_SET_LOCAL then BinarySet(Div, code[pc + 1])
    else if op == OP_INC_LOCAL then LocalConst(Add, code[pc + 1], code[pc + 2])
    else if op == OP_SUB_LOCAL_CONST then LocalConst(Sub, code[pc + 1], code[pc + 2])
    else if op == OP_MUL_LOCAL_CONST then LocalConst(Mul, code[pc + 1], code[pc + 2])
    else if op == OP_DIV_LOCAL_CONST then LocalConst(Div, code[pc + 1], code[pc + 2])
    else if op == OP_EQUAL then Comparison(Equal)
    else if op == OP_GREATER then Comparison(Greater)
    else if op == OP_LESS then Comparison(Less)
    else if op == OP_NEGATE then Negate
    else if op == OP_NOT then Not
    else if op == OP_POP then Pop
    else if op == OP_DUP then Dup
    else if op == OP_GET_LOCAL then GetLocal(code[pc + 1])
    else if op == OP_SET_LOCAL then SetLocal(code[pc + 1])
    else if op == OP_ADJUST_STACK then Adjust(code[pc + 1])
    else if op == OP_JUMP then Jump(ReadShort(code, pc + 1))
    else if op == OP_JUMP_IF_FALSE then JumpIf(false, ReadShort(code, pc + 1))
    else if op == OP_JUMP_IF_TRUE then JumpIf(true, ReadShort(code, pc + 1))
    else if op == OP_LOOP then Loop(ReadShort(code, pc + 1))
    else if op == OP_FOR_PREP then ForPrep(code[pc + 1], code[pc + 2], ReadShort(code, pc + 3))
    else if op == OP_FOR_LOOP then ForLoop(code[pc + 1], code[pc + 2], ReadShort(code, pc + 3))
    else if op == OP_RETURN_N then Return(code[pc + 1])
    else Return(1)
  }

  // ----- execution of one frame -----

  /** A frame is running with its stack (locals are its lowest slots), has returned values, or has failed. */
  datatype State =
    | Running(pc: int, stack: seq<Value>)
    | Returned(results: seq<Value>)
    | Failed

  datatype Program = Program(code: seq<Byte>, constants: seq<Value>)

  function Falsey(v: Value): bool {
    v == Nil || v == Bool(false) || v == Num(0.0)
  }

  /** Arithmetic on two numbers; `byZero` says what dividing by zero gives. */
  function Apply(op: Arith, a: real, b: real, byZero: real -> real): real {
    match op
    case Add => a + b
    case Sub => a - b
    case Mul => a * b
    case Div => if b == 0.0 then byZero(a) else a / b
  }

  /** The stack with the result of `a op b` on top of `rest`; anything but two numbers is an error. */
  function Operate(op: Arith, a: Value, b: Value, rest: seq<Value>, next: int, byZero: real -> real): State {
    if a.Num? && b.Num? then Running(next, rest + [Num(Apply(op, a.n, b.n, byZero))]) else Failed
  }

  /** Copies the top of the stack to a local slot. */
  function Store(slot: nat, s: State): State {
    match s
    case Running(pc, stack) =>
      if stack == [] || slot >= |stack| then Failed else Running(pc, stack[slot := stack[|stack| - 1]])
    case _ => s
  }

  function CompareValues(cmp: Relation, a: Value, b: Value, rest: seq<Value>, next: int): State {
    match cmp
    case Equal => Running(next, rest + [Bool(a == b)])
    case Greater => if a.Num? && b.Num? then Running(next, rest + [Bool(a.n > b.n)]) else Failed
    case Less => if a.Num? && b.Num? then Running(next, rest + [Bool(a.n < b.n)]) else Failed
  }

  /** The effect of one instruction; `next` is the address after it. Reading above the stack is an error. */
  function Exec(i: Instr, constants: seq<Value>, next: int, s: seq<Value>, byZero: real -> real): State {
    match i
    case Const(c) => if c < |constants| then Running(next, s + [constants[c]]) else Failed
    case Push(v) => Running(next, s + [v])
    case Binary(op) =>
      if |s| < 2 then Failed else Operate(op, s[|s| - 2], s[|s| - 1], s[..|s| - 2], next, byZero)
    case BinaryConst(op, c) =>
      if |s| < 1 || c >= |constants| then Failed
      else Operate(op, s[|s| - 1], constants[c], s[..|s| - 1], next, byZero)
    case BinarySet(op, slot) =>
      if |s| < 2 then Failed else Store(slot, Operate(op, s[|s| - 2], s[|s| - 1], s[..|s| - 2], next, byZero))
    case LocalConst(op, slot, c) =>
      if slot >= |s| || c >= |constants| then Failed
      else Store(slot, Operate(op, s[slot], constants[c], s, next, byZero))
    case Comparison(cmp) =>
      if |s| < 2 then Failed else CompareValues(cmp, s[|s| - 2], s[|s| - 1], s[..|s| - 2], next)
    case Negate =>
      if s == [] || !s[|s| - 1].Num? then Failed else Running(next, s[..|s| - 1] + [Num(-s[|s| - 1].n)])
    case Not => if s == [] then Failed else Running(next, s[..|s| - 1] + [Bool(Falsey(s[|s| - 1]))])
    case Pop => if s == [] then Failed else Running(next, s[..|s| - 1])
    case Dup => if s == [] then Failed else Running(next, s + [s[|s| - 1]])
    case GetLocal(slot) => if slot >= |s| then Failed else Running(next, s + [s[slot]])
    case SetLocal(slot) => Store(slot, Running(next, s))
    case Adjust(height) => if height > |s| then Failed else Running(next, s[..height])
    case Jump(d) => Running(next + d, s)
    case JumpIf(when, d) => if s == [] then Failed else Running(if Falsey(s[|s| - 1]) != when then next + d else next, s)
    case Loop(d) => Running(next - d, s)
    case ForPrep(slot, end, d) =>
      if slot >= |s| || end >= |s| || !s[slot].Num? || !s[end].Num? then Failed
      else Running(if s[slot].n > s[end].n then next + d else next, s)
    case ForLoop(slot, end, d) =>
      if slot >= |s| || end >= |s| || !s[slot].Num? || !s[end].Num? then Failed
      else
        var v := s[slot].n + 1.0;
        Running(if v <= s[end].n then next - d else next, s[slot := Num(v)])
    case Return(count) => if count > |s| then Failed else Returned(s[|s| - count..])
  }

  function Step(p: Program, st: State, byZero: real -> real): State {
    match st
    case Running(pc, stack) =>
      if pc < 0 || !Whole(p.code, pc) then Failed
      else Exec(Decode(p.code, pc), p.constants, pc + InstrLength(p.code[pc]), stack, byZero)
    case _ => st
  }

  function Run(p: Program, st: State, n: nat, byZero: real -> real): State
    decreases n
  {
    if n == 0 then st else Run(p, Step(p, st, byZero), n - 1, byZero)
  }

  lemma {:induction false} RunAdds(p: Program, st: State, m: nat, n: nat, byZero: real -> real)
    ensures Run(p, st, m + n, byZero) == Run(p, Run(p, st, m, byZero), n, byZero)
    decreases m
  {
    if m > 0 { RunAdds(p, Step(p, st, byZero), m - 1, n, byZero); }
  }

  lemma {:induction false} RunEnded(p: Program, st: State, n: nat, byZero: real -> real)
    requires !st.Running?
    ensures Run(p, st, n, byZero) == st
    decreases n
  {
    if n > 0 { RunEnded(p, st, n - 1, byZero); }
  }

  /** Started like this, the frame ends like that. */
  ghost predicate Ends(p: Program, st: State, result: State, byZero: real -> real) {
    !result.Running? && exists n: nat :: Run(p, st, n, byZero) == result
  }
}
