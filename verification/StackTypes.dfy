/** A check on the code alone, under which every run leaves the optimizer's assumptions in force. */
module StackTypes {
  import opened Bytes
  import opened Options
  import opened Bytecode
  import opened Peephole
  import opened Layout
  import opened Simulation
  import opened Equivalence
  import opened OptimizerLimits

  /** The height of a stack, and for each slot whether it is known to hold a number. */
  predicate Fits(known: seq<bool>, s: seq<Value>) {
    |known| == |s| && forall i :: 0 <= i < |s| && known[i] ==> s[i].Num?
  }

  /** What fits the first also fits the second. */
  predicate Tells(known: seq<bool>, less: seq<bool>) {
    |known| == |less| && forall i :: 0 <= i < |less| && less[i] ==> known[i]
  }

  /** What is known behind an instruction, if it can go on from there. */
  function After(i: Instr, constants: seq<Value>, k: seq<bool>): Option<seq<bool>> {
    match i
    case Const(c) => if c < |constants| then Some(k + [constants[c].Num?]) else None
    case Push(v) => Some(k + [v.Num?])
    case Binary(_) => if |k| < 2 then None else Some(k[..|k| - 2] + [true])
    case BinaryConst(_, _) => if k == [] then None else Some(k[..|k| - 1] + [true])
    case BinarySet(_, slot) => if |k| < 2 || slot >= |k| - 1 then None else Some((k[..|k| - 2] + [true])[slot := true])
    case LocalConst(_, slot, _) => if slot >= |k| then None else Some((k + [true])[slot := true])
    case Comparison(_) => if |k| < 2 then None else Some(k[..|k| - 2] + [false])
    case Negate => if k == [] then None else Some(k[..|k| - 1] + [true])
    case Not => if k == [] then None else Some(k[..|k| - 1] + [false])
    case Pop => if k == [] then None else Some(k[..|k| - 1])
    case Dup => if k == [] then None else Some(k + [k[|k| - 1]])
    case GetLocal(slot) => if slot >= |k| then None else Some(k + [k[slot]])
    case SetLocal(slot) => if slot >= |k| then None else Some(k[slot := k[|k| - 1]])
    case Adjust(height) => if height > |k| then None else Some(k[..height])
    case Jump(_) => Some(k)
    case JumpIf(_, _) => if k == [] then None else Some(k)
    case Loop(_) => Some(k)
    case ForPrep(slot, end, _) => if slot >= |k| || end >= |k| then None else Some(k[slot := true][end := true])
    case ForLoop(slot, end, _) => if slot >= |k| || end >= |k| then None else Some(k[slot := true][end := true])
    case Return(_) => None
  }

  /** Where an instruction may go on. */
  predicate GoesTo(i: Instr, next: int, to: int) {
    match i
    case Jump(d) => to == next + d
    case JumpIf(_, d) => to == next || to == next + d
    case Loop(d) => to == next - d
    case ForPrep(_, _, d) => to == next || to == next + d
    case ForLoop(_, _, d) => to == next || to == next - d
    case _ => to == next
  }

  /** An instruction that goes on leaves a stack of which that is known. */
  lemma AfterIsSound(i: Instr, constants: seq<Value>, next: int, k: seq<bool>, s: seq<Value>, byZero: real -> real)
    requires Fits(k, s) && Exec(i, constants, next, s, byZero).Running?
    ensures var st := Exec(i, constants, next, s, byZero);
            GoesTo(i, next, st.pc) && After(i, constants, k).Some? && Fits(After(i, constants, k).value, st.stack)
  {
    hide Falsey, Apply;
  }

  /**
   * The code is annotated: at its start and wherever it goes on from an annotated instruction, what is known there
   * follows from what is known before.
   */
  ghost predicate Annotated(p: Program, known: map<int, seq<bool>>) {
    forall i, to :: i in known && 0 <= i && Whole(p.code, i) && GoesTo(Decode(p.code, i), i + InstrLength(p.code[i]), to)
                    && 0 <= to < |p.code| && After(Decode(p.code, i), p.constants, known[i]).Some? ==>
                      to in known && Tells(After(Decode(p.code, i), p.constants, known[i]).value, known[to])
  }

  /** What the optimizer assumes of each place it rewrites follows from the annotations. */
  ghost predicate Assured(p: Program, target: seq<bool>, known: map<int, seq<bool>>, byZero: real -> real)
    requires |target| == |p.code|
  {
    forall i: nat :: i in known && i < |p.code| && Visits(p, target, byZero, 0, i) && Whole(p.code, i) ==>
      AssuredAt(p, target, Choose(p, target, i, byZero), i, known[i], byZero)
  }

  ghost predicate AssuredAt(p: Program, target: seq<bool>, r: Rewrite, i: nat, k: seq<bool>, byZero: real -> real)
    requires |target| == |p.code|
  {
    match r
    case DropIdentity => k != [] && k[|k| - 1]
    case DropAdjust(len) => i + len + 2 < |p.code| && |k| == p.code[i + len + 2]
    case FoldBinary(v) => Lands(p, target, byZero, i, v)
    case FoldNegate(v) => Lands(p, target, byZero, i, v)
    case _ => true
  }

  /** The frame is where the annotations say, or ended, or about to fail. */
  ghost predicate Obeys(p: Program, known: map<int, seq<bool>>, st: State) {
    st.Running? && 0 <= st.pc < |p.code| ==> st.pc in known && Fits(known[st.pc], st.stack)
  }

  lemma StepObeys(p: Program, known: map<int, seq<bool>>, st: State, byZero: real -> real)
    requires Annotated(p, known) && Obeys(p, known, st)
    ensures Obeys(p, known, Step(p, st, byZero))
  {
    var after := Step(p, st, byZero);
    if st.Running? && after.Running? {
      hide After, Exec, Decode, GoesTo;
      var i := Decode(p.code, st.pc);
      AfterIsSound(i, p.constants, st.pc + InstrLength(p.code[st.pc]), known[st.pc], st.stack, byZero);
      assert GoesTo(i, st.pc + InstrLength(p.code[st.pc]), after.pc);
    }
  }

  lemma {:induction false} RunObeys(p: Program, known: map<int, seq<bool>>, st: State, n: nat, byZero: real -> real)
    requires Annotated(p, known) && Obeys(p, known, st)
    ensures Obeys(p, known, Run(p, st, n, byZero))
    decreases n
  {
    hide Annotated, Obeys, Step;
    if n > 0 {
      StepObeys(p, known, st, byZero);
      RunObeys(p, known, Step(p, st, byZero), n - 1, byZero);
    }
  }

  /** In annotated code that assures the rewrites every run that begins as annotated is harmless. */
  lemma AssuredIsHarmless(p: Program, target: seq<bool>, known: map<int, seq<bool>>, s: seq<Value>,
                          byZero: real -> real)
    requires |target| == |p.code| && Annotated(p, known) && Assured(p, target, known, byZero)
    requires 0 in known && Fits(known[0], s)
    ensures HarmlessRun(p, target, Running(0, s), byZero)
  {
    hide Annotated, Assured, Run, Visits, Choose, Whole, Step, Lands;
    forall n: nat
      ensures HarmlessState(p, target, Run(p, Running(0, s), n, byZero), byZero)
    {
      RunObeys(p, known, Running(0, s), n, byZero);
      ObeysIsHarmless(p, target, known, Run(p, Running(0, s), n, byZero), byZero);
    }
  }

  lemma ObeysIsHarmless(p: Program, target: seq<bool>, known: map<int, seq<bool>>, st: State, byZero: real -> real)
    requires |target| == |p.code| && Assured(p, target, known, byZero) && Obeys(p, known, st)
    ensures HarmlessState(p, target, st, byZero)
  {
    hide Visits, Choose, Whole, Step, Lands;
  }

  /** Such code has the same results before and after its optimization, on every stack as annotated at the start. */
  lemma AnnotatedRuns(p: Program, q: Program, target: seq<bool>, m: seq<int>, known: map<int, seq<bool>>, s: seq<Value>,
                      result: State, byZero: real -> real)
    requires WellFormed(p) && Translates(p, q, target, m, byZero)
    requires |target| == |p.code| && Annotated(p, known) && Assured(p, target, known, byZero)
    requires 0 in known && Fits(known[0], s)
    ensures Ends(p, Running(0, s), result, byZero) <==> Ends(q, Running(0, s), result, byZero)
  {
    hide *;
    AssuredIsHarmless(p, target, known, s, byZero);
    TranslationRuns(p, q, target, m, byZero);
    SameRunsIs(p, q, target, s, result, byZero);
  }

  lemma SameRunsIs(p: Program, q: Program, target: seq<bool>, s: seq<Value>, result: State, byZero: real -> real)
    requires SameRuns(p, q, target, byZero) && |target| == |p.code| && HarmlessRun(p, target, Running(0, s), byZero)
    ensures Ends(p, Running(0, s), result, byZero) <==> Ends(q, Running(0, s), result, byZero)
  {
    hide HarmlessRun, Ends;
  }

  /** `x + 0` on a parameter. */
  function LocalPlusZero(): Program {
    Program([OP_GET_LOCAL, 0, OP_CONSTANT, 0, OP_ADD, OP_RETURN], [Num(0.0)])
  }

  function LocalPlusZeroTypes(): map<int, seq<bool>> {
    map[0 := [true], 2 := [true, true], 4 := [true, true, true], 5 := [true, true]]
  }

  /** Its four instructions, and what is known behind each. */
  lemma LocalInstructions()
    ensures var p := LocalPlusZero();
            && Whole(p.code, 0) && InstrLength(p.code[0]) == 2 && Decode(p.code, 0) == GetLocal(0)
            && Whole(p.code, 2) && InstrLength(p.code[2]) == 2 && Decode(p.code, 2) == Const(0)
            && Whole(p.code, 4) && InstrLength(p.code[4]) == 1 && Decode(p.code, 4) == Binary(Add)
            && Whole(p.code, 5) && Decode(p.code, 5) == Return(1)
  {
  }

  lemma LocalKnown()
    ensures After(GetLocal(0), [Num(0.0)], [true]) == Some([true, true])
    ensures After(Const(0), [Num(0.0)], [true, true]) == Some([true, true, true])
    ensures After(Binary(Add), [Num(0.0)], [true, true, true]) == Some([true, true])
    ensures After(Return(1), [Num(0.0)], [true, true]) == None
  {
    assert [true] + [true] == [true, true] && [true, true] + [true] == [true, true, true]
           && [true, true, true][..1] == [true];
  }

  lemma LocalAnnotated()
    ensures Annotated(LocalPlusZero(), LocalPlusZeroTypes())
  {
    LocalInstructions();
    LocalKnown();
    assert LocalPlusZero().constants == [Num(0.0)];
    hide Decode, InstrLength, Whole, After, LocalPlusZero;
  }

  lemma LocalAssured(target: seq<bool>, byZero: real -> real)
    requires |target| == 6
    ensures Assured(LocalPlusZero(), target, LocalPlusZeroTypes(), byZero)
    ensures 0 in LocalPlusZeroTypes() && LocalPlusZeroTypes()[0] == [true] && |LocalPlusZero().code| == 6
  {
    hide Visits, Lands;
  }

  lemma OneNumber(x: real)
    ensures Fits([true], [Num(x)])
  {
  }

  lemma IdentityDropped(q: Program, target: seq<bool>, m: seq<int>, byZero: real -> real)
    requires Translates(LocalPlusZero(), q, target, m, byZero)
    ensures |target| == 6 && Whole(LocalPlusZero().code, 2)
            && Choose(LocalPlusZero(), target, 2, byZero) == DropIdentity
  {
    MarksIn(LocalPlusZero(), q, target, m, byZero);
    LocalInstructions();
    NoJumps();
    hide *;
    NoTargets(LocalPlusZero().code, target);
    IdentityChosen(target, byZero);
  }

  lemma MarksIn(p: Program, q: Program, target: seq<bool>, m: seq<int>, byZero: real -> real)
    requires Translates(p, q, target, m, byZero)
    ensures MarksTargets(p.code, target) && |target| == |p.code|
  {
    hide Visits, Laid, Retargeted, IsCopiedJump;
  }

  lemma NoJumps()
    ensures forall k :: 0 <= k < |LocalPlusZero().code| ==> !IsJump(LocalPlusZero().code[k])
    ensures |LocalPlusZero().code| == 6
  {
  }

  lemma IdentityChosen(target: seq<bool>, byZero: real -> real)
    requires |target| == 6 && Whole(LocalPlusZero().code, 2) && !target[2] && !target[4]
    ensures |LocalPlusZero().code| == 6 && Choose(LocalPlusZero(), target, 2, byZero) == DropIdentity
  {
  }

  /** For a number as parameter the identity is dropped with the same results. */
  lemma NumericParameter(q: Program, target: seq<bool>, m: seq<int>, x: real, result: State, byZero: real -> real)
    requires WellFormed(LocalPlusZero()) && Translates(LocalPlusZero(), q, target, m, byZero)
    ensures |target| == 6 && Whole(LocalPlusZero().code, 2)
            && Choose(LocalPlusZero(), target, 2, byZero) == DropIdentity
    ensures Ends(LocalPlusZero(), Running(0, [Num(x)]), result, byZero) <==>
              Ends(q, Running(0, [Num(x)]), result, byZero)
  {
    hide *;
    IdentityDropped(q, target, m, byZero);
    LocalAnnotated();
    LocalAssured(target, byZero);
    OneNumber(x);
    AnnotatedRuns(LocalPlusZero(), q, target, m, LocalPlusZeroTypes(), [Num(x)], result, byZero);
  }
}
