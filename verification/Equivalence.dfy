/** Whole runs: the original and the optimized code end alike, whichever of the two is followed. */
module Equivalence {
  import opened Bytes
  import opened Bytecode
  import opened Peephole
  import opened Simulation

  /** Wherever the run of the original code comes to a place the optimizer visited, its rewrite is harmless. */
  ghost predicate HarmlessRun(p: Program, target: seq<bool>, st: State, byZero: real -> real)
    requires |target| == |p.code|
  {
    forall k: nat :: HarmlessState(p, target, Run(p, st, k, byZero), byZero)
  }

  ghost predicate HarmlessState(p: Program, target: seq<bool>, st: State, byZero: real -> real)
    requires |target| == |p.code|
  {
    st.Running? && 0 <= st.pc < |p.code| && Visits(p, target, byZero, 0, st.pc) && Whole(p.code, st.pc) ==>
      Harmless(p, target, Choose(p, target, st.pc, byZero), st.pc, st.stack, byZero)
  }

  lemma HarmlessOn(p: Program, target: seq<bool>, st: State, k: nat, byZero: real -> real)
    requires |target| == |p.code| && HarmlessRun(p, target, st, byZero)
    ensures HarmlessRun(p, target, Run(p, st, k, byZero), byZero)
  {
    hide HarmlessState, Run;
    forall j: nat
      ensures HarmlessState(p, target, Run(p, Run(p, st, k, byZero), j, byZero), byZero)
    {
      RunAdds(p, st, k, j, byZero);
    }
  }

  /** At a visited place of a harmless run, the rewrite's steps lead to agreeing frames again. */
  lemma PlaceAgrees(p: Program, q: Program, target: seq<bool>, m: seq<int>, i: nat, s: seq<Value>, byZero: real -> real)
    requires Sound(p, q, target, m, byZero) && i < |m| && m[i] >= 0
    requires |target| == |p.code| && HarmlessRun(p, target, Running(i, s), byZero)
    ensures Whole(p.code, i)
    ensures var r := Choose(p, target, i, byZero);
            Agree(q, m, Run(p, Running(i, s), OldSteps(r), byZero), Run(q, Running(m[i], s), NewSteps(r), byZero))
  {
    hide WellFormed, Visits, Laid, Retargeted, IsCopiedJump, MarksTargets, Agree, Harmless, Choose, Whole;
    SimPlace(p, q, target, m, i, s, byZero);
    assert Run(p, Running(i, s), 0, byZero) == Running(i, s);
    assert HarmlessState(p, target, Running(i, s), byZero);
  }

  /** The end of the code fails in both. */
  lemma AtEnd(p: Program, st: State, n: nat, byZero: real -> real)
    requires st.Running? && st.pc == |p.code|
    ensures Run(p, st, n, byZero) == if n == 0 then st else Failed
  {
    if n > 0 { RunEnded(p, Failed, n - 1, byZero); }
  }

  /** A run that ended has the same result any number of steps later. */
  lemma RunKeepsResult(p: Program, st: State, n: nat, k: nat, byZero: real -> real)
    requires !Run(p, st, n, byZero).Running? && n <= k
    ensures Run(p, st, k, byZero) == Run(p, st, n, byZero)
  {
    RunAdds(p, st, n, k - n, byZero);
    RunEnded(p, Run(p, st, n, byZero), k - n, byZero);
  }

  lemma SameEnd(p: Program, st: State, n: nat, k: nat, byZero: real -> real)
    requires !Run(p, st, n, byZero).Running? && !Run(p, st, k, byZero).Running?
    ensures Run(p, st, n, byZero) == Run(p, st, k, byZero)
  {
    hide Run;
    if n < k { RunKeepsResult(p, st, n, k, byZero); } else { RunKeepsResult(p, st, k, n, byZero); }
  }

  lemma StillRunning(p: Program, st: State, k: nat, n: nat, byZero: real -> real)
    requires Run(p, st, k, byZero).Running? && !Run(p, st, n, byZero).Running?
    ensures k < n
  {
    hide Run;
    if n <= k { RunKeepsResult(p, st, n, k, byZero); }
  }

  /** What the original ends with, the optimized code ends with. */
  lemma {:induction false} Forward(p: Program, q: Program, target: seq<bool>, m: seq<int>, pc: nat, s: seq<Value>,
                                   n: nat, byZero: real -> real)
    requires Sound(p, q, target, m, byZero) && |target| == |p.code| && pc <= |m| && Image(m, q, pc) >= 0
    requires HarmlessRun(p, target, Running(pc, s), byZero)
    requires !Run(p, Running(pc, s), n, byZero).Running?
    ensures Ends(q, Running(Image(m, q, pc), s), Run(p, Running(pc, s), n, byZero), byZero)
    decreases n
  {
    hide *;
    SoundLengths(p, q, target, m, byZero);
    var st := Running(pc, s);
    var image := Running(Image(m, q, pc), s);
    ImageIs(m, q, pc);
    if pc == |m| {
      AtEnd(p, st, n, byZero);
      AtEnd(q, image, 1, byZero);
      EndsAfter(q, image, 1, byZero);
    } else {
      PlaceAgrees(p, q, target, m, pc, s, byZero);
      var r := Choose(p, target, pc, byZero);
      var k, k' := OldSteps(r), NewSteps(r);
      var a, b := Run(p, st, k, byZero), Run(q, image, k', byZero);
      Agreed(q, m, a, b);
      if !a.Running? {
        SameEnd(p, st, n, k, byZero);
        EndsAfter(q, image, k', byZero);
      } else {
        StillRunning(p, st, k, n, byZero);
        HarmlessOn(p, target, st, k, byZero);
        RunAdds(p, st, k, n - k, byZero);
        Forward(p, q, target, m, a.pc, a.stack, n - k, byZero);
        EndsLater(q, image, k', Run(p, st, n, byZero), byZero);
      }
    }
  }

  lemma SoundLengths(p: Program, q: Program, target: seq<bool>, m: seq<int>, byZero: real -> real)
    requires Sound(p, q, target, m, byZero)
    ensures |m| == |p.code|
  {
  }

  lemma ImageIs(m: seq<int>, q: Program, i: nat)
    requires i <= |m|
    ensures Image(m, q, i) == if i == |m| then |q.code| else m[i]
  {
  }

  /** Agreeing frames both run, or ended alike. */
  lemma Agreed(q: Program, m: seq<int>, a: State, b: State)
    requires Agree(q, m, a, b)
    ensures !a.Running? ==> b == a
    ensures a.Running? ==> 0 <= a.pc <= |m| && Image(m, q, a.pc) >= 0 && b == Running(Image(m, q, a.pc), a.stack)
  {
  }

  lemma EndsAfter(p: Program, st: State, n: nat, byZero: real -> real)
    requires !Run(p, st, n, byZero).Running?
    ensures Ends(p, st, Run(p, st, n, byZero), byZero)
  {
  }

  lemma EndsLater(p: Program, st: State, k: nat, result: State, byZero: real -> real)
    requires Ends(p, Run(p, st, k, byZero), result, byZero)
    ensures Ends(p, st, result, byZero)
  {
    hide Run;
    var n: nat :| Run(p, Run(p, st, k, byZero), n, byZero) == result;
    RunAdds(p, st, k, n, byZero);
  }

  /** A rewrite that emits nothing moves on in the code; every other one takes a step. */
  lemma Progress(p: Program, q: Program, target: seq<bool>, m: seq<int>, i: nat, s: seq<Value>, byZero: real -> real)
    requires Sound(p, q, target, m, byZero) && |target| == |p.code| && i < |m| && m[i] >= 0
    requires HarmlessRun(p, target, Running(i, s), byZero) && Whole(p.code, i)
    ensures var r := Choose(p, target, i, byZero);
            NewSteps(r) > 0 || Run(p, Running(i, s), OldSteps(r), byZero) == Running(i + 3, s)
  {
    hide WellFormed, Visits, Laid, Retargeted, IsCopiedJump, MarksTargets, Whole, Step, Exec;
    if DropsIdentity(p, target, i) {
      SimDropIdentity(p, i, s, byZero);
      assert Run(p, Running(i, s), 0, byZero) == Running(i, s);
      assert HarmlessState(p, target, Running(i, s), byZero);
    }
  }

  /** What the optimized code ends with, the original ends with. */
  lemma {:induction false} Backward(p: Program, q: Program, target: seq<bool>, m: seq<int>, pc: nat, s: seq<Value>,
                                    n: nat, byZero: real -> real)
    requires Sound(p, q, target, m, byZero) && |target| == |p.code| && pc <= |m| && Image(m, q, pc) >= 0
    requires HarmlessRun(p, target, Running(pc, s), byZero)
    requires !Run(q, Running(Image(m, q, pc), s), n, byZero).Running?
    ensures Ends(p, Running(pc, s), Run(q, Running(Image(m, q, pc), s), n, byZero), byZero)
    decreases n, |m| - pc
  {
    hide *;
    SoundLengths(p, q, target, m, byZero);
    var st := Running(pc, s);
    var image := Running(Image(m, q, pc), s);
    ImageIs(m, q, pc);
    if pc == |m| {
      AtEnd(q, image, n, byZero);
      AtEnd(p, st, 1, byZero);
      EndsAfter(p, st, 1, byZero);
    } else {
      PlaceAgrees(p, q, target, m, pc, s, byZero);
      Progress(p, q, target, m, pc, s, byZero);
      var r := Choose(p, target, pc, byZero);
      var k, k' := OldSteps(r), NewSteps(r);
      var a, b := Run(p, st, k, byZero), Run(q, image, k', byZero);
      Agreed(q, m, a, b);
      if !b.Running? {
        SameEnd(q, image, n, k', byZero);
        EndsAfter(p, st, k, byZero);
      } else {
        StillRunning(q, image, k', n, byZero);
        HarmlessOn(p, target, st, k, byZero);
        RunAdds(q, image, k', n - k', byZero);
        Backward(p, q, target, m, a.pc, a.stack, n - k', byZero);
        EndsLater(p, st, k, Run(q, image, n, byZero), byZero);
      }
    }
  }

  /** The optimized code ends with exactly the results the original ends with, from every start of a harmless run. */
  lemma SameResults(p: Program, q: Program, target: seq<bool>, m: seq<int>, s: seq<Value>, result: State,
                    byZero: real -> real)
    requires Sound(p, q, target, m, byZero) && |target| == |p.code|
    requires HarmlessRun(p, target, Running(0, s), byZero)
    ensures Ends(p, Running(0, s), result, byZero) <==> Ends(q, Running(0, s), result, byZero)
  {
    hide HarmlessRun, Run, WellFormed, Visits, Laid, Retargeted, MarksTargets, IsCopiedJump;
    assert Image(m, q, 0) == 0;
    if Ends(p, Running(0, s), result, byZero) {
      var n: nat :| Run(p, Running(0, s), n, byZero) == result;
      Forward(p, q, target, m, 0, s, n, byZero);
    }
    if Ends(q, Running(0, s), result, byZero) {
      var n: nat :| Run(q, Running(0, s), n, byZero) == result;
      Backward(p, q, target, m, 0, s, n, byZero);
    }
  }

  /** From every stack from which the original runs harmlessly, both programs end with the same results. */
  ghost predicate SameRuns(p: Program, q: Program, target: seq<bool>, byZero: real -> real) {
    |target| == |p.code| &&
    forall s: seq<Value>, result: State ::
      HarmlessRun(p, target, Running(0, s), byZero) ==>
        (Ends(p, Running(0, s), result, byZero) <==> Ends(q, Running(0, s), result, byZero))
  }

  /** A translation runs like the original. */
  lemma TranslationRuns(p: Program, q: Program, target: seq<bool>, m: seq<int>, byZero: real -> real)
    requires WellFormed(p) && Translates(p, q, target, m, byZero)
    ensures SameRuns(p, q, target, byZero)
  {
    hide WellFormed, Visits, Laid, Retargeted, MarksTargets, IsCopiedJump, HarmlessRun, Ends;
    forall s: seq<Value>, result: State | HarmlessRun(p, target, Running(0, s), byZero)
      ensures Ends(p, Running(0, s), result, byZero) <==> Ends(q, Running(0, s), result, byZero)
    {
      SameResults(p, q, target, m, s, result, byZero);
    }
  }
}
