/** The new code as the rewriting loop leaves it, and what patching its jumps changes. */
module Layout {
  import opened Bytes
  import opened Bytecode
  import opened Peephole

  /** A jump to be patched: where it was, where it is, and its old distance. */
  datatype JumpPatch = JumpPatch(oldOffset: nat, newOffset: nat, sign: int, oldJump: nat)

  function PatchFor(code: seq<Byte>, i: nat, at: nat): JumpPatch
    requires Whole(code, i) && IsJump(code[i])
  {
    JumpPatch(i, at, JumpSign(code[i]), ReadShort(code, i + JumpOperand(code[i])))
  }

  // ----- rewriting at one offset -----

  /** The constants an instruction and the one behind it name are in the table. */
  lemma OperandsKnown(p: Program, i: nat)
    requires WellFormed(p) && IsStart(p.code, i) && i < |p.code|
    ensures Whole(p.code, i)
    ensures p.code[i] == OP_CONSTANT ==> i + 1 < |p.code| && p.code[i + 1] < |p.constants|
    ensures p.code[i] in {OP_CONSTANT, OP_GET_LOCAL} && i + 2 < |p.code| && p.code[i + 2] == OP_CONSTANT ==>
            i + 3 < |p.code| && p.code[i + 3] < |p.constants|
  {
    hide IsStart;
    NextIsStart(p, i);
  }

  /** The bytes `out` rewrite the code from `i` up to `next` in the way `Choose` says. */
  ghost predicate Rewritten(p: Program, index: int, target: seq<bool>, byZero: real -> real, i: nat, next: nat,
                            out: seq<Byte>)
    requires |target| == |p.code|
  {
    && Whole(p.code, i)
    && var r := Choose(p, target, i, byZero);
       Emitted(p, index, r, i, out) && next == i + r.Span()
  }

  lemma CopyEmitted(p: Program, index: int, i: nat)
    requires Whole(p.code, i)
    ensures Emitted(p, index, Copy(InstrLength(p.code[i])), i, p.code[i..i + InstrLength(p.code[i])])
  {
  }

  // ----- the rewriting loop -----

  /** The old code up to `|m|` is rewritten: `m` maps the visited places, and each of them is laid out. */
  ghost predicate LaidUpTo(p: Program, q: Program, target: seq<bool>, m: seq<int>, byZero: real -> real) {
    && |m| <= |target| == |p.code|
    && Visits(p, target, byZero, 0, |m|)
    && (forall j: nat :: j < |m| ==> (m[j] >= 0 <==> Visits(p, target, byZero, 0, j)))
    && (forall j: nat :: j < |m| && m[j] >= 0 ==> Laid(p, q, target, m, byZero, j))
    && (if m == [] then q.code == [] else m[0] == 0)
  }

  /** The address map after visiting the place behind `m`: mapped itself, the rest of its rewrite not. */
  ghost function Extended(m: seq<int>, at: nat, next: nat): (n: seq<int>)
    requires |m| < next
    ensures |n| == next && m <= n && n[|m|] == at && forall k :: |m| < k < next ==> n[k] == -1
  {
    m + [at] + seq(next - |m| - 1, _ => -1)
  }

  lemma LaidStays(p: Program, q: Program, q': Program, target: seq<bool>, m: seq<int>, m': seq<int>,
                  byZero: real -> real, j: nat)
    requires |m| <= |m'| <= |target| == |p.code| && j < |m| && Laid(p, q, target, m, byZero, j)
    requires q.code <= q'.code && m <= m'
    requires if |m'| == |m| then q'.code == q.code else m'[|m|] == |q.code|
    ensures Laid(p, q', target, m', byZero, j)
  {
    hide Choose, Emitted, Whole, FoldIndex;
    var r := Choose(p, target, j, byZero);
    assert q'.code[m[j]..m[j] + r.Size()] == q.code[m[j]..m[j] + r.Size()];
  }

  lemma LaidNext(p: Program, q: Program, constants: seq<Value>, target: seq<bool>, m: seq<int>, byZero: real -> real,
                 next: nat, out: seq<Byte>)
    requires |m| < next <= |target| == |p.code|
    requires Rewritten(p, FoldIndex(p, target, byZero, |m|), target, byZero, |m|, next, out)
    ensures Laid(p, Program(q.code + out, constants), target, Extended(m, |q.code|, next), byZero, |m|)
  {
    hide Choose, Emitted, Whole, FoldIndex;
    var n := |q.code|;
    assert (q.code + out)[n..n + |out|] == out;
    EmittedSize(p, FoldIndex(p, target, byZero, |m|), Choose(p, target, |m|, byZero), |m|, out);
  }

  lemma EmittedSize(p: Program, index: int, r: Rewrite, i: nat, out: seq<Byte>)
    requires Whole(p.code, i) && Emitted(p, index, r, i, out)
    ensures |out| == r.Size() && i + r.Span() <= |p.code| && i < i + r.Span()
  {
  }

  lemma LayOn(p: Program, q: Program, constants: seq<Value>, target: seq<bool>, m: seq<int>, byZero: real -> real,
              next: nat, out: seq<Byte>)
    requires LaidUpTo(p, q, target, m, byZero) && |m| < |p.code| && |m| < next
    requires |target| == |p.code| && Rewritten(p, FoldIndex(p, target, byZero, |m|), target, byZero, |m|, next, out)
    ensures next <= |p.code|
    ensures LaidUpTo(p, Program(q.code + out, constants), target, Extended(m, |q.code|, next), byZero)
  {
    hide Laid, Choose, Emitted, Whole, FoldIndex;
    var i := |m|;
    var q' := Program(q.code + out, constants);
    EmittedSize(p, FoldIndex(p, target, byZero, i), Choose(p, target, i, byZero), i, out);
    var m' := Extended(m, |q.code|, next);
    LaidNext(p, q, constants, target, m, byZero, next, out);
    forall j: nat | j < i && m[j] >= 0
      ensures Laid(p, q', target, m', byZero, j)
    {
      LaidStays(p, q, q', target, m, m', byZero, j);
    }
    assert Visits(p, target, byZero, i, next);
    VisitsOn(p, target, byZero, 0, i, next);
    forall j: nat | i < j < next
      ensures !Visits(p, target, byZero, 0, j)
    {
      if Visits(p, target, byZero, 0, j) {
        VisitsNext(p, target, byZero, 0, i, j);
        VisitsForward(p, target, byZero, next, j);
      }
    }
  }

  lemma VisitsForward(p: Program, target: seq<bool>, byZero: real -> real, from: nat, i: nat)
    requires |target| == |p.code| && Visits(p, target, byZero, from, i)
    ensures from <= i
  {
  }

  /** The patches recorded so far: one for each copied jump, in the order of the code. */
  ghost predicate Recorded(p: Program, target: seq<bool>, m: seq<int>, byZero: real -> real, patches: seq<JumpPatch>) {
    && |m| <= |target| == |p.code|
    && (forall k :: 0 <= k < |patches| ==> IsPatch(p, target, m, byZero, patches[k]))
    && (forall k, l :: 0 <= k < l < |patches| ==> patches[k].oldOffset < patches[l].oldOffset)
    && (forall j: nat :: j < |m| && m[j] >= 0 && IsCopiedJump(p, target, byZero, j) ==> HasPatch(patches, j))
  }

  ghost predicate IsPatch(p: Program, target: seq<bool>, m: seq<int>, byZero: real -> real, patch: JumpPatch)
    requires |m| <= |target| == |p.code|
  {
    && patch.oldOffset < |m| && m[patch.oldOffset] == patch.newOffset
    && IsCopiedJump(p, target, byZero, patch.oldOffset)
    && patch == PatchFor(p.code, patch.oldOffset, patch.newOffset)
  }

  ghost predicate HasPatch(patches: seq<JumpPatch>, j: nat) {
    exists k :: 0 <= k < |patches| && patches[k].oldOffset == j
  }

  lemma RecordOn(p: Program, target: seq<bool>, m: seq<int>, byZero: real -> real, patches: seq<JumpPatch>, at: nat,
                 next: nat, patch: seq<JumpPatch>)
    requires Recorded(p, target, m, byZero, patches) && |m| < next <= |p.code|
    requires patch == if IsCopiedJump(p, target, byZero, |m|) then [PatchFor(p.code, |m|, at)] else []
    ensures Recorded(p, target, Extended(m, at, next), byZero, patches + patch)
  {
    hide IsCopiedJump, Extended;
    var m' := Extended(m, at, next);
    var all := patches + patch;
    CopiedJumpIs(p, target, byZero, |m|);
    forall j: nat | j < next && m'[j] >= 0 && IsCopiedJump(p, target, byZero, j)
      ensures HasPatch(all, j)
    {
      if j < |m| {
        var k :| 0 <= k < |patches| && patches[k].oldOffset == j;
        assert all[k].oldOffset == j;
      } else {
        assert all[|patches|].oldOffset == j;
      }
    }
  }

  lemma CopiedJumpIs(p: Program, target: seq<bool>, byZero: real -> real, i: nat)
    requires |target| == |p.code|
    ensures IsCopiedJump(p, target, byZero, i) ==> Whole(p.code, i) && IsJump(p.code[i])
  {
  }

  /** Every byte of a rewrite carries the line of the first instruction it replaces. */
  ghost predicate LinesFollow(p: Program, target: seq<bool>, m: seq<int>, byZero: real -> real, lines: seq<int>,
                              newLines: seq<int>)
    requires |m| <= |target| == |p.code| == |lines|
  {
    forall j: nat :: j < |m| && m[j] >= 0 ==> LineFollows(p, target, m, byZero, lines, newLines, j)
  }

  ghost predicate LineFollows(p: Program, target: seq<bool>, m: seq<int>, byZero: real -> real, lines: seq<int>,
                              newLines: seq<int>, j: nat)
    requires |m| <= |target| == |p.code| == |lines| && j < |m|
  {
    && m[j] >= 0 && Whole(p.code, j)
    && var size := Choose(p, target, j, byZero).Size();
       m[j] + size <= |newLines| && newLines[m[j]..m[j] + size] == seq(size, _ => lines[j])
  }

  lemma LinesOn(p: Program, target: seq<bool>, m: seq<int>, byZero: real -> real, lines: seq<int>, newLines: seq<int>,
                next: nat, size: nat)
    requires |m| < next <= |target| == |p.code| == |lines| && LinesFollow(p, target, m, byZero, lines, newLines)
    requires Whole(p.code, |m|) && size == Choose(p, target, |m|, byZero).Size()
    ensures LinesFollow(p, target, Extended(m, |newLines|, next), byZero, lines, newLines + seq(size, _ => lines[|m|]))
  {
    hide Choose, Whole;
    var all := newLines + seq(size, _ => lines[|m|]);
    var m' := Extended(m, |newLines|, next);
    forall j: nat | j < next && m'[j] >= 0
      ensures LineFollows(p, target, m', byZero, lines, all, j)
    {
      if j < |m| {
        assert LineFollows(p, target, m, byZero, lines, newLines, j);
        var k := Choose(p, target, j, byZero).Size();
        assert all[m[j]..m[j] + k] == newLines[m[j]..m[j] + k];
      } else {
        assert all[|newLines|..] == seq(size, _ => lines[j]);
        assert all[|newLines|..|newLines| + size] == all[|newLines|..];
      }
    }
  }

  // ----- patching -----

  /** All of the code is laid out, its jumps not yet patched. */
  ghost predicate LaidOut(p: Program, q: Program, target: seq<bool>, m: seq<int>, byZero: real -> real) {
    WellFormed(p) && MarksTargets(p.code, target) && LaidUpTo(p, q, target, m, byZero) && |m| == |p.code|
  }

  lemma LaidAt(p: Program, q: Program, target: seq<bool>, m: seq<int>, byZero: real -> real, i: nat)
    requires LaidOut(p, q, target, m, byZero) && i < |m| && m[i] >= 0
    ensures |target| == |p.code| == |m| && IsStart(p.code, i) && Laid(p, q, target, m, byZero, i)
    ensures Visits(p, target, byZero, 0, i) && Whole(p.code, i)
    ensures Visits(p, target, byZero, 0, i + Choose(p, target, i, byZero).Span())
  {
    hide *;
    LaidOutParts(p, q, target, m, byZero, i);
    StartsAtZero(p.code);
    VisitedStarts(p, target, byZero, 0, i);
    NextVisit(p, target, byZero, i);
  }

  lemma LaidOutParts(p: Program, q: Program, target: seq<bool>, m: seq<int>, byZero: real -> real, i: nat)
    requires LaidOut(p, q, target, m, byZero) && i < |m| && m[i] >= 0
    ensures WellFormed(p) && |target| == |p.code| == |m| && Laid(p, q, target, m, byZero, i)
            && Visits(p, target, byZero, 0, i)
    ensures Whole(p.code, i)
  {
    hide WellFormed, Visits, MarksTargets, Choose, Emits, Whole;
  }

  lemma NextVisit(p: Program, target: seq<bool>, byZero: real -> real, i: nat)
    requires |target| == |p.code| && Visits(p, target, byZero, 0, i) && Whole(p.code, i)
    ensures Visits(p, target, byZero, 0, i + Choose(p, target, i, byZero).Span())
  {
    hide Choose;
    var next := i + Choose(p, target, i, byZero).Span();
    assert Visits(p, target, byZero, next, next);
    assert Visits(p, target, byZero, i, next);
    VisitsOn(p, target, byZero, 0, i, next);
  }

  /** From any visited place to any later one, the new code is at most as long as the old. */
  lemma Shortened(p: Program, q: Program, target: seq<bool>, m: seq<int>, byZero: real -> real, a: nat, b: nat)
    requires LaidOut(p, q, target, m, byZero) && |target| == |p.code| && a <= b <= |m|
    requires Visits(p, target, byZero, 0, a) && Visits(p, target, byZero, 0, b)
    ensures 0 <= Image(m, q, b) - Image(m, q, a) <= b - a
  {
    hide WellFormed, IsStart, Laid, MarksTargets;
    StartsAtZero(p.code);
    VisitsBetween(p, target, byZero, 0, a, b);
    VisitedStarts(p, target, byZero, 0, a);
    forall i: nat | a <= i < b && Visits(p, target, byZero, a, i)
      ensures Laid(p, q, target, m, byZero, i)
    {
      VisitsOn(p, target, byZero, 0, a, i);
    }
    Shrinks(p, q, target, m, byZero, a, b);
  }

  /** The target of a jump is visited. */
  lemma TargetVisited(p: Program, q: Program, target: seq<bool>, m: seq<int>, byZero: real -> real, i: nat)
    requires LaidOut(p, q, target, m, byZero) && IsStart(p.code, i) && i < |p.code| && Whole(p.code, i)
             && IsJump(p.code[i])
    ensures |target| == |p.code| == |m|
    ensures var t := JumpTarget(p.code, i);
            0 <= t < |m| && IsStart(p.code, t) && Visits(p, target, byZero, 0, t) && m[t] >= 0
  {
    hide IsStart, JumpTarget, IsJump, Whole, Laid;
    StartsAtZero(p.code);
    var t: nat := JumpTarget(p.code, i);
    assert LeadsTo(p.code, i, t);
    assert target[t];
    TargetsVisited(p, target, byZero, 0, t);
  }

  /** The new distance of a copied jump: never negative, never longer than the old one. */
  lemma NewDistance(p: Program, q: Program, target: seq<bool>, m: seq<int>, byZero: real -> real, i: nat)
    requires LaidOut(p, q, target, m, byZero) && i < |m| && m[i] >= 0
    requires |target| == |p.code| && IsCopiedJump(p, target, byZero, i)
    ensures var t := JumpTarget(p.code, i);
            && 0 <= t < |m| && m[t] >= 0
            && 0 <= JumpSign(p.code[i]) * (m[t] - (m[i] + InstrLength(p.code[i]))) <= ReadShort(p.code, i + JumpOperand(p.code[i])) < 0x1_0000
  {
    hide LaidOut, IsStart, Visits, Whole, InstrLength, ReadShort, JumpOperand;
    LaidAt(p, q, target, m, byZero, i);
    TargetVisited(p, q, target, m, byZero, i);
    CopySpan(p, target, byZero, i);
    ImageAfter(p, q, target, m, byZero, i);
    var t: nat := JumpTarget(p.code, i);
    var next := i + InstrLength(p.code[i]);
    if t >= next {
      Shortened(p, q, target, m, byZero, next, t);
    } else {
      Shortened(p, q, target, m, byZero, t, next);
    }
  }

  lemma CopySpan(p: Program, target: seq<bool>, byZero: real -> real, i: nat)
    requires |target| == |p.code| && IsCopiedJump(p, target, byZero, i)
    ensures Whole(p.code, i) && IsJump(p.code[i]) && Choose(p, target, i, byZero) == Copy(InstrLength(p.code[i]))
  {
  }

  lemma ImageAfter(p: Program, q: Program, target: seq<bool>, m: seq<int>, byZero: real -> real, i: nat)
    requires |m| <= |target| == |p.code| && i < |m| && Laid(p, q, target, m, byZero, i)
    ensures var r := Choose(p, target, i, byZero);
            i + r.Span() <= |m| && Image(m, q, i + r.Span()) == m[i] + r.Size()
  {
  }

  /** Only the distance of the jump copied from `i` differs. */
  ghost predicate DiffersAt(p: Program, q: Program, q': Program, m: seq<int>, i: nat)
    requires i < |m| && Whole(p.code, i) && IsJump(p.code[i])
  {
    && |q'.code| == |q.code| && q'.constants == q.constants
    && var at := m[i] + JumpOperand(p.code[i]);
       forall k :: 0 <= k < |q.code| && k != at && k != at + 1 ==> q'.code[k] == q.code[k]
  }

  /** Patching one jump leaves every other place untouched. */
  lemma OthersStay(p: Program, q: Program, q': Program, target: seq<bool>, m: seq<int>, byZero: real -> real, i: nat,
                   j: nat)
    requires LaidOut(p, q, target, m, byZero) && i < |m| && j < |m| && m[i] >= 0 && m[j] >= 0 && i != j
    requires |target| == |p.code| && IsCopiedJump(p, target, byZero, i) && DiffersAt(p, q, q', m, i)
    ensures Whole(p.code, j)
    ensures var r := Choose(p, target, j, byZero);
            m[j] + r.Size() <= |q.code| && q'.code[m[j]..m[j] + r.Size()] == q.code[m[j]..m[j] + r.Size()]
  {
    hide *;
    CopiedJumpIs(p, target, byZero, i);
    LaidApart(p, q, target, m, byZero, i, j);
    DiffersIs(p, q, q', m, i);
    SameSlice(q.code, q'.code, m[j], Choose(p, target, j, byZero).Size(), m[i] + JumpOperand(p.code[i]));
  }

  lemma DiffersIs(p: Program, q: Program, q': Program, m: seq<int>, i: nat)
    requires i < |m| && Whole(p.code, i) && IsJump(p.code[i]) && DiffersAt(p, q, q', m, i)
    ensures var at := m[i] + JumpOperand(p.code[i]);
            |q'.code| == |q.code| && forall k :: 0 <= k < |q.code| && k != at && k != at + 1 ==> q'.code[k] == q.code[k]
  {
    hide Whole, IsJump, JumpOperand;
  }

  /** The distance of the jump copied from `i` lies outside the rewrite of `j`. */
  lemma LaidApart(p: Program, q: Program, target: seq<bool>, m: seq<int>, byZero: real -> real, i: nat, j: nat)
    requires LaidOut(p, q, target, m, byZero) && i < |m| && j < |m| && m[i] >= 0 && m[j] >= 0 && i != j
    requires |target| == |p.code| && IsCopiedJump(p, target, byZero, i)
    ensures Whole(p.code, i) && Whole(p.code, j)
    ensures var size, at := Choose(p, target, j, byZero).Size(), m[i] + JumpOperand(p.code[i]);
            m[j] + size <= |q.code| && (at + 1 < m[j] || m[j] + size <= at)
  {
    hide *;
    LaidAt(p, q, target, m, byZero, i);
    LaidAt(p, q, target, m, byZero, j);
    LaidInside(p, q, target, m, byZero, j);
    JumpSize(p, target, byZero, i);
    if i < j {
      Ordered(p, q, target, m, byZero, i, j);
    } else {
      Ordered(p, q, target, m, byZero, j, i);
    }
  }

  lemma JumpSize(p: Program, target: seq<bool>, byZero: real -> real, i: nat)
    requires |target| == |p.code| && IsCopiedJump(p, target, byZero, i)
    ensures Whole(p.code, i) && 0 <= JumpOperand(p.code[i])
            && JumpOperand(p.code[i]) + 2 == Choose(p, target, i, byZero).Size()
  {
    hide Choose;
    CopySpan(p, target, byZero, i);
    JumpShape(p.code, i);
  }

  /** The rewrite of a later place comes after that of an earlier one. */
  lemma Ordered(p: Program, q: Program, target: seq<bool>, m: seq<int>, byZero: real -> real, lo: nat, hi: nat)
    requires LaidOut(p, q, target, m, byZero) && lo < hi < |m| && m[lo] >= 0 && m[hi] >= 0
    ensures |target| == |p.code| && Whole(p.code, lo) && m[lo] + Choose(p, target, lo, byZero).Size() <= m[hi]
  {
    hide LaidOut, IsStart, Visits, Whole, Laid, Choose;
    LaidAt(p, q, target, m, byZero, lo);
    LaidAt(p, q, target, m, byZero, hi);
    NextVisited(p, q, target, m, byZero, lo, hi);
    Shortened(p, q, target, m, byZero, lo + Choose(p, target, lo, byZero).Span(), hi);
    ImageAfter(p, q, target, m, byZero, lo);
  }

  lemma LaidInside(p: Program, q: Program, target: seq<bool>, m: seq<int>, byZero: real -> real, j: nat)
    requires |m| <= |target| == |p.code| && j < |m| && Laid(p, q, target, m, byZero, j)
    ensures m[j] >= 0 && m[j] + Choose(p, target, j, byZero).Size() <= |q.code|
  {
    hide Choose;
  }

  /** Two codes that differ at two places only have the same slices elsewhere. */
  lemma SameSlice(c: seq<Byte>, d: seq<Byte>, n: nat, size: nat, at: int)
    requires |c| == |d| && n + size <= |c| && (at + 1 < n || n + size <= at)
    requires forall k :: 0 <= k < |c| && k != at && k != at + 1 ==> d[k] == c[k]
    ensures d[n..n + size] == c[n..n + size]
  {
  }

  lemma JumpShape(code: seq<Byte>, i: nat)
    requires Whole(code, i) && IsJump(code[i])
    ensures JumpOperand(code[i]) + 2 == InstrLength(code[i]) && KeptLength(code[i]) == JumpOperand(code[i])
  {
  }

  lemma NextVisited(p: Program, q: Program, target: seq<bool>, m: seq<int>, byZero: real -> real, lo: nat, hi: nat)
    requires LaidOut(p, q, target, m, byZero) && lo < hi < |m| && m[lo] >= 0 && m[hi] >= 0
    ensures |target| == |p.code| && Whole(p.code, lo)
    ensures lo + Choose(p, target, lo, byZero).Span() <= hi
  {
    hide LaidOut, IsStart, Whole, Laid;
    LaidAt(p, q, target, m, byZero, lo);
    LaidAt(p, q, target, m, byZero, hi);
    VisitsNext(p, target, byZero, 0, lo, hi);
    VisitsForward(p, target, byZero, lo + Choose(p, target, lo, byZero).Span(), hi);
  }

  /** Patching keeps the layout, also at the patched jump. */
  lemma PatchKeepsLayout(p: Program, q: Program, q': Program, target: seq<bool>, m: seq<int>, byZero: real -> real,
                         i: nat)
    requires LaidOut(p, q, target, m, byZero) && i < |m| && m[i] >= 0
    requires |target| == |p.code| && IsCopiedJump(p, target, byZero, i) && DiffersAt(p, q, q', m, i)
    ensures LaidOut(p, q', target, m, byZero)
  {
    hide WellFormed, MarksTargets, IsStart, Whole, IsJump, Laid, IsCopiedJump, DiffersAt, Visits;
    SameLength(p, q, q', target, m, byZero, i);
    forall j: nat | j < |m| && m[j] >= 0
      ensures Laid(p, q', target, m, byZero, j)
    {
      LaidAt(p, q, target, m, byZero, j);
      if j == i {
        PatchedStaysLaid(p, q, q', target, m, byZero, i);
      } else {
        OthersStay(p, q, q', target, m, byZero, i, j);
        OtherStaysLaid(p, q, q', target, m, byZero, j);
      }
    }
  }

  lemma SameLength(p: Program, q: Program, q': Program, target: seq<bool>, m: seq<int>, byZero: real -> real, i: nat)
    requires i < |m| && |target| == |p.code| && IsCopiedJump(p, target, byZero, i) && DiffersAt(p, q, q', m, i)
    ensures |q'.code| == |q.code| && q'.constants == q.constants
  {
  }

  lemma OtherStaysLaid(p: Program, q: Program, q': Program, target: seq<bool>, m: seq<int>, byZero: real -> real,
                       j: nat)
    requires |m| <= |target| == |p.code| && j < |m| && Laid(p, q, target, m, byZero, j)
    requires |q'.code| == |q.code| && q'.constants == q.constants
    requires var r := Choose(p, target, j, byZero);
             m[j] + r.Size() <= |q.code| && q'.code[m[j]..m[j] + r.Size()] == q.code[m[j]..m[j] + r.Size()]
    ensures Laid(p, q', target, m, byZero, j)
  {
  }

  lemma PatchedStaysLaid(p: Program, q: Program, q': Program, target: seq<bool>, m: seq<int>, byZero: real -> real,
                         i: nat)
    requires |m| <= |target| == |p.code| && i < |m| && Laid(p, q, target, m, byZero, i)
    requires IsCopiedJump(p, target, byZero, i) && DiffersAt(p, q, q', m, i)
    ensures Laid(p, q', target, m, byZero, i)
  {
    hide Choose, InstrLength;
    CopySpan(p, target, byZero, i);
    JumpShape(p.code, i);
    var len, kept := InstrLength(p.code[i]), JumpOperand(p.code[i]);
    var out, out' := q.code[m[i]..m[i] + len], q'.code[m[i]..m[i] + len];
    forall k | 0 <= k < kept
      ensures out'[k] == out[k]
    {
      assert out'[k] == q'.code[m[i] + k] == q.code[m[i] + k];
    }
    assert out'[..kept] == out[..kept];
  }

  /** After its distance is written the jump leads to the image of its target. */
  lemma PatchRetargets(p: Program, q: Program, q': Program, target: seq<bool>, m: seq<int>, byZero: real -> real,
                       i: nat)
    requires |m| == |target| == |p.code| && i < |m| && Laid(p, q', target, m, byZero, i)
             && IsCopiedJump(p, target, byZero, i)
    requires var t := JumpTarget(p.code, i);
             && 0 <= t < |m| && m[t] >= 0
             && m[i] + InstrLength(p.code[i]) <= |q'.code|
             && ReadShort(q'.code, m[i] + JumpOperand(p.code[i])) ==
                JumpSign(p.code[i]) * (m[t] - (m[i] + InstrLength(p.code[i])))
    ensures Retargeted(p, q', m, i)
  {
    hide Choose, InstrLength, JumpTarget, ReadShort, IsJump;
    CopySpan(p, target, byZero, i);
    JumpShape(p.code, i);
    CopiedOpcode(p, q', target, m, byZero, i);
    JumpTargetIs(q'.code, m[i]);
  }

  /** The opcode of a copied jump is at its new place. */
  lemma CopiedOpcode(p: Program, q: Program, target: seq<bool>, m: seq<int>, byZero: real -> real, i: nat)
    requires |m| == |target| == |p.code| && i < |m| && Laid(p, q, target, m, byZero, i)
             && IsCopiedJump(p, target, byZero, i)
    ensures m[i] >= 0 && Whole(p.code, i) && IsJump(p.code[i]) && Whole(q.code, m[i]) && q.code[m[i]] == p.code[i]
  {
    hide Choose;
    CopySpan(p, target, byZero, i);
    JumpShape(p.code, i);
    var len, kept := InstrLength(p.code[i]), JumpOperand(p.code[i]);
    var n: nat := m[i];
    var out := q.code[n..n + len];
    assert out[..kept][0] == p.code[i..i + kept][0];
    assert q.code[n] == p.code[i];
  }

  lemma JumpTargetIs(code: seq<Byte>, i: nat)
    requires Whole(code, i) && IsJump(code[i])
    ensures JumpTarget(code, i) ==
            i + InstrLength(code[i]) + JumpSign(code[i]) * ReadShort(code, i + JumpOperand(code[i]))
    ensures JumpSign(code[i]) == 1 || JumpSign(code[i]) == -1
  {
    hide InstrLength, ReadShort;
  }

  lemma RetargetedStays(p: Program, q: Program, q': Program, target: seq<bool>, m: seq<int>, byZero: real -> real,
                        i: nat, j: nat)
    requires LaidOut(p, q, target, m, byZero) && i < |m| && j < |m| && m[i] >= 0 && m[j] >= 0 && i != j
    requires |target| == |p.code| && IsCopiedJump(p, target, byZero, i) && DiffersAt(p, q, q', m, i)
    requires IsCopiedJump(p, target, byZero, j) && |m| == |p.code| && Retargeted(p, q, m, j)
    ensures Retargeted(p, q', m, j)
  {
    hide LaidOut, Choose, IsCopiedJump, Visits;
    SameLength(p, q, q', target, m, byZero, i);
    OthersStay(p, q, q', target, m, byZero, i, j);
    CopySpan(p, target, byZero, j);
    JumpShape(p.code, j);
    var len: nat, n: nat := InstrLength(p.code[j]), m[j];
    var out, out' := q.code[n..n + len], q'.code[n..n + len];
    var k := JumpOperand(p.code[j]);
    assert out[0] == q.code[n] && out'[0] == q'.code[n];
    assert out[k] == q.code[n + k] && out'[k] == q'.code[n + k];
    assert out[k + 1] == q.code[n + k + 1] && out'[k + 1] == q'.code[n + k + 1];
  }

  // ----- steps of the two loops -----

  lemma NothingLaid(p: Program, target: seq<bool>, lines: seq<int>, byZero: real -> real)
    requires |target| == |p.code| == |lines|
    ensures LaidUpTo(p, Program([], p.constants), target, [], byZero)
    ensures Recorded(p, target, [], byZero, [])
    ensures LinesFollow(p, target, [], byZero, lines, [])
  {
  }

  lemma LaidStart(p: Program, q: Program, target: seq<bool>, m: seq<int>, byZero: real -> real)
    requires WellFormed(p) && LaidUpTo(p, q, target, m, byZero)
    ensures |m| <= |target| == |p.code| && IsStart(p.code, |m|)
    ensures |m| < |p.code| ==> Whole(p.code, |m|)
  {
    hide Laid, Choose, Whole;
    StartsAtZero(p.code);
    VisitedStarts(p, target, byZero, 0, |m|);
  }

  lemma RewrittenSize(p: Program, index: int, target: seq<bool>, byZero: real -> real, i: nat, next: nat,
                      out: seq<Byte>)
    requires |target| == |p.code| && Rewritten(p, index, target, byZero, i, next, out)
    ensures Whole(p.code, i) && i < next <= |p.code|
    ensures |out| == Choose(p, target, i, byZero).Size() && next == i + Choose(p, target, i, byZero).Span()
  {
    hide Choose, Emitted;
    EmittedSize(p, index, Choose(p, target, i, byZero), i, out);
  }

  lemma AddedOn(p: Program, target: seq<bool>, byZero: real -> real, i: nat, next: nat, old_: seq<Value>,
                before: seq<Value>, after: seq<Value>)
    requires |target| == |p.code| && Whole(p.code, i) && next == i + Choose(p, target, i, byZero).Span()
    requires after == before + AddedConstant(p, target, i, byZero) && old_ <= before
    ensures after + AddedFrom(p, target, byZero, next) == before + AddedFrom(p, target, byZero, i)
    ensures old_ <= after
  {
    hide Choose, AddedConstant, Whole;
  }

  lemma AddedToAll(p: Program, target: seq<bool>, byZero: real -> real)
    requires |target| == |p.code|
    ensures p.constants <= AllConstants(p, target, byZero)
  {
    hide AddedFrom;
  }

  /** What is added from a later place on comes last. */
  lemma {:induction false} AddedSuffix(p: Program, target: seq<bool>, byZero: real -> real, from: nat, i: nat)
    requires |target| == |p.code| && Visits(p, target, byZero, from, i)
    ensures var a, b := AddedFrom(p, target, byZero, from), AddedFrom(p, target, byZero, i);
            |b| <= |a| && a[|a| - |b|..] == b
    decreases i - from
  {
    hide AddedConstant;
    if from != i {
      assert Choose(p, target, from, byZero).Span() > 0;
      hide Choose, Whole;
      AddedSuffix(p, target, byZero, from + Choose(p, target, from, byZero).Span(), i);
    }
  }

  /** A folded constant is in the table, at its index. */
  lemma FoldIndexIn(p: Program, target: seq<bool>, byZero: real -> real, i: nat)
    requires |target| == |p.code| && Visits(p, target, byZero, 0, i) && Whole(p.code, i)
    requires var r := Choose(p, target, i, byZero); r.FoldBinary? || r.FoldNegate?
    ensures var k, all := FoldIndex(p, target, byZero, i), AllConstants(p, target, byZero);
            |p.constants| <= k < |all| && all[k] == Choose(p, target, i, byZero).result
  {
    AddedSuffix(p, target, byZero, 0, i);
    var a, b := AddedFrom(p, target, byZero, 0), AddedFrom(p, target, byZero, i);
    AddedHere(p, target, byZero, i);
    hide *;
    assert a[|a| - |b|] == a[|a| - |b|..][0];
    FoldIndexIs(p, target, byZero, i);
  }

  lemma FoldIndexIs(p: Program, target: seq<bool>, byZero: real -> real, i: nat)
    requires |target| == |p.code|
    ensures AllConstants(p, target, byZero) == p.constants + AddedFrom(p, target, byZero, 0)
    ensures FoldIndex(p, target, byZero, i) ==
            |p.constants| + |AddedFrom(p, target, byZero, 0)| - |AddedFrom(p, target, byZero, i)|
  {
    hide AddedFrom;
  }

  lemma AddedHere(p: Program, target: seq<bool>, byZero: real -> real, i: nat)
    requires |target| == |p.code| && Whole(p.code, i)
    requires var r := Choose(p, target, i, byZero); r.FoldBinary? || r.FoldNegate?
    ensures var added := AddedFrom(p, target, byZero, i); added != [] && added[0] == Choose(p, target, i, byZero).result
  {
    hide BinaryResult, NegateResult, IsNumberConstant, DropsAdjust, DropsIdentity, FusesLocal, FoldsOperand, FusesSet;
    assert AddedConstant(p, target, i, byZero) == [Choose(p, target, i, byZero).result];
  }

  /** The table is as long as a constant folded next will be counted. */
  lemma IndexIs(p: Program, target: seq<bool>, byZero: real -> real, i: nat, constants: seq<Value>)
    requires |target| == |p.code| && constants + AddedFrom(p, target, byZero, i) == AllConstants(p, target, byZero)
    ensures FoldIndex(p, target, byZero, i) == |constants|
  {
    hide AddedFrom, AllConstants;
  }

  lemma AllIs(p: Program, target: seq<bool>, byZero: real -> real)
    requires |target| == |p.code|
    ensures p.constants + AddedFrom(p, target, byZero, 0) == AllConstants(p, target, byZero)
  {
    hide AddedFrom;
  }

  lemma AddedEnd(p: Program, target: seq<bool>, byZero: real -> real, i: nat)
    requires |target| == |p.code| <= i
    ensures AddedFrom(p, target, byZero, i) == []
  {
  }

  lemma LaidLengths(p: Program, q: Program, target: seq<bool>, m: seq<int>, byZero: real -> real)
    requires LaidOut(p, q, target, m, byZero)
    ensures |m| == |target| == |p.code|
  {
  }

  lemma PatchIs(p: Program, target: seq<bool>, m: seq<int>, byZero: real -> real, patches: seq<JumpPatch>, k: nat)
    requires Recorded(p, target, m, byZero, patches) && k < |patches|
    ensures |m| <= |target| == |p.code|
    ensures var patch := patches[k];
            && patch.oldOffset < |m| && m[patch.oldOffset] == patch.newOffset && m[patch.oldOffset] >= 0
            && IsCopiedJump(p, target, byZero, patch.oldOffset)
            && Whole(p.code, patch.oldOffset) && IsJump(p.code[patch.oldOffset])
            && patch == PatchFor(p.code, patch.oldOffset, patch.newOffset)
               && patch.sign == JumpSign(p.code[patch.oldOffset])
    ensures forall l :: 0 <= l < k ==> patches[l].oldOffset != patches[k].oldOffset
  {
    hide Choose, Whole, IsJump;
    assert IsPatch(p, target, m, byZero, patches[k]);
  }

  /** A recorded patch has a target with an image, and its new distance fits. */
  lemma PatchFits(p: Program, q: Program, target: seq<bool>, m: seq<int>, byZero: real -> real, patch: JumpPatch)
    requires LaidOut(p, q, target, m, byZero) && |m| == |target| == |p.code|
    requires patch.oldOffset < |m| && m[patch.oldOffset] == patch.newOffset
    requires IsCopiedJump(p, target, byZero, patch.oldOffset)
    requires Whole(p.code, patch.oldOffset) && IsJump(p.code[patch.oldOffset])
             && patch == PatchFor(p.code, patch.oldOffset, patch.newOffset)
    ensures var len := InstrLength(p.code[patch.oldOffset]);
            var oldTarget := patch.oldOffset + len + patch.sign * patch.oldJump;
            && oldTarget == JumpTarget(p.code, patch.oldOffset)
            && 0 <= oldTarget < |m| && m[oldTarget] >= 0
            && 0 <= patch.sign * (m[oldTarget] - (patch.newOffset + len)) <= patch.oldJump < 0x1_0000
            && patch.newOffset + len <= |q.code|
            && JumpOperand(p.code[patch.oldOffset]) + 2 == len
  {
    hide LaidOut, Choose, Whole, InstrLength, JumpOperand, IsJump, ReadShort, Emitted;
    NewDistance(p, q, target, m, byZero, patch.oldOffset);
    JumpShape(p.code, patch.oldOffset);
    LaidAt(p, q, target, m, byZero, patch.oldOffset);
    CopySpan(p, target, byZero, patch.oldOffset);
  }

  /** The two bytes of the distance of the jump copied from `i` now say how far the image of its target is. */
  ghost predicate Writes(p: Program, q: Program, q': Program, m: seq<int>, i: nat)
    requires i < |m|
  {
    && Whole(p.code, i) && IsJump(p.code[i]) && DiffersAt(p, q, q', m, i)
    && var t := JumpTarget(p.code, i);
       && 0 <= t < |m| && m[i] >= 0 && m[i] + InstrLength(p.code[i]) <= |q'.code|
       && ReadShort(q'.code, m[i] + JumpOperand(p.code[i])) ==
          JumpSign(p.code[i]) * (m[t] - (m[i] + InstrLength(p.code[i])))
  }

  lemma WritesIs(p: Program, q: Program, m: seq<int>, i: nat, at: nat, d: nat)
    requires i < |m| && m[i] >= 0 && Whole(p.code, i) && IsJump(p.code[i]) && d < 0x1_0000
    requires at == m[i] + JumpOperand(p.code[i]) && m[i] + InstrLength(p.code[i]) <= |q.code|
    requires at + 1 < |q.code|
    requires var t := JumpTarget(p.code, i);
             0 <= t < |m| && d == JumpSign(p.code[i]) * (m[t] - (m[i] + InstrLength(p.code[i])))
    ensures Writes(p, q, Program(q.code[at := d / 0x100 % 0x100][at + 1 := d % 0x100], q.constants), m, i)
  {
    hide InstrLength, JumpTarget, Whole, IsJump;
    var code := q.code[at := d / 0x100 % 0x100][at + 1 := d % 0x100];
    ShortBack(code, at, d);
    JumpShape(p.code, i);
  }

  /** Writing the distance retargets this jump, and keeps what is laid out and patched. */
  lemma PatchWorks(p: Program, q: Program, q': Program, target: seq<bool>, m: seq<int>, byZero: real -> real,
                   patches: seq<JumpPatch>, k: nat)
    requires LaidOut(p, q, target, m, byZero) && |m| == |target| == |p.code|
             && Recorded(p, target, m, byZero, patches) && k < |patches|
    requires forall l :: 0 <= l < k ==> patches[l].oldOffset < |m| && Retargeted(p, q, m, patches[l].oldOffset)
    requires patches[k].oldOffset < |m| && Writes(p, q, q', m, patches[k].oldOffset)
    ensures LaidOut(p, q', target, m, byZero)
    ensures forall l :: 0 <= l <= k ==> patches[l].oldOffset < |m| && Retargeted(p, q', m, patches[l].oldOffset)
  {
    hide LaidOut, Choose, Whole, InstrLength, JumpOperand, IsJump, Retargeted, IsCopiedJump, Recorded, DiffersAt,
      ReadShort, JumpTarget;
    PatchIs(p, target, m, byZero, patches, k);
    var i := patches[k].oldOffset;
    PatchFits(p, q, target, m, byZero, patches[k]);
    PatchKeepsLayout(p, q, q', target, m, byZero, i);
    LaidAt(p, q', target, m, byZero, i);
    PatchRetargets(p, q, q', target, m, byZero, i);
    forall l | 0 <= l < k
      ensures patches[l].oldOffset < |m| && Retargeted(p, q', m, patches[l].oldOffset)
    {
      PatchIs(p, target, m, byZero, patches, l);
      RetargetedStays(p, q, q', target, m, byZero, i, patches[l].oldOffset);
    }
  }

  lemma ShortBack(code: seq<Byte>, at: nat, d: nat)
    requires at + 1 < |code| && d < 0x1_0000 && code[at] == d / 0x100 % 0x100 && code[at + 1] == d % 0x100
    ensures ReadShort(code, at) == d
  {
  }

  /** Laid out and with every recorded jump retargeted, the new code translates the old. */
  lemma Finished(p: Program, q: Program, target: seq<bool>, m: seq<int>, byZero: real -> real, patches: seq<JumpPatch>)
    requires LaidOut(p, q, target, m, byZero) && |m| == |target| == |p.code| && Recorded(p, target, m, byZero, patches)
    requires q.constants == AllConstants(p, target, byZero)
    requires forall k :: 0 <= k < |patches| ==> patches[k].oldOffset < |m| && Retargeted(p, q, m, patches[k].oldOffset)
    ensures Translates(p, q, target, m, byZero)
  {
    hide WellFormed, MarksTargets, Laid, Retargeted, IsCopiedJump, Choose;
    forall i: nat | i < |m| && m[i] >= 0 && IsCopiedJump(p, target, byZero, i)
      ensures Retargeted(p, q, m, i)
    {
      assert HasPatch(patches, i);
      var k :| 0 <= k < |patches| && patches[k].oldOffset == i;
    }
  }

  lemma AllLaid(p: Program, q: Program, target: seq<bool>, m: seq<int>, byZero: real -> real)
    requires WellFormed(p) && MarksTargets(p.code, target) && LaidUpTo(p, q, target, m, byZero) && |m| == |p.code|
    ensures LaidOut(p, q, target, m, byZero)
  {
  }

  lemma EmptyTranslates(p: Program, byZero: real -> real)
    requires |p.code| == 0
    ensures Translates(p, p, [], [], byZero)
    ensures AddedFrom(p, [], byZero, 0) == []
    ensures forall lines: seq<int> :: |lines| == 0 ==> LinesFollow(p, [], [], byZero, lines, lines)
  {
  }
}
