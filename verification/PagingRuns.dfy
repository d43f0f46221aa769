/** Whole runs of alloc_frame and free_frame on any pages, in any order (paging.c:93-120). */
module PagingRuns {
  import opened Memory
  import opened Paging

  datatype FrameOp = Take(v: nat) | Give(v: nat)

  datatype Frames = Frames(words: seq<nat>, tables: Tables)

  /** One call. A release is a step only where the bit it clears belongs to no other page. */
  ghost predicate Step(s: Frames, op: FrameOp, s': Frames)
  {
    match op
    case Take(v) => FrameAllocated(s.words, s.tables, s'.words, s'.tables, v)
    case Give(v) => ReleaseOk(s.tables, v) && FrameReleased(s.words, s.tables, s'.words, s'.tables, v)
  }

  ghost predicate IsRun(ss: seq<Frames>, ops: seq<FrameOp>)
  {
    |ss| == |ops| + 1 && forall i | 0 <= i < |ops| :: Step(ss[i], ops[i], ss[i + 1])
  }

  lemma StepOwned(s: Frames, op: FrameOp, s': Frames)
    requires Owned(s.words, s.tables) && Step(s, op, s')
    ensures Owned(s'.words, s'.tables) && |s'.words| == |s.words|
  {
    hide Owned, Used;
    match op
    case Take(v) =>
      if FrameOf(s.tables, v) == 0 {
        AllocKeepsOwned(s.words, s.tables, s'.words, s'.tables, v, FrameOf(s'.tables, v));
      }
    case Give(v) =>
      if FrameOf(s.tables, v) != 0 {
        FreeOwnership(s.words, s.tables, s'.words, s'.tables, v);
      }
  }

  /** Over any run no frame ever has two owners, so translation stays injective on the pages that have frames. */
  lemma {:induction false} RunInjective(ss: seq<Frames>, ops: seq<FrameOp>, i: nat, a: nat, b: nat)
    requires IsRun(ss, ops) && i < |ss| && Owned(ss[0].words, ss[0].tables)
    ensures Owned(ss[i].words, ss[i].tables) && |ss[i].words| == |ss[0].words|
    ensures (FrameOf(ss[i].tables, a / PAGE) != 0 && FrameOf(ss[i].tables, b / PAGE) != 0
             && Translate(ss[i].tables, a) == Translate(ss[i].tables, b)) ==> a == b
    decreases i
  {
    hide Owned, Step;
    if i > 0 {
      RunInjective(ss, ops, i - 1, a, b);
      StepOwned(ss[i - 1], ops[i - 1], ss[i]);
    }
    var t := ss[i].tables;
    if FrameOf(t, a / PAGE) != 0 && FrameOf(t, b / PAGE) != 0 && Translate(t, a) == Translate(t, b) {
      TranslateInjective(ss[i].words, t, a, b);
    }
  }

  /** On the machine the kernel assumes, with 4096 frames, every release is a step: only the bit of frame 0 is ever
      cleared. */
  lemma SmallMachineReleases(s: Frames, v: nat)
    requires Owned(s.words, s.tables) && |s.words| * WORD_BITS <= PAGE
    ensures ReleaseOk(s.tables, v)
  {
    assert OwnsUsedFrame(s.words, s.tables, v);
  }

  lemma StepKeepsUsed(s: Frames, op: FrameOp, s': Frames, f: nat)
    requires Owned(s.words, s.tables) && |s.words| * WORD_BITS <= PAGE && Step(s, op, s')
    requires 0 < f < |s.words| * WORD_BITS && Used(s.words, f)
    ensures |s'.words| == |s.words| && Used(s'.words, f)
    ensures Held(s'.tables, f) ==> Held(s.tables, f)
  {
    assert OwnsUsedFrame(s.words, s.tables, op.v);
    if Held(s'.tables, f) {
      var u: nat :| FrameOf(s'.tables, u) == f;
      assert FrameOf(s.tables, u) == f;
    }
  }

  /** There a frame that is marked used stays marked, and one that no page holds any more is never handed out again:
      what free_frame releases is lost. */
  lemma {:induction false} ReleasedFramesAreLost(ss: seq<Frames>, ops: seq<FrameOp>, i: nat, j: nat, f: nat)
    requires IsRun(ss, ops) && i <= j < |ss| && Owned(ss[0].words, ss[0].tables)
    requires |ss[0].words| * WORD_BITS <= PAGE && |ss[i].words| == |ss[0].words|
    requires 0 < f < |ss[0].words| * WORD_BITS && Used(ss[i].words, f)
    ensures |ss[j].words| == |ss[0].words| && Used(ss[j].words, f)
    ensures Held(ss[j].tables, f) ==> Held(ss[i].tables, f)
    decreases j
  {
    hide Owned, Step, Used, Held;
    if i < j {
      ReleasedFramesAreLost(ss, ops, i, j - 1, f);
      RunInjective(ss, ops, j - 1, 0, 0);
      StepKeepsUsed(ss[j - 1], ops[j - 1], ss[j], f);
    }
  }

  /** No release up to here found a frame to release. */
  ghost predicate NothingReleased(ss: seq<Frames>, ops: seq<FrameOp>, i: nat)
    requires IsRun(ss, ops) && i < |ss|
  {
    forall j | 0 <= j < i && ops[j].Give? :: FrameOf(ss[j].tables, ops[j].v) == 0
  }

  /** On that machine bitmap and page entries agree after a run if and only if they agreed before it and no release in
      it found a frame. */
  lemma {:induction false} RunExact(ss: seq<Frames>, ops: seq<FrameOp>, i: nat)
    requires IsRun(ss, ops) && i < |ss| && Owned(ss[0].words, ss[0].tables) && |ss[0].words| * WORD_BITS <= PAGE
    ensures Exact(ss[i].words, ss[i].tables)
            <==> Exact(ss[0].words, ss[0].tables) && NothingReleased(ss, ops, i)
    decreases i
  {
    hide Owned, Step, Exact, FrameOf;
    if i > 0 {
      RunExact(ss, ops, i - 1);
      RunInjective(ss, ops, i - 1, 0, 0);
      StepExact(ss[i - 1], ops[i - 1], ss[i]);
    }
  }

  lemma StepExact(s: Frames, op: FrameOp, s': Frames)
    requires Owned(s.words, s.tables) && Step(s, op, s') && |s.words| * WORD_BITS <= PAGE
    ensures Exact(s'.words, s'.tables)
            <==> Exact(s.words, s.tables) && (op.Give? ==> FrameOf(s.tables, op.v) == 0)
  {
    hide Owned, Used, Held, BitSet, BitCleared, FrameSet, FrameOf;
    StepOwned(s, op, s');
    if op.Take? && FrameOf(s.tables, op.v) == 0 && Exact(s.words, s.tables) {
      TakeExact(s, op, s');
    } else if op.Give? && FrameOf(s.tables, op.v) != 0 {
      FreeOwnership(s.words, s.tables, s'.words, s'.tables, op.v);
    }
    if !Exact(s.words, s.tables) {
      var f: nat :| 0 < f < |s.words| * WORD_BITS && Used(s.words, f) && !Held(s.tables, f);
      StepKeepsUsed(s, op, s', f);
    }
  }

  lemma TakeExact(s: Frames, op: FrameOp, s': Frames)
    requires Exact(s.words, s.tables) && Step(s, op, s') && op.Take? && FrameOf(s.tables, op.v) == 0
    ensures Exact(s'.words, s'.tables)
  {
    hide Exact, Used;
    assert Owned(s.words, s.tables) by {
      ExactOwned(s.words, s.tables);
    }
    AllocKeepsOwned(s.words, s.tables, s'.words, s'.tables, op.v, FrameOf(s'.tables, op.v));
  }

  lemma ExactOwned(words: seq<nat>, tables: Tables)
    requires Exact(words, tables)
    ensures Owned(words, tables)
  {
  }
}
