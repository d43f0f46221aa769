/** Whole runs of the heap: any sequence of allocations, releases and writes by the owners of blocks. */
module HeapRuns {
  import opened Memory
  import opened SortedArrays
  import opened Blocks
  import opened HeapSpec
  import opened HeapAlloc
  import opened HeapOrder
  import opened HeapFree
  import opened Paging
  import opened HeapPages
  import opened HeapMoves
  import opened Heap

  // ---- steps

  /** What a caller does, with the address an allocation returned. */
  datatype Op =
    | AllocOp(request: nat, align: bool, p: nat)
    | FreeOp(p: nat)
    | WriteOp(a: nat, v: Byte)

  /** The heap together with the bitmap and the page tables. */
  datatype Kernel = Kernel(heap: State, words: seq<nat>, tables: Tables)

  /** The machine has at most 4096 frames, which is 16 MB. */
  ghost predicate Sane(k: Kernel)
  {
    Inv(k.heap) && 0 < |k.words| && |k.words| * WORD_BITS <= PAGE && Owned(k.words, k.tables)
  }

  ghost predicate IsLivePayload(bs: seq<Block>, i: nat, p: nat)
  {
    i < |bs| && !bs[i].hole && bs[i].Payload() == p
  }

  /** One step: what the code writes, how it changes the index and which frames it takes and gives, in a state where
      its check holds, AllocOk for an allocation and FreeOk for a release. That the state after the step is sane is
      not part of the step. The owner of a block may write any of its payload bytes at any time. */
  ghost predicate Step(k: Kernel, op: Op, k': Kernel)
  {
    match op
    case AllocOp(request, align, p) =>
      && Needed(request) < SIGN_LIMIT && AllocOk(k.heap, Needed(request), align)
      && (exists expansions: nat :: AllocWork(k.heap, k'.heap, Needed(request), align, p, expansions))
      && (exists i: nat :: Recorded(k.heap, k'.heap, i, Needed(request), align, p))
      && FramesTaken(k.words, k.tables, k'.words, k'.tables, k.heap.end / PAGE, k'.heap.end / PAGE)
    case FreeOp(p) =>
      && (exists i: nat :: IsLivePayload(k.heap.blocks, i, p) && FreeOk(k.heap, i) && FreeMoves(k.heap, k'.heap, i))
      && FramesGiven(k.words, k.tables, k'.words, k'.tables, k'.heap.end / PAGE + 1, k.heap.end / PAGE)
    case WriteOp(a, v) =>
      && a < WORD_LIMIT && (exists b :: b in Live(k.heap.blocks) && InPayload(b, a))
      && k' == k.(heap := k.heap.(ram := k.heap.ram[a := v]))
  }

  /** What a step comes to when it starts in a sane state. */
  ghost predicate Done(k: Kernel, op: Op, k': Kernel)
  {
    && |k.words| > 0 && |k'.words| > 0
    && match op
       case AllocOp(request, align, p) =>
         && Needed(request) < SIGN_LIMIT
         && (exists i: nat :: AllocStep(k.heap, k'.heap, i, Needed(request), align, p))
         && PagesGrown(k.words, k.tables, k'.words, k'.tables, k.heap.end, k'.heap.end)
       case FreeOp(p) =>
         && (exists i: nat :: IsLivePayload(k.heap.blocks, i, p) && FreeOk(k.heap, i) && FreeStep(k.heap, k'.heap, i))
         && PagesReleased(k.words, k.tables, k'.words, k'.tables, k'.heap.end, k.heap.end)
       case WriteOp(a, v) =>
         && a < WORD_LIMIT && (exists b :: b in Live(k.heap.blocks) && InPayload(b, a))
         && k' == k.(heap := k.heap.(ram := k.heap.ram[a := v]))
  }

  ghost predicate IsRun(ks: seq<Kernel>, ops: seq<Op>)
  {
    |ks| == |ops| + 1 && forall i | 0 <= i < |ops| :: Step(ks[i], ops[i], ks[i + 1])
  }

  // ---- the abstract allocator: live pointers and how many bytes each may use

  lemma PayloadsDistinct(s: State)
    requires Inv(s)
    ensures forall b, c | b in Live(s.blocks) && c in Live(s.blocks) && b.Payload() == c.Payload() :: b == c
    ensures forall b | b in Live(s.blocks) :: b.size >= TAGS_SIZE
  {
    forall b, c | b in Live(s.blocks) && c in Live(s.blocks) && b.Payload() == c.Payload()
      ensures b == c
    {
      BlocksDisjoint(s.blocks, s.start, s.end, b, c);
    }
  }

  ghost function Usable(b: Block): nat
  {
    if b.size >= TAGS_SIZE then b.size - TAGS_SIZE else 0
  }

  ghost function Abs(s: State): map<nat, nat>
    requires Inv(s)
  {
    PayloadsDistinct(s);
    map b | b in Live(s.blocks) :: b.Payload() := Usable(b)
  }

  /** Payloads lie inside the heap and apart from one another. */
  lemma PayloadsApart(s: State, p: nat, q: nat)
    requires Inv(s) && p in Abs(s) && q in Abs(s)
    ensures s.start <= p && p + Abs(s)[p] <= s.end <= WORD_LIMIT
    ensures p == q || p + Abs(s)[p] <= q || q + Abs(s)[q] <= p
  {
    PayloadsDistinct(s);
    var b :| b in Live(s.blocks) && b.Payload() == p;
    var c :| c in Live(s.blocks) && c.Payload() == q;
    BlocksDisjoint(s.blocks, s.start, s.end, b, c);
    TilesOrdered(s.blocks, s.start, s.end);
  }

  /** What each step does to the abstract allocator. */
  ghost predicate AbsStep(m: map<nat, nat>, op: Op, m': map<nat, nat>)
  {
    match op
    case AllocOp(request, align, p) =>
      p !in m && p in m' && m'[p] >= request && m' == m[p := m'[p]] && (align ==> p % PAGE == 0)
    case FreeOp(p) => p in m && m' == m - {p}
    case WriteOp(_, _) => m' == m
  }

  lemma AllocLive(s: State, s': State, i: nat, n: nat, align: bool, p: nat) returns (b: Block)
    requires Inv(s) && AllocStep(s, s', i, n, align, p)
    ensures Live(s'.blocks) == Live(s.blocks) + {b} && b !in Live(s.blocks)
    ensures !b.hole && b.Payload() == p && b.size >= n && (align ==> p % PAGE == 0)
  {
    hide TagsOk, HoleFootersInside, IndexOk, CarveOk, Live, Tiles, NoAdjacentHoles;
    var bs := Grown(s.blocks, s'.end - s.end);
    b := Given(bs[i].addr, bs[i].size, n, align);
    GrownTiles(s, s'.end);
    CarvedLive(bs, s.start, s'.end, i, n, align);
  }

  lemma CarvedLive(bs: seq<Block>, lo: nat, hi: nat, k: nat, n: nat, align: bool)
    requires Tiles(bs, lo, hi) && k < |bs| && bs[k].hole && bs[k].size >= n >= TAGS_SIZE
    requires CarveOk(bs[k].addr, bs[k].size, n, align)
    ensures var b := Given(bs[k].addr, bs[k].size, n, align);
            Live(Carved(bs, k, n, align)) == Live(bs) + {b} && b !in Live(bs)
  {
    var pieces := Pieces(bs[k].addr, bs[k].size, n, align);
    var b := Given(bs[k].addr, bs[k].size, n, align);
    PiecesPartition(bs[k].addr, bs[k].size, n, align);
    SpliceLive(bs, lo, hi, k, k + 1, pieces);
    assert bs[k..k + 1] == [bs[k]];
    if b in bs {
      BlocksDisjoint(bs, lo, hi, b, bs[k]);
    }
  }

  // ---- one step

  /** Every step leaves a sane state: the moves of the code, started with the check made, end in a sound heap and
      keep one owner for every frame. */
  lemma StepSane(k: Kernel, op: Op, k': Kernel)
    requires Sane(k) && Step(k, op, k')
    ensures Sane(k') && Done(k, op, k') && k'.heap.start == k.heap.start && k'.heap.max == k.heap.max
  {
    hide Inv, AllocOk, FreeOk, PagesGrown, PagesReleased, FramesTaken, FramesGiven, Owned;
    hide AllocWork, FreeMoves, BlocksAlloc, Grown, AllocStep;
    match op
    case AllocOp(request, align, p) =>
      var n := Needed(request);
      var expansions: nat :| AllocWork(k.heap, k'.heap, n, align, p, expansions);
      var i: nat :| Recorded(k.heap, k'.heap, i, n, align, p);
      AllocWorkKeeps(k.heap, k'.heap, i, n, align, p, expansions);
      EndsOnPages(k.heap);
      EndsOnPages(k'.heap);
      TakenGrows(k.words, k.tables, k'.words, k'.tables, k.heap.end / PAGE, k'.heap.end / PAGE);
    case FreeOp(p) =>
      var i: nat :| IsLivePayload(k.heap.blocks, i, p) && FreeOk(k.heap, i) && FreeMoves(k.heap, k'.heap, i);
      FreeMovesKeep(k.heap, k'.heap, i);
      EndsOnPages(k.heap);
      EndsOnPages(k'.heap);
      GivenReleases(k.words, k.tables, k'.words, k'.tables, k'.heap.end / PAGE + 1, k.heap.end / PAGE);
    case WriteOp(a, v) =>
      WriteKeepsInv(k.heap, a, v);
  }

  lemma EndsOnPages(s: State)
    requires Inv(s)
    ensures s.end / PAGE * PAGE == s.end
  {
  }

  /** The owner of a block cannot break the heap by writing its payload. */
  lemma PayloadKeepsInv(s: State, after: Ram, b: Block)
    requires Inv(s) && b in Live(s.blocks)
    requires SameOutside(s.ram, after, b.Payload(), b.End() - FTR_SIZE)
    ensures Inv(s.(ram := after))
    ensures Untouched(s.ram, after, Live(s.blocks) - {b})
    ensures AllSealed(s.ram, s.blocks) ==> AllSealed(after, s.blocks)
  {
    hide HeaderAt, FooterAt, IndexOk, Word;
    TilesOrdered(s.blocks, s.start, s.end);
    forall i | 0 <= i < |s.blocks|
      ensures TagOk(after, s.blocks[i])
      ensures s.blocks[i].hole ==> FooterInside(after, s.blocks[i]) == FooterInside(s.ram, s.blocks[i])
      ensures s.blocks[i].hole ==> Sealed(after, s.blocks[i]) == Sealed(s.ram, s.blocks[i])
    {
      var c := s.blocks[i];
      assert TagOk(s.ram, c);
      BlocksDisjoint(s.blocks, s.start, s.end, b, c);
      if c == b {
        HeaderUnchanged(s.ram, after, c.addr);
        FooterUnchanged(s.ram, after, c.End() - FTR_SIZE);
      } else {
        TagKept(s.ram, after, b.Payload(), b.End() - FTR_SIZE, c);
      }
    }
    forall c, x | c in Live(s.blocks) - {b} && 0 <= x < WORD_LIMIT && Covers(c, x)
      ensures after[x] == s.ram[x]
    {
      BlocksDisjoint(s.blocks, s.start, s.end, b, c);
    }
    WordUnchanged(s.ram, after, s.start - FTR_SIZE);
  }

  lemma WriteKeepsInv(s: State, a: nat, v: Byte)
    requires Inv(s) && a < WORD_LIMIT && (exists b :: b in Live(s.blocks) && InPayload(b, a))
    ensures Inv(s.(ram := s.ram[a := v]))
    ensures AllSealed(s.ram, s.blocks) ==> AllSealed(s.ram[a := v], s.blocks)
  {
    hide Inv, AllSealed;
    var b :| b in Live(s.blocks) && InPayload(b, a);
    PayloadKeepsInv(s, s.ram[a := v], b);
  }

  lemma AllocRefines(s: State, s': State, i: nat, request: nat, align: bool, p: nat)
    requires Inv(s) && Inv(s') && AllocStep(s, s', i, Needed(request), align, p)
    ensures AbsStep(Abs(s), AllocOp(request, align, p), Abs(s'))
  {
    hide Inv, AllocStep;
    var b := AllocLive(s, s', i, Needed(request), align, p);
    PayloadsDistinct(s');
    assert Abs(s') == Abs(s)[p := Usable(b)];
  }

  lemma FreeRefines(s: State, s': State, i: nat)
    requires Inv(s) && Inv(s') && FreeStep(s, s', i)
    ensures i < |s.blocks| && AbsStep(Abs(s), FreeOp(s.blocks[i].Payload()), Abs(s'))
  {
    hide Inv;
    FreeLive(s, s', i);
    hide FreeStep;
    PayloadsDistinct(s);
    assert s.blocks[i] in Live(s.blocks);
    assert Abs(s') == Abs(s) - {s.blocks[i].Payload()};
  }

  /** Every step of the code is a step of the abstract allocator. */
  lemma StepRefines(k: Kernel, op: Op, k': Kernel)
    requires Sane(k) && Step(k, op, k')
    ensures Sane(k') && AbsStep(Abs(k.heap), op, Abs(k'.heap))
  {
    hide Step, AllocOk, FreeOk, PagesGrown, PagesReleased, Inv, AllocStep, FreeStep, Owned;
    StepSane(k, op, k');
    match op
    case AllocOp(request, align, p) =>
      var i: nat :| AllocStep(k.heap, k'.heap, i, Needed(request), align, p);
      AllocRefines(k.heap, k'.heap, i, request, align, p);
    case FreeOp(p) =>
      var i: nat :| IsLivePayload(k.heap.blocks, i, p) && FreeOk(k.heap, i) && FreeStep(k.heap, k'.heap, i);
      FreeRefines(k.heap, k'.heap, i);
    case WriteOp(_, _) =>
  }

  lemma FreeLive(s: State, s': State, i: nat)
    requires Inv(s) && FreeStep(s, s', i)
    ensures i < |s.blocks| && Live(s'.blocks) == Live(s.blocks) - {s.blocks[i]}
    ensures Untouched(s.ram, s'.ram, Live(s'.blocks))
  {
    hide HeaderAt, TagsOk, HoleFootersInside, IndexOk, NoAdjacentHoles;
    FreedRun(s, i);
  }

  lemma BlockOf(s: State, p: nat, a: nat) returns (b: Block)
    requires Inv(s) && p in Abs(s) && p <= a < p + Abs(s)[p]
    ensures b in Live(s.blocks) && b.Payload() == p && Usable(b) == Abs(s)[p]
    ensures InPayload(b, a) && Covers(b, a) && a < WORD_LIMIT
  {
    PayloadsDistinct(s);
    PayloadsApart(s, p, p);
    b :| b in Live(s.blocks) && b.Payload() == p;
  }

  /** A live payload byte that nobody writes keeps its value through any step but the release of its block. */
  lemma StepKeepsBytes(k: Kernel, op: Op, k': Kernel, p: nat, a: nat)
    requires Sane(k) && Step(k, op, k')
    requires p in Abs(k.heap) && p <= a < p + Abs(k.heap)[p]
    requires op != FreeOp(p) && !(op.WriteOp? && op.a == a)
    ensures Sane(k') && p in Abs(k'.heap) && Abs(k'.heap)[p] == Abs(k.heap)[p]
    ensures a < WORD_LIMIT && k'.heap.ram[a] == k.heap.ram[a]
  {
    hide Step, AllocOk, FreeOk, PagesGrown, PagesReleased, Inv, Abs, Owned, InPayload, Usable;
    StepSane(k, op, k');
    StepRefines(k, op, k');
    var b := BlockOf(k.heap, p, a);
    if op.FreeOp? {
      var i: nat :| IsLivePayload(k.heap.blocks, i, op.p) && FreeStep(k.heap, k'.heap, i);
      assert b != k.heap.blocks[i];
    }
  }

  // ---- whole runs

  /** However long the run, the heap stays sound and every page frame keeps one owner. */
  lemma {:induction false} RunSane(ks: seq<Kernel>, ops: seq<Op>, i: nat)
    requires IsRun(ks, ops) && Sane(ks[0]) && i < |ks|
    ensures Sane(ks[i]) && ks[i].heap.start == ks[0].heap.start && ks[i].heap.max == ks[0].heap.max
  {
    hide Inv, Step, Owned;
    if i > 0 {
      RunSane(ks, ops, i - 1);
      StepSane(ks[i - 1], ops[i - 1], ks[i]);
    }
  }

  ghost predicate NoOverlap(m: map<nat, nat>)
  {
    forall p, q | p in m && q in m && p != q :: p + m[p] <= q || q + m[q] <= p
  }

  /** The run of the code is a run of the abstract allocator, in which live payloads never overlap. */
  lemma RunRefines(ks: seq<Kernel>, ops: seq<Op>, i: nat)
    requires IsRun(ks, ops) && Sane(ks[0]) && i < |ks|
    ensures Sane(ks[i]) && NoOverlap(Abs(ks[i].heap))
    ensures i < |ops| ==> Sane(ks[i + 1]) && AbsStep(Abs(ks[i].heap), ops[i], Abs(ks[i + 1].heap))
  {
    hide Abs, Inv, Step, AbsStep, Owned;
    RunSane(ks, ops, i);
    if i < |ops| {
      RunSane(ks, ops, i + 1);
      StepRefines(ks[i], ops[i], ks[i + 1]);
    }
    var m := Abs(ks[i].heap);
    forall p, q | p in m && q in m && p != q
      ensures p + m[p] <= q || q + m[q] <= p
    {
      PayloadsApart(ks[i].heap, p, q);
    }
  }

  /** What an owner wrote is still there after any part of a run in which the block is not released and the byte not
      written: no allocation, expansion, release, merge or contraction writes it or cuts it off. */
  lemma {:induction false} RunKeepsBytes(ks: seq<Kernel>, ops: seq<Op>, i: nat, j: nat, p: nat, a: nat)
    requires IsRun(ks, ops) && Sane(ks[0]) && i <= j < |ks|
    requires Sane(ks[i]) && p in Abs(ks[i].heap) && p <= a < p + Abs(ks[i].heap)[p]
    requires forall t | i <= t < j :: ops[t] != FreeOp(p) && !(ops[t].WriteOp? && ops[t].a == a)
    ensures Sane(ks[j]) && p in Abs(ks[j].heap) && Abs(ks[j].heap)[p] == Abs(ks[i].heap)[p]
    ensures a < WORD_LIMIT && ks[j].heap.ram[a] == ks[i].heap.ram[a]
    ensures ks[j].heap.start <= a < ks[j].heap.end
    decreases j - i
  {
    hide Abs, Inv, Step;
    RunSane(ks, ops, j);
    if i < j {
      RunKeepsBytes(ks, ops, i, j - 1, p, a);
      StepKeepsBytes(ks[j - 1], ops[j - 1], ks[j], p, a);
    }
    PayloadsApart(ks[j].heap, p, p);
    PayloadsApart(ks[i].heap, p, p);
  }

  // ---- pages over a run

  ghost predicate Backed(k: Kernel)
  {
    PagesBacked(k.tables, k.heap.start, k.heap.end)
  }

  /** A caller can check this before the call: the pages the heap will gain hold frames already, or those an expansion
      adds will get frames other than frame 0. A contraction gains pages when the heap is shorter than its minimum. */
  ghost predicate BackingOk(k: Kernel, op: Op)
    requires |k.words| > 0
  {
    match op
    case AllocOp(request, align, _) =>
      && Needed(request) < WORD_LIMIT && |k.heap.blocks| > 0
      && var end' := EndAfter(k.heap, Needed(request), align);
         k.heap.end < end' ==> Used(k.words, 0) || PagesBacked(k.tables, k.heap.end, end')
    case FreeOp(p) =>
      forall i: nat | IsLivePayload(k.heap.blocks, i, p) :: PagesBacked(k.tables, k.heap.end, FreedEnd(k.heap, i))
    case WriteOp(_, _) => true
  }

  /** A step keeps every page of the heap backed by a frame of its own exactly when the check held before it. */
  lemma StepBacked(k: Kernel, op: Op, k': Kernel)
    requires Sane(k) && Step(k, op, k') && Backed(k)
    ensures Sane(k') && (Backed(k') <==> BackingOk(k, op))
  {
    hide Inv, Step, Owned, Used, FrameOf, EndAfter, FreedEnd, AllocStep, FreeStep, PagesGrown, PagesReleased, FreeOk;
    StepSane(k, op, k');
    match op
    case AllocOp(request, align, p) =>
      StepEnd(k, op, k');
      EndsOnPages(k.heap);
      GrownBacked(k.words, k.tables, k'.words, k'.tables, k.heap.start, k.heap.end, k'.heap.end);
    case FreeOp(p) =>
      StepEnd(k, op, k');
      EndsOnPages(k.heap);
      ReleasedBacked(k.words, k.tables, k'.words, k'.tables, k.heap.start, k.heap.end, k'.heap.end);
    case WriteOp(_, _) =>
  }

  lemma GrownBacked(words: seq<nat>, tables: Tables, words': seq<nat>, tables': Tables, start: nat, lo: nat, hi: nat)
    requires |words| > 0 && |words'| > 0 && start <= lo <= hi && lo % PAGE == 0
    requires PagesGrown(words, tables, words', tables', lo, hi) && PagesBacked(tables, start, lo)
    ensures PagesBacked(tables', start, hi) <==> lo < hi ==> Used(words, 0) || PagesBacked(tables, lo, hi)
  {
    hide Used, FrameOf, Exact;
    assert start / PAGE <= lo / PAGE <= hi / PAGE;
    assert PagesBacked(tables', start, lo) by {
      assert forall v: nat | v < lo / PAGE :: FrameOf(tables', v) == FrameOf(tables, v);
    }
    assert PagesBacked(tables', start, hi) <==> PagesBacked(tables', lo, hi);
  }

  lemma ReleasedBacked(words: seq<nat>, tables: Tables, words': seq<nat>, tables': Tables,
                       start: nat, hi: nat, lo: nat)
    requires |words| > 0 && |words'| > 0 && start <= hi && start <= lo && hi % PAGE == 0
    requires PagesReleased(words, tables, words', tables', lo, hi) && PagesBacked(tables, start, hi)
    ensures PagesBacked(tables', start, lo) <==> PagesBacked(tables, hi, lo)
  {
    hide Used, FrameOf;
    assert start / PAGE <= lo / PAGE;
    assert lo <= hi ==> lo / PAGE <= hi / PAGE;
    assert forall v: nat | v < lo / PAGE :: FrameOf(tables', v) == FrameOf(tables, v);
    assert hi <= lo ==> start / PAGE <= hi / PAGE <= lo / PAGE;
  }

  /** Where a step leaves the end of the heap. */
  lemma StepEnd(k: Kernel, op: Op, k': Kernel)
    requires Sane(k) && Step(k, op, k')
    ensures k.heap.start <= k.heap.end && k'.heap.start <= k'.heap.end && k'.heap.start == k.heap.start
    ensures match op
            case AllocOp(request, align, _) =>
              && Needed(request) < WORD_LIMIT && |k.heap.blocks| > 0 && k.heap.end <= k'.heap.end
              && k'.heap.end == EndAfter(k.heap, Needed(request), align)
            case FreeOp(p) =>
              && (exists i: nat :: IsLivePayload(k.heap.blocks, i, p))
              && (forall i: nat | IsLivePayload(k.heap.blocks, i, p) :: k'.heap.end == FreedEnd(k.heap, i))
            case WriteOp(_, _) => k'.heap.end == k.heap.end
  {
    hide AllocOk, FreeOk, AllocWork, FramesTaken, FramesGiven, Owned, Tiles, TagsOk, HoleFootersInside, IndexOk;
    hide NoAdjacentHoles, EndAfter, FreedEnd, BlocksAlloc, AllocStep, FreeMoves, Grown, Freed;
    StepSane(k, op, k');
    match op
    case AllocOp(request, align, p) =>
      var expansions: nat :| AllocWork(k.heap, k'.heap, Needed(request), align, p, expansions);
      AllocEnd(k.heap, k'.heap, Needed(request), align, p, expansions);
    case FreeOp(p) =>
      var i: nat :| IsLivePayload(k.heap.blocks, i, p) && FreeOk(k.heap, i) && FreeStep(k.heap, k'.heap, i);
      forall j: nat | IsLivePayload(k.heap.blocks, j, p)
        ensures j == i
      {
        OneLive(k.heap, i, j, p);
      }
    case WriteOp(_, _) =>
  }

  lemma OneLive(s: State, i: nat, j: nat, p: nat)
    requires Inv(s) && IsLivePayload(s.blocks, i, p) && IsLivePayload(s.blocks, j, p)
    ensures i == j
  {
    hide TagsOk, HoleFootersInside, IndexOk, NoAdjacentHoles;
    TilesOrdered(s.blocks, s.start, s.end);
  }

  /** Over a whole run the heap stays backed as long as the checks hold, and loses its backing at the first step whose
      check fails. */
  lemma {:induction false} RunBacked(ks: seq<Kernel>, ops: seq<Op>, i: nat)
    requires IsRun(ks, ops) && Sane(ks[0]) && i < |ks| && Backed(ks[0])
    requires forall j | 0 <= j < i :: |ks[j].words| > 0 && BackingOk(ks[j], ops[j])
    ensures Sane(ks[i]) && Backed(ks[i])
    ensures i < |ops| ==> (Backed(ks[i + 1]) <==> BackingOk(ks[i], ops[i]))
  {
    hide Inv, Step, Owned, Backed, BackingOk;
    RunSane(ks, ops, i);
    if i > 0 {
      RunBacked(ks, ops, i - 1);
      StepBacked(ks[i - 1], ops[i - 1], ks[i]);
    }
    if i < |ops| {
      StepBacked(ks[i], ops[i], ks[i + 1]);
    }
  }

  /** A release that gives up a page frees frame 0 instead of that page's frame; the next expansion that reaches the
      page takes frame 0 for it, and the heap is not backed any more. */
  lemma ReleaseThenGrow(k: Kernel, k1: Kernel, k2: Kernel, p: nat, request: nat, align: bool, q: nat)
    requires Sane(k) && Backed(k) && Step(k, FreeOp(p), k1) && Step(k1, AllocOp(request, align, q), k2)
    requires k1.heap.end + 2 * PAGE <= k.heap.end && k1.heap.end + 2 * PAGE <= k2.heap.end
    ensures Sane(k1) && Backed(k1) && !BackingOk(k1, AllocOp(request, align, q)) && !Backed(k2)
  {
    hide Inv, Step, Owned, Used, FrameOf, EndAfter, FreedEnd, AllocStep, FreeStep;
    StepSane(k, FreeOp(p), k1);
    StepEnd(k, FreeOp(p), k1);
    StepEnd(k1, AllocOp(request, align, q), k2);
    EndsOnPages(k1.heap);
    var v := k1.heap.end / PAGE + 1;
    assert k1.heap.end / PAGE < v < k.heap.end / PAGE && v < k2.heap.end / PAGE;
    assert k.heap.start / PAGE <= v;
    assert FrameOf(k.tables, v) != 0 && FrameOf(k1.tables, v) == 0;
    StepBacked(k, FreeOp(p), k1);
    StepBacked(k1, AllocOp(request, align, q), k2);
  }

  /** No two addresses of a backed heap share their physical address. */
  lemma HeapTranslationInjective(k: Kernel, a: nat, b: nat)
    requires Sane(k) && Backed(k)
    requires k.heap.start <= a < k.heap.end && k.heap.start <= b < k.heap.end
    requires Translate(k.tables, a) == Translate(k.tables, b)
    ensures a == b
  {
    hide TagsOk, HoleFootersInside, IndexOk, Tiles, NoAdjacentHoles, Owned;
    assert k.heap.start / PAGE <= a / PAGE < k.heap.end / PAGE;
    assert k.heap.start / PAGE <= b / PAGE < k.heap.end / PAGE;
    TranslateInjective(k.words, k.tables, a, b);
  }

  // ---- the order of the index

  /** A caller can check this before the call. */
  ghost predicate OrderOk(k: Kernel, op: Op)
  {
    match op
    case AllocOp(request, align, _) => Needed(request) < WORD_LIMIT && AllocOrderOk(k.heap, Needed(request), align)
    case FreeOp(p) => forall i: nat | IsLivePayload(k.heap.blocks, i, p) :: FreeOrderOk(k.heap, i)
    case WriteOp(_, _) => true
  }

  /** A step on an ordered index leaves it ordered exactly when the check held before it. */
  lemma StepOrdered(k: Kernel, op: Op, k': Kernel)
    requires Sane(k) && Step(k, op, k') && BySize(k.heap.ram, k.heap.index)
    ensures BySize(k'.heap.ram, k'.heap.index) <==> OrderOk(k, op)
  {
    hide Inv, AllocOk, FreeOk, AllocWork, FramesTaken, FramesGiven, Owned, FreeMoves, BySize, AllocOrderOk, FreeOrderOk;
    hide Recorded, InPayload;
    match op
    case AllocOp(request, align, p) =>
      var expansions: nat :| AllocWork(k.heap, k'.heap, Needed(request), align, p, expansions);
      AllocOrder(k.heap, k'.heap, Needed(request), align, p, expansions);
    case FreeOp(p) =>
      var i: nat :| IsLivePayload(k.heap.blocks, i, p) && FreeOk(k.heap, i) && FreeMoves(k.heap, k'.heap, i);
      FreeOrderExact(k.heap, k'.heap, i);
      forall j: nat | IsLivePayload(k.heap.blocks, j, p)
        ensures j == i
      {
        OneLive(k.heap, i, j, p);
      }
    case WriteOp(a, v) =>
      WriteKeepsOrder(k.heap, a, v);
  }

  lemma WriteKeepsOrder(s: State, a: nat, v: Byte)
    requires Inv(s) && a < WORD_LIMIT && (exists b :: b in Live(s.blocks) && InPayload(b, a))
    ensures BySize(s.ram[a := v], s.index) <==> BySize(s.ram, s.index)
  {
    hide HeaderAt, TagsOk, HoleFootersInside, NoAdjacentHoles, BySize;
    var b :| b in Live(s.blocks) && InPayload(b, a);
    forall i | 0 <= i < |s.index|
      ensures SizeKey(s.ram[a := v])(s.index[i]) == SizeKey(s.ram)(s.index[i])
    {
      var h := HoleOf(s, s.index[i]);
      BlocksDisjoint(s.blocks, s.start, s.end, s.blocks[h], b);
      HeaderUnchanged(s.ram, s.ram[a := v], s.index[i]);
    }
    SameSizes(s.ram, s.ram[a := v], s.index);
  }

  /** Over a whole run the index stays ordered by size as long as the checks hold, and loses its order at the first
      step whose check fails. */
  lemma {:induction false} RunOrdered(ks: seq<Kernel>, ops: seq<Op>, i: nat)
    requires IsRun(ks, ops) && Sane(ks[0]) && i < |ks| && BySize(ks[0].heap.ram, ks[0].heap.index)
    requires forall j | 0 <= j < i :: OrderOk(ks[j], ops[j])
    ensures Sane(ks[i]) && BySize(ks[i].heap.ram, ks[i].heap.index)
    ensures i < |ops| ==> (BySize(ks[i + 1].heap.ram, ks[i + 1].heap.index) <==> OrderOk(ks[i], ops[i]))
  {
    hide Inv, Step, Owned, BySize, OrderOk;
    RunSane(ks, ops, i);
    if i > 0 {
      RunOrdered(ks, ops, i - 1);
      StepOrdered(ks[i - 1], ops[i - 1], ks[i]);
    }
    if i < |ops| {
      StepOrdered(ks[i], ops[i], ks[i + 1]);
    }
  }

  /** Until then every hole the search finds is of least size among all that fit. */
  lemma RunBestFit(ks: seq<Kernel>, ops: seq<Op>, i: nat, n: nat, align: bool, f: nat, a: nat)
    requires IsRun(ks, ops) && Sane(ks[0]) && i < |ks| && BySize(ks[0].heap.ram, ks[0].heap.index)
    requires forall j | 0 <= j < i :: OrderOk(ks[j], ops[j])
    requires n < WORD_LIMIT && IsFirstFit(ks[i].heap, n, align, f) && a in ks[i].heap.index
    requires Fits(ks[i].heap.ram, a, n, align)
    ensures SizeKey(ks[i].heap.ram)(ks[i].heap.index[f]) <= SizeKey(ks[i].heap.ram)(a)
  {
    hide Inv, Step, Owned, OrderOk, Fits, SizeKey;
    RunOrdered(ks, ops, i);
    FirstFitIsBest(ks[i].heap, n, align, f);
  }

  // ---- heaps in which every hole footer is right

  /** With all footers right, only the end of the heap is left to check before a release. */
  lemma SealedFree(s: State, i: nat)
    requires Inv(s) && AllSealed(s.ram, s.blocks) && i < |s.blocks|
    ensures FreeOk(s, i) <==> EndOk(s, i)
  {
  }

  /** The footers stay right over a run in which no release absorbs a hole to its right away from the end. */
  lemma {:induction false} RunSealed(ks: seq<Kernel>, ops: seq<Op>, i: nat)
    requires IsRun(ks, ops) && Sane(ks[0]) && i < |ks| && AllSealed(ks[0].heap.ram, ks[0].heap.blocks)
    requires forall j, n: nat | 0 <= j < i && ops[j].FreeOp? && IsLivePayload(ks[j].heap.blocks, n, ops[j].p) ::
               !LeavesStaleFooter(ks[j].heap.blocks, n)
    ensures Sane(ks[i]) && AllSealed(ks[i].heap.ram, ks[i].heap.blocks)
  {
    hide Inv, AllocOk, FreeOk, PagesGrown, PagesReleased, AllSealed, LeavesStaleFooter, Step;
    RunSane(ks, ops, i);
    if i > 0 {
      RunSealed(ks, ops, i - 1);
      var k, op, k' := ks[i - 1], ops[i - 1], ks[i];
      RunSane(ks, ops, i - 1);
      StepSane(k, op, k');
      if op.WriteOp? {
        WriteKeepsInv(k.heap, op.a, op.v);
      }
    }
  }

  // ---- release undoes allocation

  /** The last hole cut to the minimum heap size. */
  function TailCut(s: State): seq<Block>
    requires |s.blocks| > 0
  {
    var last := s.blocks[|s.blocks| - 1];
    if last.addr <= s.start + MIN_SIZE
    then Splice(s.blocks, |s.blocks| - 1, |s.blocks|, [last.(size := s.start + MIN_SIZE - last.addr)])
    else s.blocks
  }

  /** An unaligned allocation that needed no expansion, released at once, leaves the very list of blocks there was
      before; if the block reached the end of the heap, up to the contraction. The left footer needs no check. */
  lemma FreeUndoesAlloc(s: State, s1: State, k: nat, n: nat, p: nat)
    requires Inv(s) && CarveStep(s, s1, k, n, false, p)
    ensures k < |s1.blocks| && !s1.blocks[k].hole && s1.blocks[k].Payload() == p
    ensures LeftOk(s1, k) && (ReachesEnd(s1.blocks, k) <==> k == |s.blocks| - 1)
    ensures FreeOk(s1, k) <==> (k == |s.blocks| - 1 ==> s.blocks[k].addr + TAGS_SIZE <= s.start + MIN_SIZE)
    ensures FreeOk(s1, k) ==> Freed(s1, k) == if k == |s.blocks| - 1 then TailCut(s) else s.blocks
  {
    hide TagsOk, HoleFootersInside, IndexOk, SameOutside, NoAdjacentHoles, Tiles, Carved;
    var bs, pieces := s.blocks, Pieces(s.blocks[k].addr, s.blocks[k].size, n, false);
    PiecesMergeBack(s, s1, k, n, p);
    FreedIsSplice(s1, k);
    assert s1.blocks[..k] == bs[..k] && s1.blocks[k + |pieces|..] == bs[k + 1..];
  }

  /** The pieces of the carved hole are exactly what the release merges. */
  lemma PiecesMergeBack(s: State, s1: State, k: nat, n: nat, p: nat)
    requires Inv(s) && CarveStep(s, s1, k, n, false, p)
    ensures var pieces := Pieces(s.blocks[k].addr, s.blocks[k].size, n, false);
            && 1 <= |pieces| <= 2 && pieces[0].addr == s.blocks[k].addr
            && pieces[|pieces| - 1].End() == s.blocks[k].End()
            && s1.blocks == s.blocks[..k] + pieces + s.blocks[k + 1..] && Inv(s1)
            && k < |s1.blocks| && s1.blocks[k] == pieces[0] && !pieces[0].hole && pieces[0].Payload() == p
            && s1.start == s.start && s1.end == s.end && s1.blocks[k + |pieces| - 1] == pieces[|pieces| - 1]
            && MergeLo(s1.blocks, k) == k && MergeHi(s1.blocks, k) == k + |pieces|
            && Merged(s1.blocks, k) == s.blocks[k]
  {
    hide TagsOk, HoleFootersInside, IndexOk, SameOutside, Tiles;
    var bs, pieces := s.blocks, Pieces(s.blocks[k].addr, s.blocks[k].size, n, false);
    assert s1.blocks == bs[..k] + pieces + bs[k + 1..];
    if |pieces| == 2 {
      assert s1.blocks[k + 1] == pieces[1];
    } else if k + 1 < |bs| {
      assert s1.blocks[k + 1] == bs[k + 1];
    }
  }

  /** The index is restored with the list: it holds the same holes, each once. */
  lemma FreeRestoresIndex(s: State, s1: State, s2: State, k: nat, n: nat, p: nat)
    requires Inv(s) && CarveStep(s, s1, k, n, false, p) && k < |s.blocks| - 1
    requires FreeOk(s1, k) && FreeStep(s1, s2, k)
    ensures s2.blocks == s.blocks && s2.end == s.end
    ensures Distinct(s2.index) && forall a :: a in s2.index <==> a in s.index
  {
    hide TagsOk, HoleFootersInside, Tiles, NoAdjacentHoles, CarveStep, Freed, FreeOk;
    FreeUndoesAlloc(s, s1, k, n, p);
    assert s1.end == s.end by { CarveEnds(s, s1, k, n, p); }
  }

  lemma CarveEnds(s: State, s1: State, k: nat, n: nat, p: nat)
    requires CarveStep(s, s1, k, n, false, p)
    ensures s1.end == s.end
  {
  }

  /** The two calls together, from what they write: an unaligned allocation that needs no expansion and the release
      right after it give back the list of blocks and the holes of the index, up to the contraction of the last hole
      to the minimum heap size. The release is safe unless that hole starts too high. */
  lemma AllocThenFree(s: State, s1: State, s2: State, k: nat, n: nat, p: nat)
    requires Inv(s) && TAGS_SIZE <= n < SIGN_LIMIT && AllocWork(s, s1, n, false, p, 0) && FreeMoves(s1, s2, k)
    requires BlocksAlloc(s.blocks, s1.blocks, k, n, false, p)
    requires k == |s.blocks| - 1 ==> s.blocks[k].addr + TAGS_SIZE <= s.start + MIN_SIZE
    ensures Inv(s2) && s2.blocks == if k == |s.blocks| - 1 then TailCut(s) else s.blocks
    ensures k < |s.blocks| - 1 ==> s2.end == s.end && forall a :: a in s2.index <==> a in s.index
    ensures k == |s.blocks| - 1 ==> s2.end == s.start + MIN_SIZE
  {
    hide Inv, AllocWork, BlocksAlloc, CarveStep, FreeStep, FreeOk, FreeMoves, TailCut, Freed;
    CarvedAs(s, s1, k, n, p);
    FreeUndoesAlloc(s, s1, k, n, p);
    SoundAfterCarve(s, s1, k, n, p);
    FreeMovesKeep(s1, s2, k);
    FreeEnds(s1, s2, k);
    if k < |s.blocks| - 1 {
      FreeRestoresIndex(s, s1, s2, k, n, p);
    }
  }

  lemma CarvedAs(s: State, s1: State, k: nat, n: nat, p: nat)
    requires Inv(s) && TAGS_SIZE <= n < SIGN_LIMIT && AllocWork(s, s1, n, false, p, 0)
    requires BlocksAlloc(s.blocks, s1.blocks, k, n, false, p)
    ensures CarveStep(s, s1, k, n, false, p)
  {
    hide Fits, CarveWork, KeepsAlloc, AllocStep, IndexOk, TagsOk, HoleFootersInside, NoAdjacentHoles, SameOutside;
    assert AllocOk(s, n, false);
    var j, bs := CarveExact(s, s1, n, false, p);
    OneCarving(s.blocks, s.start, s.end, bs, j, s1.blocks, k, n, false, p);
    assert s1.(blocks := bs) == s1;
  }

  lemma SoundAfterCarve(s: State, s1: State, k: nat, n: nat, p: nat)
    requires CarveStep(s, s1, k, n, false, p)
    ensures Inv(s1) && s1.start == s.start
  {
  }

  lemma FreeEnds(s1: State, s2: State, k: nat)
    requires FreeStep(s1, s2, k)
    ensures k < |s1.blocks| && Inv(s2) && s2.blocks == Freed(s1, k) && s2.end == FreedEnd(s1, k)
  {
  }

  // ---- the code takes these steps

  ghost function KernelOf(h: VmHeap): Kernel
    reads h, h.mem, h.index, h.index.words, h.pager, h.pager.frames
    reads h.pager.tables
    requires h.index.Valid()
  {
    Kernel(h.Snap(), h.pager.Words(), h.pager.Dir())
  }

  /** The heap a run starts from: what init_heap leaves is a sane kernel with an ordered index and right footers. It is
      backed exactly if the pages of the heap hold frames. */
  method StartHeap(mem: Store, words: array<nat>, pager: Pager, start: nat, end: nat, max: nat, su: bool, ro: bool)
    returns (h: VmHeap)
    requires start % PAGE == 0 && end % PAGE == 0
    requires INDEX_SIZE < words.Length && words != pager.frames && words != pager.tblphys
    requires pager.Valid() && pager.frames.Length * WORD_BITS <= PAGE && Owned(pager.Words(), pager.Dir())
    requires TablesMade(pager.Dir(), start, max)
    requires var first := start + 4 * INDEX_SIZE + PAGE;
             && first < end <= max <= WORD_LIMIT - PAGE && first + MIN_SIZE <= max && max - start < SIGN_LIMIT
             && Word(mem.ram, first - FTR_SIZE) != FTR_MAGIC
    modifies mem, words
    ensures h.index.Valid() && h.Ready() && Sane(KernelOf(h))
    ensures BySize(h.mem.ram, h.index.Contents()) && AllSealed(h.mem.ram, h.blocks) && Abs(h.Snap()) == map[]
    ensures h.pager == pager && h.start == start + 4 * INDEX_SIZE + PAGE && h.end == end
    ensures Backed(KernelOf(h)) <==> PagesBacked(pager.Dir(), h.start, end)
  {
    hide TagsOk, HoleFootersInside, Owned, AllSealed, Word, TablesMade;
    h := new VmHeap.InitHeap(mem, words, pager, start, end, max, su, ro);
    assert |h.index.Contents()| <= 1 by {
      OneIndexed(h.Snap());
    }
    assert Live(h.blocks) == {};
  }

  lemma OneIndexed(s: State)
    requires Inv(s) && |s.blocks| == 1
    ensures |s.index| <= 1
  {
    hide Tiles, NoAdjacentHoles, TagsOk, HoleFootersInside, HoleAddrs;
    assert |s.index| > 1 ==> s.index[0] != s.index[1];
    forall j | 0 <= j < |s.index|
      ensures s.index[j] == s.blocks[0].addr
    {
      var h := HoleOf(s, s.index[j]);
    }
  }

  lemma AllocIsStep(k: Kernel, k': Kernel, i: nat, request: nat, align: bool, p: nat, expansions: nat)
    requires Needed(request) < SIGN_LIMIT && AllocOk(k.heap, Needed(request), align)
    requires AllocWork(k.heap, k'.heap, Needed(request), align, p, expansions)
    requires Recorded(k.heap, k'.heap, i, Needed(request), align, p)
    requires FramesTaken(k.words, k.tables, k'.words, k'.tables, k.heap.end / PAGE, k'.heap.end / PAGE)
    ensures Step(k, AllocOp(request, align, p), k')
  {
    hide AllocOk, AllocWork, FramesTaken, Recorded;
  }

  lemma WasRecorded(s: State, s': State, i: nat, n: nat, align: bool, p: nat)
    requires AllocStep(s, s', i, n, align, p)
    ensures Recorded(s, s', i, n, align, p)
  {
  }

  method PerformAlloc(h: VmHeap, request: nat, align: bool) returns (r: OrPanic<nat>)
    requires h.index.Valid() && h.Ready() && Inv(h.Snap())
    requires Needed(request) < SIGN_LIMIT && h.max + Needed(request) + PAGE <= WORD_LIMIT
    requires AllocOk(h.Snap(), Needed(request), align)
    modifies h, h.mem, h.index`size, h.index.words
    modifies h.pager`placement, h.pager.frames, h.pager.tables, h.pager.tblphys
    ensures h.index.Valid() && h.Ready()
    ensures r.Returned? ==> Sane(KernelOf(h)) && Step(old(KernelOf(h)), AllocOp(request, align, r.value), KernelOf(h))
  {
    hide Inv, AllocOk, FramesTaken, AllocWork, AllocStep, KeepsAlloc, TablesMade, HeaderAt, Step;
    InvRunnable(h.Snap());
    ghost var before := KernelOf(h);
    ghost var i, expansions;
    r, i, expansions := h.Alloc(request, align);
    if r.Returned? {
      WasRecorded(before.heap, h.Snap(), i, Needed(request), align, r.value);
      AllocIsStep(before, KernelOf(h), i, request, align, r.value, expansions);
      StepSane(before, AllocOp(request, align, r.value), KernelOf(h));
    }
  }

  method PerformFree(h: VmHeap, p: nat, ghost i: nat) returns (ok: bool)
    requires h.index.Valid() && h.Ready() && Inv(h.Snap())
    requires p != 0 && IsLivePayload(h.blocks, i, p) && FreeOk(h.Snap(), i)
    modifies h, h.mem, h.index`size, h.index.words
    modifies h.pager`placement, h.pager.frames, h.pager.tables, h.pager.tblphys
    ensures h.index.Valid() && h.Ready()
    ensures ok ==> Sane(KernelOf(h)) && Step(old(KernelOf(h)), FreeOp(p), KernelOf(h))
  {
    hide Inv, FramesGiven, FreeMoves, FreeOutcome, TablesMade, HeaderAt, FreeOk;
    ghost var before := KernelOf(h);
    ok := h.Free(p, i);
    if ok {
      assert FreeMoves(before.heap, h.Snap(), i);
      StepSane(before, FreeOp(p), KernelOf(h));
    }
  }
}
