/** Concrete sound heaps on which the code, as it is written, goes wrong. Each meets the failing side of a condition
    that is proved exact for all inputs. */
module HeapExamples {
  import opened Memory
  import opened Blocks
  import opened HeapSpec
  import opened HeapAlloc
  import opened HeapFree
  import opened HeapOrder
  import opened HeapMoves
  import opened Paging
  import opened HeapRuns

  /** The kernel's heap starts behind its index, and this is how far it may grow (paging.c:164-165). */
  const START: nat := 0xC008_1000
  const MAX: nat := 0xCFFF_F000

  // ---- every list of blocks is the list of some sound heap

  lemma WithTags(ram: Ram, b: Block) returns (r: Ram)
    requires b.End() <= WORD_LIMIT && b.size >= TAGS_SIZE && 0 < b.addr
    ensures TagOk(r, b) && Sealed(r, b) && SameOutside(ram, r, b.addr, b.End())
  {
    hide HeaderAt, FooterAt, WithHeader, WithFooter;
    var h, f := Header(HDR_MAGIC, if b.hole then 1 else 0, b.size), Footer(FTR_MAGIC, b.addr);
    var r1 := WithHeader(ram, b.addr, h);
    WrittenHeader(ram, b.addr, h);
    r := WithFooter(r1, b.End() - FTR_SIZE, f);
    WrittenFooter(r1, b.End() - FTR_SIZE, f);
    HeaderUnchanged(r1, r, b.addr);
  }

  lemma {:induction false} TagAll(ram: Ram, bs: seq<Block>, lo: nat, hi: nat) returns (r: Ram)
    requires Tiles(bs, lo, hi) && 0 < lo && hi < WORD_LIMIT
    ensures TagsOk(r, bs) && (forall i | 0 <= i < |bs| :: Sealed(r, bs[i])) && SameOutside(ram, r, lo, hi)
    decreases |bs|
  {
    hide TagOk, Sealed;
    var n := |bs| - 1;
    var last := bs[n];
    TilesOrdered(bs, lo, hi);
    var r1 := ram;
    if n > 0 {
      assert bs[n - 1].End() == last.addr;
      r1 := TagAll(ram, bs[..n], lo, last.addr);
    }
    r := WithTags(r1, last);
    forall i | 0 <= i < n
      ensures TagOk(r, bs[i]) && Sealed(r, bs[i])
    {
      assert bs[..n][i] == bs[i];
      TagKept(r1, r, last.addr, last.End(), bs[i]);
    }
  }

  /** Every list that tiles a heap area without two holes side by side, with every order of its holes in the index, is
      the list of a sound heap in which all footers are right. */
  lemma EveryListIsAHeap(bs: seq<Block>, index: seq<nat>, start: nat, end: nat, max: nat) returns (s: State)
    requires Tiles(bs, start, end) && NoAdjacentHoles(bs) && IndexOk(index, bs)
    requires start % PAGE == 0 && end % PAGE == 0 && 4 * INDEX_SIZE <= start && start + MIN_SIZE <= max
    requires start < end <= max <= WORD_LIMIT - PAGE && max - start < SIGN_LIMIT
    ensures Inv(s) && AllSealed(s.ram, s.blocks)
    ensures s.blocks == bs && s.index == index && s.start == start && s.end == end && s.max == max
  {
    hide HeaderAt, FooterAt, Tiles, NoAdjacentHoles, IndexOk;
    var zero: Ram := seq(WORD_LIMIT, _ => 0);
    var ram := TagAll(zero, bs, start, end);
    s := State(ram, index, bs, start, end, max);
    assert Word(ram, start - FTR_SIZE) != FTR_MAGIC by {
      LeZero(zero, start - FTR_SIZE, start - 4);
      WordUnchanged(zero, ram, start - FTR_SIZE);
    }
  }

  lemma KernelHeap(bs: seq<Block>, index: seq<nat>) returns (s: State)
    requires |bs| > 0 && Tiles(bs, START, bs[|bs| - 1].End()) && NoAdjacentHoles(bs) && IndexOk(index, bs)
    requires bs[|bs| - 1].End() % PAGE == 0 && START < bs[|bs| - 1].End() <= MAX
    ensures Inv(s) && AllSealed(s.ram, s.blocks)
    ensures s.blocks == bs && s.index == index && s.start == START && s.end == bs[|bs| - 1].End() && s.max == MAX
  {
    hide Tiles, NoAdjacentHoles, IndexOk, Inv, AllSealed;
    s := EveryListIsAHeap(bs, index, START, bs[|bs| - 1].End(), MAX);
  }

  lemma HeaderOf(s: State, k: nat)
    requires Inv(s) && k < |s.blocks|
    ensures s.blocks[k].addr + HDR_SIZE <= WORD_LIMIT
    ensures HeaderAt(s.ram, s.blocks[k].addr).size == s.blocks[k].size == SizeKey(s.ram)(s.blocks[k].addr)
  {
    hide HeaderAt, FooterAt, HoleFootersInside, IndexOk, Tiles, NoAdjacentHoles;
    assert TagOk(s.ram, s.blocks[k]);
  }

  // ---- aligned carving

  /** The only hole is block k. */
  lemma OnlyHole(s: State, k: nat, n: nat)
    requires Inv(s) && k < |s.blocks| && s.index == [s.blocks[k].addr] && n < WORD_LIMIT
    requires s.blocks[k].size < WORD_LIMIT && FitsSize(s.blocks[k].addr, s.blocks[k].size, n, true)
    ensures !NoFit(s, n, true)
    ensures AllocOk(s, n, true) <==> CarveOk(s.blocks[k].addr, s.blocks[k].size, n, true)
  {
    hide HeaderAt, Inv, FitsSize, CarveOk;
    HeaderOf(s, k);
    assert Fits(s.ram, s.index[0], n, true);
    assert IsFirstFit(s, n, true, 0);
  }

  /** A hole 16 bytes below the end of a page is found, and the piece left in front of the block has 4 bytes. */
  lemma FrontPieceTooShort() returns (s: State)
    ensures Inv(s) && AllSealed(s.ram, s.blocks) && |s.blocks| == 2 && s.blocks[1].addr == START + 0xFF0
    ensures Lead(START + 0xFF0) == 4
    ensures !NoFit(s, Needed(100), true) && !AllocOk(s, Needed(100), true)
  {
    hide Inv, AllSealed;
    s := LiveThenHole(0xFF0);
    OnlyHole(s, 1, Needed(100));
  }

  /** For a hole 8 bytes below the end of a page the search counts on moving the block up by 4092 bytes, and the
      carving moves it down by 4, over the footer of the live block before. */
  lemma OffsetsDisagree() returns (s: State)
    ensures Inv(s) && AllSealed(s.ram, s.blocks) && |s.blocks| == 2 && s.blocks[1].addr == START + 0xFF8
    ensures !s.blocks[0].hole && AlignOffset(START + 0xFF8) == 0xFFC && Lead(START + 0xFF8) == -4
    ensures !NoFit(s, Needed(100), true) && !AllocOk(s, Needed(100), true)
  {
    hide Inv, AllSealed;
    s := LiveThenHole(0xFF8);
    OnlyHole(s, 1, Needed(100));
  }

  lemma LiveThenHole(size: nat) returns (s: State)
    requires TAGS_SIZE <= size < PAGE
    ensures Inv(s) && AllSealed(s.ram, s.blocks) && s.index == [START + size]
    ensures s.blocks == [Block(START, size, false), Block(START + size, 0x7_F000 - size, true)]
  {
    hide Inv, AllSealed;
    var bs := [Block(START, size, false), Block(START + size, 0x7_F000 - size, true)];
    assert bs[1] in bs;
    assert HoleAddrs(bs) == {START + size};
    s := KernelHeap(bs, [START + size]);
  }

  /** A hole that starts a page and holds ten bytes more than needed leaves a hole of ten bytes behind the block. */
  lemma RearPieceTooShort() returns (s: State)
    ensures Inv(s) && AllSealed(s.ram, s.blocks) && |s.blocks| == 2
    ensures s.blocks[0] == Block(START, Lead(START) + Needed(100) + 10, true)
    ensures !NoFit(s, Needed(100), true) && !AllocOk(s, Needed(100), true)
  {
    hide Inv, AllSealed;
    var size := 0xFF4 + Needed(100) + 10;
    var bs := [Block(START, size, true), Block(START + size, 0x7_F000 - size, false)];
    assert bs[0] in bs;
    assert HoleAddrs(bs) == {START};
    s := KernelHeap(bs, [START]);
    OnlyHole(s, 0, Needed(100));
  }

  // ---- expansion

  /** With a live block at the end of the heap the new room goes to the hole before it. */
  lemma RoomGoesToTheWrongHole() returns (s: State)
    ensures Inv(s) && AllSealed(s.ram, s.blocks)
    ensures s.blocks == [Block(START, 0x1000, true), Block(START + 0x1000, 0x7_E000, false)]
    ensures NoFit(s, Needed(0x2000), false) && !AllocOk(s, Needed(0x2000), false)
  {
    hide Inv, AllSealed, HeaderAt;
    var bs := [Block(START, 0x1000, true), Block(START + 0x1000, 0x7_E000, false)];
    assert bs[0] in bs;
    assert HoleAddrs(bs) == {START};
    s := KernelHeap(bs, [START]);
    HeaderOf(s, 0);
    PromiseGrows(s, Needed(0x2000), false);
  }

  /** The end of the grown heap passes 2^32 and the limit check passes it. */
  lemma LimitCheckWraps()
    ensures ExpandPasses(START, 0x7_F000, 0x4000_0000, MAX)
    ensures START + 0x7_F000 + Growth(0x4000_0000) > MAX
  {
  }

  /** A length that is rounded up to 2^32 counts as none, and the end of the heap is set to its start. */
  lemma LengthRoundsToNothing()
    ensures Rounded(0x7_F000 + 0xFFF8_0000) == 0 && ExpandPasses(START, 0x7_F000, 0xFFF8_0000, MAX)
  {
  }

  // ---- contraction

  /** The freed room starts at an even page above the minimum: the heap is cut to end where it starts, and it stays in
      the index. */
  lemma HoleCutToNothing() returns (s: State)
    ensures Inv(s) && AllSealed(s.ram, s.blocks) && |s.blocks| == 2 && !s.blocks[1].hole
    ensures ReachesEnd(s.blocks, 1) && !FreeOk(s, 1)
    ensures FreedTo(s, 1, FreedHeader(s, 1)) == s.blocks[1].addr == START + 0x7_2000
  {
    hide Inv, AllSealed;
    s := TwoLive(0x7_2000, 0x1000);
    SealedLeft(s, 1);
    FreedPlace(s, 1);
  }

  /** The freed room starts at an odd page above the minimum: the heap is cut to the minimum, through the live block
      before. */
  lemma LiveBlockCutOff() returns (s: State)
    ensures Inv(s) && AllSealed(s.ram, s.blocks) && |s.blocks| == 2 && !s.blocks[1].hole
    ensures ReachesEnd(s.blocks, 1) && !FreeOk(s, 1)
    ensures FreedTo(s, 1, FreedHeader(s, 1)) == START + 0x7_0000 < s.blocks[0].End() && !s.blocks[0].hole
  {
    hide Inv, AllSealed;
    s := TwoLive(0x7_1000, 0x1000);
    SealedLeft(s, 1);
    FreedPlace(s, 1);
  }

  /** The freed room starts inside an even page above the minimum: the heap ends there, off every page boundary. */
  lemma EndOffThePage() returns (s: State)
    ensures Inv(s) && AllSealed(s.ram, s.blocks) && |s.blocks| == 2 && !s.blocks[1].hole && s.end == START + 0x7_3000
    ensures ReachesEnd(s.blocks, 1) && !FreeOk(s, 1) && FreedTo(s, 1, FreedHeader(s, 1)) == START + 0x7_2010
  {
    hide Inv, AllSealed;
    s := TwoLive(0x7_2010, 0xFF0);
    SealedLeft(s, 1);
    FreedPlace(s, 1);
  }

  lemma TwoLive(size: nat, second: nat) returns (s: State)
    requires TAGS_SIZE <= size <= 0x8_0000 && TAGS_SIZE <= second <= PAGE && (size + second) % PAGE == 0
    ensures Inv(s) && AllSealed(s.ram, s.blocks) && s.start == START
    ensures s.blocks == [Block(START, size, false), Block(START + size, second, false)]
    ensures s.end == START + size + second
  {
    hide Inv, AllSealed;
    var bs := [Block(START, size, false), Block(START + size, second, false)];
    assert HoleAddrs(bs) == {};
    s := KernelHeap(bs, []);
  }

  // ---- footers

  /** A release that absorbs a hole on its right away from the end of the heap makes a later release unsafe: the one of
      the block behind. */
  lemma StaleFooterHurts(s: State, s': State, k: nat) returns (j: nat)
    requires Inv(s) && AllSealed(s.ram, s.blocks) && FreeStep(s, s', k) && LeavesStaleFooter(s.blocks, k)
    ensures 0 < j < |s'.blocks| && !s'.blocks[j].hole && s'.blocks[j - 1].hole && !LeftOk(s', j) && !FreeOk(s', j)
  {
    hide Inv, Sealed, Freed, Untouched;
    var i :| 0 <= i < |s'.blocks| - 1 && s'.blocks[i].hole && !Sealed(s'.ram, s'.blocks[i]);
    j := i + 1;
    LiveAfterHole(s', i);
  }

  lemma LiveAfterHole(s: State, i: nat)
    requires Inv(s) && i + 1 < |s.blocks| && s.blocks[i].hole
    ensures !s.blocks[i + 1].hole
  {
    hide Tiles, TagsOk, HoleFootersInside, IndexOk;
  }

  /** Live, hole, live, where the hole was made of a released block and a hole behind it: its footer still names the
      header of the hole it absorbed. The release of the block behind is not safe. */
  lemma StaleFooterLeft() returns (s: State)
    ensures Inv(s) && |s.blocks| == 3 && s.blocks[1] == Block(START + 100, 200, true) && !s.blocks[2].hole
    ensures FooterAt(s.ram, START + 292) == Footer(FTR_MAGIC, START + 200)
    ensures HeaderAt(s.ram, START + 200) == Header(HDR_MAGIC, 1, 100)
    ensures !LeftOk(s, 2) && !FreeOk(s, 2) && !CutClean(s, 2)
  {
    hide Inv, HeaderAt, FooterAt;
    s := StaleFooter(100);
  }

  /** The same with the block behind at the minimum heap size: the contraction cuts off just that block, and the heap
      is sound although the footer was wrong. */
  lemma CutJustRight() returns (s: State)
    ensures Inv(s) && |s.blocks| == 3 && !s.blocks[2].hole && !FreeOk(s, 2) && CutClean(s, 2)
  {
    hide Inv, HeaderAt, FooterAt;
    s := StaleFooter(MIN_SIZE - 200);
  }

  lemma StaleFooter(first: nat) returns (s: State)
    requires TAGS_SIZE <= first <= MIN_SIZE
    ensures Inv(s) && s.start == START
    ensures s.blocks == [Block(START, first, false), Block(START + first, 200, true),
                         Block(START + first + 200, 0x7_EF38 - first, false)]
    ensures FooterAt(s.ram, START + first + 192) == Footer(FTR_MAGIC, START + first + 100)
    ensures HeaderAt(s.ram, START + first + 100) == Header(HDR_MAGIC, 1, 100)
  {
    hide Inv, HeaderAt, FooterAt, WithHeader, WithFooter;
    var hole := Block(START + first, 200, true);
    var bs := [Block(START, first, false), hole, Block(START + first + 200, 0x7_EF38 - first, false)];
    assert bs[1] in bs;
    assert HoleAddrs(bs) == {START + first};
    var t := KernelHeap(bs, [START + first]);
    var h, f := Header(HDR_MAGIC, 1, 100), Footer(FTR_MAGIC, START + first + 100);
    var r1 := WithHeader(t.ram, START + first + 100, h);
    WrittenHeader(t.ram, START + first + 100, h);
    var r2 := WithFooter(r1, START + first + 192, f);
    WrittenFooter(r1, START + first + 192, f);
    HeaderUnchanged(r1, r2, START + first + 100);
    HeaderUnchanged(t.ram, r2, START + first);
    s := t.(ram := r2);
    InsideOneHole(t, s, 1);
  }

  /** Writing inside a hole that is not the last keeps the heap sound as long as header and footer stay in order. */
  lemma InsideOneHole(s: State, s': State, k: nat)
    requires Inv(s) && k + 1 < |s.blocks| && s.blocks[k].hole && s' == s.(ram := s'.ram)
    requires SameOutside(s.ram, s'.ram, s.blocks[k].addr, s.blocks[k].End())
    requires s.blocks[k].End() <= WORD_LIMIT && s.blocks[k].addr + HDR_SIZE <= WORD_LIMIT
    requires HeaderAt(s'.ram, s.blocks[k].addr) == HeaderAt(s.ram, s.blocks[k].addr)
    requires FooterInside(s'.ram, s.blocks[k])
    ensures Inv(s')
  {
    hide HeaderAt, FooterAt, FooterInside, HoleFootersInside, NoAdjacentHoles;
    var b := s.blocks[k];
    assert TagOk(s.ram, b) && TagOk(s'.ram, b);
    OneBlock(s'.ram, b);
    assert s.blocks[k..k + 1] == [b] && Splice(s.blocks, k, k + 1, [b]) == s.blocks;
    LiveBeside(s, k);
    ReplaceKeepsInv(s, s', k, k + 1, [b], b.End(), b.End());
  }

  lemma LiveBeside(s: State, k: nat)
    requires Inv(s) && k + 1 < |s.blocks| && s.blocks[k].hole
    ensures !s.blocks[k + 1].hole && (k > 0 ==> !s.blocks[k - 1].hole)
    ensures s.blocks[k + 1].addr == s.blocks[k].End() && s.blocks[k].addr in s.index
  {
    hide TagsOk, HoleFootersInside;
    assert s.blocks[k] in s.blocks;
  }

  // ---- the order of the index

  /** Two holes of 100 and 120 bytes in order. The release of the live block behind the first makes that one 200 bytes
      long where it stands, in front of the other. */
  lemma OrderLostByRelease() returns (s: State)
    ensures Inv(s) && AllSealed(s.ram, s.blocks) && |s.blocks| == 5 && !s.blocks[1].hole
    ensures FreedBlock(s, 1) == Block(START, 200, true) && s.blocks[3] == Block(START + 300, 120, true)
    ensures BySize(s.ram, s.index) && FreeOk(s, 1) && !FreeOrderOk(s, 1)
  {
    hide Inv, AllSealed, HeaderAt, SizeKey;
    var bs := [Block(START, 100, true), Block(START + 100, 100, false), Block(START + 200, 100, false),
               Block(START + 300, 120, true), Block(START + 420, 0x7_EE5C, false)];
    assert bs[0] in bs && bs[3] in bs;
    assert HoleAddrs(bs) == {START, START + 300};
    s := KernelHeap(bs, [START, START + 300]);
    HeaderOf(s, 0);
    HeaderOf(s, 3);
    SealedLeft(s, 1);
    assert !InLine(s.ram, s.index, 0, 200, -1);
  }

  lemma SealedLeft(s: State, k: nat)
    requires AllSealed(s.ram, s.blocks) && k < |s.blocks|
    ensures LeftOk(s, k)
  {
  }

  /** Holes of 200 bytes and of 516224 in order. An aligned request shrinks the second to 116 bytes where it stands. */
  lemma OrderLostByAlignment() returns (s: State)
    ensures Inv(s) && AllSealed(s.ram, s.blocks) && |s.blocks| == 3
    ensures s.blocks[0] == Block(START, 200, true) && s.blocks[2].addr == START + 0xF80 && Lead(START + 0xF80) == 116
    ensures BySize(s.ram, s.index) && AllocOk(s, Needed(100), true) && !AllocOrderOk(s, Needed(100), true)
  {
    hide Inv, AllSealed, HeaderAt, SizeKey;
    var bs := [Block(START, 200, true), Block(START + 200, 0xF80 - 200, false),
               Block(START + 0xF80, 0x7_F000 - 0xF80, true)];
    assert bs[0] in bs && bs[2] in bs;
    assert HoleAddrs(bs) == {START, START + 0xF80};
    s := KernelHeap(bs, [START, START + 0xF80]);
    HeaderOf(s, 0);
    HeaderOf(s, 2);
    assert !Fits(s.ram, s.index[0], Needed(100), true) && Fits(s.ram, s.index[1], Needed(100), true);
    assert IsFirstFit(s, Needed(100), true, 1) && CarvedEntry(s, Needed(100), true, 1);
    assert !InLine(s.ram, s.index, 1, 116, -1);
  }

  // ---- the backing of the heap

  /** Every page of the heap holds a frame and frame 0 is marked free, as a release leaves it. The request needs an
      expansion over pages without frames, and the first of them will get frame 0. */
  lemma BackingLost() returns (k: Kernel)
    ensures Sane(k) && Backed(k) && !Used(k.words, 0)
    ensures AllocOk(k.heap, Needed(0x8_0000), false) && !BackingOk(k, AllocOp(0x8_0000, false, 0))
  {
    hide Inv, AllSealed, HeaderAt, Bit;
    var bs := [Block(START, 0x7_F000, true)];
    assert bs[0] in bs;
    assert HoleAddrs(bs) == {START};
    var s := KernelHeap(bs, [START]);
    HeaderOf(s, 0);
    var words := seq(128, i => if i == 0 then 0xFFFF_FFFE else 0xFFFF_FFFF);
    var table := seq(TABLE_PAGES, (e: nat) => Page(true, true, false, if e < 0x100 then e else 0));
    var tables := seq(TABLES, t => if t == 0x300 then table else []);
    k := Kernel(s, words, tables);
    forall f: nat | f < 4096
      ensures Used(words, f) <==> f > 0
    {
      FullWord(f % WORD_BITS);
      BitUpdate(0xFFFF_FFFF, 0, f % WORD_BITS);
    }
    forall v: nat
      ensures FrameOf(tables, v) == if v / TABLE_PAGES == 0x300 && v % TABLE_PAGES < 0x100 then v % TABLE_PAGES else 0
    {
    }
    assert FrameOf(tables, 0xC_0100) == 0;
    assert NoFit(s, Needed(0x8_0000), false);
  }
}
