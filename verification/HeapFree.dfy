/** One whole release: merging to the left, to the right, contracting. */
module HeapFree {
  import opened Memory
  import opened SortedArrays
  import opened Blocks
  import opened HeapSpec
  import opened HeapOrder

  /** A caller can check this before the call: the footer of a hole to the left names that hole, and if the freed
      room reaches the end of the heap, it starts low enough for the contraction to leave a proper hole. */
  ghost predicate FreeOk(s: State, k: nat)
    requires k < |s.blocks|
  {
    LeftOk(s, k) && EndOk(s, k)
  }

  /** The freed room absorbs a hole to its right whose footer then still names the absorbed hole. */
  predicate LeavesStaleFooter(bs: seq<Block>, k: nat)
    requires k < |bs|
  {
    MergeHi(bs, k) == k + 2 && !ReachesEnd(bs, k)
  }

  /** The footer on the left passes the test for a hole to merge with. */
  ghost predicate LeftTest(s: State, k: nat)
    requires k < |s.blocks|
  {
    var a := s.blocks[k].addr;
    && FTR_SIZE <= a <= WORD_LIMIT
    && var f := FooterAt(s.ram, a - FTR_SIZE);
       f.magic == FTR_MAGIC && f.header + HDR_SIZE <= WORD_LIMIT && HeaderAt(s.ram, f.header).isHole == 1
  }

  /** The one way a release with a wrong footer on the left ends well: the contraction cuts off exactly the released
      block and what lies above it, and the footer names a header inside the left hole, so nothing is indexed. */
  ghost predicate CutClean(s: State, k: nat)
    requires k < |s.blocks|
  {
    !LeftOk(s, k) && ReachesEnd(s.blocks, k) && LeftTest(s, k) && s.blocks[k].addr == s.start + MIN_SIZE
  }

  /** What releasing block k does to a sound heap: the result is sound with that block gone exactly when FreeOk held,
      but for the clean cut; and with FreeOk no other block is touched. */
  ghost predicate FreeOutcome(s: State, s': State, k: nat)
    requires k < |s.blocks|
  {
    && (FreeOk(s, k) || CutClean(s, k) <==> Sound(s', Live(s.blocks) - {s.blocks[k]}))
    && (FreeOk(s, k) ==> FreeStep(s, s', k))
  }

  ghost predicate FreeStep(s: State, s': State, k: nat)
  {
    && k < |s.blocks| && !s.blocks[k].hole
    && s'.start == s.start && s'.max == s.max && s'.end == FreedEnd(s, k)
    && s'.blocks == Freed(s, k)
    && Inv(s')
    && Untouched(s.ram, s'.ram, Live(s.blocks) - {s.blocks[k]})
    && (AllSealed(s.ram, s.blocks) ==> (AllSealed(s'.ram, s'.blocks) <==> !LeavesStaleFooter(s.blocks, k)))
  }

  // ---- after the left merge (lines 367-379)

  /** Where the merged hole starts: at the header the footer on the left names if that is a hole, whether the footer is
      right or not. */
  ghost function FreedHeader(s: State, k: nat): nat
    requires k < |s.blocks|
  {
    if LeftTest(s, k) then FooterAt(s.ram, s.blocks[k].addr - FTR_SIZE).header else s.blocks[k].addr
  }

  /** The header the release goes on with, and whether it has to be put into the index at the end. */
  ghost predicate LeftChoice(s: State, k: nat, h: nat, doAdd: bool)
    requires k < |s.blocks|
  {
    var b := s.blocks[k];
    if LeftOk(s, k) then
      h == s.blocks[MergeLo(s.blocks, k)].addr && doAdd == (MergeLo(s.blocks, k) == k)
    else
      && k > 0 && doAdd == !LeftTest(s, k)
      && if doAdd then h == b.addr else s.blocks[k - 1].addr + TAGS_SIZE <= h <= b.addr - TAGS_SIZE
  }

  ghost predicate MergedLeft(s: State, k: nat, ram: Ram, h: nat, doAdd: bool)
    requires k < |s.blocks|
  {
    var b := s.blocks[k];
    && LeftChoice(s, k, h, doAdd)
    && s.start <= h <= b.addr && b.End() <= s.end && b.size >= TAGS_SIZE && s.end <= WORD_LIMIT
    && SameOutside(s.ram, ram, h, b.End())
    && HeaderAt(ram, h).size == b.End() - h
    && (LeftOk(s, k) ==>
          && HeaderAt(ram, h) == Header(HDR_MAGIC, 1, b.End() - h)
          && FooterAt(ram, b.End() - FTR_SIZE) == Footer(FTR_MAGIC, h))
  }

  // ---- after the right merge (lines 381-394)

  ghost predicate MergedRight(s: State, k: nat, ram: Ram, index: seq<nat>, h: nat, doAdd: bool)
    requires k < |s.blocks|
  {
    var b := s.blocks[k];
    var hi := MergeHi(s.blocks, k);
    var end := s.blocks[hi - 1].End();
    && LeftChoice(s, k, h, doAdd)
    && s.start <= h <= b.addr && b.End() <= end <= s.end <= WORD_LIMIT && b.size >= TAGS_SIZE
    && h + TAGS_SIZE <= end
    && SameOutside(s.ram, ram, h, b.End())
    && HeaderAt(ram, h).size == end - h
    && (LeftOk(s, k) ==>
          && HeaderAt(ram, h) == Header(HDR_MAGIC, 1, end - h)
          && (hi == k + 1 ==> FooterAt(ram, end - FTR_SIZE) == Footer(FTR_MAGIC, h)))
    && Distinct(index)
    && (forall a :: a in index <==> a in s.index && !(hi == k + 2 && a == b.End()))
    && (if hi == k + 2 then DroppedFrom(s.index, index, b.End()) else index == s.index)
  }

  /** One place of el went. */
  ghost predicate DroppedFrom(before: seq<nat>, after: seq<nat>, el: nat)
  {
    exists i: nat :: i < |before| && before[i] == el && after == Removed(before, i)
  }

  /** What is known of the neighbours of a live block. */
  lemma Neighbours(s: State, k: nat)
    requires Inv(s) && k < |s.blocks| && !s.blocks[k].hole
    ensures var bs, b := s.blocks, s.blocks[k];
            && TagOk(s.ram, b) && s.start <= b.addr && b.End() <= s.end
            && b.addr !in s.index && s.end !in s.index
            && (k + 1 == |bs| <==> b.End() == s.end)
            && (k + 1 < |bs| ==> bs[k + 1].addr == b.End() && bs[k + 1].End() <= s.end && TagOk(s.ram, bs[k + 1])
                                 && (bs[k + 1].hole <==> b.End() in s.index))
            && (k == 0 ==> b.addr == s.start)
            && (k > 0 ==> bs[k - 1].End() == b.addr && s.start <= bs[k - 1].addr && TagOk(s.ram, bs[k - 1])
                          && (bs[k - 1].hole ==> FooterInside(s.ram, bs[k - 1]) && bs[k - 1].addr in s.index))
  {
    hide HeaderAt, FooterAt, FooterInside, Word;
    var bs, b := s.blocks, s.blocks[k];
    TilesOrdered(bs, s.start, s.end);
    if b.addr in s.index {
      var h := HoleOf(s, b.addr);
    }
    if s.end in s.index {
      var h := HoleOf(s, s.end);
    }
    if k + 1 < |bs| {
      assert bs[k + 1] in bs;
      if b.End() in s.index {
        var h := HoleOf(s, b.End());
        BlocksDisjoint(bs, s.start, s.end, bs[h], bs[k + 1]);
      }
    }
    if k > 0 {
      assert bs[k - 1] in bs;
    }
  }

  /** What lies just above a live block. */
  lemma HeaderToTheRight(s: State, k: nat, ram: Ram, h: nat, doAdd: bool)
    requires Inv(s) && k < |s.blocks| && !s.blocks[k].hole && MergedLeft(s, k, ram, h, doAdd)
    ensures var b := s.blocks[k];
            && b.End() <= s.end <= WORD_LIMIT - PAGE
            && HeaderAt(ram, b.End()) == HeaderAt(s.ram, b.End())
            && (k + 1 == |s.blocks| <==> b.End() == s.end) && s.end !in s.index
            && (k + 1 < |s.blocks| ==>
                  && s.blocks[k + 1].addr == b.End() && s.blocks[k + 1].End() <= s.end
                  && s.blocks[k + 1].size >= TAGS_SIZE
                  && HeaderAt(s.ram, b.End())
                     == Header(HDR_MAGIC, if s.blocks[k + 1].hole then 1 else 0, s.blocks[k + 1].size)
                  && (s.blocks[k + 1].hole <==> b.End() in s.index))
            && Distinct(s.index)
  {
    hide HeaderAt, FooterAt, Word;
    Neighbours(s, k);
    HeaderUnchanged(s.ram, ram, s.blocks[k].End());
  }

  /** What the footer just below a live block can be. */
  lemma FooterToTheLeft(s: State, k: nat)
    requires Inv(s) && k < |s.blocks| && !s.blocks[k].hole
    ensures var b := s.blocks[k];
            && FTR_SIZE <= s.start <= b.addr && b.End() <= s.end <= WORD_LIMIT - PAGE && b.size >= TAGS_SIZE
            && HeaderAt(s.ram, b.addr) == Header(HDR_MAGIC, 0, b.size)
            && FooterAt(s.ram, b.End() - FTR_SIZE) == Footer(FTR_MAGIC, b.addr)
            && var f := FooterAt(s.ram, b.addr - FTR_SIZE);
               if k == 0 then f.magic != FTR_MAGIC else
                 var left := s.blocks[k - 1];
                 && s.start <= left.addr && left.End() == b.addr && left.size >= TAGS_SIZE
                 && HeaderAt(s.ram, left.addr) == Header(HDR_MAGIC, if left.hole then 1 else 0, left.size)
                 && (!left.hole || LeftOk(s, k) ==> f == Footer(FTR_MAGIC, left.addr))
                 && (left.hole && !LeftOk(s, k) && f.magic == FTR_MAGIC ==>
                       && left.addr + TAGS_SIZE <= f.header <= b.addr - TAGS_SIZE
                       && HeaderAt(s.ram, f.header).size == b.addr - f.header)
  {
    hide HeaderAt, FooterAt, Word;
    Neighbours(s, k);
    FooterMagic(s.ram, s.blocks[k].addr - FTR_SIZE);
  }

  lemma FooterMagic(ram: Ram, a: nat)
    requires a + FTR_SIZE <= WORD_LIMIT
    ensures FooterAt(ram, a).magic == Word(ram, a)
  {
  }

  // ---- after the contraction (lines 396-415)

  ghost predicate Settled(s: State, k: nat, ram: Ram, ram': Ram, end': nat, h: nat)
    requires k < |s.blocks|
  {
    if !ReachesEnd(s.blocks, k) then ram' == ram && end' == s.end else
      && s.start <= h && end' == s.start + ContractLength(h - s.start)
      && (forall a | 0 <= a < WORD_LIMIT && !(h <= a < h + HDR_SIZE) && !(end' - FTR_SIZE <= a < end') ::
            ram'[a] == ram[a])
      && (h + TAGS_SIZE <= s.start + MIN_SIZE <= WORD_LIMIT ==>
            && HeaderAt(ram', h) == HeaderAt(ram, h).(size := s.start + MIN_SIZE - h)
            && FooterAt(ram', s.start + MIN_SIZE - FTR_SIZE) == Footer(FTR_MAGIC, h)
            && SameOutside(ram, ram', h, if s.end < end' then end' else s.end))
  }

  /** Where a release that goes on with header h leaves the end of the heap, safe or not. */
  ghost function FreedTo(s: State, k: nat, h: nat): int
    requires k < |s.blocks|
  {
    var offset := h - s.start;
    if !ReachesEnd(s.blocks, k) then s.end
    else if offset < 0x7_0000 || offset % 0x2000 >= 0x1000 then s.start + 0x7_0000
    else s.start + offset
  }

  /** The footer on the left being right, the merged hole starts where it should. The end of the heap leaves room for
      its tags exactly when EndOk holds. */
  lemma FreedPlace(s: State, k: nat)
    requires Inv(s) && k < |s.blocks| && !s.blocks[k].hole && LeftOk(s, k)
    ensures FreedHeader(s, k) == Merged(s.blocks, k).addr
    ensures var h := FreedHeader(s, k);
            EndOk(s, k) <==> ReachesEnd(s.blocks, k) ==> h + TAGS_SIZE <= FreedTo(s, k, h)
  {
    hide HeaderAt, FooterAt, Word;
    Neighbours(s, k);
    FooterToTheLeft(s, k);
  }

  /** Where the contraction finds the freed room, and that the second search of the index cannot succeed. */
  lemma SettlePlace(s: State, k: nat, ram: Ram, index: seq<nat>, h: nat, doAdd: bool)
    requires Inv(s) && k < |s.blocks| && !s.blocks[k].hole && MergedRight(s, k, ram, index, h, doAdd)
    ensures Bounds(s) && s.start <= h && h + TAGS_SIZE <= s.end
    ensures ReachesEnd(s.blocks, k) <==> s.blocks[MergeHi(s.blocks, k) - 1].End() == s.end
    ensures ReachesEnd(s.blocks, k) ==> s.blocks[k].End() !in index && HeaderAt(ram, h).size == s.end - h
  {
    hide HeaderAt, FooterAt, Word;
    Neighbours(s, k);
    TilesOrdered(s.blocks, s.start, s.end);
  }

  ghost predicate Indexed(before: seq<nat>, after: seq<nat>, h: nat, doAdd: bool, ram: Ram)
  {
    after == if doAdd then Inserted(before, h, HeaderCmp(ram)) else before
  }

  // ---- what the steps amount to

  /** The block that takes the place of the released one and the holes beside it. */
  function FreedBlock(s: State, k: nat): Block
    requires k < |s.blocks|
  {
    var m := Merged(s.blocks, k);
    if ReachesEnd(s.blocks, k) && m.addr <= s.start + MIN_SIZE then m.(size := s.start + MIN_SIZE - m.addr) else m
  }

  lemma FreedIsSplice(s: State, k: nat)
    requires k < |s.blocks|
    ensures Freed(s, k) == Splice(s.blocks, MergeLo(s.blocks, k), MergeHi(s.blocks, k), [FreedBlock(s, k)])
  {
  }

  /** The replaced run: the released block with at most one hole on either side. */
  lemma RunShape(bs: seq<Block>, k: nat)
    requires k < |bs|
    ensures var lo, hi := MergeLo(bs, k), MergeHi(bs, k);
            bs[lo..hi] == (if lo < k then [bs[k - 1]] else []) + [bs[k]] + (if hi == k + 2 then [bs[k + 1]] else [])
  {
  }

  lemma RunLive(left: seq<Block>, b: Block, right: seq<Block>)
    requires !b.hole && |left| <= 1 && |right| <= 1
    requires (forall i | 0 <= i < |left| :: left[i].hole) && (forall i | 0 <= i < |right| :: right[i].hole)
    ensures Live(left + [b] + right) == {b}
    ensures forall a :: a in HoleAddrs(left + [b] + right) <==>
              (|left| == 1 && a == left[0].addr) || (|right| == 1 && a == right[0].addr)
  {
    var run := left + [b] + right;
    assert run[|left|] == b;
    if |left| == 1 {
      assert run[0] == left[0];
    }
    if |right| == 1 {
      assert run[|left| + 1] == right[0];
    }
  }

  /** The blocks that are replaced are the released one and holes. */
  lemma FreedRun(s: State, k: nat)
    requires Inv(s) && k < |s.blocks| && !s.blocks[k].hole
    ensures var bs, lo, hi := s.blocks, MergeLo(s.blocks, k), MergeHi(s.blocks, k);
            && Live(bs[lo..hi]) == {bs[k]}
            && (forall a :: a in HoleAddrs(bs[lo..hi]) <==>
                  (lo < k && a == bs[lo].addr) || (hi == k + 2 && a == bs[k].End()))
            && Live(Freed(s, k)) == Live(bs) - {bs[k]}
            && (lo > 0 ==> !bs[lo - 1].hole) && (hi < |bs| ==> !bs[hi].hole)
            && Merged(bs, k).hole && Merged(bs, k).addr == bs[lo].addr && Merged(bs, k).End() == bs[hi - 1].End()
            && Merged(bs, k).size >= TAGS_SIZE
  {
    hide TagsOk, HoleFootersInside, IndexOk, Live, HoleAddrs;
    var bs, lo, hi := s.blocks, MergeLo(s.blocks, k), MergeHi(s.blocks, k);
    RunShape(bs, k);
    RunLive(if lo < k then [bs[k - 1]] else [], bs[k], if hi == k + 2 then [bs[k + 1]] else []);
    FreedIsSplice(s, k);
    SpliceLive(bs, s.start, s.end, lo, hi, [FreedBlock(s, k)]);
    NoLive(FreedBlock(s, k));
  }

  lemma NoLive(b: Block)
    requires b.hole
    ensures Live([b]) == {}
  {
  }

  lemma FreedIndex(s: State, k: nat, mid: seq<nat>, after: seq<nat>, h: nat, doAdd: bool, ram: Ram)
    requires Inv(s) && k < |s.blocks| && !s.blocks[k].hole && LeftOk(s, k) && LeftChoice(s, k, h, doAdd)
    requires Distinct(mid)
    requires forall a :: a in mid <==>
               a in s.index && !(MergeHi(s.blocks, k) == k + 2 && a == s.blocks[k].End())
    requires Indexed(mid, after, h, doAdd, ram)
    ensures Distinct(after)
    ensures forall a :: a in after <==>
              (a in s.index && a !in HoleAddrs(s.blocks[MergeLo(s.blocks, k)..MergeHi(s.blocks, k)])) || a == h
  {
    hide TagsOk, HoleFootersInside, Tiles;
    Neighbours(s, k);
    FreedRun(s, k);
    if doAdd {
      InsertedSomewhere(mid, h, HeaderCmp(ram));
      InsertedMembers(mid, after, h);
    }
  }

  /** The footer at the end of the freed room, when it lies inside the heap. */
  lemma FreedFooter(s: State, k: nat, ram: Ram, index: seq<nat>, h: nat, doAdd: bool)
    requires Inv(s) && k < |s.blocks| && !s.blocks[k].hole && LeftOk(s, k) && !ReachesEnd(s.blocks, k)
    requires MergedRight(s, k, ram, index, h, doAdd)
    ensures TagOk(ram, Merged(s.blocks, k)) && FooterInside(ram, Merged(s.blocks, k))
    ensures MergeHi(s.blocks, k) == k + 1 ==> Sealed(ram, Merged(s.blocks, k))
    ensures MergeHi(s.blocks, k) == k + 2 && Sealed(s.ram, s.blocks[k + 1]) ==> !Sealed(ram, Merged(s.blocks, k))
  {
    hide HeaderAt, FooterAt, TagsOk, Word, IndexOk, NoAdjacentHoles, Tiles;
    Neighbours(s, k);
    FreedRun(s, k);
    if MergeHi(s.blocks, k) == k + 2 {
      var r := s.blocks[k + 1];
      assert FooterInside(s.ram, r) by {
        assert s.blocks[k + 1].hole && k + 1 < |s.blocks| - 1;
      }
      TagKept(s.ram, ram, h, s.blocks[k].End(), r);
      FooterUnchanged(s.ram, ram, r.End() - FTR_SIZE);
    }
  }

  lemma FreedMemory(s: State, s': State, k: nat, ram: Ram, mid: seq<nat>, h: nat, doAdd: bool)
    requires Inv(s) && Bounds(s') && k < |s.blocks| && !s.blocks[k].hole && FreeOk(s, k)
    requires MergedRight(s, k, ram, mid, h, doAdd)
    requires Settled(s, k, ram, s'.ram, s'.end, h) && s'.start == s.start
    ensures var m := FreedBlock(s, k);
            && m.hole && m.addr == h == Merged(s.blocks, k).addr && m.size >= TAGS_SIZE && m.End() <= s'.end
            && TagOk(s'.ram, m)
            && SameOutside(s.ram, s'.ram, h, if ReachesEnd(s.blocks, k) then WORD_LIMIT else m.End())
            && (ReachesEnd(s.blocks, k) ==> m.End() == s'.end)
            && (!ReachesEnd(s.blocks, k) ==> m == Merged(s.blocks, k) && FooterInside(s'.ram, m) && s'.end == s.end)
            && (!ReachesEnd(s.blocks, k) && MergeHi(s.blocks, k) == k + 1 ==> Sealed(s'.ram, m))
            && (LeavesStaleFooter(s.blocks, k) && Sealed(s.ram, s.blocks[k + 1]) ==> !Sealed(s'.ram, m))
  {
    hide HeaderAt, FooterAt, TagsOk, HoleFootersInside, IndexOk, Word, NoAdjacentHoles, FooterInside;
    Neighbours(s, k);
    FreedRun(s, k);
    if !ReachesEnd(s.blocks, k) {
      FreedFooter(s, k, ram, mid, h, doAdd);
    }
  }

  lemma FreeKeepsInv(s: State, s': State, k: nat, ram: Ram, mid: seq<nat>, h: nat, doAdd: bool)
    requires Inv(s) && k < |s.blocks| && !s.blocks[k].hole && FreeOk(s, k)
    requires MergedRight(s, k, ram, mid, h, doAdd)
    requires Settled(s, k, ram, s'.ram, s'.end, h) && Indexed(mid, s'.index, h, doAdd, s'.ram)
    requires s'.start == s.start && s'.max == s.max && s'.blocks == Freed(s, k)
    ensures Inv(s') && s'.end == FreedEnd(s, k)
    ensures SameOutside(s.ram, s'.ram, Merged(s.blocks, k).addr,
                        if ReachesEnd(s.blocks, k) then WORD_LIMIT else Merged(s.blocks, k).End())
    ensures AllSealed(s.ram, s.blocks) ==> (AllSealed(s'.ram, s'.blocks) <==> !LeavesStaleFooter(s.blocks, k))
  {
    hide HeaderAt, FooterAt, TagsOk, HoleFootersInside, IndexOk, AllSealed, Word, NoAdjacentHoles, FooterInside, Sealed;
    hide SameOutside, TagOk, Indexed;
    var bs, lo, hi := s.blocks, MergeLo(s.blocks, k), MergeHi(s.blocks, k);
    var m := FreedBlock(s, k);
    ContractsToMinimum(s, k, h);
    FreedMemory(s, s', k, ram, mid, h, doAdd);
    var to := if ReachesEnd(bs, k) then WORD_LIMIT else m.End();
    FreedIsSplice(s, k);
    FreedRun(s, k);
    FreedIndex(s, k, mid, s'.index, h, doAdd, s'.ram);
    OneBlock(s'.ram, m);
    FreedReplace(s, s', k, m, to);
    FreedSealed(s, s', k, to);
  }

  lemma ContractsToMinimum(s: State, k: nat, h: nat)
    requires k < |s.blocks| && EndOk(s, k) && ReachesEnd(s.blocks, k)
             ==> h == Merged(s.blocks, k).addr && s.start <= h
    requires k < |s.blocks| && EndOk(s, k)
    ensures ReachesEnd(s.blocks, k) ==> ContractLength(h - s.start) == MIN_SIZE
  {
  }

  lemma FreedReplace(s: State, s': State, k: nat, m: Block, to: nat)
    requires Inv(s) && Bounds(s') && s'.start == s.start && k < |s.blocks| && !s.blocks[k].hole
    requires var lo, hi := MergeLo(s.blocks, k), MergeHi(s.blocks, k);
             && s'.blocks == Splice(s.blocks, lo, hi, [m])
             && m.hole && m.size >= TAGS_SIZE && m.addr == s.blocks[lo].addr
             && (if hi == |s.blocks| then s'.end == m.End()
                 else s'.end == s.end && m.End() == s.blocks[hi].addr && to <= m.End() && FooterInside(s'.ram, m))
             && TagOk(s'.ram, m)
             && SameOutside(s.ram, s'.ram, m.addr, to)
             && Distinct(s'.index)
             && (forall a :: a in s'.index <==> (a in s.index && a !in HoleAddrs(s.blocks[lo..hi])) || a == m.addr)
    ensures Inv(s')
  {
    hide HeaderAt, FooterAt, TagsOk, HoleFootersInside, IndexOk, Word, NoAdjacentHoles, FooterInside, Tiles, TagOk;
    FreedRun(s, k);
    OneBlock(s'.ram, m);
    ReplaceKeepsInv(s, s', MergeLo(s.blocks, k), MergeHi(s.blocks, k), [m], m.End(), to);
  }

  lemma OneBlock(ram: Ram, m: Block)
    requires m.hole
    ensures Tiles([m], m.addr, m.End()) <==> m.size >= TAGS_SIZE
    ensures NoAdjacentHoles([m]) && HoleFootersInside(ram, [m]) && AllSealed(ram, [m])
    ensures TagsOk(ram, [m]) <==> TagOk(ram, m)
    ensures HoleAddrs([m]) == {m.addr}
  {
    assert m in [m];
    assert TagsOk(ram, [m]) ==> TagOk(ram, [m][0]);
  }

  lemma FreedSealed(s: State, s': State, k: nat, to: nat)
    requires Inv(s) && Inv(s') && k < |s.blocks| && !s.blocks[k].hole
    requires s'.blocks == Splice(s.blocks, MergeLo(s.blocks, k), MergeHi(s.blocks, k), [FreedBlock(s, k)])
    requires SameOutside(s.ram, s'.ram, FreedBlock(s, k).addr, to)
    requires !ReachesEnd(s.blocks, k) ==> to == FreedBlock(s, k).End()
    requires !ReachesEnd(s.blocks, k) && MergeHi(s.blocks, k) == k + 1 ==> Sealed(s'.ram, FreedBlock(s, k))
    requires LeavesStaleFooter(s.blocks, k) && Sealed(s.ram, s.blocks[k + 1]) ==> !Sealed(s'.ram, FreedBlock(s, k))
    ensures AllSealed(s.ram, s.blocks) ==> (AllSealed(s'.ram, s'.blocks) <==> !LeavesStaleFooter(s.blocks, k))
  {
    hide HeaderAt, FooterAt, HoleFootersInside, IndexOk, Word, NoAdjacentHoles, Sealed, FooterInside;
    var bs, lo, hi := s.blocks, MergeLo(s.blocks, k), MergeHi(s.blocks, k);
    var m := FreedBlock(s, k);
    FreedRun(s, k);
    TilesOrdered(bs, s.start, s.end);
    OneBlock(s'.ram, m);
    if AllSealed(s.ram, bs) {
      assert s'.blocks[lo] == m;
      if LeavesStaleFooter(bs, k) {
        assert Sealed(s.ram, bs[k + 1]);
      } else {
        assert TagOk(s'.ram, s'.blocks[lo]);
        SpliceSealed(s.ram, s'.ram, bs, s.start, s.end, lo, hi, [m], to);
      }
    }
  }

  lemma FreedUntouched(s: State, after: Ram, k: nat)
    requires Inv(s) && k < |s.blocks| && !s.blocks[k].hole
    requires SameOutside(s.ram, after, Merged(s.blocks, k).addr,
                         if ReachesEnd(s.blocks, k) then WORD_LIMIT else Merged(s.blocks, k).End())
    ensures Untouched(s.ram, after, Live(s.blocks) - {s.blocks[k]})
  {
    hide TagsOk, HoleFootersInside, IndexOk, NoAdjacentHoles;
    var bs, lo, hi := s.blocks, MergeLo(s.blocks, k), MergeHi(s.blocks, k);
    FreedRun(s, k);
    forall b, a | b in Live(bs) - {bs[k]} && 0 <= a < WORD_LIMIT && Covers(b, a)
      ensures after[a] == s.ram[a]
    {
      var i :| 0 <= i < |bs| && bs[i] == b;
      if i < lo {
        TilesInOrder(bs, s.start, s.end, i, lo);
      } else if hi <= i {
        TilesInOrder(bs, s.start, s.end, hi - 1, i);
      }
    }
  }

  /** With a wrong footer on the left and the end of the heap reached, only the clean cut is sound. */
  lemma CornerBreaks(s: State, s': State, k: nat, ram: Ram, mid: seq<nat>, h: nat, doAdd: bool)
    requires Inv(s) && k < |s.blocks| && !s.blocks[k].hole
    requires !LeftOk(s, k) && ReachesEnd(s.blocks, k) && !CutClean(s, k)
    requires MergedRight(s, k, ram, mid, h, doAdd)
    requires Settled(s, k, ram, s'.ram, s'.end, h) && Indexed(mid, s'.index, h, doAdd, s'.ram)
    requires s'.start == s.start
    ensures !Sound(s', Live(s.blocks) - {s.blocks[k]})
  {
    hide HeaderAt, FooterAt, TagsOk, HoleFootersInside, IndexOk, LeftTest, Sealed;
    var left, b := s.blocks[k - 1], s.blocks[k];
    Neighbours(s, k);
    if doAdd {
      InsertedSomewhere(mid, h, HeaderCmp(s'.ram));
      InsertedMembers(mid, s'.index, h);
    }
    assert left.addr in s'.index && (doAdd ==> b.addr in s'.index);
    forall bs: seq<Block> | Inv(s'.(blocks := bs))
      ensures Live(bs) != Live(s.blocks) - {b}
    {
      var t := s'.(blocks := bs);
      var j := HoleOf(t, left.addr);
      HeaderUnchanged(s.ram, s'.ram, left.addr);
      assert bs[j] == left;
      if doAdd {
        var i := HoleOf(t, b.addr);
      }
      assert b.addr < s'.end;
      LeftClash(s.blocks, bs, s.start, s.end, s'.end, k, j);
    }
  }

  /** After the clean cut the hole on the left ends the heap. */
  lemma CutCleanSound(s: State, s': State, k: nat, ram: Ram, mid: seq<nat>, h: nat, doAdd: bool)
    requires Inv(s) && k < |s.blocks| && !s.blocks[k].hole && CutClean(s, k)
    requires MergedRight(s, k, ram, mid, h, doAdd)
    requires Settled(s, k, ram, s'.ram, s'.end, h) && Indexed(mid, s'.index, h, doAdd, s'.ram)
    requires s'.start == s.start && s'.max == s.max
    ensures Sound(s', Live(s.blocks) - {s.blocks[k]})
  {
    hide HeaderAt, FooterAt, TagsOk, HoleFootersInside, IndexOk, LeftTest, Sealed, FooterInside, Tiles, NoAdjacentHoles;
    var left, hi := s.blocks[k - 1], MergeHi(s.blocks, k);
    Neighbours(s, k);
    FreedRun(s, k);
    HeaderUnchanged(s.ram, s'.ram, left.addr);
    var bs := Splice(s.blocks, k - 1, hi, [left]);
    assert SameOutside(s.ram, s'.ram, left.addr, WORD_LIMIT);
    FreedReplace(s, s'.(blocks := bs), k, left, WORD_LIMIT);
    SpliceLive(s.blocks, s.start, s.end, k - 1, hi, [left]);
    NoLive(left);
    assert Live(bs) == Live(s.blocks) - {s.blocks[k]};
  }

  lemma FreeResult(s: State, s': State, k: nat, ram: Ram, mid: seq<nat>, h: nat, doAdd: bool) returns (bs: seq<Block>)
    requires Inv(s) && k < |s.blocks| && !s.blocks[k].hole
    requires MergedRight(s, k, ram, mid, h, doAdd)
    requires Settled(s, k, ram, s'.ram, s'.end, h) && Indexed(mid, s'.index, h, doAdd, s'.ram)
    requires s'.start == s.start && s'.max == s.max
    ensures FreeOutcome(s, s'.(blocks := bs), k) && bs == Freed(s, k)
  {
    hide HeaderAt, FooterAt, TagsOk, HoleFootersInside, IndexOk, NoAdjacentHoles, Tiles, AllSealed;
    bs := Freed(s, k);
    Neighbours(s, k);
    FreedRun(s, k);
    if doAdd {
      InsertedSomewhere(mid, h, HeaderCmp(s'.ram));
      InsertedMembers(mid, s'.index, h);
    }
    if FreeOk(s, k) {
      FreeKeepsInv(s, s'.(blocks := bs), k, ram, mid, h, doAdd);
      FreedUntouched(s, s'.ram, k);
      assert s'.(blocks := bs).(blocks := bs) == s'.(blocks := bs);
    } else if LeftOk(s, k) {
      EndBreaks(s, s', k, Live(s.blocks) - {s.blocks[k]});
    } else if !ReachesEnd(s.blocks, k) {
      HeaderUnchanged(s.ram, s'.ram, s.blocks[k - 1].addr);
      LeftBreaks(s, s', k);
    } else if CutClean(s, k) {
      CutCleanSound(s, s', k, ram, mid, h, doAdd);
    } else {
      CornerBreaks(s, s', k, ram, mid, h, doAdd);
    }
    SoundAnyBlocks(s', bs, Live(s.blocks) - {s.blocks[k]});
  }

  lemma SoundAnyBlocks(s: State, bs: seq<Block>, live: set<Block>)
    ensures Sound(s.(blocks := bs), live) <==> Sound(s, live)
  {
    forall cs: seq<Block>
      ensures s.(blocks := bs).(blocks := cs) == s.(blocks := cs)
    {
    }
  }

  // ---- the order of the index

  /** A hole that is not merged with reads the same afterwards. */
  lemma HoleElsewhere(s: State, after: Ram, k: nat, a: nat)
    requires Inv(s) && k < |s.blocks| && !s.blocks[k].hole
    requires a in s.index && !(MergeHi(s.blocks, k) == k + 2 && a == s.blocks[k].End())
    requires MergeLo(s.blocks, k) < k ==> a != s.blocks[k - 1].addr
    requires SameOutside(s.ram, after, Merged(s.blocks, k).addr,
                         if ReachesEnd(s.blocks, k) then WORD_LIMIT else Merged(s.blocks, k).End())
    ensures a + HDR_SIZE <= WORD_LIMIT && SizeKey(after)(a) == SizeKey(s.ram)(a)
    ensures HeaderAt(after, a).size < SIGN_LIMIT
  {
    hide HeaderAt, TagsOk, HoleFootersInside, IndexOk, NoAdjacentHoles;
    var bs, hi := s.blocks, MergeHi(s.blocks, k);
    FreedRun(s, k);
    var i := HoleOf(s, a);
    if i < MergeLo(bs, k) {
      TilesInOrder(bs, s.start, s.end, i, MergeLo(bs, k));
    } else if hi <= i {
      TilesInOrder(bs, s.start, s.end, hi - 1, i);
    }
    HeaderUnchanged(s.ram, after, a);
  }

  /** A caller can check this before the call: if the block merges with a hole on its left, the length that hole will
      have stands in line where it stands in the index. A hole absorbed on the right does not count. */
  ghost predicate FreeOrderOk(s: State, k: nat)
    requires k < |s.blocks|
  {
    MergeLo(s.blocks, k) < k ==>
      forall i: nat | i < |s.index| && s.index[i] == s.blocks[k - 1].addr ::
        InLine(s.ram, s.index, i, FreedBlock(s, k).size,
               if MergeHi(s.blocks, k) == k + 2 then s.blocks[k].End() else -1)
  }

  /** The sizes of the entries after a release. */
  lemma FreedSizes(s: State, s': State, k: nat, ram: Ram, mid: seq<nat>, h: nat, doAdd: bool)
    requires Inv(s) && k < |s.blocks| && !s.blocks[k].hole && FreeOk(s, k)
    requires MergedRight(s, k, ram, mid, h, doAdd)
    requires Settled(s, k, ram, s'.ram, s'.end, h) && Indexed(mid, s'.index, h, doAdd, s'.ram)
    requires s'.start == s.start && s'.max == s.max && s'.blocks == Freed(s, k)
    ensures h + HDR_SIZE <= WORD_LIMIT && HeaderAt(s'.ram, h).size == FreedBlock(s, k).size < SIGN_LIMIT
    ensures forall j | 0 <= j < |mid| && (doAdd || mid[j] != h) ::
              && mid[j] + HDR_SIZE <= WORD_LIMIT && HeaderAt(s'.ram, mid[j]).size < SIGN_LIMIT
              && SizeKey(s'.ram)(mid[j]) == SizeKey(s.ram)(mid[j])
  {
    hide HeaderAt, FooterAt, TagsOk, HoleFootersInside, NoAdjacentHoles, Inserted, Tiles, FooterInside, Sealed;
    FreeKeepsInv(s, s', k, ram, mid, h, doAdd);
    FreedMemory(s, s', k, ram, mid, h, doAdd);
    forall j | 0 <= j < |mid| && (doAdd || mid[j] != h)
      ensures mid[j] + HDR_SIZE <= WORD_LIMIT && HeaderAt(s'.ram, mid[j]).size < SIGN_LIMIT
      ensures SizeKey(s'.ram)(mid[j]) == SizeKey(s.ram)(mid[j])
    {
      assert mid[j] in mid;
      HoleElsewhere(s, s'.ram, k, mid[j]);
    }
  }

  /** A release that does not merge to the left keeps the order of the index. */
  lemma FreeKeepsOrder(s: State, s': State, k: nat, ram: Ram, mid: seq<nat>, h: nat, doAdd: bool)
    requires Inv(s) && k < |s.blocks| && !s.blocks[k].hole && FreeOk(s, k)
    requires MergeLo(s.blocks, k) == k && BySize(s.ram, s.index)
    requires MergedRight(s, k, ram, mid, h, doAdd)
    requires Settled(s, k, ram, s'.ram, s'.end, h) && Indexed(mid, s'.index, h, doAdd, s'.ram)
    requires s'.start == s.start && s'.max == s.max && s'.blocks == Freed(s, k)
    ensures BySize(s'.ram, s'.index)
  {
    hide HeaderAt, FooterAt, Inv, Inserted, BySize, Settled, FreeOk;
    FreedSizes(s, s', k, ram, mid, h, doAdd);
    if MergeHi(s.blocks, k) == k + 2 {
      var r: nat :| r < |s.index| && mid == Removed(s.index, r);
      RemovedBySize(s.ram, s.index, r);
    }
    SameSizes(s.ram, s'.ram, mid);
    InsertBySize(s'.ram, mid, h);
  }

  /** A release on an ordered index leaves it ordered exactly when the check held before the call. */
  lemma FreeOrder(s: State, s': State, k: nat, ram: Ram, mid: seq<nat>, h: nat, doAdd: bool)
    requires Inv(s) && k < |s.blocks| && !s.blocks[k].hole && FreeOk(s, k) && BySize(s.ram, s.index)
    requires MergedRight(s, k, ram, mid, h, doAdd)
    requires Settled(s, k, ram, s'.ram, s'.end, h) && Indexed(mid, s'.index, h, doAdd, s'.ram)
    requires s'.start == s.start && s'.max == s.max && s'.blocks == Freed(s, k)
    ensures BySize(s'.ram, s'.index) <==> FreeOrderOk(s, k)
  {
    hide HeaderAt, FooterAt, Inv, Inserted, BySize, Settled, FreedBlock, InLine, EndOk, Sealed, DroppedFrom;
    if MergeLo(s.blocks, k) == k {
      FreeKeepsOrder(s, s', k, ram, mid, h, doAdd);
    } else {
      FreedSizes(s, s', k, ram, mid, h, doAdd);
      LeftEntry(s, k);
      var i: nat :| i < |s.index| && s.index[i] == h;
      var gone := if MergeHi(s.blocks, k) == k + 2 then s.blocks[k].End() else -1;
      ResizedAndDropped(s.ram, s'.ram, s.index, mid, i, FreedBlock(s, k).size, gone);
      LeftEntryOrder(s, k, i, gone);
    }
  }

  lemma LeftEntryOrder(s: State, k: nat, i: nat, gone: int)
    requires k < |s.blocks| && MergeLo(s.blocks, k) < k && Distinct(s.index)
    requires i < |s.index| && s.index[i] == s.blocks[k - 1].addr
    requires gone == if MergeHi(s.blocks, k) == k + 2 then s.blocks[k].End() else -1
    ensures FreeOrderOk(s, k) <==> InLine(s.ram, s.index, i, FreedBlock(s, k).size, gone)
  {
    hide FreedBlock, InLine;
  }

  /** One entry takes a new size and another may go. */
  lemma ResizedAndDropped(before: Ram, after: Ram, index: seq<nat>, mid: seq<nat>, i: nat, size: int, gone: int)
    requires BySize(before, index) && Distinct(index) && i < |index| && index[i] != gone
    requires if gone < 0 then gone == -1 && mid == index else DroppedFrom(index, mid, gone)
    requires SizeKey(after)(index[i]) == size
    requires forall j | 0 <= j < |mid| && mid[j] != index[i] :: SizeKey(after)(mid[j]) == SizeKey(before)(mid[j])
    ensures BySize(after, mid) <==> InLine(before, index, i, size, gone)
  {
    hide BySize, InLine, SizeKey;
    if gone < 0 {
      ResizeInPlace(before, after, mid, i);
    } else {
      var r: nat :| r < |index| && index[r] == gone && mid == Removed(index, r);
      RemovedBySize(before, index, r);
      RemovedMembers(index, r);
      assert mid[if i < r then i else i - 1] == index[i];
      ResizeInPlace(before, after, mid, if i < r then i else i - 1);
      InLineRemoved(before, index, i, r, size);
    }
  }

  lemma LeftEntry(s: State, k: nat)
    requires Inv(s) && k < |s.blocks| && !s.blocks[k].hole && MergeLo(s.blocks, k) < k
    ensures Distinct(s.index) && s.blocks[k - 1].addr in s.index && s.blocks[k - 1].addr < s.blocks[k].End()
  {
    hide HeaderAt, FooterAt, TagsOk, HoleFootersInside;
    Neighbours(s, k);
  }

  lemma InLineRemoved(ram: Ram, index: seq<nat>, i: nat, r: nat, size: int)
    requires i < |index| && r < |index| && i != r && Distinct(index)
    ensures InLine(ram, Removed(index, r), if i < r then i else i - 1, size, -1)
            <==> InLine(ram, index, i, size, index[r])
  {
    var mid, i' := Removed(index, r), if i < r then i else i - 1;
    if InLine(ram, mid, i', size, -1) {
      forall j | 0 <= j < |index| && j != i && index[j] != index[r]
        ensures (j < i ==> SizeKey(ram)(index[j]) <= size) && (i < j ==> size <= SizeKey(ram)(index[j]))
      {
        assert mid[if j < r then j else j - 1] == index[j];
      }
    }
    if InLine(ram, index, i, size, index[r]) {
      forall j | 0 <= j < |mid| && j != i'
        ensures (j < i' ==> SizeKey(ram)(mid[j]) <= size) && (i' < j ==> size <= SizeKey(ram)(mid[j]))
      {
        assert mid[j] == index[if j < r then j else j + 1];
      }
    }
  }
}
