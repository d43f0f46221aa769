/** One whole allocation: searching, growing at most twice, carving. */
module HeapAlloc {
  import opened Memory
  import opened SortedArrays
  import opened Blocks
  import opened HeapSpec
  import opened HeapOrder

  ghost predicate NoFit(s: State, n: nat, align: bool)
    requires n < WORD_LIMIT
  {
    forall i | 0 <= i < |s.index| :: !Fits(s.ram, s.index[i], n, align)
  }

  ghost predicate IsFirstFit(s: State, n: nat, align: bool, i: nat)
    requires n < WORD_LIMIT
  {
    && i < |s.index| && Fits(s.ram, s.index[i], n, align)
    && forall j | 0 <= j < i :: !Fits(s.ram, s.index[j], n, align)
  }

  /** A first fit is of least size among all holes that fit, if the index is ordered by size. */
  lemma FirstFitIsBest(s: State, n: nat, align: bool, i: nat)
    requires n < WORD_LIMIT && IsFirstFit(s, n, align, i)
    requires Ordered(s.index, SizeKey(s.ram))
    ensures forall a | a in s.index && Fits(s.ram, a, n, align) :: SizeKey(s.ram)(s.index[i]) <= SizeKey(s.ram)(a)
  {
    forall a | a in s.index && Fits(s.ram, a, n, align)
      ensures SizeKey(s.ram)(s.index[i]) <= SizeKey(s.ram)(a)
    {
      var j :| 0 <= j < |s.index| && s.index[j] == a;
      assert i <= j;
    }
  }

  // ---- the number of expansions

  /** The highest hole is at least as long as one expansion. */
  ghost predicate TopIsLong(s: State, n: nat)
  {
    exists i: nat :: IsTop(s.index, i) && s.index[i] + HDR_SIZE <= WORD_LIMIT
                     && HeaderAt(s.ram, s.index[i]).size >= Growth(n)
  }

  /** After one expansion the highest hole holds more than the request with its tags; after another it also covers
      any alignment. */
  lemma GrowingHelps(s: State, s': State, i: int, n: nat, align: bool)
    requires Runnable(s) && GrowWork(s, s', i, Growth(n)) && n < SIGN_LIMIT
    ensures TopIsLong(s', n)
    ensures !align || TopIsLong(s, n) ==> !NoFit(s', n, align)
  {
    hide HeaderAt, FooterAt;
    GrowthEnough(n);
    var j: nat := if i == -1 then 0 else i;
    var a := s'.index[j];
    assert IsTop(s'.index, j);
    if TopIsLong(s, n) {
      var t: nat :| IsTop(s.index, t) && s.index[t] + HDR_SIZE <= WORD_LIMIT
                    && HeaderAt(s.ram, s.index[t]).size >= Growth(n);
      assert s.index[t] == s.index[j];
      assert AlignOffset(a) <= PAGE;
      assert Fits(s'.ram, a, n, align);
    } else if !align {
      assert Fits(s'.ram, a, n, align);
    }
  }

  lemma GrowRunnable(s: State, s': State, i: int, g: nat)
    requires Runnable(s) && GrowWork(s, s', i, g) && g >= PAGE
    ensures Runnable(s')
  {
    hide HeaderAt, FooterAt;
    if i >= 0 {
      var a := s.index[i];
      forall j | 0 <= j < |s.index|
        ensures HeaderAt(s'.ram, s.index[j]) == HeaderAt(s.ram, s.index[j]) || s.index[j] == a
      {
        assert s.index[j] <= a;
      }
    }
  }

  // ---- when an allocation is right, told from the state before it

  function TailAddr(s: State): nat
    requires |s.blocks| > 0
  {
    var last := s.blocks[|s.blocks| - 1];
    if last.hole then last.addr else s.end
  }

  function TailSize(s: State): nat
    requires |s.blocks| > 0
  {
    var last := s.blocks[|s.blocks| - 1];
    if last.hole then last.size else 0
  }

  /** What the fit test means as long as no cast interferes. */
  predicate LongEnough(a: nat, holeSize: nat, n: nat, align: bool)
  {
    holeSize >= n + if align then AlignOffset(a) else 0
  }

  /** The length of the hole at the end of the heap once the request fits there. */
  function GrownTail(s: State, n: nat, align: bool): nat
    requires |s.blocks| > 0
  {
    var once := TailSize(s) + Growth(n);
    if LongEnough(TailAddr(s), once, n, align) then once else once + Growth(n)
  }

  /** A caller can check this before the call: the hole that will be carved can be carved properly, and if the heap
      has to grow, its end is a hole or there is no hole at all. */
  ghost predicate AllocOk(s: State, n: nat, align: bool)
    requires n < WORD_LIMIT
  {
    if NoFit(s, n, align) then
      |s.blocks| > 0 && GrowOk(s.blocks) && CarveOk(TailAddr(s), GrownTail(s, n, align), n, align)
    else
      forall i: nat | IsFirstFit(s, n, align, i) ::
        CarveOk(s.index[i], HeaderAt(s.ram, s.index[i]).size, n, align)
  }

  lemma LongEnoughFits(a: nat, holeSize: nat, n: nat, align: bool)
    requires PAGE <= a && holeSize < SIGN_LIMIT && n < SIGN_LIMIT
    ensures LongEnough(a, holeSize, n, align) <==> FitsSize(a, holeSize, n, align)
  {
  }

  /** A hole of the grown heap is the tail, or was there before. */
  lemma GrownHole(s: State, s': State, g: nat, i: nat)
    requires Inv(s) && Inv(s') && s'.blocks == Grown(s.blocks, g) && g > 0 && i < |s'.index|
    ensures s'.index[i] + HDR_SIZE <= WORD_LIMIT
    ensures (s'.index[i] == TailAddr(s) && HeaderAt(s'.ram, s'.index[i]).size == TailSize(s) + g)
            || (s'.index[i] in s.index && HeaderAt(s'.ram, s'.index[i]) == HeaderAt(s.ram, s'.index[i]))
  {
    hide HeaderAt, FooterAt, HoleFootersInside, NoAdjacentHoles;
    var k := HoleOf(s', s'.index[i]);
    var m := |s.blocks| - 1;
    if k < m {
      assert s'.blocks[k] == s.blocks[k];
      assert s.blocks[k] in s.blocks;
      var k' := HoleOf(s, s.blocks[k].addr);
      assert TagOk(s.ram, s.blocks[k]);
    }
  }

  lemma GrownTailHole(s: State, s': State, g: nat)
    requires Inv(s) && Inv(s') && s'.blocks == Grown(s.blocks, g) && g > 0
    ensures TailAddr(s') == TailAddr(s) && TailSize(s') == TailSize(s) + g && GrowOk(s'.blocks)
    ensures TailAddr(s) in s'.index && HeaderAt(s'.ram, TailAddr(s)).size == TailSize(s) + g
    ensures PAGE <= TailAddr(s) && TailSize(s) + g < SIGN_LIMIT
  {
    hide HeaderAt, FooterAt, HoleFootersInside, NoAdjacentHoles;
    var last := s'.blocks[|s'.blocks| - 1];
    TilesOrdered(s.blocks, s.start, s.end);
    TilesOrdered(s'.blocks, s'.start, s'.end);
    assert last in s'.blocks && last.addr in s'.index;
    assert TagOk(s'.ram, last);
  }

  /** Growing neither breaks nor mends the promise. */
  lemma AllocOkGrown(s: State, s': State, n: nat, align: bool)
    requires Inv(s) && n < SIGN_LIMIT && NoFit(s, n, align) && GrowOk(s.blocks)
    requires Inv(s') && s'.blocks == Grown(s.blocks, Growth(n))
    ensures AllocOk(s', n, align) <==> AllocOk(s, n, align)
  {
    hide HeaderAt, FooterAt, TagsOk, HoleFootersInside, NoAdjacentHoles, CarveOk, Grown, FitsSize, Growth;
    var g := Growth(n);
    GrowthEnough(n);
    GrownTailHole(s, s', g);
    var a, once := TailAddr(s), TailSize(s) + g;
    LongEnoughFits(a, once, n, align);
    var j :| 0 <= j < |s'.index| && s'.index[j] == a;
    if NoFit(s', n, align) {
      assert !Fits(s'.ram, s'.index[j], n, align);
      assert LongEnough(a, once + g, n, align);
    } else {
      OnlyTailFits(s, s', j, n, align);
      assert IsFirstFit(s', n, align, j);
    }
  }

  /** Where the heap will end after a call whose promise holds. */
  ghost function EndAfter(s: State, n: nat, align: bool): nat
    requires n < WORD_LIMIT && |s.blocks| > 0
  {
    if NoFit(s, n, align) then s.end + (GrownTail(s, n, align) - TailSize(s)) else s.end
  }

  lemma EndGrown(s: State, s': State, n: nat, align: bool)
    requires Inv(s) && n < SIGN_LIMIT && NoFit(s, n, align) && GrowOk(s.blocks)
    requires Inv(s') && s'.blocks == Grown(s.blocks, Growth(n)) && s'.end == s.end + Growth(n)
    ensures EndAfter(s', n, align) == EndAfter(s, n, align)
  {
    hide HeaderAt, FooterAt, TagsOk, HoleFootersInside, NoAdjacentHoles, CarveOk, Grown;
    var g := Growth(n);
    GrowthEnough(n);
    GrownTailHole(s, s', g);
    var a, once := TailAddr(s), TailSize(s) + g;
    LongEnoughFits(a, once, n, align);
    var j :| 0 <= j < |s'.index| && s'.index[j] == a;
    if NoFit(s', n, align) {
      assert !Fits(s'.ram, s'.index[j], n, align);
      assert LongEnough(a, once + g, n, align);
    } else {
      OnlyTailFits(s, s', j, n, align);
      assert IsFirstFit(s', n, align, j);
    }
  }

  lemma OnlyTailFits(s: State, s': State, j: nat, n: nat, align: bool)
    requires Inv(s) && n < SIGN_LIMIT && NoFit(s, n, align) && !NoFit(s', n, align)
    requires Inv(s') && s'.blocks == Grown(s.blocks, Growth(n)) && j < |s'.index| && s'.index[j] == TailAddr(s)
    ensures forall i: nat :: IsFirstFit(s', n, align, i) <==> i == j
  {
    hide HeaderAt, FooterAt, TagsOk, HoleFootersInside, NoAdjacentHoles, CarveOk, Grown, Tiles, Fits;
    forall i: nat | i < |s'.index| && Fits(s'.ram, s'.index[i], n, align)
      ensures i == j
    {
      GrowthEnough(n);
      GrownHole(s, s', Growth(n), i);
      if s'.index[i] in s.index && HeaderAt(s'.ram, s'.index[i]) == HeaderAt(s.ram, s'.index[i]) {
        SameHeaderFits(s, s', i, n, align);
      }
    }
  }

  lemma SameHeaderFits(s: State, s': State, i: nat, n: nat, align: bool)
    requires n < WORD_LIMIT && NoFit(s, n, align) && i < |s'.index| && s'.index[i] in s.index
    requires s'.index[i] + HDR_SIZE <= WORD_LIMIT && HeaderAt(s'.ram, s'.index[i]) == HeaderAt(s.ram, s'.index[i])
    ensures !Fits(s'.ram, s'.index[i], n, align)
  {
    hide HeaderAt;
    var x :| 0 <= x < |s.index| && s.index[x] == s'.index[i];
  }

  /** Hole k of the list was carved and gave the payload p. */
  ghost predicate BlocksAlloc(bs: seq<Block>, bs': seq<Block>, k: nat, n: nat, align: bool, p: nat)
  {
    && k < |bs| && bs[k].hole && bs[k].size >= n >= TAGS_SIZE
    && CarveOk(bs[k].addr, bs[k].size, n, align)
    && bs' == Carved(bs, k, n, align)
    && p == Given(bs[k].addr, bs[k].size, n, align).Payload()
  }

  /** The heap grew by whole pages at its end (or not at all), then a hole was carved; no live block was touched. */
  ghost predicate AllocStep(s: State, s': State, k: nat, n: nat, align: bool, p: nat)
  {
    && s'.start == s.start && s'.max == s.max && s.end <= s'.end && |s.blocks| > 0
    && BlocksAlloc(Grown(s.blocks, s'.end - s.end), s'.blocks, k, n, align, p)
    && Untouched(s.ram, s'.ram, Live(s.blocks))
    && Inv(s')
    && (AllSealed(s.ram, s.blocks) ==> AllSealed(s'.ram, s'.blocks))
  }

  lemma CarveIsAlloc(s: State, s': State, k: nat, n: nat, align: bool, p: nat)
    requires Inv(s) && CarveStep(s, s', k, n, align, p)
    requires AllSealed(s.ram, s.blocks) ==> AllSealed(s'.ram, s'.blocks)
    ensures AllocStep(s, s', k, n, align, p)
  {
    hide TagsOk, HoleFootersInside, IndexOk, Carved, CarveOk;
    forall b, a | b in Live(s.blocks) && 0 <= a < WORD_LIMIT && Covers(b, a)
      ensures s'.ram[a] == s.ram[a]
    {
      BlocksDisjoint(s.blocks, s.start, s.end, b, s.blocks[k]);
    }
  }

  /** Carving the first fit is a whole allocation. */
  lemma CarveFirstFit(s: State, s': State, i: nat, k: nat, n: nat, align: bool, p: nat)
    requires Inv(s) && TAGS_SIZE <= n < WORD_LIMIT && IsFirstFit(s, n, align, i) && AllocOk(s, n, align)
    requires CarveOutcome(s, s', i, k, n, align, p)
    ensures AllocStep(s, s', k, n, align, p)
  {
    hide CarveOk, CarveStep, KeepsAlloc, AllSealed, CarveIndex;
    var h := HoleOf(s, s.index[i]);
    BlocksDisjoint(s.blocks, s.start, s.end, s.blocks[h], s.blocks[k]);
    assert !NoFit(s, n, align);
    CarveIsAlloc(s, s', k, n, align, p);
  }

  /** The promise is as good after the heap has grown as before. */
  lemma GrownReady(s: State, m: State, n: nat, align: bool)
    requires Inv(s) && n < SIGN_LIMIT && NoFit(s, n, align) && GrowOk(s.blocks)
    requires GrowOutcome(s, m, Growth(n))
    ensures Inv(m) && Live(m.blocks) == Live(s.blocks)
    ensures AllocOk(m, n, align) <==> AllocOk(s, n, align)
  {
    AllocOkGrown(s, m, n, align);
    GrownSameLive(s, Growth(n));
  }

  lemma GrowThenAlloc(s: State, m: State, s': State, g: nat, k: nat, n: nat, align: bool, p: nat)
    requires Inv(s) && GrowOk(s.blocks) && GrowOutcome(s, m, g)
    requires AllocStep(m, s', k, n, align, p)
    ensures AllocStep(s, s', k, n, align, p)
  {
    hide Inv, BlocksAlloc;
    GrownTwice(s.blocks, g, s'.end - m.end);
    GrownSameLive(s, g);
    UntouchedTwice(s.ram, m.ram, s'.ram, Live(s.blocks));
  }

  lemma GrownSameLive(s: State, g: nat)
    requires Inv(s)
    ensures |s.blocks| > 0 && Live(Grown(s.blocks, g)) == Live(s.blocks)
  {
    GrownLive(s.blocks, s.start, s.end, g);
  }

  lemma GrownTiles(s: State, end': nat)
    requires Inv(s) && s.end <= end' && (s.end == end' || s.end + TAGS_SIZE <= end')
    ensures Tiles(Grown(s.blocks, end' - s.end), s.start, end')
    ensures Live(Grown(s.blocks, end' - s.end)) == Live(s.blocks)
  {
    hide TagsOk, HoleFootersInside, IndexOk;
    var bs, g := s.blocks, end' - s.end;
    var last := bs[|bs| - 1];
    GrownLive(bs, s.start, s.end, g);
    if g > 0 {
      var mid := if last.hole then [last.(size := last.size + g)] else [last, Block(last.End(), g, true)];
      SpliceTiles(bs, s.start, s.end, |bs| - 1, |bs|, mid, end');
    }
  }

  /** The payload tells which hole was carved. */
  lemma OneCarving(bs: seq<Block>, lo: nat, hi: nat, bs1: seq<Block>, k1: nat, bs2: seq<Block>, k2: nat,
                   n: nat, align: bool, p: nat)
    requires Tiles(bs, lo, hi) && BlocksAlloc(bs, bs1, k1, n, align, p) && BlocksAlloc(bs, bs2, k2, n, align, p)
    ensures k1 == k2 && bs1 == bs2
  {
    hide Tiles, Carved, Pieces;
    BlocksDisjoint(bs, lo, hi, bs[k1], bs[k2]);
    if k1 < k2 {
      TilesInOrder(bs, lo, hi, k1, k2);
    } else if k2 < k1 {
      TilesInOrder(bs, lo, hi, k2, k1);
    }
  }

  lemma UntouchedTwice(r0: Ram, r1: Ram, r2: Ram, bs: set<Block>)
    requires Untouched(r0, r1, bs) && Untouched(r1, r2, bs)
    ensures Untouched(r0, r2, bs)
  {
    forall b, a | b in bs && 0 <= a < WORD_LIMIT && Covers(b, a)
      ensures r2[a] == r0[a]
    {
      assert r1[a] == r0[a];
    }
  }
}
