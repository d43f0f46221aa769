/** What alloc and free do to memory and index, move by move, and that these moves keep a sound heap sound. */
module HeapMoves {
  import opened Memory
  import opened SortedArrays
  import opened Blocks
  import opened HeapSpec
  import opened HeapAlloc
  import opened HeapOrder
  import opened HeapFree

  /** The three writing steps of a carving, as they follow one another. */
  ghost predicate CarveWrites(before: Ram, front: Ram, placed: Ram, after: Ram,
                              a: nat, holeSize: nat, n: nat, align: bool)
    requires CarveOk(a, holeSize, n, align) && holeSize >= n >= TAGS_SIZE && a + holeSize <= WORD_LIMIT
  {
    var f := if align then Lead(a) else 0;
    var take := if align then n else Taken(holeSize, n);
    && (if !align then front == before else
          && SameOutside(before, front, a, a + f)
          && HeaderAt(front, a) == Header(HDR_MAGIC, 1, f)
          && FooterAt(front, a + f - FTR_SIZE) == Footer(FTR_MAGIC, a))
    && SameOutside(front, placed, a + f, a + f + take)
    && HeaderAt(placed, a + f) == Header(HDR_MAGIC, 0, take)
    && FooterAt(placed, a + f + take - FTR_SIZE) == Footer(FTR_MAGIC, a + f)
    && if holeSize == f + take then after == placed else
         var c, rem := a + f + take, holeSize - f - take;
         && SameOutside(placed, after, c, c + rem)
         && HeaderAt(after, c) == Header(HDR_MAGIC, 1, rem)
         && FooterAt(after, c + rem - FTR_SIZE) == Footer(FTR_MAGIC, c)
  }

  /** The steps together leave all pieces tagged and nothing outside the hole changed. */
  lemma CarveTagged(before: Ram, front: Ram, placed: Ram, after: Ram, a: nat, holeSize: nat, n: nat, align: bool)
    requires CarveOk(a, holeSize, n, align) && holeSize >= n >= TAGS_SIZE && a + holeSize <= WORD_LIMIT
    requires CarveWrites(before, front, placed, after, a, holeSize, n, align)
    ensures PiecesTagged(after, Pieces(a, holeSize, n, align))
    ensures SameOutside(before, after, a, a + holeSize)
  {
    hide HeaderAt, FooterAt;
    var f := if align then Lead(a) else 0;
    var take := if align then n else Taken(holeSize, n);
    TagsKeptOutside(front, placed, a + f, a + f + take);
    TagsKeptOutside(placed, after, a + f + take, a + holeSize);
  }

  /** The writes and the index after carving hole i, in the cases the claims about the result rest on. */
  ghost predicate CarveWork(s: State, s': State, front: Ram, placed: Ram, i: nat, n: nat, align: bool, p: nat)
  {
    && i < |s.index| && s.index[i] + HDR_SIZE <= WORD_LIMIT
    && s'.start == s.start && s'.end == s.end && s'.max == s.max
    && var a := s.index[i];
       var holeSize := HeaderAt(s.ram, a).size;
       && (align ==> p == a + Lead(a) + HDR_SIZE && a in s'.index)
       && (align && !CarveOk(a, holeSize, n, align) && Lead(a) >= TAGS_SIZE ==> a + Lead(a) + n in s'.index)
       && (CarveOk(a, holeSize, n, align) && a + holeSize <= WORD_LIMIT && holeSize >= n >= TAGS_SIZE ==>
             && CarveWrites(s.ram, front, placed, s'.ram, a, holeSize, n, align)
             && CarvedIndex(s.index, s'.index, s'.ram, i, a, holeSize, n, align)
             && p == Given(a, holeSize, n, align).Payload())
  }

  lemma CarveResult(s: State, s': State, front: Ram, placed: Ram, i: nat, n: nat, align: bool, p: nat)
    returns (k: nat, bs: seq<Block>)
    requires Inv(s) && i < |s.index| && TAGS_SIZE <= n < SIGN_LIMIT && Fits(s.ram, s.index[i], n, align)
    requires CarveWork(s, s', front, placed, i, n, align, p)
    ensures CarveOutcome(s, s'.(blocks := bs), i, k, n, align, p)
  {
    hide HeaderAt, FooterAt, TagsOk, HoleFootersInside, IndexOk, KeepsAlloc, CarveStep, PiecesTagged;
    var a := s.index[i];
    k := HoleOf(s, a);
    bs := s'.blocks;
    var holeSize := s.blocks[k].size;
    FitsMeaning(a, holeSize, n);
    if CarveOk(a, holeSize, n, align) {
      bs := Carved(s.blocks, k, n, align);
      CarveTagged(s.ram, front, placed, s'.ram, a, holeSize, n, align);
      CarvedIsCarveIndex(s.index, s'.index, s'.ram, i, a, holeSize, n, align);
      CarveKeeps(s, s'.(blocks := bs), i, k, n, align);
    } else {
      CarveBreaks(s, s', k, n, p);
    }
  }

  // ---- the whole of alloc

  /** What alloc does to memory and index: expansions as long as no hole fits, then the first fit is carved. Nothing
      is said about blocks or about the heap being sound. */
  ghost predicate AllocWork(s: State, s': State, n: nat, align: bool, p: nat, expansions: nat)
    requires n < WORD_LIMIT
    decreases expansions
  {
    if expansions == 0 then
      exists i: nat, front: Ram, placed: Ram ::
        IsFirstFit(s, n, align, i) && CarveWork(s, s', front, placed, i, n, align, p)
    else
      && NoFit(s, n, align)
      && exists m: State, i: int :: GrowWork(s, m, i, Growth(n)) && AllocWork(m, s', n, align, p, expansions - 1)
  }

  lemma AllocWorkCarved(s: State, s': State, front: Ram, placed: Ram, i: nat, n: nat, align: bool, p: nat)
    requires n < WORD_LIMIT && IsFirstFit(s, n, align, i) && CarveWork(s, s', front, placed, i, n, align, p)
    ensures AllocWork(s, s', n, align, p, 0)
  {
    hide CarveWork, Fits;
  }

  lemma AllocWorkGrown(s: State, m: State, s': State, i: int, n: nat, align: bool, p: nat, expansions: nat)
    requires n < WORD_LIMIT && NoFit(s, n, align) && GrowWork(s, m, i, Growth(n))
    requires AllocWork(m, s', n, align, p, expansions)
    ensures AllocWork(s, s', n, align, p, expansions + 1)
  {
    hide CarveWork, GrowWork, NoFit;
  }

  lemma AllocWorkAnyBlocks(s: State, s': State, n: nat, align: bool, p: nat, expansions: nat, bs: seq<Block>)
    requires n < WORD_LIMIT && AllocWork(s, s', n, align, p, expansions)
    ensures AllocWork(s.(blocks := bs), s', n, align, p, expansions)
  {
    hide Fits, CarveWork, GrowWork;
    var t := s.(blocks := bs);
    if expansions == 0 {
      var i: nat, front: Ram, placed: Ram :|
        IsFirstFit(s, n, align, i) && CarveWork(s, s', front, placed, i, n, align, p);
      CarveWorkAnyBlocks(s, s', front, placed, i, n, align, p, bs);
      assert IsFirstFit(t, n, align, i);
    } else {
      var m: State, i: int :| GrowWork(s, m, i, Growth(n)) && AllocWork(m, s', n, align, p, expansions - 1);
      GrowWorkFrom(s, m, i, Growth(n), bs);
    }
  }

  lemma CarveWorkAnyBlocks(s: State, s': State, front: Ram, placed: Ram, i: nat, n: nat, align: bool, p: nat,
                           bs: seq<Block>)
    requires CarveWork(s, s', front, placed, i, n, align, p)
    ensures CarveWork(s.(blocks := bs), s', front, placed, i, n, align, p)
    ensures CarveWork(s, s'.(blocks := bs), front, placed, i, n, align, p)
  {
    hide HeaderAt, FooterAt, CarveOk, CarveWrites, CarveIndex, CarvedIndex, Lead, Pieces, Given;
  }

  lemma GrowWorkFrom(s: State, m: State, i: int, g: nat, bs: seq<Block>)
    requires GrowWork(s, m, i, g)
    ensures GrowWork(s.(blocks := bs), m, i, g)
  {
    hide HeaderAt, FooterAt;
  }

  /** An index entry that is a block of the list has the size its header gives. */
  lemma BlockAtIndex(s: State, i: nat, k: nat)
    requires Inv(s) && i < |s.index| && k < |s.blocks| && s.blocks[k].addr == s.index[i]
    ensures s.index[i] + HDR_SIZE <= WORD_LIMIT && HeaderAt(s.ram, s.index[i]).size == s.blocks[k].size
  {
    hide HeaderAt, FooterAt, HoleFootersInside, IndexOk;
    assert TagOk(s.ram, s.blocks[k]);
  }

  /** Carving the first fit is sound exactly when the promise held. */
  lemma CarveExact(s: State, s': State, n: nat, align: bool, p: nat) returns (k: nat, bs: seq<Block>)
    requires Inv(s) && TAGS_SIZE <= n < SIGN_LIMIT && AllocWork(s, s', n, align, p, 0)
    ensures AllocOk(s, n, align) <==> KeepsAlloc(s, s', n, p)
    ensures AllocOk(s, n, align) ==>
              CarveStep(s, s'.(blocks := bs), k, n, align, p) && AllocStep(s, s'.(blocks := bs), k, n, align, p)
  {
    hide CarveOk, CarveWork, AllSealed, Inv, Fits, AllocStep, KeepsAlloc, CarveStep;
    var i: nat, front: Ram, placed: Ram :|
      IsFirstFit(s, n, align, i) && CarveWork(s, s', front, placed, i, n, align, p);
    k, bs := CarveResult(s, s', front, placed, i, n, align, p);
    BlockAtIndex(s, i, k);
    assert AllocOk(s, n, align) <==> CarveOk(s.index[i], HeaderAt(s.ram, s.index[i]).size, n, align) by {
      assert !NoFit(s, n, align);
    }
    SameKeeps(s, s', bs, n, p);
    if AllocOk(s, n, align) {
      CarveFirstFit(s, s'.(blocks := bs), i, k, n, align, p);
    }
  }

  lemma SameKeeps(s: State, s': State, bs: seq<Block>, n: nat, p: int)
    ensures KeepsAlloc(s, s'.(blocks := bs), n, p) <==> KeepsAlloc(s, s', n, p)
  {
    hide Inv;
    assert forall cs: seq<Block> :: s'.(blocks := bs).(blocks := cs) == s'.(blocks := cs);
  }

  /** A whole call, for every request: it leaves a sound heap with one new block at the returned address and every
      other live block kept exactly when the promise held before the call. */
  lemma {:induction false} AllocExact(s: State, s': State, n: nat, align: bool, p: nat, expansions: nat)
    returns (k: nat, bs: seq<Block>)
    requires Inv(s) && TAGS_SIZE <= n < SIGN_LIMIT && AllocWork(s, s', n, align, p, expansions)
    ensures AllocOk(s, n, align) <==> KeepsAlloc(s, s', n, p)
    ensures AllocOk(s, n, align) ==> AllocStep(s, s'.(blocks := bs), k, n, align, p)
    decreases expansions
  {
    hide Inv, NoFit, GrowWork, GrowOutcome, AllocOk, AllocStep, KeepsAlloc, CarveStep;
    if expansions == 0 {
      k, bs := CarveExact(s, s', n, align, p);
    } else {
      var m: State, i: int :| GrowWork(s, m, i, Growth(n)) && AllocWork(m, s', n, align, p, expansions - 1);
      GrowthEnough(n);
      var grown := GrowResult(s, m, i, Growth(n));
      HasBlocks(s, m.(blocks := grown), Growth(n));
      if GrowOk(s.blocks) {
        var m' := m.(blocks := grown);
        GrownReady(s, m', n, align);
        AllocWorkAnyBlocks(m, s', n, align, p, expansions - 1, grown);
        k, bs := AllocExact(m', s', n, align, p, expansions - 1);
        SameLiveKeeps(m', s, s', n, p);
        if AllocOk(s, n, align) {
          GrowThenAlloc(s, m', s'.(blocks := bs), Growth(n), k, n, align, p);
        }
      } else {
        k, bs := 0, [];
        PromiseGrows(s, n, align);
        SwollenBreaks(s, m, s', i, n, align, p, expansions - 1);
      }
    }
  }

  lemma HasBlocks(s: State, m: State, g: nat)
    requires GrowOutcome(s, m, g)
    ensures |s.blocks| > 0
  {
  }

  lemma PromiseGrows(s: State, n: nat, align: bool)
    requires n < WORD_LIMIT && NoFit(s, n, align)
    ensures AllocOk(s, n, align) ==> |s.blocks| > 0 && GrowOk(s.blocks)
  {
  }

  lemma SameLiveKeeps(m: State, s: State, s': State, n: nat, p: int)
    requires Live(m.blocks) == Live(s.blocks)
    ensures KeepsAlloc(m, s', n, p) <==> KeepsAlloc(s, s', n, p)
  {
    hide Inv;
  }

  /** The list of blocks was kept up: the room added at the end, then hole i carved. */
  ghost predicate Recorded(s: State, s': State, i: nat, n: nat, align: bool, p: nat)
  {
    && |s.blocks| > 0 && s.end <= s'.end
    && BlocksAlloc(Grown(s.blocks, s'.end - s.end), s'.blocks, i, n, align, p)
  }

  /** From what alloc writes and the promise made before the call alone: with the list kept up, the heap is sound and
      has one live block more. */
  lemma AllocWorkKeeps(s: State, s': State, i: nat, n: nat, align: bool, p: nat, expansions: nat)
    requires Inv(s) && TAGS_SIZE <= n < SIGN_LIMIT && AllocOk(s, n, align)
    requires AllocWork(s, s', n, align, p, expansions) && Recorded(s, s', i, n, align, p)
    ensures Inv(s') && AllocStep(s, s', i, n, align, p) && s'.start == s.start && s'.max == s.max
  {
    hide AllocWork, AllocOk, BlocksAlloc, KeepsAlloc;
    var k, bs := AllocExact(s, s', n, align, p, expansions);
    hide Inv;
    WholePages(s, s'.(blocks := bs));
    GrownTiles(s, s'.end);
    OneCarving(Grown(s.blocks, s'.end - s.end), s.start, s'.end, bs, k, s'.blocks, i, n, align, p);
    assert s'.(blocks := bs) == s';
  }

  lemma WholePages(s: State, s': State)
    requires Inv(s) && Inv(s') && s.end <= s'.end
    ensures s'.end == s.end || s.end + PAGE <= s'.end
  {
    hide Tiles, NoAdjacentHoles, TagsOk, HoleFootersInside, IndexOk;
  }

  // ---- alloc when the room went to the wrong hole

  /** Expansions have touched no header of the index but the highest. */
  ghost predicate Swollen(s: State, m: State, i: nat)
  {
    && Runnable(m) && m.index == s.index && m.start == s.start && i < |s.index|
    && forall j | 0 <= j < |s.index| && j != i ::
         && s.index[j] + HDR_SIZE <= WORD_LIMIT
         && HeaderAt(m.ram, s.index[j]) == HeaderAt(s.ram, s.index[j])
  }

  lemma StillSwollen(s: State, m: State, m': State, i: nat, i': int, g: nat)
    requires Swollen(s, m, i) && IsTop(s.index, i) && Distinct(s.index) && GrowWork(m, m', i', g) && g >= PAGE
    ensures Swollen(s, m', i)
  {
    hide HeaderAt, FooterAt;
    GrowRunnable(m, m', i', g);
    assert i' == i;
    forall j | 0 <= j < |s.index| && j != i
      ensures HeaderAt(m'.ram, s.index[j]) == HeaderAt(m.ram, s.index[j])
    {
      assert s.index[j] < s.index[i];
    }
  }

  /** Then the highest hole is what gets carved, and it stays in the index if alignment was asked for. */
  lemma {:induction false} TopIsCarved(s: State, m: State, s': State, i: nat, n: nat, align: bool, p: nat,
                                       expansions: nat)
    requires Swollen(s, m, i) && IsTop(s.index, i) && Distinct(s.index) && TAGS_SIZE <= n < SIGN_LIMIT
    requires NoFit(s, n, align) && AllocWork(m, s', n, align, p, expansions)
    ensures s'.start == s.start
    ensures p == s.index[i] + HDR_SIZE + if align then Lead(s.index[i]) else 0
    ensures align ==> s.index[i] in s'.index
    decreases expansions
  {
    hide HeaderAt, FooterAt, CarveWork, GrowWork, Fits, Runnable;
    if expansions == 0 {
      var i': nat, front: Ram, placed: Ram :|
        IsFirstFit(m, n, align, i') && CarveWork(m, s', front, placed, i', n, align, p);
      OnlyTopFits(s, m, i, i', n, align);
      CarvedTop(m, s', front, placed, i, n, align, p);
    } else {
      var m': State, i': int :| GrowWork(m, m', i', Growth(n)) && AllocWork(m', s', n, align, p, expansions - 1);
      GrowthEnough(n);
      StillSwollen(s, m, m', i, i', Growth(n));
      TopIsCarved(s, m', s', i, n, align, p, expansions - 1);
    }
  }

  lemma OnlyTopFits(s: State, m: State, i: nat, j: nat, n: nat, align: bool)
    requires Swollen(s, m, i) && n < WORD_LIMIT && NoFit(s, n, align) && IsFirstFit(m, n, align, j)
    ensures j == i
  {
    hide HeaderAt, Runnable;
    assert !Fits(s.ram, s.index[j], n, align);
  }

  lemma CarvedTop(m: State, s': State, front: Ram, placed: Ram, i: nat, n: nat, align: bool, p: nat)
    requires Runnable(m) && TAGS_SIZE <= n < SIGN_LIMIT && IsFirstFit(m, n, align, i)
    requires CarveWork(m, s', front, placed, i, n, align, p)
    ensures s'.start == m.start && p == m.index[i] + HDR_SIZE + if align then Lead(m.index[i]) else 0
    ensures align ==> m.index[i] in s'.index
  {
    hide HeaderAt, FooterAt, CarveWrites, CarveIndex, CarvedIndex;
  }

  /** What is handed out then overlaps the hole that stays in the index or a live block above it. */
  lemma SwollenBreaks(s: State, m: State, s': State, i: int, n: nat, align: bool, p: nat, expansions: nat)
    requires Inv(s) && |s.blocks| > 0 && !GrowOk(s.blocks) && TAGS_SIZE <= n < SIGN_LIMIT && NoFit(s, n, align)
    requires GrowWork(s, m, i, Growth(n)) && AllocWork(m, s', n, align, p, expansions)
    ensures !KeepsAlloc(s, s', n, p)
  {
    hide HeaderAt, FooterAt, TagsOk, HoleFootersInside, AllocWork, GrowWork, Fits, Lead, Runnable, NoFit, IndexOk;
    TopExists(s, m, i, Growth(n));
    GrowthEnough(n);
    var k := HoleOf(s, s.index[i]);
    SwollenAtFirst(s, i);
    StillSwollen(s, s, m, i, i, Growth(n));
    TopIsCarved(s, m, s', i, n, align, p, expansions);
    TooShort(s, i, k, n, align);
    forall bs: seq<Block>, b: Block |
      Inv(s'.(blocks := bs)) && !b.hole && b.Payload() == p && b.size >= n && b !in Live(s.blocks)
      ensures Live(bs) != Live(s.blocks) + {b}
    {
      if Live(bs) == Live(s.blocks) + {b} {
        assert b in Live(bs);
        if align && Lead(s.index[i]) < TAGS_SIZE {
          var x := HoleOf(s'.(blocks := bs), s.index[i]);
          BlocksDisjoint(bs, s.start, s'.end, bs[x], b);
        } else {
          AboveClash(s.blocks, bs, s.start, s.end, s'.end, k, b);
        }
      }
    }
  }

  lemma EntriesInside(s: State)
    requires Runnable(s)
    ensures forall j | 0 <= j < |s.index| :: s.index[j] + HDR_SIZE <= WORD_LIMIT
  {
  }

  lemma TopExists(s: State, m: State, i: int, g: nat)
    requires Inv(s) && |s.blocks| > 0 && !GrowOk(s.blocks) && GrowWork(s, m, i, g)
    ensures 0 <= i && IsTop(s.index, i) && Distinct(s.index)
    ensures forall j | 0 <= j < |s.blocks| && s.blocks[j].hole :: s.blocks[j].addr <= s.index[i]
  {
    hide HeaderAt, FooterAt, TagsOk, HoleFootersInside;
    assert s.index == [] ==> HoleAddrs(s.blocks) == {};
    forall j | 0 <= j < |s.blocks| && s.blocks[j].hole
      ensures s.blocks[j].addr <= s.index[i]
    {
      assert s.blocks[j].addr in s.index;
    }
  }

  /** A hole that did not fit ends before the block that is carved out of it later. */
  lemma TooShort(s: State, i: nat, k: nat, n: nat, align: bool)
    requires Inv(s) && i < |s.index| && k < |s.blocks| && s.blocks[k].addr == s.index[i]
    requires n < SIGN_LIMIT && NoFit(s, n, align)
    ensures var a := s.index[i];
            && 0 < Lead(a) + HDR_SIZE && a + Lead(a) < s.end
            && (if align then Lead(a) < TAGS_SIZE || s.blocks[k].End() < a + Lead(a) + n
                else s.blocks[k].End() < a + n)
  {
    hide HeaderAt, FooterAt, TagsOk, HoleFootersInside, IndexOk;
    var a := s.index[i];
    BlockAtIndex(s, i, k);
    TilesOrdered(s.blocks, s.start, s.end);
    assert !Fits(s.ram, s.index[i], n, align);
    LongEnoughFits(a, s.blocks[k].size, n, align);
    OffsetIsLead(a);
  }

  /** A new block cannot start in or above the highest hole and reach over its end: all up there is live. */
  lemma AboveClash(bs: seq<Block>, bs': seq<Block>, lo: nat, hi: nat, hi': nat, k: nat, b: Block)
    requires Tiles(bs, lo, hi) && NoAdjacentHoles(bs) && Tiles(bs', lo, hi') && k + 1 < |bs| && bs[k].hole
    requires forall j | 0 <= j < |bs| && bs[j].hole :: bs[j].addr <= bs[k].addr
    requires !b.hole && b !in Live(bs) && bs[k].addr <= b.addr < hi && bs[k].End() < b.End()
    ensures Live(bs') != Live(bs) + {b}
  {
    if Live(bs') == Live(bs) + {b} {
      TilesOrdered(bs, lo, hi);
      assert b in Live(bs');
      var j := k + 1;
      if b.addr >= bs[k].End() {
        TilesCover(bs, lo, hi, b.addr);
        j :| 0 <= j < |bs| && Covers(bs[j], b.addr);
      }
      assert !bs[j].hole && bs[j] in Live(bs) && bs[j] in Live(bs');
      BlocksDisjoint(bs', lo, hi', bs[j], b);
    }
  }

  // ---- the order of the index after the whole of alloc

  /** The entry that will be carved: the first fit, or the highest hole if none fits. */
  ghost predicate CarvedEntry(s: State, n: nat, align: bool, i: nat)
    requires n < WORD_LIMIT
  {
    if NoFit(s, n, align) then IsTop(s.index, i) else IsFirstFit(s, n, align, i)
  }

  /** A caller can check this before the call: for an aligned request, the piece that will be left in front of the
      block stands in line where the carved hole stands in the index. */
  ghost predicate AllocOrderOk(s: State, n: nat, align: bool)
    requires n < WORD_LIMIT
  {
    align ==> forall i: nat | i < |s.index| && CarvedEntry(s, n, align, i) ::
                InLine(s.ram, s.index, i, Lead(s.index[i]), -1)
  }

  /** Carving entry i of a heap whose other entries are as in the ordered heap s. */
  lemma CarvedInOrder(s: State, m: State, s': State, front: Ram, placed: Ram, i: nat, n: nat, align: bool, p: nat)
    requires BySize(s.ram, s.index) && Inv(m) && m.index == s.index && TAGS_SIZE <= n < SIGN_LIMIT
    requires forall j | 0 <= j < |s.index| && j != i :: SizeKey(m.ram)(s.index[j]) == SizeKey(s.ram)(s.index[j])
    requires IsFirstFit(m, n, align, i) && CarveWork(m, s', front, placed, i, n, align, p) && AllocOk(m, n, align)
    ensures BySize(s'.ram, s'.index) <==> align ==> InLine(s.ram, s.index, i, Lead(s.index[i]), -1)
  {
    hide CarveWrites, Inv, Fits, KeepsAlloc, CarveStep, CarvedIndex, InLine, BySize, Inserted, SizeKey;
    var k, bs := CarveResult(m, s', front, placed, i, n, align, p);
    BlockAtIndex(m, i, k);
    assert CarveOk(m.index[i], HeaderAt(m.ram, m.index[i]).size, n, align) by {
      assert !NoFit(m, n, align);
    }
    var t := s'.(blocks := bs);
    FitsHole(m, i, k, n, align);
    CarvedSizes(m, t, i, k, n, align, p);
    CarveOrder(m, t, i, k, n, align, p);
    if align {
      ResizeInPlace(s.ram, s'.ram, s.index, i);
    } else {
      RemovedBySize(s.ram, s.index, i);
      RemovedSame(s.ram, s'.ram, s.index, i);
    }
  }

  lemma FitsHole(m: State, i: nat, k: nat, n: nat, align: bool)
    requires Inv(m) && n < SIGN_LIMIT && i < |m.index| && Fits(m.ram, m.index[i], n, align)
    requires k < |m.blocks| && m.blocks[k].addr == m.index[i]
    ensures m.blocks[k].size >= n && m.index[i] + m.blocks[k].size <= WORD_LIMIT
  {
    hide HeaderAt, FooterAt, TagsOk, HoleFootersInside, IndexOk, NoAdjacentHoles;
    BlockAtIndex(m, i, k);
    TilesOrdered(m.blocks, m.start, m.end);
    FitsEnough(m.index[i], m.blocks[k].size, n, align);
  }

  lemma RemovedSame(before: Ram, after: Ram, index: seq<nat>, i: nat)
    requires i < |index|
    requires forall j | 0 <= j < |index| && j != i :: SizeKey(after)(index[j]) == SizeKey(before)(index[j])
    ensures BySize(after, Removed(index, i)) <==> BySize(before, Removed(index, i))
  {
    SameSizes(before, after, Removed(index, i));
  }

  /** After expansions the highest entry of s is carved, from the size it has grown to. */
  lemma {:induction false} GrownInOrder(s: State, m: State, s': State, i: nat, n: nat, align: bool, p: nat,
                                        expansions: nat)
    requires BySize(s.ram, s.index) && IsTop(s.index, i) && Distinct(s.index) && Swollen(s, m, i)
    requires TAGS_SIZE <= n < SIGN_LIMIT && NoFit(s, n, align)
    requires Inv(m) && AllocOk(m, n, align) && AllocWork(m, s', n, align, p, expansions)
    ensures BySize(s'.ram, s'.index) <==> align ==> InLine(s.ram, s.index, i, Lead(s.index[i]), -1)
    decreases expansions
  {
    hide HeaderAt, CarveWork, GrowWork, GrowOutcome, Fits, Runnable, Inv, AllocOk, BySize, InLine, Lead;
    if expansions == 0 {
      var i': nat, front: Ram, placed: Ram :|
        IsFirstFit(m, n, align, i') && CarveWork(m, s', front, placed, i', n, align, p);
      OnlyTopFits(s, m, i, i', n, align);
      CarvedInOrder(s, m, s', front, placed, i, n, align, p);
    } else {
      var m', i', grown := ExpandedOnce(m, s', n, align, p, expansions);
      var t := m'.(blocks := grown);
      GrowthEnough(n);
      StillSwollen(s, m, m', i, i', Growth(n));
      SwollenAnyBlocks(s, m', i, grown);
      GrownInOrder(s, t, s', i, n, align, p, expansions - 1);
    }
  }

  /** The first expansion of a call whose promise held, and what is left to do after it. */
  lemma ExpandedOnce(s: State, s': State, n: nat, align: bool, p: nat, expansions: nat)
    returns (m: State, i: int, grown: seq<Block>)
    requires Inv(s) && TAGS_SIZE <= n < SIGN_LIMIT && AllocOk(s, n, align)
    requires expansions > 0 && AllocWork(s, s', n, align, p, expansions)
    ensures NoFit(s, n, align) && |s.blocks| > 0 && GrowOk(s.blocks) && GrowWork(s, m, i, Growth(n))
    ensures GrowOutcome(s, m.(blocks := grown), Growth(n))
    ensures Inv(m.(blocks := grown)) && AllocOk(m.(blocks := grown), n, align)
    ensures AllocWork(m.(blocks := grown), s', n, align, p, expansions - 1)
  {
    hide HeaderAt, CarveWork, GrowWork, GrowOutcome, Fits, Inv, AllocOk, NoFit;
    m, i :| GrowWork(s, m, i, Growth(n)) && AllocWork(m, s', n, align, p, expansions - 1);
    GrowthEnough(n);
    grown := GrowResult(s, m, i, Growth(n));
    PromiseGrows(s, n, align);
    GrownReady(s, m.(blocks := grown), n, align);
    AllocWorkAnyBlocks(m, s', n, align, p, expansions - 1, grown);
  }

  lemma SwollenAnyBlocks(s: State, m: State, i: nat, bs: seq<Block>)
    requires Swollen(s, m, i)
    ensures Swollen(s, m.(blocks := bs), i)
  {
    hide HeaderAt;
  }

  /** A whole call on an ordered index leaves it ordered exactly when the check held before the call. */
  lemma {:induction false} AllocOrder(s: State, s': State, n: nat, align: bool, p: nat, expansions: nat)
    requires Inv(s) && TAGS_SIZE <= n < SIGN_LIMIT && AllocOk(s, n, align)
    requires AllocWork(s, s', n, align, p, expansions) && BySize(s.ram, s.index)
    ensures BySize(s'.ram, s'.index) <==> AllocOrderOk(s, n, align)
    decreases expansions
  {
    hide HeaderAt, CarveWork, GrowWork, GrowOutcome, Fits, Runnable, Inv, AllocOk, BySize, InLine, Lead;
    hide AllocOrderOk, CarvedEntry, NoFit, Distinct;
    EntriesDistinct(s);
    if expansions == 0 {
      var i: nat, front: Ram, placed: Ram :|
        IsFirstFit(s, n, align, i) && CarveWork(s, s', front, placed, i, n, align, p);
      CarvedInOrder(s, s, s', front, placed, i, n, align, p);
      FirstFitEntry(s, n, align, i);
    } else {
      var m, i, grown := ExpandedOnce(s, s', n, align, p, expansions);
      var t := m.(blocks := grown);
      GrownEntry(s, m, i, n, align);
      if i == -1 {
        OneEntry(t, n, align);
        AllocOrder(t, s', n, align, p, expansions - 1);
      } else {
        GrowthEnough(n);
        SwollenAtFirst(s, i);
        StillSwollen(s, s, m, i, i, Growth(n));
        SwollenAnyBlocks(s, m, i, grown);
        GrownInOrder(s, t, s', i, n, align, p, expansions - 1);
      }
    }
  }

  lemma FirstFitEntry(s: State, n: nat, align: bool, i: nat)
    requires n < WORD_LIMIT && IsFirstFit(s, n, align, i)
    ensures AllocOrderOk(s, n, align) <==> align ==> InLine(s.ram, s.index, i, Lead(s.index[i]), -1)
  {
    hide Fits, InLine;
    assert !NoFit(s, n, align) && CarvedEntry(s, n, align, i);
  }

  lemma GrownEntry(s: State, m: State, i: int, n: nat, align: bool)
    requires n < WORD_LIMIT && NoFit(s, n, align) && GrowWork(s, m, i, Growth(n)) && Distinct(s.index)
    ensures i == -1 ==> s.index == [] && |m.index| == 1 && AllocOrderOk(s, n, align)
    ensures i != -1 ==>
              && 0 <= i && IsTop(s.index, i)
              && (AllocOrderOk(s, n, align) <==> align ==> InLine(s.ram, s.index, i, Lead(s.index[i]), -1))
  {
    hide HeaderAt, FooterAt, Fits, InLine, SameOutside, TagsKept;
    if i != -1 {
      assert CarvedEntry(s, n, align, i);
    }
  }

  lemma EntriesDistinct(s: State)
    requires Inv(s)
    ensures Distinct(s.index)
  {
  }

  lemma OneEntry(s: State, n: nat, align: bool)
    requires n < WORD_LIMIT && |s.index| == 1
    ensures BySize(s.ram, s.index) && AllocOrderOk(s, n, align)
  {
  }

  lemma SwollenAtFirst(s: State, i: nat)
    requires Inv(s) && i < |s.index|
    ensures Swollen(s, s, i)
  {
    hide HeaderAt, Inv;
    InvRunnable(s);
    EntriesInside(s);
  }

  /** How far the call expands the heap can be told before it. */
  lemma {:induction false} AllocEnd(s: State, s': State, n: nat, align: bool, p: nat, expansions: nat)
    requires Inv(s) && TAGS_SIZE <= n < SIGN_LIMIT && AllocOk(s, n, align)
    requires AllocWork(s, s', n, align, p, expansions)
    ensures |s.blocks| > 0 && s'.end == EndAfter(s, n, align)
    decreases expansions
  {
    hide HeaderAt, CarveWrites, GrowWork, Fits, AllocOk, Tiles, TagsOk, HoleFootersInside, IndexOk, NoAdjacentHoles;
    if expansions == 0 {
      hide Inv;
      InvHasBlocks(s);
      var i: nat, front: Ram, placed: Ram :|
        IsFirstFit(s, n, align, i) && CarveWork(s, s', front, placed, i, n, align, p);
      assert !NoFit(s, n, align);
    } else {
      var m, i, grown := ExpandedOnce(s, s', n, align, p, expansions);
      var t := m.(blocks := grown);
      AllocEnd(t, s', n, align, p, expansions - 1);
      EndGrown(s, t, n, align);
    }
  }

  lemma InvHasBlocks(s: State)
    requires Inv(s)
    ensures |s.blocks| > 0
  {
  }

  /** What a whole call comes to in a sound heap. */
  lemma AllocVerdict(s: State, s': State, n: nat, align: bool, p: nat, expansions: nat)
    requires TAGS_SIZE <= n < SIGN_LIMIT && AllocWork(s, s', n, align, p, expansions)
    ensures Inv(s) ==> (AllocOk(s, n, align) <==> KeepsAlloc(s, s', n, p))
    ensures Inv(s) && AllocOk(s, n, align) && BySize(s.ram, s.index) ==>
              (BySize(s'.ram, s'.index) <==> AllocOrderOk(s, n, align))
  {
    hide Inv, AllocWork, AllocOk, KeepsAlloc, BySize, AllocOrderOk;
    if Inv(s) {
      var k, bs := AllocExact(s, s', n, align, p, expansions);
      if AllocOk(s, n, align) && BySize(s.ram, s.index) {
        AllocOrder(s, s', n, align, p, expansions);
      }
    }
  }

  // ---- the whole of free

  /** What free writes and does to the index, for block k of the list. Nothing is said about the heap being sound. */
  ghost predicate FreeMoves(s: State, s': State, k: nat)
  {
    && k < |s.blocks| && !s.blocks[k].hole
    && s'.start == s.start && s'.max == s.max && s'.blocks == Freed(s, k)
    && exists ram: Ram, mid: seq<nat>, h: nat, doAdd: bool ::
         && MergedRight(s, k, ram, mid, h, doAdd)
         && Settled(s, k, ram, s'.ram, s'.end, h) && Indexed(mid, s'.index, h, doAdd, s'.ram)
  }

  /** The moves of free, started in a sound heap with the check made, end in a sound heap without the block. */
  lemma FreeMovesKeep(s: State, s': State, k: nat)
    requires Inv(s) && k < |s.blocks| && FreeOk(s, k) && FreeMoves(s, s', k)
    ensures FreeStep(s, s', k)
  {
    hide Inv, MergedRight, Settled, Indexed, FreeOk, FreeStep, Freed, Sound;
    var ram: Ram, mid: seq<nat>, h: nat, doAdd: bool :|
      && MergedRight(s, k, ram, mid, h, doAdd)
      && Settled(s, k, ram, s'.ram, s'.end, h) && Indexed(mid, s'.index, h, doAdd, s'.ram);
    var bs := FreeResult(s, s', k, ram, mid, h, doAdd);
    assert s'.(blocks := bs) == s';
  }

  /** A whole release on an ordered index leaves it ordered exactly when the check held before the call. */
  lemma FreeOrderExact(s: State, s': State, k: nat)
    requires Inv(s) && k < |s.blocks| && FreeOk(s, k) && FreeMoves(s, s', k) && BySize(s.ram, s.index)
    ensures BySize(s'.ram, s'.index) <==> FreeOrderOk(s, k)
  {
    hide Inv, MergedRight, Settled, Indexed, FreeOk, FreeStep, Freed, Sound, BySize, FreeOrderOk;
    var ram: Ram, mid: seq<nat>, h: nat, doAdd: bool :|
      && MergedRight(s, k, ram, mid, h, doAdd)
      && Settled(s, k, ram, s'.ram, s'.end, h) && Indexed(mid, s'.index, h, doAdd, s'.ram);
    FreeOrder(s, s', k, ram, mid, h, doAdd);
  }
}
