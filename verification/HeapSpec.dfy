/** What a sound heap is, and what one allocation or one release does to its list of blocks. */
module HeapSpec {
  import opened Memory
  import opened SortedArrays
  import opened Blocks

  const INDEX_SIZE: nat := 0x2_0000
  const MIN_SIZE: nat := 0x7_0000

  datatype State = State(ram: Ram, index: seq<nat>, blocks: seq<Block>, start: nat, end: nat, max: nat)

  // ---- the invariant

  /** The address limits. They leave every size below the sign bit. */
  ghost predicate Bounds(s: State)
  {
    && s.start % PAGE == 0 && s.end % PAGE == 0
    && 4 * INDEX_SIZE <= s.start && s.start + MIN_SIZE <= s.max
    && s.start < s.end <= s.max <= WORD_LIMIT - PAGE
    && s.max - s.start < SIGN_LIMIT
  }

  /** The index holds exactly the holes, each once. */
  ghost predicate IndexOk(index: seq<nat>, bs: seq<Block>)
  {
    Distinct(index) && forall a :: a in index <==> a in HoleAddrs(bs)
  }

  /** The tags in memory, the index and the list of blocks describe the same heap. */
  ghost predicate Inv(s: State)
  {
    && Bounds(s)
    && Tiles(s.blocks, s.start, s.end)
    && NoAdjacentHoles(s.blocks)
    && TagsOk(s.ram, s.blocks)
    && HoleFootersInside(s.ram, s.blocks)
    && IndexOk(s.index, s.blocks)
    && Word(s.ram, s.start - FTR_SIZE) != FTR_MAGIC
  }

  /** Some list of blocks with these live blocks is sound for this memory and index. */
  ghost predicate Sound(s: State, live: set<Block>)
  {
    exists bs: seq<Block> :: Inv(s.(blocks := bs)) && Live(bs) == live
  }

  /** Every byte of these blocks, tags included, is as before. */
  ghost predicate Untouched(before: Ram, after: Ram, bs: set<Block>)
  {
    forall b, a | b in bs && 0 <= a < WORD_LIMIT && Covers(b, a) :: after[a] == before[a]
  }

  /** A hole found through the index is a block of the list, and its header says how long it is. */
  lemma HoleOf(s: State, a: nat) returns (k: nat)
    requires Inv(s) && a in s.index
    ensures k < |s.blocks| && s.blocks[k].addr == a && s.blocks[k].hole
    ensures s.start <= a && a + s.blocks[k].size <= s.end && s.blocks[k].size >= TAGS_SIZE
    ensures HeaderAt(s.ram, a) == Header(HDR_MAGIC, 1, s.blocks[k].size)
  {
    var b :| b in s.blocks && b.hole && b.addr == a;
    k :| 0 <= k < |s.blocks| && s.blocks[k] == b;
    TilesOrdered(s.blocks, s.start, s.end);
    assert TagOk(s.ram, s.blocks[k]);
  }

  /** A heap that is one hole, with a header only. */
  lemma OneHoleSound(s: State)
    requires Bounds(s) && s.end - s.start >= TAGS_SIZE
    requires s.blocks == [Block(s.start, s.end - s.start, true)] && s.index == [s.start]
    requires HeaderAt(s.ram, s.start) == Header(HDR_MAGIC, 1, s.end - s.start)
    requires Word(s.ram, s.start - FTR_SIZE) != FTR_MAGIC
    ensures Inv(s) && AllSealed(s.ram, s.blocks)
  {
    assert s.blocks[0] in s.blocks;
  }

  /** Replacing a run of neighbouring blocks by others that fill the same span keeps the heap sound. At the end
      of the heap the span may also grow or shrink. */
  lemma ReplaceKeepsInv(s: State, s': State, i: nat, j: nat, mid: seq<Block>, midEnd: nat, to: nat)
    requires Inv(s) && Bounds(s') && s'.start == s.start
    requires i < j <= |s.blocks| && |mid| > 0
    requires s'.blocks == Splice(s.blocks, i, j, mid)
    requires Tiles(mid, s.blocks[i].addr, midEnd)
    requires if j < |s.blocks| then midEnd == s.blocks[j].addr && to <= midEnd && s'.end == s.end else s'.end == midEnd
    requires NoAdjacentHoles(mid)
    requires mid[0].hole && i > 0 ==> !s.blocks[i - 1].hole
    requires mid[|mid| - 1].hole && j < |s.blocks| ==> !s.blocks[j].hole
    requires SameOutside(s.ram, s'.ram, s.blocks[i].addr, to)
    requires TagsOk(s'.ram, mid) && HoleFootersInside(s'.ram, mid)
    requires var last := mid[|mid| - 1]; j < |s.blocks| && last.hole ==> FooterInside(s'.ram, last)
    requires Distinct(s'.index)
    requires forall a :: a in s'.index <==>
               (a in s.index && a !in HoleAddrs(s.blocks[i..j])) || a in HoleAddrs(mid)
    ensures Inv(s')
  {
    hide TagOk, FooterInside, Word;
    var bs := s.blocks;
    TilesOrdered(bs, s.start, s.end);
    SpliceTiles(bs, s.start, s.end, i, j, mid, midEnd);
    SpliceNoAdjacent(bs, i, j, mid);
    SpliceTags(s.ram, s'.ram, bs, s.start, s.end, i, j, mid, to);
    SpliceHoles(bs, s.start, s.end, i, j, mid);
    WordUnchanged(s.ram, s'.ram, s.start - FTR_SIZE);
  }

  // ---- carving a block out of a hole (heap.c:282-341)

  /** The whole block a request of this many bytes needs (heap.c:227). */
  function Needed(size: nat): nat
  {
    size + TAGS_SIZE
  }

  /** How far find_smallest_hole thinks the block must move to be page-aligned (heap.c:30-36). */
  function AlignOffset(a: nat): nat
  {
    if a + HDR_SIZE >= PAGE then PAGE - (a + HDR_SIZE) % PAGE else 0
  }

  /** The length of the hole that alloc leaves in front of an aligned block (heap.c:295-297). */
  function Lead(a: nat): int
  {
    PAGE - a % PAGE - HDR_SIZE
  }

  /** The search and the carving agree on the offset exactly when the hole does not start in the last 12 bytes
      of a page; then the block handed out starts a page. */
  lemma OffsetIsLead(a: nat)
    requires PAGE <= a
    ensures AlignOffset(a) == Lead(a) <==> a % PAGE < PAGE - HDR_SIZE
    ensures AlignOffset(a) == Lead(a) ==> Lead(a) > 0
    ensures (a + Lead(a) + HDR_SIZE) % PAGE == 0
  {
    assert a + Lead(a) + HDR_SIZE == a - a % PAGE + PAGE;
    if a % PAGE < PAGE - HDR_SIZE {
      assert (a + HDR_SIZE) % PAGE == a % PAGE + HDR_SIZE;
    } else {
      assert (a + HDR_SIZE) % PAGE == a % PAGE + HDR_SIZE - PAGE;
    }
  }

  /** The test of find_smallest_hole on a hole of a given size, with its casts to int32_t. */
  predicate FitsSize(a: nat, holeSize: nat, n: nat, align: bool)
    requires holeSize < WORD_LIMIT && n < WORD_LIMIT
  {
    if align then Signed(holeSize) - AlignOffset(a) >= Signed(n) else holeSize >= n
  }

  predicate Fits(ram: Ram, a: nat, n: nat, align: bool)
    requires n < WORD_LIMIT
  {
    a + HDR_SIZE <= WORD_LIMIT && FitsSize(a, HeaderAt(ram, a).size, n, align)
  }

  /** With sizes below the sign bit the test means what it should; a request from 2^31 up passes on any hole. */
  lemma FitsMeaning(a: nat, holeSize: nat, n: nat)
    requires PAGE <= a && holeSize < SIGN_LIMIT && n < WORD_LIMIT
    ensures n < SIGN_LIMIT ==> (FitsSize(a, holeSize, n, true) <==> holeSize >= n + AlignOffset(a))
    ensures n >= SIGN_LIMIT ==> (FitsSize(a, holeSize, n, true) <==> holeSize + (WORD_LIMIT - n) >= AlignOffset(a))
  {
  }

  /** What is handed out lies inside the hole, whether or not the pieces beside it are long enough. */
  lemma FitsInside(a: nat, holeSize: nat, n: nat, align: bool)
    requires PAGE <= a && holeSize < SIGN_LIMIT && n < SIGN_LIMIT && FitsSize(a, holeSize, n, align)
    ensures var pos := a + if align then Lead(a) else 0;
            a <= pos + HDR_SIZE && pos + n <= a + holeSize
  {
    OffsetIsLead(a);
  }

  /** What passing the test promises the carving. */
  lemma FitsEnough(a: nat, holeSize: nat, n: nat, align: bool)
    requires PAGE <= a && holeSize < SIGN_LIMIT && n < SIGN_LIMIT && FitsSize(a, holeSize, n, align)
    ensures holeSize >= n && 0 < Lead(a) + HDR_SIZE <= PAGE
    ensures align && Lead(a) >= TAGS_SIZE ==> holeSize >= Lead(a) + n
  {
    OffsetIsLead(a);
  }

  /** A block takes the whole hole when too little would remain for another hole (heap.c:288-291). */
  function Taken(holeSize: nat, n: nat): nat
  {
    if holeSize < n + TAGS_SIZE then holeSize else n
  }

  /** Carving is right exactly under this condition: an unaligned request always; an aligned one if the piece in
      front has room for its tags and the piece behind is empty or has room for its tags. */
  predicate CarveOk(a: nat, holeSize: nat, n: nat, align: bool)
  {
    align ==> Lead(a) >= TAGS_SIZE && (holeSize == Lead(a) + n || holeSize >= Lead(a) + n + TAGS_SIZE)
  }

  /** The blocks that take the place of the hole. */
  function Pieces(a: nat, holeSize: nat, n: nat, align: bool): seq<Block>
    requires CarveOk(a, holeSize, n, align) && holeSize >= n
  {
    var front := if align then Lead(a) else 0;
    var take := if align then n else Taken(holeSize, n);
    (if align then [Block(a, front, true)] else [])
    + [Block(a + front, take, false)]
    + (if holeSize > front + take then [Block(a + front + take, holeSize - front - take, true)] else [])
  }

  /** The block handed out: the pieces partition the hole, the block is long enough and aligned if asked. */
  function Given(a: nat, holeSize: nat, n: nat, align: bool): (b: Block)
    requires CarveOk(a, holeSize, n, align) && holeSize >= n >= TAGS_SIZE
    ensures Pieces(a, holeSize, n, align) != [] && b in Pieces(a, holeSize, n, align)
    ensures !b.hole && b.size >= n
    ensures align ==> b.Payload() % PAGE == 0
  {
    if align then
      assert Pieces(a, holeSize, n, align)[1] == Block(a + Lead(a), n, false);
      assert (a + Lead(a) + HDR_SIZE) % PAGE == 0 by {
        assert a + Lead(a) + HDR_SIZE == a - a % PAGE + PAGE;
      }
      Block(a + Lead(a), n, false)
    else
      assert Pieces(a, holeSize, n, align)[0] == Block(a, Taken(holeSize, n), false);
      Block(a, Taken(holeSize, n), false)
  }

  lemma PiecesPartition(a: nat, holeSize: nat, n: nat, align: bool)
    requires CarveOk(a, holeSize, n, align) && holeSize >= n >= TAGS_SIZE
    ensures Tiles(Pieces(a, holeSize, n, align), a, a + holeSize)
    ensures NoAdjacentHoles(Pieces(a, holeSize, n, align))
    ensures Live(Pieces(a, holeSize, n, align)) == {Given(a, holeSize, n, align)}
  {
  }

  /** The list after carving block k. */
  function Carved(bs: seq<Block>, k: nat, n: nat, align: bool): seq<Block>
    requires k < |bs| && bs[k].size >= n && CarveOk(bs[k].addr, bs[k].size, n, align)
  {
    Splice(bs, k, k + 1, Pieces(bs[k].addr, bs[k].size, n, align))
  }

  /** After the carving there is a sound reading of the heap that keeps every live block and adds one of at least
      n bytes at p. */
  ghost predicate KeepsAlloc(s: State, s': State, n: nat, p: int)
  {
    exists bs: seq<Block>, b: Block ::
      && Inv(s'.(blocks := bs))
      && !b.hole && b.Payload() == p && b.size >= n && b !in Live(s.blocks)
      && Live(bs) == Live(s.blocks) + {b}
  }

  /** The other half of CarveOk: when it fails, no reading of what alloc leaves behind is sound. */
  lemma CarveBreaks(s: State, s': State, k: nat, n: nat, p: int)
    requires Inv(s) && k < |s.blocks| && s.blocks[k].hole
    requires TAGS_SIZE <= n < SIGN_LIMIT && FitsSize(s.blocks[k].addr, s.blocks[k].size, n, true)
    requires !CarveOk(s.blocks[k].addr, s.blocks[k].size, n, true)
    requires s'.end == s.end && s'.start == s.start && s.blocks[k].addr in s'.index
    requires p == s.blocks[k].addr + Lead(s.blocks[k].addr) + HDR_SIZE
    requires var a := s.blocks[k].addr; Lead(a) >= TAGS_SIZE ==> a + Lead(a) + n in s'.index
    ensures !KeepsAlloc(s, s', n, p)
  {
    hide TagsOk, HoleFootersInside, IndexOk;
    var a, holeSize := s.blocks[k].addr, s.blocks[k].size;
    TilesOrdered(s.blocks, s.start, s.end);
    OffsetIsLead(a);
    FitsMeaning(a, holeSize, n);
    forall bs: seq<Block>, b: Block | Inv(s'.(blocks := bs)) && !b.hole && b.Payload() == p && b.size >= n
      ensures Live(bs) != Live(s.blocks) + {b}
    {
      var h := HoleOf(s'.(blocks := bs), if Lead(a) < TAGS_SIZE then a else a + Lead(a) + n);
      CarveClash(s.blocks, bs, s.start, s.end, k, n, bs[h], b);
    }
  }

  /** The hole the code leaves behind overlaps the block handed out, the next live block or the end of the heap. */
  lemma CarveClash(bs: seq<Block>, bs': seq<Block>, lo: nat, hi: nat, k: nat, n: nat, hole: Block, b: Block)
    requires Tiles(bs, lo, hi) && NoAdjacentHoles(bs) && Tiles(bs', lo, hi)
    requires k < |bs| && bs[k].hole
    requires hole in bs' && hole.hole && !b.hole && b.size >= TAGS_SIZE
    requires var a, holeSize := bs[k].addr, bs[k].size;
             && b.addr == a + Lead(a)
             && hole.addr == (if Lead(a) < TAGS_SIZE then a else a + Lead(a) + n)
             && (Lead(a) < TAGS_SIZE || Lead(a) + n < holeSize < Lead(a) + n + TAGS_SIZE)
    ensures Live(bs') != Live(bs) + {b}
  {
    var a := bs[k].addr;
    TilesOrdered(bs', lo, hi);
    if Lead(a) < TAGS_SIZE {
      if b in bs' {
        BlocksDisjoint(bs', lo, hi, hole, b);
      }
    } else if k + 1 < |bs| {
      assert bs[k + 1] in Live(bs);
      if bs[k + 1] in bs' {
        BlocksDisjoint(bs', lo, hi, hole, bs[k + 1]);
      }
    }
  }

  /** What the carving did when CarveOk held: hole k became the pieces, memory outside it is as before, and the
      heap is sound. */
  ghost predicate CarveStep(s: State, s': State, k: nat, n: nat, align: bool, p: nat)
  {
    && k < |s.blocks| && s.blocks[k].hole && s.blocks[k].size >= n >= TAGS_SIZE
    && CarveOk(s.blocks[k].addr, s.blocks[k].size, n, align)
    && s'.blocks == Carved(s.blocks, k, n, align)
    && p == Given(s.blocks[k].addr, s.blocks[k].size, n, align).Payload()
    && SameOutside(s.ram, s'.ram, s.blocks[k].addr, s.blocks[k].End())
    && s'.start == s.start && s'.end == s.end && s'.max == s.max
    && Inv(s')
  }

  /** How carving hole i changes the index: the hole goes unless an aligned carving shrinks it in place, and the
      hole behind the block comes. */
  ghost predicate CarveIndex(before: seq<nat>, after: seq<nat>, i: nat, a: nat, holeSize: nat, n: nat, align: bool)
    requires i < |before| && CarveOk(a, holeSize, n, align)
  {
    var kept := if align then before else Removed(before, i);
    var used: nat := if align then Lead(a) + n else Taken(holeSize, n);
    if holeSize == used then after == kept
    else IsInsertion(kept, after, a + used)
  }

  lemma CarveIndexMembers(s: State, after: seq<nat>, i: nat, k: nat, n: nat, align: bool)
    requires Inv(s) && k < |s.blocks| && s.blocks[k].hole && i < |s.index| && s.index[i] == s.blocks[k].addr
    requires s.blocks[k].size >= n >= TAGS_SIZE && CarveOk(s.blocks[k].addr, s.blocks[k].size, n, align)
    requires CarveIndex(s.index, after, i, s.blocks[k].addr, s.blocks[k].size, n, align)
    ensures Distinct(after)
    ensures forall a :: a in after <==>
              (a in s.index && a !in HoleAddrs(s.blocks[k..k + 1]))
              || a in HoleAddrs(Pieces(s.blocks[k].addr, s.blocks[k].size, n, align))
  {
    hide TagsOk, HoleFootersInside, Tiles, NoAdjacentHoles, Pieces, HoleAddrs, CarveOk, Lead, Removed, IsInsertion;
    var a, holeSize := s.blocks[k].addr, s.blocks[k].size;
    OneHoleAddr(s.blocks, k);
    var kept := if align then s.index else Removed(s.index, i);
    RemovedMembers(s.index, i);
    PieceHoles(a, holeSize, n, align);
    var used := if align then Lead(a) + n else Taken(holeSize, n);
    if holeSize != used {
      CarvedRest(s, k, n, align);
      InsertedMembers(kept, after, a + used);
    }
  }

  lemma OneHoleAddr(bs: seq<Block>, k: nat)
    requires k < |bs| && bs[k].hole
    ensures HoleAddrs(bs[k..k + 1]) == {bs[k].addr}
  {
    assert bs[k..k + 1] == [bs[k]];
    assert bs[k] in [bs[k]];
  }

  /** Where the hole behind the block comes there was no hole before. */
  lemma CarvedRest(s: State, k: nat, n: nat, align: bool)
    requires Inv(s) && k < |s.blocks| && s.blocks[k].hole
    requires s.blocks[k].size >= n >= TAGS_SIZE && CarveOk(s.blocks[k].addr, s.blocks[k].size, n, align)
    ensures var a, holeSize := s.blocks[k].addr, s.blocks[k].size;
            var used := if align then Lead(a) + n else Taken(holeSize, n);
            0 < used <= holeSize && (used < holeSize ==> a + used !in s.index)
  {
    hide TagsOk, HoleFootersInside, NoAdjacentHoles;
    var a, holeSize := s.blocks[k].addr, s.blocks[k].size;
    var used: nat := if align then Lead(a) + n else Taken(holeSize, n);
    if used < holeSize && a + used in s.index {
      var h := HoleOf(s, a + used);
      BlocksDisjoint(s.blocks, s.start, s.end, s.blocks[h], s.blocks[k]);
    }
  }

  lemma PieceHoles(a: nat, holeSize: nat, n: nat, align: bool)
    requires CarveOk(a, holeSize, n, align) && holeSize >= n >= TAGS_SIZE
    ensures var used := if align then Lead(a) + n else Taken(holeSize, n);
            HoleAddrs(Pieces(a, holeSize, n, align))
            == (if align then {a} else {}) + (if holeSize > used then {a + used} else {})
  {
    var used := if align then Lead(a) + n else Taken(holeSize, n);
    var pieces := Pieces(a, holeSize, n, align);
    if align {
      assert pieces[0] in pieces;
    }
    if holeSize > used {
      assert pieces[|pieces| - 1] in pieces;
    }
  }

  /** Every piece has both tags. */
  ghost predicate PiecesTagged(ram: Ram, pieces: seq<Block>)
  {
    TagsOk(ram, pieces) && forall i | 0 <= i < |pieces| :: Sealed(ram, pieces[i])
  }

  lemma NotLiveYet(s: State, k: nat, n: nat, align: bool)
    requires Inv(s) && k < |s.blocks| && s.blocks[k].hole
    requires s.blocks[k].size >= n >= TAGS_SIZE && CarveOk(s.blocks[k].addr, s.blocks[k].size, n, align)
    ensures Given(s.blocks[k].addr, s.blocks[k].size, n, align) !in Live(s.blocks)
  {
    hide TagsOk, HoleFootersInside, IndexOk, NoAdjacentHoles;
    var b := Given(s.blocks[k].addr, s.blocks[k].size, n, align);
    if b in s.blocks {
      BlocksDisjoint(s.blocks, s.start, s.end, b, s.blocks[k]);
    }
  }

  lemma CarveKeeps(s: State, s': State, i: nat, k: nat, n: nat, align: bool)
    requires Inv(s) && k < |s.blocks| && s.blocks[k].hole && i < |s.index| && s.index[i] == s.blocks[k].addr
    requires s.blocks[k].size >= n >= TAGS_SIZE && CarveOk(s.blocks[k].addr, s.blocks[k].size, n, align)
    requires CarveIndex(s.index, s'.index, i, s.blocks[k].addr, s.blocks[k].size, n, align)
    requires PiecesTagged(s'.ram, Pieces(s.blocks[k].addr, s.blocks[k].size, n, align))
    requires SameOutside(s.ram, s'.ram, s.blocks[k].addr, s.blocks[k].End())
    requires s'.start == s.start && s'.end == s.end && s'.max == s.max
    requires s'.blocks == Carved(s.blocks, k, n, align)
    ensures var p := Given(s.blocks[k].addr, s.blocks[k].size, n, align).Payload();
            CarveStep(s, s', k, n, align, p) && KeepsAlloc(s, s', n, p)
    ensures AllSealed(s.ram, s.blocks) ==> AllSealed(s'.ram, s'.blocks)
    ensures Live(s'.blocks) == Live(s.blocks) + {Given(s.blocks[k].addr, s.blocks[k].size, n, align)}
  {
    hide HeaderAt, FooterAt, SameOutside, PiecesTagged, AllSealed, TagsOk;
    var bs, a, holeSize := s.blocks, s.blocks[k].addr, s.blocks[k].size;
    var pieces := Pieces(a, holeSize, n, align);
    PiecesPartition(a, holeSize, n, align);
    CarveKeepsInv(s, s', i, k, n, align);
    assert bs[k..k + 1] == [bs[k]];
    SpliceLive(bs, s.start, s.end, k, k + 1, pieces);
    assert Live(s'.blocks) == Live(bs) + {Given(a, holeSize, n, align)};
    hide Inv, Tiles;
    NotLiveYet(s, k, n, align);
    assert s'.(blocks := s'.blocks) == s';
  }

  lemma CarveKeepsInv(s: State, s': State, i: nat, k: nat, n: nat, align: bool)
    requires Inv(s) && k < |s.blocks| && s.blocks[k].hole && i < |s.index| && s.index[i] == s.blocks[k].addr
    requires s.blocks[k].size >= n >= TAGS_SIZE && CarveOk(s.blocks[k].addr, s.blocks[k].size, n, align)
    requires CarveIndex(s.index, s'.index, i, s.blocks[k].addr, s.blocks[k].size, n, align)
    requires PiecesTagged(s'.ram, Pieces(s.blocks[k].addr, s.blocks[k].size, n, align))
    requires SameOutside(s.ram, s'.ram, s.blocks[k].addr, s.blocks[k].End())
    requires s'.start == s.start && s'.end == s.end && s'.max == s.max
    requires s'.blocks == Carved(s.blocks, k, n, align)
    ensures Inv(s') && (AllSealed(s.ram, s.blocks) ==> AllSealed(s'.ram, s'.blocks))
  {
    hide HeaderAt, FooterAt;
    var a, holeSize := s.blocks[k].addr, s.blocks[k].size;
    var pieces := Pieces(a, holeSize, n, align);
    PiecesPartition(a, holeSize, n, align);
    CarveIndexMembers(s, s'.index, i, k, n, align);
    ReplaceKeepsInv(s, s', k, k + 1, pieces, a + holeSize, a + holeSize);
    if AllSealed(s.ram, s.blocks) {
      SpliceSealed(s.ram, s'.ram, s.blocks, s.start, s.end, k, k + 1, pieces, a + holeSize);
    }
  }

  /** What carving hole k, index entry i, does to a sound heap: the result is sound, with one live block more,
      exactly when CarveOk holds of the hole. */
  ghost predicate CarveOutcome(s: State, s': State, i: nat, k: nat, n: nat, align: bool, p: nat)
  {
    && k < |s.blocks| && i < |s.index| && s.blocks[k].hole && s.blocks[k].addr == s.index[i]
    && s'.start == s.start && s'.end == s.end && s'.max == s.max
    && (CarveOk(s.blocks[k].addr, s.blocks[k].size, n, align) <==> KeepsAlloc(s, s', n, p))
    && (CarveOk(s.blocks[k].addr, s.blocks[k].size, n, align) ==>
          && CarveStep(s, s', k, n, align, p)
          && CarveIndex(s.index, s'.index, i, s.index[i], s.blocks[k].size, n, align)
          && (AllSealed(s.ram, s.blocks) ==> AllSealed(s'.ram, s'.blocks)))
  }

  // ---- growing the heap (heap.c:233-276)

  /** How much longer the heap gets when no hole fits n bytes (heap.c:155-158, 238). */
  function Growth(n: nat): nat
  {
    n / PAGE * PAGE + PAGE
  }

  /** The rounding of expand as it is done in 32 bits (heap.c:155-158). */
  function Rounded(length: nat): nat
    requires length < WORD_LIMIT
  {
    if length >= PAGE then Wrap(length - length % PAGE + PAGE) else length
  }

  /** The two assertions of expand, reached with the length alloc computes in 32 bits (heap.c:152-161, 238). */
  predicate ExpandPasses(start: nat, oldLength: nat, n: nat, max: nat)
  {
    var length := Wrap(oldLength + n);
    length > oldLength && Wrap(start + Rounded(length)) <= max
  }

  /** On the whole way from the request to the limit check, the sum of old length and request, its rounding and the sum
      with the start can wrap. The assertions pass exactly when the grown heap stays within its limit, unless the
      grown heap would end at or past 2^32 without the first sum wrapping: then they pass and should not. */
  lemma ExpandChecksRight(start: nat, oldLength: nat, n: nat, max: nat)
    requires 0 < oldLength && oldLength % PAGE == 0 && start + oldLength <= max < WORD_LIMIT && 0 < n < WORD_LIMIT
    ensures (ExpandPasses(start, oldLength, n, max) <==> start + oldLength + Growth(n) <= max)
            <==> (start + oldLength + Growth(n) < WORD_LIMIT || oldLength + n >= WORD_LIMIT)
    ensures start + oldLength + Growth(n) >= WORD_LIMIT > oldLength + n ==> ExpandPasses(start, oldLength, n, max)
  {
    GrowthOfLength(oldLength, n);
  }

  lemma GrowthEnough(n: nat)
    ensures Growth(n) % PAGE == 0 && Growth(n) > n && Growth(n) >= PAGE
  {
  }

  lemma GrowthOfLength(length: nat, n: nat)
    requires length % PAGE == 0
    ensures (length + n) / PAGE * PAGE + PAGE == length + Growth(n)
  {
  }

  /** The new room is added to the highest hole, which is right exactly when that hole ends the heap or there is
      no hole at all. */
  ghost predicate GrowOk(bs: seq<Block>)
    requires |bs| > 0
  {
    bs[|bs| - 1].hole || HoleAddrs(bs) == {}
  }

  function Grown(bs: seq<Block>, g: nat): seq<Block>
    requires |bs| > 0
  {
    var last := bs[|bs| - 1];
    if g == 0 then bs
    else if last.hole then Splice(bs, |bs| - 1, |bs|, [last.(size := last.size + g)])
    else Splice(bs, |bs| - 1, |bs|, [last, Block(last.End(), g, true)])
  }

  /** Growing changes no live block. */
  lemma GrownLive(bs: seq<Block>, lo: nat, hi: nat, g: nat)
    requires Tiles(bs, lo, hi)
    ensures Live(Grown(bs, g)) == Live(bs)
  {
    var last := bs[|bs| - 1];
    assert bs[|bs| - 1..] == [last];
    if g > 0 {
      SpliceLive(bs, lo, hi, |bs| - 1, |bs|,
                 if last.hole then [last.(size := last.size + g)] else [last, Block(last.End(), g, true)]);
    }
  }

  /** Growing twice is growing once by the sum. */
  lemma GrownTwice(bs: seq<Block>, g: nat, g': nat)
    requires |bs| > 0
    ensures |Grown(bs, g)| > 0 && Grown(Grown(bs, g), g') == Grown(bs, g + g')
  {
  }

  /** The other half of GrowOk: adding the room to a hole that does not end the heap leaves nothing sound. */
  lemma GrowBreaks(s: State, s': State, k: nat)
    requires Inv(s) && !s.blocks[|s.blocks| - 1].hole
    requires k < |s.blocks| && s.blocks[k].hole
    requires s'.index == s.index && HeaderAt(s'.ram, s.blocks[k].addr).size > s.blocks[k].size
    ensures !Sound(s', Live(s.blocks))
  {
    TilesOrdered(s.blocks, s.start, s.end);
    forall bs: seq<Block> | Inv(s'.(blocks := bs))
      ensures Live(bs) != Live(s.blocks)
    {
      var next := s.blocks[k + 1];
      assert s.blocks[k] in s.blocks && s.blocks[k].addr in s'.index;
      var h := HoleOf(s'.(blocks := bs), s.blocks[k].addr);
      assert next in Live(s.blocks);
      if next in bs {
        BlocksDisjoint(bs, s'.start, s'.end, bs[h], next);
      }
    }
  }

  // ---- releasing a block (heap.c:367-419)

  function MergeLo(bs: seq<Block>, k: nat): nat
    requires k < |bs|
  {
    if k > 0 && bs[k - 1].hole then k - 1 else k
  }

  function MergeHi(bs: seq<Block>, k: nat): nat
    requires k < |bs|
  {
    if k + 1 < |bs| && bs[k + 1].hole then k + 2 else k + 1
  }

  /** The released block together with the holes beside it. */
  function Merged(bs: seq<Block>, k: nat): (b: Block)
    requires k < |bs|
  {
    var lo, hi := bs[MergeLo(bs, k)], bs[MergeHi(bs, k) - 1];
    Block(lo.addr, if lo.addr <= hi.End() then hi.End() - lo.addr else 0, true)
  }

  predicate ReachesEnd(bs: seq<Block>, k: nat)
    requires k < |bs|
  {
    MergeHi(bs, k) == |bs|
  }

  /** The footer of a hole to the left names that hole, so the merge finds its header. */
  ghost predicate LeftOk(s: State, k: nat)
    requires k < |s.blocks|
  {
    k > 0 && s.blocks[k - 1].hole ==> Sealed(s.ram, s.blocks[k - 1])
  }

  /** The contraction works when enough of the last hole lies below the minimum heap size. */
  predicate EndOk(s: State, k: nat)
    requires k < |s.blocks|
  {
    ReachesEnd(s.blocks, k) ==> Merged(s.blocks, k).addr + TAGS_SIZE <= s.start + MIN_SIZE
  }

  /** What lies just past the end of the heap looks like the header of a hole. */
  ghost predicate GhostHole(s: State, k: nat)
    requires s.end + HDR_SIZE <= WORD_LIMIT
  {
    && k + 1 == |s.blocks|
    && HeaderAt(s.ram, s.end).magic == HDR_MAGIC && HeaderAt(s.ram, s.end).isHole != 0
  }

  /** The length contract leaves the heap with, given the offset of the last hole (heap.c:188-196): an odd page becomes
      two pages, the mask keeping no other bit, and nothing stays below the minimum. */
  function ContractLength(offset: nat): (length: nat)
    ensures length == if offset < 0x7_0000 || offset % 0x2000 >= 0x1000 then 0x7_0000 else offset
  {
    var rounded := if offset / PAGE % 2 == 1 then PAGE + PAGE else offset;
    if rounded < MIN_SIZE then MIN_SIZE else rounded
  }

  /** The comment asks for the length to be aligned to the next page boundary. The code does so exactly for lengths up
      to the minimum and for those on an even page boundary. */
  lemma ContractRounds(offset: nat)
    ensures var aligned := (offset + 0xFFF) / 0x1000 * 0x1000;
            ContractLength(offset) == (if aligned < 0x7_0000 then 0x7_0000 else aligned)
            <==> offset <= 0x7_0000 || offset % 0x2000 == 0
  {
  }

  function FreedEnd(s: State, k: nat): nat
    requires k < |s.blocks|
  {
    if ReachesEnd(s.blocks, k) then s.start + MIN_SIZE else s.end
  }

  /** The list after block k is released. */
  function Freed(s: State, k: nat): seq<Block>
    requires k < |s.blocks|
  {
    var m := Merged(s.blocks, k);
    var size := if ReachesEnd(s.blocks, k) && m.addr <= s.start + MIN_SIZE then s.start + MIN_SIZE - m.addr else m.size;
    Splice(s.blocks, MergeLo(s.blocks, k), MergeHi(s.blocks, k), [m.(size := size)])
  }

  /** When the last hole starts too high, the contracted heap ends before the hole's tags fit, whatever the index
      and memory look like. */
  lemma EndBreaks(s: State, s': State, k: nat, live: set<Block>)
    requires Inv(s) && k < |s.blocks| && s'.start == s.start
    requires Merged(s.blocks, k).addr in s'.index && s'.end < Merged(s.blocks, k).addr + TAGS_SIZE
    ensures !Sound(s', live)
  {
    forall bs: seq<Block> | Inv(s'.(blocks := bs))
      ensures false
    {
      var h := HoleOf(s'.(blocks := bs), Merged(s.blocks, k).addr);
    }
  }

  /** When the footer of the hole to the left does not name it, the released block is lost or left beside a hole. */
  lemma LeftBreaks(s: State, s': State, k: nat)
    requires Inv(s) && 0 < k < |s.blocks| && s.blocks[k - 1].hole && !s.blocks[k].hole
    requires s'.end == s.end && s'.start == s.start
    requires s.blocks[k - 1].addr in s'.index
    requires HeaderAt(s'.ram, s.blocks[k - 1].addr).size == s.blocks[k - 1].size
    ensures !Sound(s', Live(s.blocks) - {s.blocks[k]})
  {
    forall bs: seq<Block> | Inv(s'.(blocks := bs))
      ensures Live(bs) != Live(s.blocks) - {s.blocks[k]}
    {
      var h := HoleOf(s'.(blocks := bs), s.blocks[k - 1].addr);
      TilesOrdered(s.blocks, s.start, s.end);
      LeftClash(s.blocks, bs, s.start, s.end, s.end, k, h);
    }
  }

  /** After the hole to the left comes a block where the released one was; it can be neither a hole nor live. */
  lemma LeftClash(bs: seq<Block>, bs': seq<Block>, lo: nat, hi: nat, hi': nat, k: nat, h: nat)
    requires Tiles(bs, lo, hi) && Tiles(bs', lo, hi') && NoAdjacentHoles(bs')
    requires 0 < k < |bs| && h < |bs'| && bs'[h] == bs[k - 1] && bs'[h].hole && bs[k].addr < hi'
    ensures Live(bs') != Live(bs) - {bs[k]}
  {
    TilesOrdered(bs, lo, hi);
    var next := bs'[h + 1];
    assert next in Live(bs');
    if next in Live(bs) {
      BlocksDisjoint(bs, lo, hi, next, bs[k]);
    }
  }

  // ---- states the code can run on, sound or not

  /** Every index entry lies in the heap with the whole of its hole, and headers do not overlap. */
  ghost predicate Runnable(s: State)
  {
    && Bounds(s)
    && (forall i | 0 <= i < |s.index| ::
          && s.start <= s.index[i] && s.index[i] + HDR_SIZE <= s.end
          && s.index[i] + HeaderAt(s.ram, s.index[i]).size <= s.end)
    && (forall i, j | 0 <= i < |s.index| && 0 <= j < |s.index| && s.index[i] < s.index[j] ::
          s.index[i] + HDR_SIZE <= s.index[j])
  }

  lemma InvRunnable(s: State)
    requires Inv(s)
    ensures Runnable(s)
  {
    hide HeaderAt;
    forall i | 0 <= i < |s.index|
      ensures s.start <= s.index[i] && s.index[i] + HDR_SIZE <= s.end
      ensures s.index[i] + HeaderAt(s.ram, s.index[i]).size <= s.end
    {
      var k := HoleOf(s, s.index[i]);
    }
    forall i, j | 0 <= i < |s.index| && 0 <= j < |s.index| && s.index[i] < s.index[j]
      ensures s.index[i] + HDR_SIZE <= s.index[j]
    {
      var k := HoleOf(s, s.index[i]);
      var l := HoleOf(s, s.index[j]);
      BlocksDisjoint(s.blocks, s.start, s.end, s.blocks[k], s.blocks[l]);
    }
  }

  // ---- what growing leaves behind

  /** The highest entry of the index. */
  ghost predicate IsTop(index: seq<nat>, i: nat)
  {
    i < |index| && forall j | 0 <= j < |index| :: index[j] <= index[i]
  }

  /** The room is added to the highest hole of the index, or becomes a hole of its own. */
  ghost predicate GrowWork(s: State, s': State, i: int, g: nat)
  {
    && s'.start == s.start && s'.max == s.max && s'.end == s.end + g && Bounds(s')
    && if i == -1 then
         && s.index == [] && s'.index == [s.end]
         && HeaderAt(s'.ram, s.end) == Header(HDR_MAGIC, 1, g)
         && FooterAt(s'.ram, s'.end - FTR_SIZE) == Footer(FTR_MAGIC, s.end)
         && SameOutside(s.ram, s'.ram, s.end, s'.end)
       else
         && 0 <= i && IsTop(s.index, i) && s'.index == s.index
         && s.start <= s.index[i] && s.index[i] + HDR_SIZE <= s.end
         && var a := s.index[i];
            var size := HeaderAt(s.ram, a).size;
            && a + size <= s.end
            && HeaderAt(s'.ram, a) == HeaderAt(s.ram, a).(size := size + g)
            && FooterAt(s'.ram, a + size + g - FTR_SIZE) == Footer(FTR_MAGIC, a)
            && SameOutside(s.ram, s'.ram, a, a + size + g)
            && TagsKept(s.ram, s'.ram, a, a + size + g)
  }

  lemma GrowWorkAnyBlocks(s: State, s': State, i: int, g: nat, bs: seq<Block>)
    requires GrowWork(s, s', i, g)
    ensures GrowWork(s, s'.(blocks := bs), i, g)
    ensures Runnable(s') ==> Runnable(s'.(blocks := bs))
  {
  }

  /** In a sound heap the growing leaves a sound heap with the same live blocks exactly when GrowOk holds. */
  ghost predicate GrowOutcome(s: State, s': State, g: nat)
  {
    && |s.blocks| > 0
    && (GrowOk(s.blocks) <==> Sound(s', Live(s.blocks)))
    && (GrowOk(s.blocks) ==>
          && Inv(s') && s'.blocks == Grown(s.blocks, g)
          && s'.start == s.start && s'.max == s.max && s'.end == s.end + g
          && Untouched(s.ram, s'.ram, Live(s.blocks))
          && (AllSealed(s.ram, s.blocks) ==> AllSealed(s'.ram, s'.blocks)))
  }

  /** The highest hole of the index is the last block, if that is a hole. */
  lemma TopIsLast(s: State, i: nat)
    requires Inv(s) && IsTop(s.index, i)
    ensures s.blocks[|s.blocks| - 1].hole ==> s.index[i] == s.blocks[|s.blocks| - 1].addr
  {
    hide TagsOk, HoleFootersInside;
    var last := s.blocks[|s.blocks| - 1];
    var k := HoleOf(s, s.index[i]);
    TilesOrdered(s.blocks, s.start, s.end);
    if last.hole {
      assert last in s.blocks && last.addr in s.index;
    }
  }

  lemma GrowLastHole(s: State, s': State, i: nat, g: nat)
    requires Inv(s) && GrowWork(s, s', i, g) && g > 0
    requires s.blocks[|s.blocks| - 1].hole && s'.blocks == Grown(s.blocks, g)
    ensures Inv(s') && Untouched(s.ram, s'.ram, Live(s.blocks))
    ensures AllSealed(s.ram, s.blocks) ==> AllSealed(s'.ram, s'.blocks)
  {
    hide HeaderAt, FooterAt;
    var bs := s.blocks;
    var last := bs[|bs| - 1];
    TopIsLast(s, i);
    TilesOrdered(bs, s.start, s.end);
    assert TagOk(s.ram, last);
    var mid := [last.(size := last.size + g)];
    assert bs[|bs| - 1..] == [last] && last in [last] && mid[0] in mid;
    assert HoleAddrs([last]) == HoleAddrs(mid) == {last.addr};
    ReplaceKeepsInv(s, s', |bs| - 1, |bs|, mid, s'.end, s'.end);
    if AllSealed(s.ram, bs) {
      SpliceSealed(s.ram, s'.ram, bs, s.start, s.end, |bs| - 1, |bs|, mid, s'.end);
    }
  }

  lemma GrowNewHole(s: State, s': State, g: nat)
    requires Inv(s) && GrowWork(s, s', -1, g) && g >= TAGS_SIZE
    requires s'.blocks == Grown(s.blocks, g)
    ensures Inv(s') && Untouched(s.ram, s'.ram, Live(s.blocks))
    ensures AllSealed(s.ram, s.blocks) ==> AllSealed(s'.ram, s'.blocks)
  {
    hide HeaderAt, FooterAt;
    var bs := s.blocks;
    var last := bs[|bs| - 1];
    TilesOrdered(bs, s.start, s.end);
    assert last in bs && (last.hole ==> last.addr in s.index);
    var fresh' := Block(s.end, g, true);
    var mid := [last, fresh'];
    assert TagOk(s.ram, last);
    TagKept(s.ram, s'.ram, s.end, s'.end, last);
    assert bs[|bs| - 1..] == [last] && last in [last] && mid[1] in mid;
    assert HoleAddrs([last]) == {} && HoleAddrs(mid) == {s.end};
    ReplaceKeepsInv(s, s', |bs| - 1, |bs|, mid, s'.end, s'.end);
    if AllSealed(s.ram, bs) {
      SpliceSealed(s.ram, s'.ram, bs, s.start, s.end, |bs| - 1, |bs|, mid, s'.end);
    }
  }

  lemma GrowResult(s: State, s': State, i: int, g: nat) returns (bs: seq<Block>)
    requires Inv(s) && GrowWork(s, s', i, g) && g >= TAGS_SIZE
    ensures GrowOutcome(s, s'.(blocks := bs), g)
  {
    hide HeaderAt, FooterAt, TagsOk, HoleFootersInside;
    var last := s.blocks[|s.blocks| - 1];
    bs := Grown(s.blocks, g);
    if i == -1 {
      GrowNewHole(s, s'.(blocks := bs), g);
      assert HoleAddrs(s.blocks) == {};
    } else if last.hole {
      GrowLastHole(s, s'.(blocks := bs), i, g);
    } else {
      var k := HoleOf(s, s.index[i]);
      assert s.index[i] in HoleAddrs(s.blocks);
      GrowBreaks(s, s', k);
    }
    if GrowOk(s.blocks) {
      GrownLive(s.blocks, s.start, s.end, g);
      assert s'.(blocks := bs).(blocks := bs) == s'.(blocks := bs);
    }
  }
}
