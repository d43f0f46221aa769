/** The kernel heap as the code runs it (heap.c): tags written into memory, an index updated in place, pages
    taken and returned. */
module Heap {
  import opened Memory
  import opened SortedArrays
  import opened Blocks
  import opened HeapSpec
  import opened Paging
  import opened HeapPages
  import opened HeapAlloc
  import opened HeapOrder
  import opened HeapFree
  import opened HeapMoves

  class VmHeap {
    const mem: Store
    const index: SortedArray
    const pager: Pager
    const start: nat
    const max: nat
    const su: bool
    const ro: bool
    var end: nat
    ghost var blocks: seq<Block>

    /** The parts are separate objects, the pages that back the heap can be found, and no two pages share a frame. */
    ghost predicate Ready()
      reads this, index, pager, pager.frames, pager.tables
    {
      && index.Valid() && pager.Valid()
      && index.words != pager.frames && index.words != pager.tblphys
      && pager.frames.Length * WORD_BITS <= PAGE
      && Owned(pager.Words(), pager.Dir())
      && TablesMade(pager.Dir(), start, max)
    }

    ghost function Snap(): State
      reads this, mem, index, index.words
      requires index.Valid()
    {
      State(mem.ram, index.Contents(), blocks, start, end, max)
    }

    /** init_heap: the index takes the first 0x80000 bytes and the rounding skips one page more; the rest is one
        hole without a footer. */
    constructor InitHeap(mem: Store, words: array<nat>, pager: Pager, start: nat, end: nat, max: nat,
                         su: bool, ro: bool)
      requires start % PAGE == 0 && end % PAGE == 0
      requires INDEX_SIZE < words.Length && words != pager.frames && words != pager.tblphys
      requires pager.Valid() && pager.frames.Length * WORD_BITS <= PAGE && Owned(pager.Words(), pager.Dir())
      requires TablesMade(pager.Dir(), start, max)
      requires var first := start + 4 * INDEX_SIZE + PAGE;
               && first < end <= max <= WORD_LIMIT - PAGE && first + MIN_SIZE <= max && max - start < SIGN_LIMIT
               && Word(mem.ram, first - FTR_SIZE) != FTR_MAGIC
      modifies mem, words
      ensures this.mem == mem && this.pager == pager && fresh(index) && index.words == words
      ensures index.maxsize == 0x2_0000
      ensures this.start == start + 0x8_1000 && this.end == end && this.max == max
      ensures this.su == su && this.ro == ro
      ensures blocks == [Block(this.start, end - this.start, true)]
      ensures Ready() && Inv(Snap()) && AllSealed(mem.ram, blocks)
      ensures Word(mem.ram, this.start) == 0x1238_90AB && Word(mem.ram, this.start + 4) == 1
      ensures Word(mem.ram, this.start + 8) == end - this.start
    {
      hide HeaderAt, Word, Inserted, IsInsertion, Inv, AllSealed;
      this.mem, this.pager := mem, pager;
      this.index := new SortedArray.Place(words, INDEX_SIZE);
      var first := start + 4 * INDEX_SIZE;
      if first >= PAGE {
        first := first - first % PAGE + PAGE;
      }
      this.start, this.end, this.max, this.su, this.ro := first, end, max, su, ro;
      new;
      mem.WriteHeader(first, Header(HDR_MAGIC, 1, end - first));
      HeaderWords(mem.ram, first);
      WordUnchanged(old(mem.ram), mem.ram, first - FTR_SIZE);
      var ok := index.Insert(first, HeaderCmp(mem.ram));
      blocks := [Block(first, end - first, true)];
      OneInserted(index.Contents(), first);
      OneHoleSound(Snap());
    }

    // ---- searching

    /** find_smallest_hole: the first hole of the index that passes the test, or -1. */
    method FindSmallestHole(n: nat, align: bool) returns (i: int)
      requires index.Valid() && n < WORD_LIMIT && Runnable(Snap())
      ensures -1 <= i < index.size
      ensures i == -1 <==> NoFit(Snap(), n, align)
      ensures i >= 0 ==> IsFirstFit(Snap(), n, align, i)
    {
      hide HeaderAt, FooterAt;
      i := 0;
      while i < index.size
        invariant 0 <= i <= index.size
        invariant forall j | 0 <= j < i :: !Fits(mem.ram, index.Contents()[j], n, align)
      {
        var hdr := index.Lookup(i);
        var location := hdr;
        if align {
          var offset := 0;
          if location + HDR_SIZE >= PAGE {
            offset := PAGE - (location + HDR_SIZE) % PAGE;
          }
          var holeSize := Signed(HeaderAt(mem.ram, hdr).size) - offset;
          if holeSize >= Signed(n) {
            break;
          }
        } else if HeaderAt(mem.ram, hdr).size >= n {
          break;
        }
        i := i + 1;
      }
      if i == index.size {
        i := -1;
      }
    }

    // ---- pages

    /** Line 167: the page at an address of the heap gets a frame if it has none. */
    method BackPage(address: nat) returns (ok: bool)
      requires Ready() && start <= address < max - max % PAGE
      modifies pager`placement, pager.frames, pager.tables, pager.tblphys
      ensures Ready() && |pager.Words()| == |old(pager.Words())|
      ensures ok ==> FrameAllocated(old(pager.Words()), old(pager.Dir()), pager.Words(), pager.Dir(), address / PAGE)
      ensures ok ==> FlagsSet(old(pager.Dir()), pager.Dir(), address / PAGE, address / PAGE + 1, ro, !su)
      ensures !ok ==> AllUsed(pager.Words())
    {
      hide Used;
      ghost var words, dir := pager.Words(), pager.Dir();
      assert HasTable(dir, address / PAGE);
      var found, v := pager.GetPage(address, true);
      ok := pager.AllocFrame(v, su, ro);
      if ok && FrameOf(dir, v) == 0 {
        AllocKeepsOwned(words, dir, pager.Words(), pager.Dir(), v, FrameOf(pager.Dir(), v));
      }
    }

    /** Line 202: the page at an address of the heap gives up its frame if it has one. */
    method ReleasePage(address: nat)
      requires Ready() && start <= address < max - max % PAGE
      modifies pager`placement, pager.frames, pager.tables, pager.tblphys
      ensures Ready() && |pager.Words()| == |old(pager.Words())|
      ensures FrameReleased(old(pager.Words()), old(pager.Dir()), pager.Words(), pager.Dir(), address / PAGE)
    {
      hide Used;
      ghost var words, dir := pager.Words(), pager.Dir();
      assert HasTable(dir, address / PAGE);
      var found, v := pager.GetPage(address, false);
      assert OwnsUsedFrame(words, dir, v);
      pager.FreeFrame(v);
      if FrameOf(dir, v) != 0 {
        SmallMachineKeepsOwned(words, dir, pager.Words(), pager.Dir(), v);
      }
    }

    /** Lines 164-169: the pages from the old end on, up to the new one. */
    method BackPages(newSize: nat) returns (ok: bool)
      requires Ready() && index.Valid() && Bounds(Snap())
      requires newSize % PAGE == 0 && end - start <= newSize <= max - start
      modifies pager`placement, pager.frames, pager.tables, pager.tblphys
      ensures Ready()
      ensures ok ==> FramesTaken(old(pager.Words()), old(pager.Dir()), pager.Words(), pager.Dir(),
                                 end / PAGE, (start + newSize) / PAGE)
      ensures ok ==> FlagsSet(old(pager.Dir()), pager.Dir(), end / PAGE, (start + newSize) / PAGE, ro, !su)
      ensures !ok ==> AllUsed(pager.Words())
    {
      hide Owned, Exact, FrameOf, Used, HasTable, FrameAllocated, TablesMade, FramesTaken, FlagsSet, AllUsed, Entry;
      var i := end - start;
      ghost var words, dir := pager.Words(), pager.Dir();
      TakenNone(words, dir, end / PAGE);
      NoFlags(dir, end / PAGE, ro, !su);
      while i < newSize
        invariant i % PAGE == 0 && end - start <= i <= newSize
        invariant Ready()
        invariant FramesTaken(words, dir, pager.Words(), pager.Dir(), end / PAGE, (start + i) / PAGE)
        invariant FlagsSet(dir, pager.Dir(), end / PAGE, (start + i) / PAGE, ro, !su)
        decreases newSize - i
      {
        ghost var now, nowDir := pager.Words(), pager.Dir();
        WholePageBelow(start + i, max);
        ok := BackPage(start + i);
        if !ok {
          return false;
        }
        FlagsNext(dir, nowDir, pager.Dir(), end / PAGE, (start + i) / PAGE, ro, !su);
        TakenNext(words, dir, now, nowDir, pager.Words(), pager.Dir(), end / PAGE, (start + i) / PAGE);
        NextPage(start + i);
        i := i + PAGE;
      }
      return true;
    }

    /** expand: the length is rounded up past the next page boundary even if it lies on one. False stands for a
        panic. */
    method Expand(length: nat) returns (ok: bool)
      requires Ready() && index.Valid() && Bounds(Snap()) && start + length + PAGE <= WORD_LIMIT
      modifies this`end, pager`placement, pager.frames, pager.tables, pager.tblphys
      ensures Ready()
      ensures ok <==> end != old(end)
      ensures ok ==> Bounds(Snap()) && end == start + length / PAGE * PAGE + PAGE > old(end)
      ensures ok ==> FramesTaken(old(pager.Words()), old(pager.Dir()), pager.Words(), pager.Dir(),
                                 old(end) / PAGE, end / PAGE)
      ensures ok ==> FlagsSet(old(pager.Dir()), pager.Dir(), old(end) / PAGE, end / PAGE, ro, !su)
      ensures !ok ==> length <= end - start || start + length / PAGE * PAGE + PAGE > max || AllUsed(pager.Words())
    {
      hide Owned, Exact, FrameOf, Used, HasTable, FrameAllocated, TablesMade, FramesTaken, FlagsSet, AllUsed, Entry;
      if length <= end - start {
        return false;
      }
      var newSize := length;
      if newSize >= PAGE {
        newSize := newSize - newSize % PAGE + PAGE;
      }
      if start + newSize > max {
        return false;
      }
      ok := BackPages(newSize);
      if ok {
        end := start + newSize;
      }
    }

    /** Lines 189-196: the rounding keeps one bit of the length instead of clearing twelve. */
    method RoundDown(length: nat) returns (newSize: nat)
      ensures newSize == if length < 0x7_0000 || length % 0x2000 >= 0x1000 then 0x7_0000 else length
    {
      newSize := length;
      if newSize / PAGE % 2 == 1 {
        newSize := PAGE;
        newSize := newSize + PAGE;
      }
      if newSize < MIN_SIZE {
        newSize := MIN_SIZE;
      }
    }

    /** contract: the pages above the rounded length are released from the top down. */
    method Contract(length: nat) returns (newSize: nat)
      requires Ready() && index.Valid() && Bounds(Snap()) && length < end - start
      modifies this`end, pager`placement, pager.frames, pager.tables, pager.tblphys
      ensures Ready()
      ensures newSize == if length < 0x7_0000 || length % 0x2000 >= 0x1000 then 0x7_0000 else length
      ensures end == start + newSize
      ensures FramesGiven(old(pager.Words()), old(pager.Dir()), pager.Words(), pager.Dir(),
                          end / PAGE + 1, old(end) / PAGE)
    {
      newSize := RoundDown(length);
      ReleasePages(newSize);
      end := start + newSize;
    }

    /** Lines 199-204: the pages above the one that will hold the new end. */
    method ReleasePages(newSize: nat)
      requires Ready() && index.Valid() && Bounds(Snap()) && newSize >= PAGE
      modifies pager`placement, pager.frames, pager.tables, pager.tblphys
      ensures Ready()
      ensures FramesGiven(old(pager.Words()), old(pager.Dir()), pager.Words(), pager.Dir(),
                          (start + newSize) / PAGE + 1, end / PAGE)
    {
      hide Owned, Exact, FrameOf, Used, HasTable, BitCleared, FrameSet, TablesMade, FrameReleased, FramesGiven;
      var i := end - start - PAGE;
      ghost var words, dir := pager.Words(), pager.Dir();
      GivenNone(words, dir, (start + i) / PAGE + 1, end / PAGE);
      while newSize < i
        invariant 0 <= i <= end - start - PAGE
        invariant i < end - start - PAGE ==> newSize < i + PAGE
        invariant (start + i) % PAGE == 0
        invariant Ready()
        invariant FramesGiven(words, dir, pager.Words(), pager.Dir(), (start + i) / PAGE + 1, end / PAGE)
      {
        ghost var now, nowDir, v := pager.Words(), pager.Dir(), (start + i) / PAGE;
        NextPage(start + i - PAGE);
        WholePageBelow(start + i, end);
        WholePageBelow(start + i, max);
        ReleasePage(start + i);
        GivenNext(words, dir, now, nowDir, pager.Words(), pager.Dir(), v, end / PAGE);
        i := i - PAGE;
      }
      GivenTo(words, dir, pager.Words(), pager.Dir(), start + i, start + newSize, end);
    }

    // ---- carving a block out of hole i (lines 282-341)

    /** Lines 294-310: for an aligned request the hole is shrunk in place to the piece in front of the block;
        otherwise it leaves the index. */
    method CarveFront(i: nat, pos: nat, holeSize: nat, align: bool) returns (pos': nat, holeSize': nat)
      requires index.Valid() && i < index.size
      requires 2 * PAGE <= pos <= WORD_LIMIT - PAGE && holeSize < WORD_LIMIT
      modifies mem, index`size, index.words
      ensures index.Valid()
      ensures pos' == (if align then pos + Lead(pos) else pos)
      ensures holeSize' == (if align then Wrap(holeSize - Lead(pos)) else holeSize)
      ensures index.Contents() == if align then old(index.Contents()) else Removed(old(index.Contents()), i)
      ensures index.size == if align then old(index.size) else old(index.size) - 1
      ensures align && Lead(pos) >= TAGS_SIZE ==>
                && HeaderAt(mem.ram, pos) == Header(HDR_MAGIC, 1, Lead(pos))
                && FooterAt(mem.ram, pos' - FTR_SIZE) == Footer(FTR_MAGIC, pos)
                && SameOutside(old(mem.ram), mem.ram, pos, pos')
      ensures !align ==> mem.ram == old(mem.ram)
    {
      hide HeaderAt, FooterAt;
      if align && pos >= PAGE {
        var newLocation := pos + PAGE - pos % PAGE - HDR_SIZE;
        var lead := Wrap(PAGE - pos % PAGE - HDR_SIZE);
        mem.WriteHeader(pos, Header(HDR_MAGIC, 1, lead));
        mem.WriteFooter(newLocation - FTR_SIZE, Footer(FTR_MAGIC, pos));
        pos' := newLocation;
        holeSize' := Sub32(holeSize, lead);
      } else {
        index.Remove(i);
        pos', holeSize' := pos, holeSize;
      }
    }

    /** Lines 313-321. */
    method PlaceBlock(pos: nat, size: nat, newSize: nat)
      requires newSize == Needed(size) && pos + newSize <= WORD_LIMIT && newSize < WORD_LIMIT && pos < WORD_LIMIT
      modifies mem
      ensures HeaderAt(mem.ram, pos) == Header(HDR_MAGIC, 0, newSize)
      ensures FooterAt(mem.ram, pos + newSize - FTR_SIZE) == Footer(FTR_MAGIC, pos)
      ensures SameOutside(old(mem.ram), mem.ram, pos, pos + newSize)
      ensures newSize == size + 20
      ensures Word(mem.ram, pos) == 0x1238_90AB && Word(mem.ram, pos + 4) == 0 && Word(mem.ram, pos + 8) == newSize
      ensures Word(mem.ram, pos + newSize - 8) == 0xBA09_8321 && Word(mem.ram, pos + newSize - 4) == pos
    {
      mem.WriteHeader(pos, Header(HDR_MAGIC, 0, newSize));
      mem.WriteFooter(pos + HDR_SIZE + size, Footer(FTR_MAGIC, pos));
    }

    /** Lines 288-291: the sizes of payload and block, enlarged when too little would remain. */
    method SplitTest(holeSize: nat, request: nat) returns (size: nat, newSize: nat)
      requires Needed(request) <= holeSize < WORD_LIMIT
      ensures newSize == Taken(holeSize, Needed(request)) == Needed(size)
      ensures newSize == if holeSize < request + 40 then holeSize else request + 20
    {
      size, newSize := request, request + HDR_SIZE + FTR_SIZE;
      if Sub32(holeSize, newSize) < HDR_SIZE + FTR_SIZE {
        size := size + (holeSize - newSize);
        newSize := holeSize;
      }
    }

    /** Lines 324-338: false stands for the failed assertion that the index has room. */
    method PlaceRemnant(hole: nat, left: nat, newSize: nat) returns (ok: bool)
      requires index.Valid() && end <= WORD_LIMIT - PAGE
      requires FTR_SIZE <= hole <= WORD_LIMIT - HDR_SIZE && left < WORD_LIMIT && newSize < WORD_LIMIT
      modifies mem, index`size, index.words
      ensures index.Valid()
      ensures ok <==> left == newSize || old(index.size) < index.maxsize
      ensures !ok ==> index.size == index.maxsize
      ensures left == newSize ==> mem.ram == old(mem.ram) && index.Contents() == old(index.Contents())
      ensures ok && left != newSize ==>
                && IsInsertion(old(index.Contents()), index.Contents(), hole)
                && hole in index.Contents() && (forall a | a in old(index.Contents()) :: a in index.Contents())
                && index.Contents() == Inserted(old(index.Contents()), hole, HeaderCmp(mem.ram))
      ensures var rem := left - newSize;
              TAGS_SIZE <= rem && hole + rem <= end ==>
                && HeaderAt(mem.ram, hole) == Header(HDR_MAGIC, 1, rem)
                && FooterAt(mem.ram, hole + rem - FTR_SIZE) == Footer(FTR_MAGIC, hole)
                && SameOutside(old(mem.ram), mem.ram, hole, hole + rem)
    {
      hide HeaderAt, FooterAt, Inserted, IsInsertion;
      if Sub32(left, newSize) > 0 {
        var rem := Sub32(left, newSize);
        mem.WriteHeader(hole, Header(HDR_MAGIC, 1, rem));
        var footer := Wrap(hole + rem - FTR_SIZE);
        if footer < end {
          mem.WriteFooter(footer, Footer(FTR_MAGIC, hole));
        }
        ok := index.Insert(hole, HeaderCmp(mem.ram));
        if ok {
          InsertedMembers(old(index.Contents()), index.Contents(), hole);
        }
      } else {
        ok := true;
      }
    }

    /** Lines 282-341 on hole i: what they write and what they do to the index, whether the heap is sound or not. */
    method CarveHole(i: nat, request: nat, align: bool) returns (r: OrPanic<nat>, ghost front: Ram, ghost placed: Ram)
      requires index.Valid() && Runnable(Snap()) && i < index.size && Needed(request) < SIGN_LIMIT
      requires Fits(mem.ram, index.Contents()[i], Needed(request), align)
      modifies mem, index`size, index.words
      ensures index.Valid()
      ensures r.Panic? ==> index.size == index.maxsize
      ensures r.Returned? ==>
                CarveWork(old(Snap()), Snap(), front, placed, i, Needed(request), align, r.value)
      ensures r.Returned? ==> start <= r.value && r.value + request + FTR_SIZE <= end
    {
      hide HeaderAt, FooterAt, IsInsertion, Inserted, Removed, SameOutside, Lead, Wrap, FitsSize, Taken, Word;
      ghost var s, n := Snap(), Needed(request);
      var holePos := index.Lookup(i);
      var holeSize := HeaderAt(mem.ram, holePos).size;
      FitsEnough(holePos, holeSize, n, align);
      var size, newSize := SplitTest(holeSize, request);
      var pos, left := CarveFront(i, holePos, holeSize, align);
      front := mem.ram;
      PlaceBlock(pos, size, newSize);
      placed := mem.ram;
      var ok := PlaceRemnant(pos + HDR_SIZE + size + FTR_SIZE, left, newSize);
      if !ok {
        return Panic, front, placed;
      }
      r := Returned(pos + HDR_SIZE);
      FitsInside(holePos, holeSize, n, align);
      if CarveOk(holePos, holeSize, n, align) {
        assert newSize == if align then n else Taken(holeSize, n);
        assert left == if align then holeSize - Lead(holePos) else holeSize;
        assert CarveWrites(s.ram, front, placed, mem.ram, holePos, holeSize, n, align);
        assert CarvedIndex(s.index, index.Contents(), mem.ram, i, holePos, holeSize, n, align);
      }
    }

    /** The carving keeps a sound heap sound, with one live block more and every other block untouched, exactly
        when CarveOk holds of the hole. */
    method Carve(i: nat, request: nat, align: bool)
      returns (r: OrPanic<nat>, ghost k: nat, ghost front: Ram, ghost placed: Ram)
      requires index.Valid() && Runnable(Snap()) && i < index.size && Needed(request) < SIGN_LIMIT
      requires Fits(mem.ram, index.Contents()[i], Needed(request), align)
      modifies this`blocks, mem, index`size, index.words
      ensures index.Valid()
      ensures r.Panic? ==> index.size == index.maxsize
      ensures r.Returned? && Inv(old(Snap())) ==>
                CarveOutcome(old(Snap()), Snap(), i, k, Needed(request), align, r.value)
      ensures r.Returned? ==> CarveWork(old(Snap()), Snap(), front, placed, i, Needed(request), align, r.value)
      ensures r.Returned? ==> start <= r.value && r.value + request + FTR_SIZE <= end
    {
      hide Inv, CarveOutcome, CarveWork, Fits;
      k := 0;
      ghost var s := Snap();
      r, front, placed := CarveHole(i, request, align);
      if r.Returned? && Inv(s) {
        ghost var s' := Snap();
        k, blocks := CarveResult(s, s', front, placed, i, Needed(request), align, r.value);
        CarveWorkAnyBlocks(s, s', front, placed, i, Needed(request), align, r.value, blocks);
      }
    }

    // ---- growing the heap (lines 233-276)

    /** Lines 241-254: the index position of the highest hole, or -1. */
    method EndmostHole() returns (idx: int)
      requires index.Valid() && Runnable(Snap())
      ensures -1 <= idx < index.size
      ensures idx == -1 <==> index.Contents() == []
      ensures idx >= 0 ==> IsTop(index.Contents(), idx)
    {
      var i := 0;
      idx := -1;
      var value := 0;
      while i < index.size
        invariant 0 <= i <= index.size && -1 <= idx < i
        invariant idx == -1 ==> i == 0 && value == 0
        invariant idx >= 0 ==> value == index.Contents()[idx]
        invariant forall j | 0 <= j < i :: index.Contents()[j] <= value
      {
        var tmp := index.Lookup(i);
        if tmp > value {
          value := tmp;
          idx := i;
        }
        i := i + 1;
      }
    }

    /** Lines 257-276: the room from oldEnd to the end goes to the highest hole or becomes a hole. */
    method UseNewRoom(oldEnd: nat) returns (ok: bool, ghost i: int)
      requires index.Valid() && Runnable(Snap().(end := oldEnd)) && Bounds(Snap()) && oldEnd + PAGE <= end
      modifies mem, index`size, index.words
      ensures index.Valid()
      ensures !ok ==> index.size == index.maxsize
      ensures ok ==> GrowWork(old(Snap()).(end := oldEnd), Snap(), i, end - oldEnd)
    {
      hide HeaderAt, FooterAt, Inserted, IsInsertion;
      var idx := EndmostHole();
      i := idx;
      if idx == -1 {
        var header := oldEnd;
        mem.WriteHeader(header, Header(HDR_MAGIC, 1, end - oldEnd));
        mem.WriteFooter(oldEnd + (end - oldEnd) - FTR_SIZE, Footer(FTR_MAGIC, header));
        ok := index.Insert(header, HeaderCmp(mem.ram));
        if ok {
          OneInserted(index.Contents(), header);
        }
      } else {
        var header := index.Lookup(idx);
        var size := HeaderAt(mem.ram, header).size;
        mem.WriteHeaderSize(header, size + (end - oldEnd));
        mem.WriteFooter(header + (size + (end - oldEnd)) - FTR_SIZE, Footer(FTR_MAGIC, header));
        TagsKeptOutside(old(mem.ram), mem.ram, header, header + size + (end - oldEnd));
        ok := true;
      }
    }

    /** Lines 233-276. The result is a sound heap with the same live blocks exactly when GrowOk held. */
    method Grow(n: nat) returns (ok: bool, ghost i: int)
      requires index.Valid() && Ready() && Runnable(Snap()) && TAGS_SIZE <= n < SIGN_LIMIT
      requires max + n + PAGE <= WORD_LIMIT
      modifies this, mem, index`size, index.words, pager`placement, pager.frames, pager.tables, pager.tblphys
      ensures index.Valid() && Ready()
      ensures ok ==> GrowWork(old(Snap()), Snap(), i, Growth(n)) && Runnable(Snap())
      ensures ok && Inv(old(Snap())) ==> GrowOutcome(old(Snap()), Snap(), Growth(n))
      ensures ok ==> FramesTaken(old(pager.Words()), old(pager.Dir()), pager.Words(), pager.Dir(),
                                 old(end) / PAGE, end / PAGE)
      ensures ok ==> end == old(end) + Growth(n) <= max
      ensures ok ==> end == old(end) + n / 0x1000 * 0x1000 + 0x1000
      ensures !ok ==> (end == old(end) && (end + Growth(n) > max || AllUsed(pager.Words())))
                      || index.size == index.maxsize
    {
      hide HeaderAt, FooterAt, GrowWork, GrowOutcome, FramesTaken, Owned, TablesMade, Inv, AllUsed;
      GrowthEnough(n);
      GrowthOfLength(end - start, n);
      i := -1;
      ghost var s := Snap();
      var oldEnd := end;
      ok := Expand(end - start + n);
      if !ok {
        return;
      }
      assert Snap().(end := oldEnd) == s;
      ok, i := UseNewRoom(oldEnd);
      if !ok {
        return;
      }
      ghost var m := Snap();
      assert GrowWork(s, m, i, Growth(n));
      GrowRunnable(s, m, i, Growth(n));
      if Inv(s) {
        blocks := GrowResult(s, m, i, Growth(n));
        GrowWorkAnyBlocks(s, m, i, Growth(n), blocks);
      }
    }

    // ---- alloc

    /** alloc. At most two expansions happen, one if no alignment is asked for. A sound heap stays sound if AllocOk
        holds before the call. */
    method Alloc(request: nat, align: bool) returns (r: OrPanic<nat>, ghost k: nat, ghost expansions: nat)
      requires index.Valid() && Ready() && Runnable(Snap())
      requires Needed(request) < SIGN_LIMIT && max + Needed(request) + PAGE <= WORD_LIMIT
      modifies this, mem, index`size, index.words, pager`placement, pager.frames, pager.tables, pager.tblphys
      ensures index.Valid() && Ready()
      ensures expansions <= if NoFit(old(Snap()), Needed(request), align)
                            then if align && !TopIsLong(old(Snap()), Needed(request)) then 2 else 1
                            else 0
      ensures r.Returned? ==> AllocWork(old(Snap()), Snap(), Needed(request), align, r.value, expansions)
      ensures r.Returned? && Inv(old(Snap())) ==>
                (AllocOk(old(Snap()), Needed(request), align)
                 <==> KeepsAlloc(old(Snap()), Snap(), Needed(request), r.value))
      ensures r.Returned? && Inv(old(Snap())) && AllocOk(old(Snap()), Needed(request), align) ==>
                AllocStep(old(Snap()), Snap(), k, Needed(request), align, r.value)
      ensures r.Returned? ==>
                FramesTaken(old(pager.Words()), old(pager.Dir()), pager.Words(), pager.Dir(),
                            old(end) / PAGE, end / PAGE)
      ensures r.Returned? ==> old(end) <= end <= max && end % PAGE == 0
      ensures r.Returned? && Inv(old(Snap())) && AllocOk(old(Snap()), Needed(request), align)
              && BySize(old(mem.ram), old(index.Contents())) ==>
                (BySize(mem.ram, index.Contents()) <==> AllocOrderOk(old(Snap()), Needed(request), align))
      ensures r.Returned? ==> start <= r.value && r.value + request + FTR_SIZE <= end
      ensures r.Panic? ==> end + Growth(Needed(request)) > max || AllUsed(pager.Words()) || index.size == index.maxsize
      ensures r.Panic? && !NoFit(old(Snap()), Needed(request), align) ==> index.size == index.maxsize
      decreases max - end
    {
      hide HeaderAt, FooterAt, GrowWork, GrowOutcome, CarveOutcome, Owned, TablesMade, Inv, AllUsed;
      hide AllocOk, AllocStep, NoFit, Fits, TopIsLong, FramesTaken, Grown, CarveWork, KeepsAlloc, AllocWork, BySize;
      hide AllocOrderOk;
      ghost var s := Snap();
      ghost var words, dir := pager.Words(), pager.Dir();
      var newSize := request + HDR_SIZE + FTR_SIZE;
      var i := FindSmallestHole(newSize, align);
      if i == -1 {
        var ok;
        ghost var top;
        ok, top := Grow(newSize);
        if !ok {
          return Panic, 0, 1;
        }
        ghost var m := Snap();
        ghost var midWords, midDir := pager.Words(), pager.Dir();
        GrowingHelps(s, m, top, newSize, align);
        PromiseGrows(s, newSize, align);
        if Inv(s) && AllocOk(s, newSize, align) {
          GrownReady(s, m, newSize, align);
        }
        r, k, expansions := Alloc(request, align);
        expansions := expansions + 1;
        if r.Returned? {
          TakenJoin(words, dir, midWords, midDir, pager.Words(), pager.Dir(), s.end / PAGE, m.end / PAGE, end / PAGE);
          AllocWorkGrown(s, m, Snap(), top, newSize, align, r.value, expansions - 1);
          if Inv(s) && AllocOk(s, newSize, align) {
            GrowThenAlloc(s, m, Snap(), Growth(newSize), k, newSize, align, r.value);
          }
        }
      } else {
        expansions := 0;
        TakenNone(words, dir, end / PAGE);
        ghost var front, placed;
        r, k, front, placed := Carve(i, request, align);
        if r.Returned? {
          AllocWorkCarved(s, Snap(), front, placed, i, newSize, align, r.value);
        }
        if r.Returned? && Inv(s) && AllocOk(s, newSize, align) {
          CarveFirstFit(s, Snap(), i, k, newSize, align, r.value);
        }
      }
      if r.Returned? {
        AllocVerdict(s, Snap(), newSize, align, r.value, expansions);
      }
    }

    // ---- free (lines 353-420)

    /** Lines 367-379: the block is marked a hole and joined to a hole on its left, found through the footer there. */
    method MergeLeft(block: nat, footer: nat, ghost s: State, ghost k: nat) returns (header: nat, doAdd: bool)
      requires Inv(s) && mem.ram == s.ram && k < |s.blocks| && !s.blocks[k].hole
      requires block == s.blocks[k].addr && footer == s.blocks[k].End() - FTR_SIZE
      modifies mem
      ensures MergedLeft(s, k, mem.ram, header, doAdd) && header == FreedHeader(s, k)
    {
      hide HeaderAt, FooterAt, Inv;
      FooterToTheLeft(s, k);
      header := block;
      mem.WriteHeaderHole(header, 1);
      doAdd := true;
      var testFooter := FooterAt(mem.ram, header - FTR_SIZE);
      if testFooter.magic == FTR_MAGIC && HeaderAt(mem.ram, testFooter.header).isHole == 1 {
        var cacheSize := HeaderAt(mem.ram, header).size;
        header := testFooter.header;
        mem.WriteFooterHeader(footer, header);
        mem.WriteHeaderSize(header, HeaderAt(mem.ram, header).size + cacheSize);
        doAdd := false;
      }
    }

    /** Lines 389-391 and 409-411: where an address is in the index, or its size. */
    method IndexOf(el: nat) returns (i: nat)
      requires index.Valid()
      ensures i <= index.size
      ensures i < index.size ==> index.Contents()[i] == el
      ensures i == index.size ==> el !in index.Contents()
    {
      i := 0;
      while i < index.size
        invariant 0 <= i <= index.size
        invariant forall j | 0 <= j < i :: index.Contents()[j] != el
      {
        var entry := index.Lookup(i);
        if entry == el {
          return;
        }
        i := i + 1;
      }
    }

    /** Lines 381-394: a hole on the right is absorbed and leaves the index. The footer at its end is not rewritten.
        False stands for the failed assertion that the hole is in the index. */
    method MergeRight(header: nat, footer: nat, ghost s: State, ghost k: nat, ghost doAdd: bool)
      returns (ok: bool, footer': nat)
      requires index.Valid() && Inv(s) && k < |s.blocks| && !s.blocks[k].hole
      requires MergedLeft(s, k, mem.ram, header, doAdd) && index.Contents() == s.index
      requires footer == s.blocks[k].End() - FTR_SIZE
      modifies mem, index`size, index.words
      ensures index.Valid()
      ensures ok <==> !GhostHole(s, k)
      ensures ok ==> MergedRight(s, k, mem.ram, index.Contents(), header, doAdd)
      ensures ok ==> footer' == s.blocks[MergeHi(s.blocks, k) - 1].End() - FTR_SIZE
    {
      hide HeaderAt, FooterAt, Inv, LeftOk, LeftChoice, Removed;
      HeaderToTheRight(s, k, mem.ram, header, doAdd);
      footer' := footer;
      var testHeader := footer + FTR_SIZE;
      var test := HeaderAt(mem.ram, testHeader);
      if test.magic == HDR_MAGIC && test.isHole != 0 {
        mem.WriteHeaderSize(header, Wrap(HeaderAt(mem.ram, header).size + test.size));
        footer' := Wrap(testHeader + test.size - FTR_SIZE);
        var i := IndexOf(testHeader);
        if i >= index.size {
          return false, footer';
        }
        RemovedMembers(index.Contents(), i);
        index.Remove(i);
      }
      ok := true;
    }

    /** Lines 409-413. */
    method DropFromIndex(el: nat)
      requires index.Valid()
      modifies index`size, index.words
      ensures index.Valid()
      ensures el !in old(index.Contents()) ==> index.Contents() == old(index.Contents())
      ensures el in old(index.Contents()) ==>
                exists i: nat :: i < |old(index.Contents())| && old(index.Contents())[i] == el
                                 && index.Contents() == Removed(old(index.Contents()), i)
    {
      var i := IndexOf(el);
      if i < index.size {
        index.Remove(i);
      }
    }

    /** Lines 396-415: if the freed room reaches the end of the heap, the heap is contracted and the last hole cut to
        size. */
    method Settle(header: nat, footer: nat, testHeader: nat, ghost s: State, ghost k: nat, ghost doAdd: bool)
      requires index.Valid() && Ready() && Inv(s) && k < |s.blocks| && !s.blocks[k].hole
      requires MergedRight(s, k, mem.ram, index.Contents(), header, doAdd)
      requires start == s.start && end == s.end && max == s.max
      requires footer == s.blocks[MergeHi(s.blocks, k) - 1].End() - FTR_SIZE && testHeader == s.blocks[k].End()
      modifies this`end, mem, index`size, index.words, pager`placement, pager.frames, pager.tables, pager.tblphys
      ensures index.Valid() && Ready()
      ensures Settled(s, k, old(mem.ram), mem.ram, end, header)
      ensures end == FreedTo(s, k, header)
      ensures index.Contents() == old(index.Contents())
      ensures FramesGiven(old(pager.Words()), old(pager.Dir()), pager.Words(), pager.Dir(),
                          end / PAGE + 1, s.end / PAGE)
    {
      hide HeaderAt, FooterAt, Inv, LeftOk, LeftChoice, Removed, Owned, TablesMade, FramesGiven;
      SettlePlace(s, k, mem.ram, index.Contents(), header, doAdd);
      GivenNone(pager.Words(), pager.Dir(), end / PAGE + 1, end / PAGE);
      if footer + FTR_SIZE == end {
        var oldLength := end - start;
        var newLength := Contract(header - start);
        var size := HeaderAt(mem.ram, header).size;
        if Wrap(size - Wrap(oldLength - newLength)) > 0 {
          var newSize := Wrap(size - Wrap(oldLength - newLength));
          mem.WriteHeaderSize(header, newSize);
          mem.WriteFooter(Wrap(header + newSize - FTR_SIZE), Footer(FTR_MAGIC, header));
        } else {
          DropFromIndex(testHeader);
        }
      }
    }

    /** free. In a sound heap the call panics only if what lies past the end looks like a hole, or the index is full;
        otherwise FreeOutcome tells exactly when the heap is sound afterwards. */
    method Free(p: nat, ghost k: nat) returns (ok: bool)
      requires index.Valid() && Ready() && Inv(Snap())
      requires p != 0 ==> k < |blocks| && !blocks[k].hole && p == blocks[k].Payload()
      modifies this, mem, index`size, index.words, pager`placement, pager.frames, pager.tables, pager.tblphys
      ensures index.Valid() && Ready()
      ensures p == 0 ==>
                ok && Snap() == old(Snap()) && pager.Words() == old(pager.Words()) && pager.Dir() == old(pager.Dir())
      ensures p != 0 && ok ==> FreeOutcome(old(Snap()), Snap(), k) && FreeMoves(old(Snap()), Snap(), k)
      ensures p != 0 && ok ==>
                end == FreedTo(old(Snap()), k, FreedHeader(old(Snap()), k))
      ensures p != 0 && ok ==>
                FramesGiven(old(pager.Words()), old(pager.Dir()), pager.Words(), pager.Dir(),
                            end / PAGE + 1, old(end) / PAGE)
      ensures p != 0 && ok && FreeOk(old(Snap()), k) && BySize(old(mem.ram), old(index.Contents())) ==>
                (BySize(mem.ram, index.Contents()) <==> FreeOrderOk(old(Snap()), k))
      ensures !ok ==> GhostHole(old(Snap()), k) || index.size == index.maxsize
    {
      hide HeaderAt, FooterAt, Inv, LeftOk, MergedRight, Removed, FramesGiven, Owned, TablesMade, Settled;
      hide FreeOutcome, Inserted, IsInsertion, FreeOk, BySize, FreeOrderOk, FreedTo, FreedHeader;
      if p == 0 {
        return true;
      }
      ghost var s := Snap();
      FooterToTheLeft(s, k);
      var block := p - HDR_SIZE;
      var footer := block + HeaderAt(mem.ram, block).size - FTR_SIZE;
      var header, doAdd := MergeLeft(block, footer, s, k);
      var testHeader := footer + FTR_SIZE;
      ok, footer := MergeRight(header, footer, s, k, doAdd);
      if !ok {
        return;
      }
      ghost var ram, mid := mem.ram, index.Contents();
      Settle(header, footer, testHeader, s, k, doAdd);
      if doAdd {
        ok := index.Insert(header, HeaderCmp(mem.ram));
        if !ok {
          return;
        }
      }
      ghost var s' := Snap();
      blocks := FreeResult(s, s', k, ram, mid, header, doAdd);
      if FreeOk(s, k) && BySize(s.ram, s.index) {
        FreeOrder(s, Snap(), k, ram, mid, header, doAdd);
      }
    }
  }
}
