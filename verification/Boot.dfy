/** The mapping loops of init_paging and the placement allocator they run against. */
module Boot {
  import opened Memory
  import opened Paging

  const HEAP_START: nat := 0xC000_0000
  const HEAP_INITIAL_SIZE: nat := 0x10_0000
  const HEAP_PAGE: nat := 0xC_0000
  const HEAP_PAGES: nat := 0x100
  const HEAP_STRUCT_SIZE: nat := 36

  /** Page k below n holds frame k; the first m heap pages hold the frames after them; no other frame is out. All these
      pages are present, not writeable, and open to user code. */
  ghost predicate BootMap(words: seq<nat>, tables: Tables, n: nat, m: nat)
  {
    && (forall v: nat :: FrameOf(tables, v) ==
          if v < n then v else if HEAP_PAGE <= v < HEAP_PAGE + m then n + v - HEAP_PAGE else 0)
    && (forall v: nat | v < n || HEAP_PAGE <= v < HEAP_PAGE + m ::
          Entry(tables, v).present && !Entry(tables, v).writeable && Entry(tables, v).user)
    && (forall f: nat | f < |words| * WORD_BITS :: Used(words, f) <==> f < n + m)
    && n + m <= |words| * WORD_BITS
  }

  /** Every table made so far lies in placement memory and its directory entry gives its address. */
  ghost predicate TablesPlaced(tables: Tables, tblphys: seq<nat>, placement: nat)
  {
    && |tables| == |tblphys| == TABLES
    && (forall t | 0 <= t < TABLES && tables[t] != [] ::
          tblphys[t] % PAGE == 7 && tblphys[t] - 7 + PAGE <= placement)
  }

  function PagesBelow(placement: nat): nat
  {
    (placement + PAGE - 1) / PAGE
  }

  /** After boot the pages own their frames exactly, the heap pages are backed, and memory below the final
      placement address is mapped to itself, so the physical addresses given out earlier are right. */
  lemma BootMapMeaning(words: seq<nat>, tables: Tables, placement: nat)
    requires PAGE <= placement && PagesBelow(placement) <= HEAP_PAGE
    requires BootMap(words, tables, PagesBelow(placement), HEAP_PAGES)
    ensures Exact(words, tables) && Used(words, 0)
    ensures forall a: nat | a < placement :: Translate(tables, a) == a
    ensures forall v: nat | 0xC_0000 <= v < 0xC_0100 :: FrameOf(tables, v) != 0
    ensures forall v: nat | v * 0x1000 < placement || 0xC_0000 <= v < 0xC_0100 ::
              Entry(tables, v) == Page(true, false, true, FrameOf(tables, v))
  {
    var n := PagesBelow(placement);
    forall f: nat | 0 < f < |words| * WORD_BITS && Used(words, f)
      ensures Held(tables, f)
    {
      assert FrameOf(tables, if f < n then f else HEAP_PAGE + f - n) == f;
    }
    forall a: nat | a < placement
      ensures Translate(tables, a) == a
    {
      assert a / PAGE < n;
    }
  }

  /** The next page in line gets the next frame, because the scan returns the least unused one. */
  lemma NextFrame(words: seq<nat>, tables: Tables, words': seq<nat>, tables': Tables, n: nat, m: nat, v: nat)
    requires BootMap(words, tables, n, m) && n <= HEAP_PAGE
    requires FrameAllocated(words, tables, words', tables', v)
    requires FlagsSet(tables, tables', v, v + 1, false, true)
    requires (m == 0 && v == n && n < HEAP_PAGE) || (v == HEAP_PAGE + m && 0 < n)
    ensures v == n && n < HEAP_PAGE ==> BootMap(words', tables', n + 1, 0)
    ensures v == HEAP_PAGE + m ==> BootMap(words', tables', n, m + 1)
  {
    var f := FrameOf(tables', v);
    assert FrameOf(tables, v) == 0;
    assert f >= n + m by {
      assert !Used(words, f);
    }
    assert f <= n + m by {
      var g := if n + m < f then n + m else f;
      assert Used(words, g) <==> g < n + m;
    }
  }

  lemma SameEntries(words: seq<nat>, tables: Tables, tables': Tables, n: nat)
    requires BootMap(words, tables, n, 0) && forall v: nat :: Entry(tables', v) == Entry(tables, v)
    ensures BootMap(words, tables', n, 0)
  {
    assert forall v: nat :: FrameOf(tables', v) == FrameOf(tables, v);
  }

  lemma MapBound(words: seq<nat>, tables: Tables, n: nat, m: nat)
    requires BootMap(words, tables, n, m)
    ensures n + m <= |words| * WORD_BITS
  {
  }

  /** The panic comes only when the frames are out. */
  lemma FramesOut(words: seq<nat>, tables: Tables, n: nat, m: nat)
    requires BootMap(words, tables, n, m) && |words| > 0 && n <= HEAP_PAGE
    ensures AllUsed(words) <==> n + m == |words| * WORD_BITS
    ensures n + m <= |words| * WORD_BITS
    ensures FrameOf(tables, HEAP_PAGE + m) == 0 && (m == 0 ==> FrameOf(tables, n) == 0)
  {
    var f := if n + m < |words| * WORD_BITS then n + m else 0;
    assert Used(words, f) <==> f < n + m;
  }

  ghost predicate HeapTablesMade(tables: Tables)
  {
    forall v: nat | HEAP_PAGE <= v < HEAP_PAGE + HEAP_PAGES :: HasTable(tables, v)
  }

  /** The first loop makes the tables of the heap area; no page gets a frame. */
  method MapHeapTables(k: Pager)
    requires k.Valid() && PAGE <= k.placement
    requires k.placement + 2 * PAGE * MissingTables(k.Dir()) < HEAP_START
    requires forall t | 0 <= t < TABLES :: k.tables[t] == []
    modifies k`placement, k.tables, k.tblphys
    ensures k.Valid() && old(k.placement) <= k.placement
    ensures k.placement + 2 * PAGE * MissingTables(k.Dir())
            <= old(k.placement + 2 * PAGE * MissingTables(k.Dir()))
    ensures forall v: nat :: FrameOf(k.Dir(), v) == 0
    ensures k.Words() == old(k.Words())
    ensures HeapTablesMade(k.Dir())
    ensures TablesPlaced(k.Dir(), k.tblphys[..], k.placement)
  {
    ghost var limit := k.placement + 2 * PAGE * MissingTables(k.Dir());
    var i := HEAP_START;
    while i < HEAP_START + HEAP_INITIAL_SIZE
      invariant i % PAGE == 0 && HEAP_START <= i <= HEAP_START + HEAP_INITIAL_SIZE
      invariant k.Valid() && old(k.placement) <= k.placement
      invariant k.placement + 2 * PAGE * MissingTables(k.Dir()) <= limit
      invariant forall v: nat :: FrameOf(k.Dir(), v) == 0
      invariant k.Words() == old(k.Words())
      invariant forall v: nat | HEAP_PAGE <= v < i / PAGE :: HasTable(k.Dir(), v)
      invariant TablesPlaced(k.Dir(), k.tblphys[..], k.placement)
    {
      ghost var dir := k.Dir();
      var found, v := k.GetPage(i, true);
      assert forall u: nat :: FrameOf(k.Dir(), u) == FrameOf(dir, u);
      i := i + PAGE;
    }
  }

  /** One round of the second loop: the page gets its table if it has none, then the frame of the same number. */
  method MapPage(k: Pager, i: nat) returns (ok: bool)
    requires k.Valid() && k.frames.Length * WORD_BITS <= PAGE
    requires PAGE <= k.placement && i % PAGE == 0
    requires k.placement + 2 * PAGE * MissingTables(k.Dir()) < HEAP_START
    requires BootMap(k.Words(), k.Dir(), i / PAGE, 0)
    requires TablesPlaced(k.Dir(), k.tblphys[..], k.placement)
    modifies k`placement, k.frames, k.tables, k.tblphys
    ensures k.Valid() && TablesPlaced(k.Dir(), k.tblphys[..], k.placement)
    ensures ok <==> i / PAGE < k.frames.Length * WORD_BITS
    ensures BootMap(k.Words(), k.Dir(), if ok then i / PAGE + 1 else i / PAGE, 0)
    ensures HasTable(k.Dir(), i / PAGE)
    ensures forall u: nat :: HasTable(old(k.Dir()), u) ==> HasTable(k.Dir(), u)
    ensures k.placement + 2 * PAGE * MissingTables(k.Dir())
            <= old(k.placement + 2 * PAGE * MissingTables(k.Dir()))
    ensures if HasTable(old(k.Dir()), i / PAGE)
            then k.placement == old(k.placement) && MissingTables(k.Dir()) == MissingTables(old(k.Dir()))
            else k.placement > old(k.placement) && MissingTables(k.Dir()) < MissingTables(old(k.Dir()))
  {
    hide AllUsed, FrameAllocated, Used, BootMap, FlagsSet;
    MapBound(k.Words(), k.Dir(), i / PAGE, 0);
    var found, v := k.GetPage(i, true);
    ghost var words, dir := k.Words(), k.Dir();
    SameEntries(words, old(k.Dir()), dir, i / PAGE);
    FramesOut(words, dir, i / PAGE, 0);
    ok := k.AllocFrame(v, false, false);
    if ok {
      NextFrame(words, dir, k.Words(), k.Dir(), i / PAGE, 0, v);
    }
  }

  /** The second loop runs to a bound that moves while it runs: making a table advances the placement address.
      Either a table goes missing no longer, or the distance to the bound shrinks. */
  method MapIdentity(k: Pager) returns (ok: bool)
    requires k.Valid() && k.frames.Length * WORD_BITS <= PAGE
    requires PAGE <= k.placement
    requires k.placement + 2 * PAGE * MissingTables(k.Dir()) < HEAP_START
    requires BootMap(k.Words(), k.Dir(), 0, 0) && HeapTablesMade(k.Dir())
    requires TablesPlaced(k.Dir(), k.tblphys[..], k.placement)
    modifies k`placement, k.frames, k.tables, k.tblphys
    ensures k.Valid() && old(k.placement) <= k.placement < HEAP_START
    ensures ok <==> PagesBelow(k.placement) <= k.frames.Length * WORD_BITS
    ensures ok ==> BootMap(k.Words(), k.Dir(), PagesBelow(k.placement), 0)
    ensures ok ==> forall v: nat | v < PagesBelow(k.placement) :: HasTable(k.Dir(), v)
    ensures HeapTablesMade(k.Dir())
    ensures TablesPlaced(k.Dir(), k.tblphys[..], k.placement)
  {
    var i := 0;
    while i < k.placement
      invariant i % PAGE == 0 && 0 <= i < k.placement + PAGE
      invariant k.Valid() && old(k.placement) <= k.placement
      invariant k.placement + 2 * PAGE * MissingTables(k.Dir()) < HEAP_START
      invariant BootMap(k.Words(), k.Dir(), i / PAGE, 0)
      invariant forall v: nat | v < i / PAGE :: HasTable(k.Dir(), v)
      invariant HeapTablesMade(k.Dir())
      invariant TablesPlaced(k.Dir(), k.tblphys[..], k.placement)
      decreases MissingTables(k.Dir()), k.placement - i
    {
      ok := MapPage(k, i);
      if !ok {
        return false;
      }
      i := i + PAGE;
    }
    return true;
  }

  /** The third loop backs the pages of the heap. */
  method MapHeapFrames(k: Pager) returns (ok: bool)
    requires k.Valid() && k.frames.Length * WORD_BITS <= PAGE
    requires PAGE <= k.placement < HEAP_START
    requires BootMap(k.Words(), k.Dir(), PagesBelow(k.placement), 0) && HeapTablesMade(k.Dir())
    requires forall v: nat | v < PagesBelow(k.placement) :: HasTable(k.Dir(), v)
    requires TablesPlaced(k.Dir(), k.tblphys[..], k.placement)
    modifies k`placement, k.frames, k.tables, k.tblphys
    ensures k.Valid() && k.placement == old(k.placement)
    ensures ok <==> PagesBelow(k.placement) + HEAP_PAGES <= k.frames.Length * WORD_BITS
    ensures ok ==> BootMap(k.Words(), k.Dir(), PagesBelow(k.placement), HEAP_PAGES)
    ensures forall v: nat | v < PagesBelow(k.placement) :: HasTable(k.Dir(), v)
    ensures HeapTablesMade(k.Dir())
    ensures TablesPlaced(k.Dir(), k.tblphys[..], k.placement)
  {
    hide BootMap, AllUsed, FrameAllocated, FrameOf, MissingTables;
    ghost var n := PagesBelow(k.placement);
    var i := HEAP_START;
    while i < HEAP_START + HEAP_INITIAL_SIZE
      invariant i % PAGE == 0 && HEAP_START <= i <= HEAP_START + HEAP_INITIAL_SIZE
      invariant k.Valid() && k.placement == old(k.placement)
      invariant BootMap(k.Words(), k.Dir(), n, i / PAGE - HEAP_PAGE)
      invariant forall v: nat | v < n :: HasTable(k.Dir(), v)
      invariant HeapTablesMade(k.Dir())
      invariant TablesPlaced(k.Dir(), k.tblphys[..], k.placement)
    {
      var found, v := k.GetPage(i, false);
      ghost var words, dir := k.Words(), k.Dir();
      FramesOut(words, dir, n, i / PAGE - HEAP_PAGE);
      ok := k.AllocFrame(v, false, false);
      if !ok {
        return false;
      }
      NextFrame(words, dir, k.Words(), k.Dir(), n, i / PAGE - HEAP_PAGE, v);
      i := i + PAGE;
    }
    FramesOut(k.Words(), k.Dir(), n, HEAP_PAGES);
    return true;
  }

  /** init_paging up to the point where the heap is set up. */
  method InitPaging(k: Pager) returns (ok: bool)
    requires k.Valid() && k.frames.Length * WORD_BITS <= PAGE
    requires PAGE <= k.placement <= 0xBF00_0000
    requires forall t | 0 <= t < TABLES :: k.tables[t] == []
    requires forall f: nat | f < k.frames.Length * WORD_BITS :: !Used(k.Words(), f)
    modifies k`placement, k.frames, k.tables, k.tblphys
    ensures k.Valid() && old(k.placement) <= k.placement
    ensures ok <==> PagesBelow(k.placement) + HEAP_PAGES <= k.frames.Length * WORD_BITS
    ensures ok ==> BootMap(k.Words(), k.Dir(), PagesBelow(k.placement), HEAP_PAGES)
    ensures ok ==> forall v: nat | v < PagesBelow(k.placement) :: HasTable(k.Dir(), v)
    ensures HeapTablesMade(k.Dir())
    ensures TablesPlaced(k.Dir(), k.tblphys[..], k.placement)
  {
    MissingBound(k.Dir());
    MapHeapTables(k);
    var heap, _ := k.PlacementAlloc(HEAP_STRUCT_SIZE, false);
    ok := MapIdentity(k);
    if ok {
      ok := MapHeapFrames(k);
    }
  }
}
