/** _kmalloc: memory from the placement address while there is no heap, from the heap afterwards, with its physical
    address and zeroed if asked (kmalloc.c). */
module Kmalloc {
  import opened Memory
  import opened Blocks
  import opened HeapSpec
  import opened HeapAlloc
  import opened HeapOrder
  import opened Paging
  import opened HeapPages
  import opened HeapMoves
  import opened Heap
  import opened HeapRuns

  /** The branch without a heap. The address is its own physical address; the identity mapping made later covers all
      memory below the placement address. */
  method KmallocPlacement(mem: Store, k: Pager, len: nat, aligned: bool, zero: bool) returns (addr: nat, phys: nat)
    requires k.placement + PAGE + len < WORD_LIMIT
    modifies mem, k`placement
    ensures old(k.placement) <= addr == phys <= old(k.placement) + PAGE && addr + len == k.placement
    ensures addr == old(k.placement) <==> !aligned || old(k.placement) < PAGE
    ensures aligned && PAGE <= old(k.placement) ==> addr % PAGE == 0
    ensures zero ==> forall a | addr <= a < addr + len :: mem.ram[a] == 0
    ensures SameOutside(old(mem.ram), mem.ram, addr, addr + len) && (!zero ==> mem.ram == old(mem.ram))
  {
    addr, phys := k.PlacementAlloc(len, aligned);
    if zero {
      mem.Zero(addr, len);
    }
  }

  /** The branch with a heap. The physical address is read from the page of the first byte. When alloc keeps its
      promise, zeroing the new payload leaves the heap sound and every other live block as it was. */
  method KmallocHeap(h: VmHeap, len: nat, aligned: bool, zero: bool) returns (r: OrPanic<nat>, phys: nat)
    requires h.index.Valid() && h.Ready() && Inv(h.Snap())
    requires Needed(len) < SIGN_LIMIT && h.max + Needed(len) + PAGE <= WORD_LIMIT
    modifies h, h.mem, h.index`size, h.index.words
    modifies h.pager`placement, h.pager.frames, h.pager.tables, h.pager.tblphys
    ensures h.index.Valid() && h.Ready()
    ensures r.Returned? ==>
              && h.start <= r.value && r.value + len <= h.end <= WORD_LIMIT
              && phys == Translate(h.pager.Dir(), r.value)
              && (zero ==> forall a | r.value <= a < r.value + len :: h.mem.ram[a] == 0)
    ensures r.Returned? && AllocOk(old(h.Snap()), Needed(len), aligned) ==>
              && Inv(h.Snap()) && AbsStep(old(Abs(h.Snap())), AllocOp(len, aligned, r.value), Abs(h.Snap()))
              && Untouched(old(h.mem.ram), h.mem.ram, Live(old(h.blocks)))
  {
    hide Inv, AllocOk, FramesTaken, AllocWork, KeepsAlloc, Owned, Abs, Step, AllocStep, HeaderAt, BySize, AllocOrderOk;
    ghost var s := h.Snap();
    InvRunnable(s);
    ghost var i, expansions;
    r, i, expansions := h.Alloc(len, aligned);
    phys := 0;
    if r.Returned? {
      ghost var m := h.Snap();
      assert HasTable(h.pager.Dir(), r.value / PAGE) by {
        assert h.start / PAGE <= r.value / PAGE < h.max / PAGE;
      }
      var found, v := h.pager.GetPage(r.value, false);
      phys := h.pager.tables[v / TABLE_PAGES][v % TABLE_PAGES].frame * PAGE + r.value % PAGE;
      if zero {
        h.mem.Zero(r.value, len);
      }
      if AllocOk(s, Needed(len), aligned) {
        ghost var b := NewBlock(s, m, i, len, aligned, r.value);
        ZeroedKeeps(s, m, h.mem.ram, b);
        assert h.Snap() == m.(ram := h.mem.ram);
      }
    }
  }

  lemma NewBlock(s: State, m: State, i: nat, len: nat, aligned: bool, p: nat) returns (b: Block)
    requires Inv(s) && AllocStep(s, m, i, Needed(len), aligned, p)
    ensures Inv(m) && AbsStep(Abs(s), AllocOp(len, aligned, p), Abs(m)) && Untouched(s.ram, m.ram, Live(s.blocks))
    ensures b in Live(m.blocks) && b !in Live(s.blocks) && Live(s.blocks) <= Live(m.blocks)
    ensures b.Payload() == p && p + len <= b.End() - FTR_SIZE && b.End() <= m.end
    ensures m.start <= p && m.end <= m.max && m.end % PAGE == 0 && m.start % PAGE == 0 && m.max <= WORD_LIMIT
    ensures m.start == s.start && m.max == s.max
  {
    hide TagsOk, HoleFootersInside, IndexOk, NoAdjacentHoles, Abs;
    b := AllocLive(s, m, i, Needed(len), aligned, p);
    AllocRefines(s, m, i, len, aligned, p);
    TilesOrdered(m.blocks, m.start, m.end);
  }

  lemma ZeroedKeeps(s: State, m: State, after: Ram, b: Block)
    requires Inv(m) && b in Live(m.blocks) && b !in Live(s.blocks) && Live(s.blocks) <= Live(m.blocks)
    requires Untouched(s.ram, m.ram, Live(s.blocks))
    requires SameOutside(m.ram, after, b.Payload(), b.End() - FTR_SIZE)
    ensures Inv(m.(ram := after)) && Abs(m.(ram := after)) == Abs(m)
    ensures Untouched(s.ram, after, Live(s.blocks))
  {
    hide Inv;
    PayloadKeepsInv(m, after, b);
    forall c, x | c in Live(s.blocks) && 0 <= x < WORD_LIMIT && Covers(c, x)
      ensures after[x] == s.ram[x]
    {
      assert m.ram[x] == s.ram[x];
    }
  }
}
