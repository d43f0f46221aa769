/** The order of the index by size: what keeps it and what does not. */
module HeapOrder {
  import opened Memory
  import opened SortedArrays
  import opened Blocks
  import opened HeapSpec

  /** vm_heap_header_cmp, reading the sizes of two headers. */
  function HeaderCmp(ram: Ram): Comparison
  {
    (a: nat, b: nat) =>
      if a + HDR_SIZE <= WORD_LIMIT && b + HDR_SIZE <= WORD_LIMIT then
        SizeCmp(HeaderAt(ram, a).size, HeaderAt(ram, b).size)
      else 0
  }

  /** The size an index entry's header gives. */
  ghost function SizeKey(ram: Ram): nat -> int
  {
    (a: nat) => if a + HDR_SIZE <= WORD_LIMIT then HeaderAt(ram, a).size else 0
  }

  ghost predicate BySize(ram: Ram, index: seq<nat>)
  {
    Ordered(index, SizeKey(ram))
  }

  /** Entries whose headers read the same are in the same order. */
  lemma SameSizes(before: Ram, after: Ram, index: seq<nat>)
    requires forall i | 0 <= i < |index| :: SizeKey(after)(index[i]) == SizeKey(before)(index[i])
    ensures BySize(after, index) <==> BySize(before, index)
  {
  }

  /** Inserting with the comparison of headers keeps the order as long as sizes stay below the sign bit. */
  lemma InsertBySize(ram: Ram, index: seq<nat>, el: nat)
    requires BySize(ram, index)
    requires el + HDR_SIZE <= WORD_LIMIT && HeaderAt(ram, el).size < SIGN_LIMIT
    requires forall i | 0 <= i < |index| ::
               index[i] + HDR_SIZE <= WORD_LIMIT && HeaderAt(ram, index[i]).size < SIGN_LIMIT
    ensures BySize(ram, Inserted(index, el, HeaderCmp(ram)))
  {
    hide HeaderAt;
    forall i | 0 <= i < |index|
      ensures HeaderCmp(ram)(index[i], el) < 0 <==> SizeKey(ram)(index[i]) < SizeKey(ram)(el)
    {
      SizeCmpCorrect(HeaderAt(ram, index[i]).size, HeaderAt(ram, el).size);
    }
    InsertKeepsOrder(index, el, HeaderCmp(ram), SizeKey(ram));
  }

  /** Inserting neither breaks nor mends the order. */
  lemma InsertedOrder(ram: Ram, index: seq<nat>, el: nat)
    requires el + HDR_SIZE <= WORD_LIMIT && HeaderAt(ram, el).size < SIGN_LIMIT
    requires forall i | 0 <= i < |index| ::
               index[i] + HDR_SIZE <= WORD_LIMIT && HeaderAt(ram, index[i]).size < SIGN_LIMIT
    ensures BySize(ram, Inserted(index, el, HeaderCmp(ram))) <==> BySize(ram, index)
  {
    hide HeaderAt;
    if BySize(ram, index) {
      InsertBySize(ram, index, el);
    }
    if BySize(ram, Inserted(index, el, HeaderCmp(ram))) {
      OrderWithout(index, InsertPoint(index, el, HeaderCmp(ram)), el, SizeKey(ram));
    }
  }

  lemma OrderWithout(s: seq<nat>, k: nat, el: nat, key: nat -> int)
    requires k <= |s| && Ordered(InsertAt(s, k, el), key)
    ensures Ordered(s, key)
  {
    var t := InsertAt(s, k, el);
    forall i, j | 0 <= i < j < |s|
      ensures key(s[i]) <= key(s[j])
    {
      assert s[i] == t[if i < k then i else i + 1] && s[j] == t[if j < k then j else j + 1];
    }
  }

  /** An entry of this size at place i stands between all the others, the one that goes away not counted. */
  ghost predicate InLine(ram: Ram, index: seq<nat>, i: nat, size: int, gone: int)
    requires i < |index|
  {
    forall j | 0 <= j < |index| && j != i && index[j] != gone ::
      (j < i ==> SizeKey(ram)(index[j]) <= size) && (i < j ==> size <= SizeKey(ram)(index[j]))
  }

  /** When one entry of an ordered index changes its size in place, the order survives exactly if the new size still
      stands in line with the old sizes of the others. */
  lemma ResizeInPlace(before: Ram, after: Ram, index: seq<nat>, i: nat)
    requires BySize(before, index) && i < |index|
    requires forall j | 0 <= j < |index| && j != i :: SizeKey(after)(index[j]) == SizeKey(before)(index[j])
    ensures BySize(after, index) <==> InLine(before, index, i, SizeKey(after)(index[i]), -1)
  {
  }

  // ---- carving

  /** The index after carving hole i: without alignment the hole goes, and the hole behind the block comes to where
      its size belongs. */
  ghost predicate CarvedIndex(before: seq<nat>, after: seq<nat>, ram: Ram, i: nat, a: nat, holeSize: nat, n: nat,
                              align: bool)
    requires i < |before| && CarveOk(a, holeSize, n, align)
  {
    var kept := if align then before else Removed(before, i);
    var used: nat := if align then Lead(a) + n else Taken(holeSize, n);
    after == if holeSize == used then kept else Inserted(kept, a + used, HeaderCmp(ram))
  }

  lemma CarvedIsCarveIndex(before: seq<nat>, after: seq<nat>, ram: Ram, i: nat, a: nat, holeSize: nat, n: nat,
                           align: bool)
    requires i < |before| && CarveOk(a, holeSize, n, align)
    requires CarvedIndex(before, after, ram, i, a, holeSize, n, align)
    ensures CarveIndex(before, after, i, a, holeSize, n, align)
  {
  }

  /** A hole other than k reads the same after a write inside block k. */
  lemma OtherHole(s: State, after: Ram, k: nat, a: nat)
    requires Inv(s) && k < |s.blocks| && a in s.index && a != s.blocks[k].addr
    requires SameOutside(s.ram, after, s.blocks[k].addr, s.blocks[k].End())
    ensures a + HDR_SIZE <= WORD_LIMIT && HeaderAt(after, a) == HeaderAt(s.ram, a)
    ensures HeaderAt(s.ram, a).size < SIGN_LIMIT
  {
    hide HeaderAt, TagsOk, HoleFootersInside, NoAdjacentHoles;
    var h := HoleOf(s, a);
    BlocksDisjoint(s.blocks, s.start, s.end, s.blocks[h], s.blocks[k]);
    HeaderUnchanged(s.ram, after, a);
  }

  /** The carving changes the size of no entry but i, which shrinks to the piece in front of an aligned block. */
  lemma CarvedSizes(s: State, s': State, i: nat, k: nat, n: nat, align: bool, p: nat)
    requires Inv(s) && CarveStep(s, s', k, n, align, p) && i < |s.index| && s.index[i] == s.blocks[k].addr
    ensures forall j | 0 <= j < |s.index| && j != i ::
              && s.index[j] + HDR_SIZE <= WORD_LIMIT && HeaderAt(s'.ram, s.index[j]).size < SIGN_LIMIT
              && SizeKey(s'.ram)(s.index[j]) == SizeKey(s.ram)(s.index[j])
    ensures align ==> s.index[i] + HDR_SIZE <= WORD_LIMIT && SizeKey(s'.ram)(s.index[i]) == Lead(s.index[i]) <= PAGE
  {
    hide HeaderAt, TagsOk, HoleFootersInside, NoAdjacentHoles, Tiles;
    forall j | 0 <= j < |s.index| && j != i
      ensures s.index[j] + HDR_SIZE <= WORD_LIMIT && HeaderAt(s'.ram, s.index[j]).size < SIGN_LIMIT
      ensures SizeKey(s'.ram)(s.index[j]) == SizeKey(s.ram)(s.index[j])
    {
      OtherHole(s, s'.ram, k, s.index[j]);
    }
    if align {
      FrontPiece(s, s', k, n, p);
    }
  }

  lemma FrontPiece(s: State, s': State, k: nat, n: nat, p: nat)
    requires Inv(s) && CarveStep(s, s', k, n, true, p)
    ensures var a := s.blocks[k].addr; a + HDR_SIZE <= WORD_LIMIT && HeaderAt(s'.ram, a).size == Lead(a)
  {
    hide HeaderAt, FooterAt, HoleFootersInside, NoAdjacentHoles, Tiles, IndexOk;
    assert s'.blocks[k] == Block(s.blocks[k].addr, Lead(s.blocks[k].addr), true);
    assert TagOk(s'.ram, s'.blocks[k]);
  }

  /** The carving leaves an ordered index exactly if it is ordered without the hole behind the block. */
  lemma CarveOrder(s: State, s': State, i: nat, k: nat, n: nat, align: bool, p: nat)
    requires Inv(s) && CarveStep(s, s', k, n, align, p) && i < |s.index| && s.index[i] == s.blocks[k].addr
    requires CarvedIndex(s.index, s'.index, s'.ram, i, s.blocks[k].addr, s.blocks[k].size, n, align)
    ensures BySize(s'.ram, s'.index) <==> BySize(s'.ram, if align then s.index else Removed(s.index, i))
  {
    hide HeaderAt, TagsOk, HoleFootersInside, NoAdjacentHoles, Tiles, Inserted, BySize;
    var a, holeSize := s.blocks[k].addr, s.blocks[k].size;
    var kept := if align then s.index else Removed(s.index, i);
    var used: nat := if align then Lead(a) + n else Taken(holeSize, n);
    CarvedSizes(s, s', i, k, n, align, p);
    RemovedMembers(s.index, i);
    forall j | 0 <= j < |kept|
      ensures kept[j] + HDR_SIZE <= WORD_LIMIT && HeaderAt(s'.ram, kept[j]).size < SIGN_LIMIT
    {
      assert kept[j] in kept;
    }
    if holeSize != used {
      var el := a + used;
      assert el in s'.index by {
        InsertedHas(kept, el, HeaderCmp(s'.ram));
      }
      var h := HoleOf(s', el);
      InsertedOrder(s'.ram, kept, el);
    }
  }

  lemma InsertedHas(s: seq<nat>, el: nat, cmp: Comparison)
    ensures el in Inserted(s, el, cmp)
  {
    assert Inserted(s, el, cmp)[InsertPoint(s, el, cmp)] == el;
  }

  lemma RemovedBySize(ram: Ram, index: seq<nat>, i: nat)
    requires i < |index| && BySize(ram, index)
    ensures BySize(ram, Removed(index, i))
  {
    RemoveKeepsOrder(index, i, SizeKey(ram));
  }
}
