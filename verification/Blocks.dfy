/** The list of blocks a heap is cut into, and how allocation and release rewrite it. */
module Blocks {
  import opened Memory

  /** A block with its two tags: size counts header, payload and footer. */
  datatype Block = Block(addr: nat, size: nat, hole: bool) {
    function End(): nat { addr + size }

    /** The address handed to the caller. */
    function Payload(): nat { addr + HDR_SIZE }
  }

  ghost predicate Covers(b: Block, a: int)
  {
    b.addr <= a < b.addr + b.size
  }

  /** The bytes of a block between its tags. */
  ghost predicate InPayload(b: Block, a: int)
  {
    b.addr + HDR_SIZE <= a < b.addr + b.size - FTR_SIZE
  }

  /** The blocks follow one another from lo to hi without gap or overlap, and each has room for its tags. */
  ghost predicate Tiles(bs: seq<Block>, lo: nat, hi: nat)
  {
    && |bs| > 0
    && bs[0].addr == lo
    && bs[|bs| - 1].End() == hi
    && (forall i | 0 <= i < |bs| :: bs[i].size >= TAGS_SIZE)
    && (forall i, j | 0 <= i && j == i + 1 && j < |bs| :: bs[j].addr == bs[i].End())
  }

  ghost predicate NoAdjacentHoles(bs: seq<Block>)
  {
    forall i, j | 0 <= i && j == i + 1 && j < |bs| :: !(bs[i].hole && bs[j].hole)
  }

  function Live(bs: seq<Block>): set<Block>
  {
    set b | b in bs && !b.hole
  }

  function HoleAddrs(bs: seq<Block>): set<nat>
  {
    set b | b in bs && b.hole :: b.addr
  }

  // ---- order

  lemma {:induction false} TilesInOrder(bs: seq<Block>, lo: nat, hi: nat, i: nat, j: nat)
    requires Tiles(bs, lo, hi) && i < j < |bs|
    ensures bs[i].End() <= bs[j].addr
    decreases j - i
  {
    if i + 1 < j {
      TilesInOrder(bs, lo, hi, i, j - 1);
    }
  }

  lemma TilesOrdered(bs: seq<Block>, lo: nat, hi: nat)
    requires Tiles(bs, lo, hi)
    ensures forall i, j | 0 <= i < j < |bs| :: bs[i].End() <= bs[j].addr
    ensures forall i | 0 <= i < |bs| :: lo <= bs[i].addr && bs[i].End() <= hi
  {
    forall i, j | 0 <= i < j < |bs|
      ensures bs[i].End() <= bs[j].addr
    {
      TilesInOrder(bs, lo, hi, i, j);
    }
    forall i | 0 <= i < |bs|
      ensures lo <= bs[i].addr && bs[i].End() <= hi
    {
      if 0 < i {
        TilesInOrder(bs, lo, hi, 0, i);
      }
      if i < |bs| - 1 {
        TilesInOrder(bs, lo, hi, i, |bs| - 1);
      }
    }
  }

  /** Two blocks of one tiling are the same block or do not overlap. */
  lemma BlocksDisjoint(bs: seq<Block>, lo: nat, hi: nat, b: Block, c: Block)
    requires Tiles(bs, lo, hi) && b in bs && c in bs
    ensures b == c || b.End() <= c.addr || c.End() <= b.addr
  {
    TilesOrdered(bs, lo, hi);
    var i :| 0 <= i < |bs| && bs[i] == b;
    var j :| 0 <= j < |bs| && bs[j] == c;
  }

  /** Every address of the heap lies in exactly one block. */
  lemma {:induction false} TilesCover(bs: seq<Block>, lo: nat, hi: nat, a: nat)
    requires Tiles(bs, lo, hi)
    ensures lo <= a < hi <==> exists i | 0 <= i < |bs| :: Covers(bs[i], a)
    ensures forall i, j | 0 <= i < j < |bs| :: !(Covers(bs[i], a) && Covers(bs[j], a))
  {
    TilesOrdered(bs, lo, hi);
    if lo <= a < hi {
      var i := 0;
      while !Covers(bs[i], a)
        invariant 0 <= i < |bs| && bs[i].addr <= a
        decreases |bs| - i
      {
        i := i + 1;
      }
    }
  }

  // ---- replacing a run of blocks

  function Splice(bs: seq<Block>, i: nat, j: nat, mid: seq<Block>): seq<Block>
    requires i <= j <= |bs|
  {
    bs[..i] + mid + bs[j..]
  }

  lemma SpliceTiles(bs: seq<Block>, lo: nat, hi: nat, i: nat, j: nat, mid: seq<Block>, hi': nat)
    requires Tiles(bs, lo, hi) && i < j <= |bs|
    requires Tiles(mid, bs[i].addr, hi')
    requires j < |bs| ==> hi' == bs[j].addr
    ensures Tiles(Splice(bs, i, j, mid), lo, if j < |bs| then hi else hi')
  {
    var r := Splice(bs, i, j, mid);
    forall n | 0 < n < |r|
      ensures r[n].addr == r[n - 1].End()
    {
      if n < i {
        assert r[n] == bs[n] && r[n - 1] == bs[n - 1];
      } else if n == i {
        assert r[n] == mid[0] && r[n - 1] == bs[n - 1];
      } else if n < i + |mid| {
        assert r[n] == mid[n - i] && r[n - 1] == mid[n - i - 1];
      } else if n == i + |mid| {
        assert r[n] == bs[j] && r[n - 1] == mid[|mid| - 1];
      } else {
        assert r[n] == bs[j + n - i - |mid|] && r[n - 1] == bs[j + n - i - |mid| - 1];
      }
    }
  }

  lemma SpliceNoAdjacent(bs: seq<Block>, i: nat, j: nat, mid: seq<Block>)
    requires NoAdjacentHoles(bs) && i < j <= |bs| && |mid| > 0
    requires NoAdjacentHoles(mid)
    requires mid[0].hole && i > 0 ==> !bs[i - 1].hole
    requires mid[|mid| - 1].hole && j < |bs| ==> !bs[j].hole
    ensures NoAdjacentHoles(Splice(bs, i, j, mid))
  {
    var r := Splice(bs, i, j, mid);
    forall n | 0 < n < |r|
      ensures !(r[n - 1].hole && r[n].hole)
    {
      if n < i {
        assert r[n] == bs[n] && r[n - 1] == bs[n - 1];
      } else if n == i {
        assert r[n] == mid[0] && r[n - 1] == bs[n - 1];
      } else if n < i + |mid| {
        assert r[n] == mid[n - i] && r[n - 1] == mid[n - i - 1];
      } else if n == i + |mid| {
        assert r[n] == bs[j] && r[n - 1] == mid[|mid| - 1];
      } else {
        assert r[n] == bs[j + n - i - |mid|] && r[n - 1] == bs[j + n - i - |mid| - 1];
      }
    }
  }

  lemma SpliceMembers(bs: seq<Block>, i: nat, j: nat, mid: seq<Block>)
    requires i <= j <= |bs|
    ensures forall b :: b in bs <==> b in bs[..i] || b in bs[i..j] || b in bs[j..]
    ensures forall b :: b in Splice(bs, i, j, mid) <==> b in bs[..i] || b in mid || b in bs[j..]
  {
    assert bs == bs[..i] + bs[i..j] + bs[j..];
  }

  /** No block outside the replaced run shares its address with one inside it. */
  lemma RunsApart(bs: seq<Block>, lo: nat, hi: nat, i: nat, j: nat, b: Block, c: Block)
    requires Tiles(bs, lo, hi) && i <= j <= |bs|
    requires b in bs[..i] || b in bs[j..]
    requires c in bs[i..j]
    ensures b.addr != c.addr
  {
    TilesOrdered(bs, lo, hi);
    var n :| 0 <= n < j - i && bs[i..j][n] == c;
    assert bs[i + n] == c;
    if b in bs[..i] {
      var m :| 0 <= m < i && bs[..i][m] == b;
      assert bs[m] == b;
    } else {
      var m :| 0 <= m < |bs| - j && bs[j..][m] == b;
      assert bs[j + m] == b;
    }
  }

  /** The live blocks and the hole addresses change only by what the replaced run held. */
  lemma SpliceLive(bs: seq<Block>, lo: nat, hi: nat, i: nat, j: nat, mid: seq<Block>)
    requires Tiles(bs, lo, hi) && i <= j <= |bs|
    ensures Live(Splice(bs, i, j, mid)) == Live(bs) - Live(bs[i..j]) + Live(mid)
  {
    var r := Splice(bs, i, j, mid);
    SpliceMembers(bs, i, j, mid);
    forall b | b in bs[..i] || b in bs[j..]
      ensures b !in bs[i..j]
    {
      if b in bs[i..j] {
        RunsApart(bs, lo, hi, i, j, b, b);
      }
    }
  }

  lemma SpliceHoles(bs: seq<Block>, lo: nat, hi: nat, i: nat, j: nat, mid: seq<Block>)
    requires Tiles(bs, lo, hi) && i <= j <= |bs|
    ensures HoleAddrs(Splice(bs, i, j, mid)) == HoleAddrs(bs) - HoleAddrs(bs[i..j]) + HoleAddrs(mid)
  {
    var r := Splice(bs, i, j, mid);
    SpliceMembers(bs, i, j, mid);
    forall a | a in HoleAddrs(r)
      ensures a in HoleAddrs(bs) - HoleAddrs(bs[i..j]) + HoleAddrs(mid)
    {
      var b :| b in r && b.hole && b.addr == a;
      if b !in mid && a in HoleAddrs(bs[i..j]) {
        var c :| c in bs[i..j] && c.hole && c.addr == a;
        RunsApart(bs, lo, hi, i, j, b, c);
      }
    }
    forall a | a in HoleAddrs(bs) - HoleAddrs(bs[i..j])
      ensures a in HoleAddrs(r)
    {
      var b :| b in bs && b.hole && b.addr == a;
      assert b !in bs[i..j];
    }
  }

  // ---- tags in memory

  /** The header says what the block is; the footer of a live block names its header. */
  ghost predicate TagOk(ram: Ram, b: Block)
  {
    && b.End() <= WORD_LIMIT && b.size >= TAGS_SIZE
    && HeaderAt(ram, b.addr) == Header(HDR_MAGIC, if b.hole then 1 else 0, b.size)
    && (!b.hole ==> FooterAt(ram, b.End() - FTR_SIZE) == Footer(FTR_MAGIC, b.addr))
  }

  ghost predicate TagsOk(ram: Ram, bs: seq<Block>)
  {
    forall i | 0 <= i < |bs| :: TagOk(ram, bs[i])
  }

  /** The footer of a hole names the hole. */
  ghost predicate Sealed(ram: Ram, b: Block)
  {
    && b.End() <= WORD_LIMIT && b.size >= TAGS_SIZE
    && FooterAt(ram, b.End() - FTR_SIZE) == Footer(FTR_MAGIC, b.addr)
  }

  /** A footer that looks like one names the hole itself, or a former hole that ended at the same place and
      whose header still says so. */
  ghost predicate FooterInside(ram: Ram, b: Block)
  {
    && b.End() <= WORD_LIMIT && b.size >= TAGS_SIZE
    && var f := FooterAt(ram, b.End() - FTR_SIZE);
       f.magic == FTR_MAGIC ==>
         f.header == b.addr ||
         (b.addr + TAGS_SIZE <= f.header <= b.End() - TAGS_SIZE && HeaderAt(ram, f.header).size == b.End() - f.header)
  }

  ghost predicate HoleFootersInside(ram: Ram, bs: seq<Block>)
  {
    forall i | 0 <= i < |bs| - 1 :: bs[i].hole ==> FooterInside(ram, bs[i])
  }

  /** Every hole but the last has a footer that names it. The very first hole is made without a footer. */
  ghost predicate AllSealed(ram: Ram, bs: seq<Block>)
  {
    forall i | 0 <= i < |bs| - 1 :: bs[i].hole ==> Sealed(ram, bs[i])
  }

  lemma TagKept(before: Ram, after: Ram, lo: int, hi: int, b: Block)
    requires b.End() <= WORD_LIMIT && b.size >= TAGS_SIZE
    requires SameOutside(before, after, lo, hi)
    requires b.End() <= lo || hi <= b.addr
    ensures TagOk(after, b) == TagOk(before, b)
    ensures Sealed(after, b) == Sealed(before, b)
    ensures FooterInside(after, b) == FooterInside(before, b)
  {
    hide HeaderAt, FooterAt;
    HeaderUnchanged(before, after, b.addr);
    FooterUnchanged(before, after, b.End() - FTR_SIZE);
    var h := FooterAt(before, b.End() - FTR_SIZE).header;
    if b.addr <= h <= b.End() - TAGS_SIZE {
      HeaderUnchanged(before, after, h);
    }
  }

  lemma SpliceAt(bs: seq<Block>, i: nat, j: nat, mid: seq<Block>, n: nat)
    requires i <= j <= |bs| && n < i + |mid| + |bs| - j
    ensures |Splice(bs, i, j, mid)| == i + |mid| + |bs| - j
    ensures Splice(bs, i, j, mid)[n] ==
            if n < i then bs[n] else if n < i + |mid| then mid[n - i] else bs[j + n - i - |mid|]
  {
  }

  /** A write between the first and the last replaced block leaves the tags of the others alone. */
  lemma OutsideTagsKept(before: Ram, after: Ram, bs: seq<Block>, lo: nat, hi: nat, i: nat, j: nat, to: nat, m: nat)
    requires Tiles(bs, lo, hi) && i < j <= |bs| && m < |bs| && (m < i || j <= m)
    requires TagsOk(before, bs)
    requires SameOutside(before, after, bs[i].addr, to)
    requires j < |bs| ==> to <= bs[j].addr
    ensures bs[m].End() <= WORD_LIMIT && bs[m].size >= TAGS_SIZE
    ensures TagOk(after, bs[m])
    ensures Sealed(after, bs[m]) == Sealed(before, bs[m])
    ensures FooterInside(after, bs[m]) == FooterInside(before, bs[m])
  {
    hide HeaderAt, FooterAt;
    if m < i {
      TilesInOrder(bs, lo, hi, m, i);
    } else if j < m {
      TilesInOrder(bs, lo, hi, j, m);
    }
    assert TagOk(before, bs[m]);
    TagKept(before, after, bs[i].addr, to, bs[m]);
  }

  lemma SpliceTags(before: Ram, after: Ram, bs: seq<Block>, lo: nat, hi: nat,
                   i: nat, j: nat, mid: seq<Block>, to: nat)
    requires Tiles(bs, lo, hi) && i < j <= |bs| && |mid| > 0
    requires TagsOk(before, bs) && HoleFootersInside(before, bs)
    requires SameOutside(before, after, bs[i].addr, to)
    requires j < |bs| ==> to <= bs[j].addr
    requires TagsOk(after, mid) && HoleFootersInside(after, mid)
    requires var last := mid[|mid| - 1]; j < |bs| && last.hole ==> FooterInside(after, last)
    ensures TagsOk(after, Splice(bs, i, j, mid))
    ensures HoleFootersInside(after, Splice(bs, i, j, mid))
  {
    hide HeaderAt, FooterAt;
    var r := Splice(bs, i, j, mid);
    forall n | 0 <= n < |r|
      ensures TagOk(after, r[n])
      ensures n < |r| - 1 && r[n].hole ==> FooterInside(after, r[n])
    {
      SpliceAt(bs, i, j, mid, n);
      if n < i {
        OutsideTagsKept(before, after, bs, lo, hi, i, j, to, n);
      } else if i + |mid| <= n {
        OutsideTagsKept(before, after, bs, lo, hi, i, j, to, j + n - i - |mid|);
      }
    }
  }

  lemma SpliceSealed(before: Ram, after: Ram, bs: seq<Block>, lo: nat, hi: nat,
                     i: nat, j: nat, mid: seq<Block>, to: nat)
    requires Tiles(bs, lo, hi) && i < j <= |bs| && |mid| > 0
    requires TagsOk(before, bs) && AllSealed(before, bs)
    requires SameOutside(before, after, bs[i].addr, to)
    requires j < |bs| ==> to <= bs[j].addr
    requires TagsOk(after, mid) && AllSealed(after, mid)
    requires var last := mid[|mid| - 1]; j < |bs| && last.hole ==> Sealed(after, last)
    ensures AllSealed(after, Splice(bs, i, j, mid))
  {
    hide HeaderAt, FooterAt;
    var r := Splice(bs, i, j, mid);
    forall n | 0 <= n < |r| - 1 && r[n].hole
      ensures Sealed(after, r[n])
    {
      SpliceAt(bs, i, j, mid, n);
      if n < i {
        OutsideTagsKept(before, after, bs, lo, hi, i, j, to, n);
      } else if i + |mid| <= n {
        OutsideTagsKept(before, after, bs, lo, hi, i, j, to, j + n - i - |mid|);
      }
    }
  }
}
