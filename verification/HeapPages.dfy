/** How the page loops of expand and contract change the pages of the heap and the bitmap of frames. */
module HeapPages {
  import opened Memory
  import opened Paging

  ghost predicate PagesBacked(tables: Tables, lo: nat, hi: nat)
  {
    forall v: nat | lo / PAGE <= v < hi / PAGE :: FrameOf(tables, v) != 0
  }

  ghost predicate TablesMade(tables: Tables, lo: nat, hi: nat)
  {
    forall v: nat | lo / PAGE <= v < hi / PAGE :: HasTable(tables, v)
  }

  /** The pages from lo up to hi were given frames where they had none. They are all backed afterwards exactly when
      they were before or frame 0 was not free to be handed out, for a page that gets frame 0 counts as having none. */
  ghost predicate PagesGrown(words: seq<nat>, tables: Tables, words': seq<nat>, tables': Tables, lo: nat, hi: nat)
    requires |words| > 0 && |words'| > 0
  {
    && |words'| == |words|
    && (forall v: nat | v < lo / PAGE || hi / PAGE <= v :: FrameOf(tables', v) == FrameOf(tables, v))
    && (forall v: nat | FrameOf(tables, v) != 0 :: FrameOf(tables', v) == FrameOf(tables, v))
    && (PagesBacked(tables', lo, hi) <==> Used(words, 0) || PagesBacked(tables, lo, hi))
    && (Used(words', 0) <==> Used(words, 0) || !PagesBacked(tables, lo, hi))
    && (Exact(words, tables) ==> Exact(words', tables'))
  }

  lemma NoPageGrown(words: seq<nat>, tables: Tables, at: nat)
    requires |words| > 0
    ensures PagesGrown(words, tables, words, tables, at, at)
  {
  }

  lemma GrowOnePage(words: seq<nat>, tables: Tables, now: seq<nat>, nowTables: Tables,
                    words': seq<nat>, tables': Tables, lo: nat, hi: nat)
    requires |words| > 0 && |now| > 0 && lo % PAGE == 0 && hi % PAGE == 0 && lo <= hi
    requires PagesGrown(words, tables, now, nowTables, lo, hi) && Owned(now, nowTables)
    requires FrameAllocated(now, nowTables, words', tables', hi / PAGE)
    ensures PagesGrown(words, tables, words', tables', lo, hi + PAGE) && Owned(words', tables')
  {
    var p := hi / PAGE;
    var f := FrameOf(tables', p);
    assert (hi + PAGE) / PAGE == p + 1;
    assert FrameOf(nowTables, p) == FrameOf(tables, p);
    assert PagesBacked(tables, lo, hi + PAGE) <==> PagesBacked(tables, lo, hi) && FrameOf(tables, p) != 0;
    assert PagesBacked(tables', lo, hi + PAGE) <==> PagesBacked(nowTables, lo, hi) && f != 0 by {
      assert forall v: nat | v < p :: FrameOf(tables', v) == FrameOf(nowTables, v);
    }
    if FrameOf(tables, p) == 0 {
      assert f == 0 <==> !Used(now, 0);
      AllocKeepsOwned(now, nowTables, words', tables', p, f);
    }
  }

  /** The pages above the one the heap now ends in were given up. The bit cleared for each is that of frame 0. */
  ghost predicate PagesReleased(words: seq<nat>, tables: Tables, words': seq<nat>, tables': Tables, lo: nat, hi: nat)
    requires |words| > 0 && |words'| > 0
  {
    && |words'| == |words|
    && (forall v: nat :: FrameOf(tables', v) == if lo / PAGE < v < hi / PAGE then 0 else FrameOf(tables, v))
    && (forall f: nat | 0 < f < |words| * WORD_BITS :: Used(words', f) <==> Used(words, f))
    && (Used(words', 0) <==> Used(words, 0) && forall v: nat | lo / PAGE < v < hi / PAGE :: FrameOf(tables, v) == 0)
  }

  lemma NoPageReleased(words: seq<nat>, tables: Tables, lo: nat, hi: nat)
    requires |words| > 0 && lo % PAGE == 0 && hi <= lo + PAGE
    ensures PagesReleased(words, tables, words, tables, lo, hi)
  {
  }

  lemma ReleaseOnePage(words: seq<nat>, tables: Tables, now: seq<nat>, nowTables: Tables,
                       words': seq<nat>, tables': Tables, lo: nat, hi: nat)
    requires 0 < |words| && 0 < |now| && |words| * WORD_BITS <= PAGE
    requires lo % PAGE == 0 && hi % PAGE == 0 && PAGE <= lo < hi
    requires PagesReleased(words, tables, now, nowTables, lo, hi) && Owned(now, nowTables)
    requires FrameReleased(now, nowTables, words', tables', lo / PAGE)
    ensures PagesReleased(words, tables, words', tables', lo - PAGE, hi) && Owned(words', tables')
  {
    var p := lo / PAGE;
    assert (lo - PAGE) / PAGE == p - 1;
    assert OwnsUsedFrame(now, nowTables, p);
    assert p < hi / PAGE;
    assert FrameOf(nowTables, p) == FrameOf(tables, p);
    if FrameOf(nowTables, p) != 0 {
      assert ClearedBit(FrameOf(nowTables, p)) == 0;
      SmallMachineKeepsOwned(now, nowTables, words', tables', p);
    }
  }

  // ---- the loops, page by page

  lemma NextPage(a: nat)
    ensures (a + PAGE) / PAGE == a / PAGE + 1
  {
  }

  lemma WholePageBelow(a: nat, limit: nat)
    requires a % PAGE == 0 && a + PAGE <= limit
    ensures a < limit - limit % PAGE
  {
  }

  /** Frames were allocated for the pages from lo up to hi, one after the other. */
  ghost predicate FramesTaken(words: seq<nat>, tables: Tables, words': seq<nat>, tables': Tables, lo: nat, hi: nat)
    decreases hi
  {
    if hi <= lo then words' == words && tables' == tables
    else exists w: seq<nat>, t: Tables, v: nat ::
           v + 1 == hi && FramesTaken(words, tables, w, t, lo, v) && FrameAllocated(w, t, words', tables', v)
  }

  /** The frames of the pages from hi down to lo were released, one after the other. */
  ghost predicate FramesGiven(words: seq<nat>, tables: Tables, words': seq<nat>, tables': Tables, lo: nat, hi: nat)
    decreases hi - lo
  {
    if hi <= lo then words' == words && tables' == tables
    else exists w: seq<nat>, t: Tables ::
           FramesGiven(words, tables, w, t, lo + 1, hi) && FrameReleased(w, t, words', tables', lo)
  }

  lemma TakenNone(words: seq<nat>, tables: Tables, at: nat)
    ensures FramesTaken(words, tables, words, tables, at, at)
  {
  }

  lemma TakenNext(words: seq<nat>, tables: Tables, w: seq<nat>, t: Tables, words': seq<nat>, tables': Tables,
                  lo: nat, v: nat)
    requires lo <= v && FramesTaken(words, tables, w, t, lo, v) && FrameAllocated(w, t, words', tables', v)
    ensures FramesTaken(words, tables, words', tables', lo, v + 1)
  {
    hide FrameAllocated;
  }

  lemma NoFlags(tables: Tables, at: nat, writeable: bool, user: bool)
    ensures FlagsSet(tables, tables, at, at, writeable, user)
  {
  }

  /** The flags of one page more. */
  lemma FlagsNext(before: Tables, now: Tables, after: Tables, lo: nat, v: nat, writeable: bool, user: bool)
    requires lo <= v && FlagsSet(before, now, lo, v, writeable, user)
    requires FlagsSet(now, after, v, v + 1, writeable, user)
    ensures FlagsSet(before, after, lo, v + 1, writeable, user)
  {
  }

  lemma GivenNone(words: seq<nat>, tables: Tables, lo: nat, hi: nat)
    requires hi <= lo
    ensures FramesGiven(words, tables, words, tables, lo, hi)
  {
  }

  lemma GivenNext(words: seq<nat>, tables: Tables, w: seq<nat>, t: Tables, words': seq<nat>, tables': Tables,
                  lo: nat, hi: nat)
    requires lo < hi && FramesGiven(words, tables, w, t, lo + 1, hi) && FrameReleased(w, t, words', tables', lo)
    ensures FramesGiven(words, tables, words', tables', lo, hi)
  {
    hide FrameReleased;
  }

  /** Where in its page the heap ends makes no difference. */
  lemma GivenTo(words: seq<nat>, tables: Tables, words': seq<nat>, tables': Tables, lo: nat, lo': nat, hi: nat)
    requires FramesGiven(words, tables, words', tables', lo / PAGE + 1, hi / PAGE)
    requires lo % PAGE == 0 && lo <= lo' && (lo' < lo + PAGE || hi <= lo + PAGE)
    ensures FramesGiven(words, tables, words', tables', lo' / PAGE + 1, hi / PAGE)
  {
    assert lo / PAGE <= lo' / PAGE;
    assert lo' < lo + PAGE ==> lo' / PAGE == lo / PAGE;
    assert hi <= lo + PAGE ==> hi / PAGE <= lo / PAGE + 1;
  }

  lemma {:induction false} TakenJoin(w0: seq<nat>, t0: Tables, w1: seq<nat>, t1: Tables, w2: seq<nat>, t2: Tables,
                                     a: nat, b: nat, c: nat)
    requires a <= b <= c && FramesTaken(w0, t0, w1, t1, a, b) && FramesTaken(w1, t1, w2, t2, b, c)
    ensures FramesTaken(w0, t0, w2, t2, a, c)
    decreases c
  {
    hide FrameAllocated;
    if b < c {
      var w: seq<nat>, t: Tables, v: nat :|
        v + 1 == c && FramesTaken(w1, t1, w, t, b, v) && FrameAllocated(w, t, w2, t2, v);
      TakenJoin(w0, t0, w1, t1, w, t, a, b, v);
    }
  }

  /** What the allocation loop does to the pages as a whole. */
  lemma {:induction false} TakenGrows(words: seq<nat>, tables: Tables, words': seq<nat>, tables': Tables,
                                      lo: nat, hi: nat)
    requires |words| > 0 && Owned(words, tables) && lo <= hi
    requires FramesTaken(words, tables, words', tables', lo, hi)
    ensures |words'| == |words| && Owned(words', tables')
    ensures PagesGrown(words, tables, words', tables', lo * PAGE, hi * PAGE)
    decreases hi
  {
    hide Owned, FrameAllocated, PagesGrown;
    if hi == lo {
      NoPageGrown(words, tables, lo * PAGE);
    } else {
      var w: seq<nat>, t: Tables, v: nat :|
        v + 1 == hi && FramesTaken(words, tables, w, t, lo, v) && FrameAllocated(w, t, words', tables', v);
      TakenGrows(words, tables, w, t, lo, v);
      SameLength(w, t, words', tables', v);
      GrowOnePage(words, tables, w, t, words', tables', lo * PAGE, v * PAGE);
    }
  }

  lemma SameLength(words: seq<nat>, tables: Tables, words': seq<nat>, tables': Tables, v: nat)
    requires FrameAllocated(words, tables, words', tables', v) || FrameReleased(words, tables, words', tables', v)
    ensures |words'| == |words|
  {
  }

  /** What the release loop does to the pages as a whole, on a machine with at most 4096 frames. */
  lemma {:induction false} GivenReleases(words: seq<nat>, tables: Tables, words': seq<nat>, tables': Tables,
                                         lo: nat, hi: nat)
    requires 0 < |words| && |words| * WORD_BITS <= PAGE && Owned(words, tables) && 0 < lo
    requires FramesGiven(words, tables, words', tables', lo, hi)
    ensures |words'| == |words| && Owned(words', tables')
    ensures PagesReleased(words, tables, words', tables', (lo - 1) * PAGE, hi * PAGE)
    decreases hi - lo
  {
    hide Owned, FrameReleased, PagesReleased;
    if hi <= lo {
      NoPageReleased(words, tables, (lo - 1) * PAGE, hi * PAGE);
    } else {
      var w: seq<nat>, t: Tables :|
        FramesGiven(words, tables, w, t, lo + 1, hi) && FrameReleased(w, t, words', tables', lo);
      GivenReleases(words, tables, w, t, lo + 1, hi);
      SameLength(w, t, words', tables', lo);
      assert lo * PAGE / PAGE == lo && lo * PAGE - PAGE == (lo - 1) * PAGE;
      ReleaseOnePage(words, tables, w, t, words', tables', lo * PAGE, hi * PAGE);
    }
  }
}
