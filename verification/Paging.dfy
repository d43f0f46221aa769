/** Page frames, page tables and the identity mapping made at boot (paging.c). */
module Paging {
  import opened Memory

  const WORD_BITS: nat := 32
  const TABLE_PAGES: nat := 1024
  const TABLES: nat := 1024

  // ---- bits of a word

  predicate Bit(w: nat, j: nat)
  {
    if j == 0 then w % 2 == 1 else Bit(w / 2, j - 1)
  }

  /** w | (0x1 << j) */
  function WithBit(w: nat, j: nat): nat
  {
    if j == 0 then w - w % 2 + 1 else 2 * WithBit(w / 2, j - 1) + w % 2
  }

  /** w & ~(0x1 << j) */
  function WithoutBit(w: nat, j: nat): nat
  {
    if j == 0 then w - w % 2 else 2 * WithoutBit(w / 2, j - 1) + w % 2
  }

  /** Setting or clearing bit i changes bit i only. */
  lemma {:induction false} BitUpdate(w: nat, i: nat, j: nat)
    ensures Bit(WithBit(w, i), j) <==> i == j || Bit(w, j)
    ensures Bit(WithoutBit(w, i), j) <==> i != j && Bit(w, j)
  {
    LowBit(w / 2, w);
    if i > 0 {
      LowBit(WithBit(w / 2, i - 1), w);
      LowBit(WithoutBit(w / 2, i - 1), w);
      if j > 0 {
        BitUpdate(w / 2, i - 1, j - 1);
      }
    }
  }

  /** Bit j is worth 2^j: setting it adds that much if it was clear, clearing it takes that much away if it was set. */
  lemma {:induction false} BitWorth(w: nat, j: nat)
    ensures WithBit(w, j) == w + if Bit(w, j) then 0 else Pow2(j)
    ensures WithoutBit(w, j) == w - if Bit(w, j) then Pow2(j) else 0
  {
    if j > 0 {
      BitWorth(w / 2, j - 1);
    }
  }

  lemma LowBit(high: nat, w: nat)
    ensures (2 * high + w % 2) / 2 == high && (2 * high + w % 2) % 2 == w % 2
    ensures high == w / 2 ==> 2 * high + w % 2 == w && (w - w % 2) / 2 == high && (w - w % 2 + 1) / 2 == high
  {
  }

  lemma {:induction false} BitUpdateFits(w: nat, i: nat, n: nat)
    requires w < Pow2(n) && i < n
    ensures WithBit(w, i) < Pow2(n) && WithoutBit(w, i) < Pow2(n)
  {
    if i > 0 {
      BitUpdateFits(w / 2, i - 1, n - 1);
    }
  }

  /** The word with its n low bits set is the one the scan compares with. */
  lemma {:induction false} AllOnes(n: nat, j: nat)
    requires j < n
    ensures Bit(Pow2(n) - 1, j)
  {
    if j > 0 {
      AllOnes(n - 1, j - 1);
    }
  }

  lemma FullWord(j: nat)
    requires j < WORD_BITS
    ensures Pow2(WORD_BITS) == WORD_LIMIT
    ensures Bit(0xFFFF_FFFF, j)
  {
    Pow32();
    AllOnes(WORD_BITS, j);
  }

  // ---- the bitmap of frames

  predicate Used(words: seq<nat>, f: nat)
    requires f < |words| * WORD_BITS
  {
    Bit(words[f / WORD_BITS], f % WORD_BITS)
  }

  lemma WordsUpdate(words: seq<nat>, f: nat, g: nat)
    requires f < |words| * WORD_BITS && g < |words| * WORD_BITS
    ensures var i := f / WORD_BITS;
            && (Used(words[i := WithBit(words[i], f % WORD_BITS)], g) <==> f == g || Used(words, g))
            && (Used(words[i := WithoutBit(words[i], f % WORD_BITS)], g) <==> f != g && Used(words, g))
  {
    BitUpdate(words[f / WORD_BITS], f % WORD_BITS, g % WORD_BITS);
  }

  // ---- page tables

  const PAGES: nat := 0x10_0000

  /** The fields of a page table entry the kernel sets (paging.h:8-16). */
  datatype Page = Page(present: bool, writeable: bool, user: bool, frame: nat)

  const BLANK: Page := Page(false, false, false, 0)

  type Tables = seq<seq<Page>>

  /** The empty sequence stands for a table that does not exist. */
  predicate HasTable(tables: Tables, v: nat)
  {
    v / TABLE_PAGES < |tables| && |tables[v / TABLE_PAGES]| == TABLE_PAGES
  }

  function Entry(tables: Tables, v: nat): Page
  {
    if HasTable(tables, v) then tables[v / TABLE_PAGES][v % TABLE_PAGES] else BLANK
  }

  /** The frame page v holds; zero when it holds none. */
  function FrameOf(tables: Tables, v: nat): nat
  {
    Entry(tables, v).frame
  }

  function Translate(tables: Tables, address: nat): nat
  {
    FrameOf(tables, address / PAGE) * PAGE + address % PAGE
  }

  ghost predicate OwnsUsedFrame(words: seq<nat>, tables: Tables, v: nat)
  {
    FrameOf(tables, v) != 0 ==> FrameOf(tables, v) < |words| * WORD_BITS && Used(words, FrameOf(tables, v))
  }

  /** Frames held by pages are marked used, and no two pages hold the same one. */
  ghost predicate Owned(words: seq<nat>, tables: Tables)
  {
    && (forall v: nat :: OwnsUsedFrame(words, tables, v))
    && (forall u: nat, v: nat | u < v && FrameOf(tables, u) != 0 :: FrameOf(tables, u) != FrameOf(tables, v))
  }

  ghost predicate Held(tables: Tables, f: nat)
  {
    exists v: nat :: FrameOf(tables, v) == f
  }

  /** Besides, every nonzero frame marked used is held by a page. */
  ghost predicate Exact(words: seq<nat>, tables: Tables)
  {
    && Owned(words, tables)
    && (forall f: nat | 0 < f < |words| * WORD_BITS :: Used(words, f) ==> Held(tables, f))
  }

  /** Two addresses on pages with frames have the same translation only if they are the same address. */
  lemma TranslateInjective(words: seq<nat>, tables: Tables, a: nat, b: nat)
    requires Owned(words, tables)
    requires FrameOf(tables, a / PAGE) != 0 && FrameOf(tables, b / PAGE) != 0
    requires Translate(tables, a) == Translate(tables, b)
    ensures a == b
  {
    var u, v := a / PAGE, b / PAGE;
    assert FrameOf(tables, u) == FrameOf(tables, v);
    assert !(u < v) && !(v < u);
  }

  // ---- what the operations do to the bitmap and the entries, as relations on values

  /** Only the frame of page v changed, to f. */
  ghost predicate FrameSet(before: Tables, after: Tables, v: nat, f: nat)
  {
    && FrameOf(after, v) == f
    && (forall u: nat | u != v :: FrameOf(after, u) == FrameOf(before, u))
  }

  /** The pages from lo up to hi that held no frame are present with these flags; no other entry changed. */
  ghost predicate FlagsSet(before: Tables, after: Tables, lo: nat, hi: nat, writeable: bool, user: bool)
  {
    forall v: nat ::
      if lo <= v < hi && FrameOf(before, v) == 0
      then Entry(after, v).present && Entry(after, v).writeable == writeable && Entry(after, v).user == user
      else Entry(after, v) == Entry(before, v)
  }

  ghost predicate BitSet(before: seq<nat>, after: seq<nat>, f: nat)
  {
    && |after| == |before| && f < |before| * WORD_BITS
    && (forall g: nat | g < |before| * WORD_BITS :: Used(after, g) <==> g == f || Used(before, g))
  }

  ghost predicate BitCleared(before: seq<nat>, after: seq<nat>, f: nat)
  {
    && |after| == |before| && f < |before| * WORD_BITS
    && (forall g: nat | g < |before| * WORD_BITS :: Used(after, g) <==> g != f && Used(before, g))
  }

  /** The bit the release of frame f really clears: the frame number is divided by the page size once more. */
  function ClearedBit(f: nat): nat
  {
    f / PAGE
  }

  /** Handing out an unused frame keeps every frame with one owner. */
  lemma AllocKeepsOwned(words: seq<nat>, tables: Tables, words': seq<nat>, tables': Tables, v: nat, f: nat)
    requires Owned(words, tables) && FrameOf(tables, v) == 0
    requires f < |words| * WORD_BITS && !Used(words, f)
    requires BitSet(words, words', f) && FrameSet(tables, tables', v, f)
    ensures Owned(words', tables')
    ensures Exact(words, tables) ==> Exact(words', tables')
  {
    forall u: nat
      ensures OwnsUsedFrame(words', tables', u)
      ensures u != v && f != 0 ==> FrameOf(tables', u) != f
    {
      assert OwnsUsedFrame(words, tables, u);
    }
    if Exact(words, tables) {
      forall g: nat | 0 < g < |words| * WORD_BITS && Used(words', g)
        ensures Held(tables', g)
      {
        if g == f {
          assert FrameOf(tables', v) == g;
        } else {
          var u: nat :| FrameOf(tables, u) == g;
          assert FrameOf(tables', u) == g;
        }
      }
    }
  }

  /** Release keeps ownership sound exactly when the bit it clears belongs to no other page, and keeps the
      bitmap exact exactly when there was no frame to release. */
  lemma FreeOwnership(words: seq<nat>, tables: Tables, words': seq<nat>, tables': Tables, v: nat)
    requires Owned(words, tables) && FrameOf(tables, v) != 0 && FrameReleased(words, tables, words', tables', v)
    ensures Owned(words', tables') <==> ReleaseOk(tables, v)
    ensures !Exact(words', tables')
  {
    var f := FrameOf(tables, v);
    var b := ClearedBit(f);
    assert OwnsUsedFrame(words, tables, v);
    assert b < f;
    if b == 0 || forall u: nat | u != v :: FrameOf(tables, u) != b {
      forall u: nat
        ensures OwnsUsedFrame(words', tables', u)
      {
        assert OwnsUsedFrame(words, tables, u);
      }
      assert Used(words', f);
      forall u: nat
        ensures FrameOf(tables', u) != f
      {
        assert u != v ==> FrameOf(tables', u) == FrameOf(tables, u);
      }
    } else {
      var u: nat :| u != v && FrameOf(tables, u) == b;
      assert FrameOf(tables', u) == b && !Used(words', b);
      assert !OwnsUsedFrame(words', tables', u);
    }
  }

  /** On a machine with at most 4096 frames only the bit of frame 0 is ever cleared, so ownership survives. */
  lemma SmallMachineKeepsOwned(words: seq<nat>, tables: Tables, words': seq<nat>, tables': Tables, v: nat)
    requires |words| * WORD_BITS <= PAGE
    requires Owned(words, tables) && FrameOf(tables, v) != 0 && FrameReleased(words, tables, words', tables', v)
    ensures Owned(words', tables') && !Used(words', 0)
  {
    assert OwnsUsedFrame(words, tables, v);
    FreeOwnership(words, tables, words', tables', v);
  }

  /** What alloc_frame does to page v: nothing when it holds a frame, else it gets the least unused frame. */
  ghost predicate FrameAllocated(words: seq<nat>, tables: Tables, words': seq<nat>, tables': Tables, v: nat)
  {
    if FrameOf(tables, v) != 0 then
      words' == words && tables' == tables
    else
      var f := FrameOf(tables', v);
      && BitSet(words, words', f) && !Used(words, f)
      && (forall g: nat | g < f :: Used(words, g))
      && FrameSet(tables, tables', v, f)
  }

  /** What free_frame does to page v: nothing when it holds no frame, else it takes the frame away and clears a bit. */
  ghost predicate FrameReleased(words: seq<nat>, tables: Tables, words': seq<nat>, tables': Tables, v: nat)
  {
    if FrameOf(tables, v) == 0 then
      words' == words && tables' == tables
    else
      && BitCleared(words, words', ClearedBit(FrameOf(tables, v)))
      && FrameSet(tables, tables', v, 0)
  }

  /** A caller can check this before a release: the bit that will be cleared belongs to no other page. */
  ghost predicate ReleaseOk(tables: Tables, v: nat)
  {
    var b := ClearedBit(FrameOf(tables, v));
    b == 0 || forall u: nat | u != v :: FrameOf(tables, u) != b
  }

  ghost predicate AllUsed(words: seq<nat>)
  {
    forall f: nat | f < |words| * WORD_BITS :: Used(words, f)
  }

  /** What get_page leaves behind when it makes a table: nothing about any page changes. */
  lemma NewTableHoldsNothing(tables: Tables, t: nat)
    requires t < |tables| && tables[t] == []
    ensures var tables' := tables[t := seq(TABLE_PAGES, _ => BLANK)];
            forall v: nat :: Entry(tables', v) == Entry(tables, v)
  {
  }

  function MissingTables(tables: Tables): nat
  {
    if |tables| == 0 then 0 else (if tables[0] == [] then 1 else 0) + MissingTables(tables[1..])
  }

  lemma {:induction false} OneTableLess(tables: Tables, t: nat, table: seq<Page>)
    requires t < |tables| && tables[t] == [] && table != []
    ensures MissingTables(tables[t := table]) == MissingTables(tables) - 1
  {
    if t > 0 {
      assert tables[t := table][1..] == tables[1..][t - 1 := table];
      OneTableLess(tables[1..], t - 1, table);
    } else {
      assert tables[t := table][1..] == tables[1..];
    }
  }

  lemma {:induction false} MissingBound(tables: Tables)
    ensures MissingTables(tables) <= |tables|
  {
    if |tables| > 0 {
      MissingBound(tables[1..]);
    }
  }

  /** The globals of paging.c, with the placement address of kmalloc.c that table creation advances. */
  class Pager {
    const frames: array<nat>
    const tables: array<seq<Page>>
    const tblphys: array<nat>
    var placement: nat

    ghost predicate Valid()
      reads this, frames, tables
    {
      && frames != tblphys
      && 0 < frames.Length * WORD_BITS <= PAGES
      && tables.Length == TABLES && tblphys.Length == TABLES
      && (forall t | 0 <= t < TABLES :: |tables[t]| == 0 || |tables[t]| == TABLE_PAGES)
      && (forall i | 0 <= i < frames.Length :: frames[i] < WORD_LIMIT)
    }

    ghost function Words(): seq<nat>
      reads this, frames
    {
      frames[..]
    }

    ghost function Dir(): Tables
      reads this, tables
    {
      tables[..]
    }

    /** Cleared memory for the bitmap and the directory: no frame used, no table made. */
    constructor (words: nat, placement: nat)
      requires 0 < words * WORD_BITS <= PAGES
      ensures Valid() && this.placement == placement
      ensures frames.Length == words
      ensures forall f: nat | f < words * WORD_BITS :: !Used(Words(), f)
      ensures forall t | 0 <= t < TABLES :: tables[t] == []
      ensures fresh(frames) && fresh(tables) && fresh(tblphys)
    {
      this.placement := placement;
      frames := new nat[words](_ => 0);
      tables := new seq<Page>[TABLES](_ => []);
      tblphys := new nat[TABLES](_ => 0);
      new;
      forall f: nat | f < words * WORD_BITS
        ensures !Used(Words(), f)
      {
        ZeroWord(f % WORD_BITS);
      }
    }

    method SetFrame(frameAddr: nat)
      requires Valid() && frameAddr / PAGE < frames.Length * WORD_BITS
      modifies frames
      ensures Valid()
      ensures BitSet(old(Words()), Words(), frameAddr / PAGE)
    {
      var frame := frameAddr / PAGE;
      var idx, off := frame / WORD_BITS, frame % WORD_BITS;
      FullWord(0);
      BitUpdateFits(frames[idx], off, WORD_BITS);
      frames[idx] := WithBit(frames[idx], off);
      assert Words() == old(Words())[idx := WithBit(old(frames[idx]), off)];
      forall g: nat | g < frames.Length * WORD_BITS
        ensures Used(Words(), g) <==> g == frame || Used(old(Words()), g)
      {
        WordsUpdate(old(Words()), frame, g);
      }
    }

    method ClearFrame(frameAddr: nat)
      requires Valid() && frameAddr / PAGE < frames.Length * WORD_BITS
      modifies frames
      ensures Valid()
      ensures BitCleared(old(Words()), Words(), frameAddr / PAGE)
    {
      var frame := frameAddr / PAGE;
      var idx, off := frame / WORD_BITS, frame % WORD_BITS;
      FullWord(0);
      BitUpdateFits(frames[idx], off, WORD_BITS);
      frames[idx] := WithoutBit(frames[idx], off);
      assert Words() == old(Words())[idx := WithoutBit(old(frames[idx]), off)];
      forall g: nat | g < frames.Length * WORD_BITS
        ensures Used(Words(), g) <==> g != frame && Used(old(Words()), g)
      {
        WordsUpdate(old(Words()), frame, g);
      }
    }

    /** The least unused frame, or -1 when every frame is used. */
    method FirstFrame() returns (idx: int)
      requires Valid()
      ensures idx == -1 <==> AllUsed(Words())
      ensures idx != -1 ==> 0 <= idx < frames.Length * WORD_BITS && !Used(Words(), idx)
      ensures forall f: nat | f < idx :: Used(Words(), f)
    {
      var i := 0;
      while i < frames.Length
        invariant 0 <= i <= frames.Length
        invariant forall f: nat | f < i * WORD_BITS :: Used(Words(), f)
      {
        if frames[i] == 0xFFFF_FFFF {
          forall f: nat | i * WORD_BITS <= f < (i + 1) * WORD_BITS
            ensures Used(Words(), f)
          {
            FullWord(f % WORD_BITS);
          }
          i := i + 1;
          continue;
        }
        var j := 0;
        while j < WORD_BITS
          invariant 0 <= j <= WORD_BITS
          invariant forall f: nat | f < i * WORD_BITS + j :: Used(Words(), f)
        {
          assert (i * WORD_BITS + j) / WORD_BITS == i && (i * WORD_BITS + j) % WORD_BITS == j;
          if !Bit(frames[i], j) {
            assert !Used(Words(), i * WORD_BITS + j);
            return i * 4 * 8 + j;
          }
          j := j + 1;
        }
        i := i + 1;
      }
      return -1;
    }

    /** alloc_frame: false stands for the panic when no frame is left. */
    method AllocFrame(v: nat, isKernel: bool, isWriteable: bool) returns (ok: bool)
      requires Valid() && HasTable(Dir(), v)
      modifies frames, tables
      ensures Valid()
      ensures ok <==> FrameOf(old(Dir()), v) != 0 || !AllUsed(old(Words()))
      ensures ok ==> FrameAllocated(old(Words()), old(Dir()), Words(), Dir(), v)
      ensures ok && FrameOf(old(Dir()), v) == 0 ==>
                Entry(Dir(), v) == Page(true, isWriteable, !isKernel, FrameOf(Dir(), v))
      ensures forall u: nat | u != v :: Entry(Dir(), u) == Entry(old(Dir()), u)
      ensures ok ==> FlagsSet(old(Dir()), Dir(), v, v + 1, isWriteable, !isKernel)
      ensures !ok ==> Words() == old(Words()) && Dir() == old(Dir())
      ensures forall u: nat :: HasTable(Dir(), u) <==> HasTable(old(Dir()), u)
      ensures forall t | 0 <= t < TABLES :: tables[t] == [] <==> old(tables[t]) == []
      ensures |Dir()| == |old(Dir())| && MissingTables(Dir()) == MissingTables(old(Dir()))
    {
      var t, e := v / TABLE_PAGES, v % TABLE_PAGES;
      if tables[t][e].frame != 0 {
        return true;
      }
      var idx := FirstFrame();
      if idx == -1 {
        return false;
      }
      SetFrame(idx * PAGE);
      tables[t] := tables[t][e := tables[t][e].(present := true, frame := idx,
                                                writeable := isWriteable, user := !isKernel)];
      assert Dir() == old(Dir())[t := tables[t]];
      SameMissing(old(Dir()), t, tables[t]);
      return true;
    }

    /** free_frame: the bit cleared is not the one of the frame released. */
    method FreeFrame(v: nat)
      requires Valid() && HasTable(Dir(), v)
      requires FrameOf(Dir(), v) < frames.Length * WORD_BITS
      modifies frames, tables
      ensures Valid()
      ensures FrameReleased(old(Words()), old(Dir()), Words(), Dir(), v)
      ensures Entry(Dir(), v) == Entry(old(Dir()), v).(frame := 0)
      ensures forall u: nat | u != v :: Entry(Dir(), u) == Entry(old(Dir()), u)
      ensures forall u: nat :: HasTable(Dir(), u) <==> HasTable(old(Dir()), u)
    {
      var t, e := v / TABLE_PAGES, v % TABLE_PAGES;
      if tables[t][e].frame == 0 {
        return;
      }
      ClearFrame(tables[t][e].frame);
      tables[t] := tables[t][e := tables[t][e].(frame := 0)];
      assert Dir() == old(Dir())[t := tables[t]];
    }

    /** _kmalloc before the heap exists: memory is handed out from the placement address upward. */
    method PlacementAlloc(len: nat, aligned: bool) returns (addr: nat, phys: nat)
      requires placement + PAGE + len < WORD_LIMIT
      modifies this`placement
      ensures old(placement) <= addr == phys <= old(placement) + PAGE
      ensures placement == addr + len
      ensures addr == old(placement) <==> !aligned || old(placement) < PAGE
      ensures aligned && PAGE <= old(placement) ==> addr % PAGE == 0
    {
      if aligned && placement >= PAGE {
        placement := placement - placement % PAGE + PAGE;
      }
      phys := placement;
      placement := placement + len;
      addr := placement - len;
    }

    /** get_page: the page for an address, its table made on demand; found is false for a null result. */
    method GetPage(address: nat, create: bool) returns (found: bool, v: nat)
      requires Valid() && address < WORD_LIMIT
      requires create && !HasTable(Dir(), address / PAGE) ==> PAGE <= placement && placement + 2 * PAGE < WORD_LIMIT
      modifies this`placement, tables, tblphys
      ensures Valid() && v == address / PAGE
      ensures found <==> create || HasTable(old(Dir()), v)
      ensures found <==> HasTable(Dir(), v)
      ensures forall u: nat :: Entry(Dir(), u) == Entry(old(Dir()), u)
      ensures forall u: nat :: HasTable(old(Dir()), u) ==> HasTable(Dir(), u)
      ensures HasTable(old(Dir()), v) || !create ==>
                Dir() == old(Dir()) && placement == old(placement) && tblphys[..] == old(tblphys[..])
      ensures !HasTable(old(Dir()), v) && create ==>
                && Dir() == old(Dir())[v / TABLE_PAGES := seq(TABLE_PAGES, _ => BLANK)]
                && MissingTables(Dir()) == MissingTables(old(Dir())) - 1
                && old(placement) + PAGE <= placement <= old(placement) + 2 * PAGE
                && (exists p: nat :: p % PAGE == 0 && p + PAGE == placement
                                     && tblphys[..] == old(tblphys[..])[v / TABLE_PAGES := p + 7])
    {
      v := address / PAGE;
      var t := v / TABLE_PAGES;
      if tables[t] != [] {
        return true, v;
      } else if create {
        var table, tmp := PlacementAlloc(PAGE, true);
        tables[t] := seq(TABLE_PAGES, _ => BLANK);
        tblphys[t] := tmp + 7;
        assert Dir() == old(Dir())[t := seq(TABLE_PAGES, _ => BLANK)];
        NewTableHoldsNothing(old(Dir()), t);
        OneTableLess(old(Dir()), t, tables[t]);
        assert tblphys[..] == old(tblphys[..])[t := tmp + 7];
        return true, v;
      } else {
        return false, v;
      }
    }
  }

  lemma {:induction false} ZeroWord(j: nat)
    ensures !Bit(0, j)
  {
    if j > 0 {
      ZeroWord(j - 1);
    }
  }

  lemma {:induction false} SameMissing(tables: Tables, t: nat, table: seq<Page>)
    requires t < |tables| && (tables[t] == [] <==> table == [])
    ensures MissingTables(tables[t := table]) == MissingTables(tables)
  {
    if t > 0 {
      assert tables[t := table][1..] == tables[1..][t - 1 := table];
      SameMissing(tables[1..], t - 1, table);
    } else {
      assert tables[t := table][1..] == tables[1..];
    }
  }
}
