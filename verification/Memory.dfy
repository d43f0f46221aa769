/** Byte-addressed 32-bit memory, little-endian words, and the block tags laid out in it. */
module Memory {

  type Byte = x: int | 0 <= x < 256

  const WORD_LIMIT: nat := 0x1_0000_0000
  const SIGN_LIMIT: nat := 0x8000_0000
  const PAGE: nat := 0x1000

  /** What a call comes back with; a panic never comes back, so nothing is said about the state after it. */
  datatype OrPanic<T> = Panic | Returned(value: T)

  /** The whole 4 GB address space, one entry per byte. */
  type Ram = s: seq<Byte> | |s| == WORD_LIMIT ghost witness seq(WORD_LIMIT, _ => 0)

  // ---- 32-bit arithmetic

  /** Unsigned subtraction as the machine does it. */
  function Sub32(a: nat, b: nat): (r: nat)
    requires a < WORD_LIMIT && b < WORD_LIMIT
  {
    if b <= a then a - b else a + WORD_LIMIT - b
  }

  /** Any sum or difference, kept to 32 bits. */
  function Wrap(x: int): (r: nat)
    ensures r < WORD_LIMIT
    ensures 0 <= x < WORD_LIMIT ==> r == x
    ensures x < 0 && 0 <= x + WORD_LIMIT ==> r == x + WORD_LIMIT
    ensures WORD_LIMIT <= x < 2 * WORD_LIMIT ==> r == x - WORD_LIMIT
  {
    x % WORD_LIMIT
  }

  /** The cast from uint32_t to int32_t. */
  function Signed(a: nat): (r: int)
    requires a < WORD_LIMIT
  {
    if a < SIGN_LIMIT then a else a - WORD_LIMIT
  }

  // ---- powers of two

  function Pow2(n: nat): (p: nat)
    ensures p >= 1
  {
    if n == 0 then 1 else 2 * Pow2(n - 1)
  }

  lemma Pow32()
    ensures Pow2(32) == WORD_LIMIT
  {
    assert Pow2(8) == 256;
    assert Pow2(12) == 16 * Pow2(8);
    assert Pow2(16) == 16 * Pow2(12);
    assert Pow2(20) == 16 * Pow2(16);
    assert Pow2(24) == 16 * Pow2(20);
    assert Pow2(28) == 16 * Pow2(24);
    assert Pow2(32) == 16 * Pow2(28);
  }

  // ---- words

  /** The value of the bytes in [lo, hi), least significant first. */
  function Le(ram: Ram, lo: nat, hi: nat): nat
    requires lo <= hi <= WORD_LIMIT
    decreases hi - lo, 1
  {
    if lo == hi then 0 else LowFirst(ram, lo, hi)
  }

  function LowFirst(ram: Ram, lo: nat, hi: nat): nat
    requires lo < hi <= WORD_LIMIT
    decreases hi - lo, 0
  {
    ram[lo] + 256 * Le(ram, lo + 1, hi)
  }

  function Bytes(v: nat, n: nat): (s: seq<Byte>)
    ensures |s| == n
  {
    if n == 0 then [] else [v % 256] + Bytes(v / 256, n - 1)
  }

  function Capacity(n: nat): nat
  {
    if n == 0 then 1 else 256 * Capacity(n - 1)
  }

  /** Encoding and decoding are inverse on every value that fits. */
  lemma {:induction false} LeBytes(ram: Ram, lo: nat, hi: nat, v: nat)
    requires lo <= hi <= WORD_LIMIT && v < Capacity(hi - lo) && ram[lo..hi] == Bytes(v, hi - lo)
    ensures Le(ram, lo, hi) == v
    decreases hi - lo
  {
    if lo < hi {
      assert ram[lo + 1..hi] == ram[lo..hi][1..] == Bytes(v / 256, hi - lo - 1);
      LeBytes(ram, lo + 1, hi, v / 256);
      assert ram[lo] == ram[lo..hi][0];
    }
  }

  lemma {:induction false} LeFits(ram: Ram, lo: nat, hi: nat)
    requires lo <= hi <= WORD_LIMIT
    ensures Le(ram, lo, hi) < Capacity(hi - lo)
    decreases hi - lo
  {
    if lo < hi {
      LeFits(ram, lo + 1, hi);
    }
  }

  /** Bytes that stay keep the value. */
  lemma {:induction false} LeSame(before: Ram, after: Ram, lo: nat, hi: nat)
    requires lo <= hi <= WORD_LIMIT && forall k | lo <= k < hi :: after[k] == before[k]
    ensures Le(after, lo, hi) == Le(before, lo, hi)
    decreases hi - lo
  {
    if lo < hi {
      LeSame(before, after, lo + 1, hi);
    }
  }

  lemma {:induction false} LeZero(ram: Ram, lo: nat, hi: nat)
    requires lo <= hi <= WORD_LIMIT && forall k | lo <= k < hi :: ram[k] == 0
    ensures Le(ram, lo, hi) == 0
    decreases hi - lo
  {
    if lo < hi {
      LeZero(ram, lo + 1, hi);
    }
  }

  function Word(ram: Ram, a: nat): (v: nat)
    requires a + 4 <= WORD_LIMIT
    ensures v < WORD_LIMIT
  {
    assert Capacity(4) == WORD_LIMIT;
    LeFits(ram, a, a + 4);
    Le(ram, a, a + 4)
  }

  /** The least significant byte comes first. */
  lemma LittleEndian(ram: Ram, a: nat)
    requires a + 4 <= WORD_LIMIT
    ensures var b0: int, b1: int, b2: int, b3: int := ram[a], ram[a + 1], ram[a + 2], ram[a + 3];
            Word(ram, a) == b0 + 0x100 * b1 + 0x1_0000 * b2 + 0x100_0000 * b3
  {
    var b1: int, b2: int, b3: int := ram[a + 1], ram[a + 2], ram[a + 3];
    assert Le(ram, a + 4, a + 4) == 0;
    assert Le(ram, a + 3, a + 4) == b3;
    assert Le(ram, a + 2, a + 4) == b2 + 0x100 * b3;
    assert Le(ram, a + 1, a + 4) == b1 + 0x100 * b2 + 0x1_0000 * b3;
    assert Le(ram, a, a + 4) == LowFirst(ram, a, a + 4);
  }

  ghost predicate SameOutside(before: Ram, after: Ram, lo: int, hi: int)
  {
    forall k | 0 <= k < WORD_LIMIT && !(lo <= k < hi) :: after[k] == before[k]
  }

  lemma WordUnchanged(before: Ram, after: Ram, a: nat)
    requires a + 4 <= WORD_LIMIT
    requires forall k | a <= k < a + 4 :: after[k] == before[k]
    ensures Word(after, a) == Word(before, a)
  {
    LeSame(before, after, a, a + 4);
  }

  /** Memory with the word v stored at a. */
  function Written(ram: Ram, a: nat, v: nat): Ram
    requires a + 4 <= WORD_LIMIT
  {
    var b := Bytes(v, 4);
    ram[a := b[0]][a + 1 := b[1]][a + 2 := b[2]][a + 3 := b[3]]
  }

  lemma WrittenWord(ram: Ram, a: nat, v: nat)
    requires a + 4 <= WORD_LIMIT && v < WORD_LIMIT
    ensures Word(Written(ram, a, v), a) == v && SameOutside(ram, Written(ram, a, v), a, a + 4)
  {
    assert Written(ram, a, v)[a..a + 4] == Bytes(v, 4);
    assert Capacity(4) == WORD_LIMIT;
    LeBytes(Written(ram, a, v), a, a + 4, v);
  }

  /** Every word that does not overlap [lo, hi) still reads the same. */
  ghost predicate WordsKept(before: Ram, after: Ram, lo: int, hi: int)
  {
    forall a: nat | a + 4 <= WORD_LIMIT && (a + 4 <= lo || hi <= a) :: Word(after, a) == Word(before, a)
  }

  // ---- tags (heap.h:21-31)

  const HDR_MAGIC: nat := 0x123890AB
  const FTR_MAGIC: nat := 0xBA098321
  const HDR_SIZE: nat := 12
  const FTR_SIZE: nat := 8
  const TAGS_SIZE: nat := 20

  datatype Header = Header(magic: nat, isHole: nat, size: nat)
  datatype Footer = Footer(magic: nat, header: nat)

  function HeaderAt(ram: Ram, a: nat): Header
    requires a + HDR_SIZE <= WORD_LIMIT
  {
    Header(Word(ram, a), Word(ram, a + 4), Word(ram, a + 8))
  }

  function FooterAt(ram: Ram, a: nat): Footer
    requires a + FTR_SIZE <= WORD_LIMIT
  {
    Footer(Word(ram, a), Word(ram, a + 4))
  }

  /** The order of the fields in memory. */
  lemma HeaderWords(ram: Ram, a: nat)
    requires a + HDR_SIZE <= WORD_LIMIT
    ensures HeaderAt(ram, a).magic == Word(ram, a) && HeaderAt(ram, a).isHole == Word(ram, a + 4)
    ensures HeaderAt(ram, a).size == Word(ram, a + 8)
  {
  }

  lemma HeaderUnchanged(before: Ram, after: Ram, a: nat)
    requires a + HDR_SIZE <= WORD_LIMIT
    requires forall k | a <= k < a + HDR_SIZE :: after[k] == before[k]
    ensures HeaderAt(after, a) == HeaderAt(before, a)
  {
    WordUnchanged(before, after, a);
    WordUnchanged(before, after, a + 4);
    WordUnchanged(before, after, a + 8);
  }

  lemma FooterUnchanged(before: Ram, after: Ram, a: nat)
    requires a + FTR_SIZE <= WORD_LIMIT
    requires forall k | a <= k < a + FTR_SIZE :: after[k] == before[k]
    ensures FooterAt(after, a) == FooterAt(before, a)
  {
    WordUnchanged(before, after, a);
    WordUnchanged(before, after, a + 4);
  }

  ghost function WithHeader(ram: Ram, a: nat, h: Header): Ram
    requires a + HDR_SIZE <= WORD_LIMIT
  {
    Written(Written(Written(ram, a, h.magic), a + 4, h.isHole), a + 8, h.size)
  }

  ghost function WithFooter(ram: Ram, a: nat, f: Footer): Ram
    requires a + FTR_SIZE <= WORD_LIMIT
  {
    Written(Written(ram, a, f.magic), a + 4, f.header)
  }

  lemma WrittenHeader(ram: Ram, a: nat, h: Header)
    requires a + HDR_SIZE <= WORD_LIMIT && h.magic < WORD_LIMIT && h.isHole < WORD_LIMIT && h.size < WORD_LIMIT
    ensures HeaderAt(WithHeader(ram, a, h), a) == h && SameOutside(ram, WithHeader(ram, a, h), a, a + HDR_SIZE)
  {
    hide Word, Written;
    var r1 := Written(ram, a, h.magic);
    var r2 := Written(r1, a + 4, h.isHole);
    WrittenWord(ram, a, h.magic);
    WrittenWord(r1, a + 4, h.isHole);
    WrittenWord(r2, a + 8, h.size);
    WordUnchanged(r1, r2, a);
    WordUnchanged(r2, Written(r2, a + 8, h.size), a);
    WordUnchanged(r2, Written(r2, a + 8, h.size), a + 4);
  }

  lemma WrittenFooter(ram: Ram, a: nat, f: Footer)
    requires a + FTR_SIZE <= WORD_LIMIT && f.magic < WORD_LIMIT && f.header < WORD_LIMIT
    ensures FooterAt(WithFooter(ram, a, f), a) == f && SameOutside(ram, WithFooter(ram, a, f), a, a + FTR_SIZE)
  {
    hide Word, Written;
    var r1 := Written(ram, a, f.magic);
    WrittenWord(ram, a, f.magic);
    WrittenWord(r1, a + 4, f.header);
    WordUnchanged(r1, Written(r1, a + 4, f.header), a);
  }

  /** Every header and footer that does not overlap [lo, hi) still reads the same. */
  ghost predicate TagsKept(before: Ram, after: Ram, lo: int, hi: int)
  {
    && (forall a: nat | a + HDR_SIZE <= WORD_LIMIT && (a + HDR_SIZE <= lo || hi <= a) ::
          HeaderAt(after, a) == HeaderAt(before, a))
    && (forall a: nat | a + FTR_SIZE <= WORD_LIMIT && (a + FTR_SIZE <= lo || hi <= a) ::
          FooterAt(after, a) == FooterAt(before, a))
  }

  lemma TagsKeptOutside(before: Ram, after: Ram, lo: int, hi: int)
    requires SameOutside(before, after, lo, hi)
    ensures TagsKept(before, after, lo, hi)
  {
    forall a: nat | a + HDR_SIZE <= WORD_LIMIT && (a + HDR_SIZE <= lo || hi <= a)
      ensures HeaderAt(after, a) == HeaderAt(before, a)
    {
      HeaderUnchanged(before, after, a);
    }
    forall a: nat | a + FTR_SIZE <= WORD_LIMIT && (a + FTR_SIZE <= lo || hi <= a)
      ensures FooterAt(after, a) == FooterAt(before, a)
    {
      FooterUnchanged(before, after, a);
    }
  }

  /** The memory itself, written one word at a time. */
  class Store {
    var ram: Ram

    constructor (ram: Ram)
      ensures this.ram == ram
    {
      this.ram := ram;
    }

    method WriteWord(a: nat, v: nat)
      requires a + 4 <= WORD_LIMIT && v < WORD_LIMIT
      modifies this
      ensures Word(ram, a) == v
      ensures SameOutside(old(ram), ram, a, a + 4)
      ensures WordsKept(old(ram), ram, a, a + 4)
    {
      ghost var before := ram;
      WrittenWord(ram, a, v);
      ram := Written(ram, a, v);
      forall b: nat | b + 4 <= WORD_LIMIT && (b + 4 <= a || a + 4 <= b)
        ensures Word(ram, b) == Word(before, b)
      {
        WordUnchanged(before, ram, b);
      }
    }

    /** bzero */
    method Zero(a: nat, len: nat)
      requires a + len <= WORD_LIMIT
      modifies this
      ensures SameOutside(old(ram), ram, a, a + len)
      ensures forall k | a <= k < a + len :: ram[k] == 0
    {
      for i := 0 to len
        invariant SameOutside(old(ram), ram, a, a + i)
        invariant forall k | a <= k < a + i :: ram[k] == 0
      {
        ram := ram[a + i := 0];
      }
    }

    method WriteHeader(a: nat, h: Header)
      requires a + HDR_SIZE <= WORD_LIMIT
      requires h.magic < WORD_LIMIT && h.isHole < WORD_LIMIT && h.size < WORD_LIMIT
      modifies this
      ensures HeaderAt(ram, a) == h
      ensures SameOutside(old(ram), ram, a, a + HDR_SIZE)
      ensures TagsKept(old(ram), ram, a, a + HDR_SIZE)
    {
      WriteWord(a, h.magic);
      label one:
      WriteWord(a + 4, h.isHole);
      label two:
      WriteWord(a + 8, h.size);
      WordUnchanged(old@one(ram), old@two(ram), a);
      WordUnchanged(old@two(ram), ram, a);
      WordUnchanged(old@two(ram), ram, a + 4);
      TagsKeptOutside(old(ram), ram, a, a + HDR_SIZE);
    }

    method WriteHeaderSize(a: nat, size: nat)
      requires a + HDR_SIZE <= WORD_LIMIT && size < WORD_LIMIT
      modifies this
      ensures HeaderAt(ram, a) == HeaderAt(old(ram), a).(size := size)
      ensures SameOutside(old(ram), ram, a, a + HDR_SIZE)
      ensures TagsKept(old(ram), ram, a, a + HDR_SIZE)
    {
      WriteWord(a + 8, size);
      WordUnchanged(old(ram), ram, a);
      WordUnchanged(old(ram), ram, a + 4);
      TagsKeptOutside(old(ram), ram, a, a + HDR_SIZE);
    }

    method WriteHeaderHole(a: nat, isHole: nat)
      requires a + HDR_SIZE <= WORD_LIMIT && isHole < WORD_LIMIT
      modifies this
      ensures HeaderAt(ram, a) == HeaderAt(old(ram), a).(isHole := isHole)
      ensures SameOutside(old(ram), ram, a, a + HDR_SIZE)
      ensures TagsKept(old(ram), ram, a, a + HDR_SIZE)
    {
      WriteWord(a + 4, isHole);
      WordUnchanged(old(ram), ram, a);
      WordUnchanged(old(ram), ram, a + 8);
      TagsKeptOutside(old(ram), ram, a, a + HDR_SIZE);
    }

    method WriteFooter(a: nat, f: Footer)
      requires a + FTR_SIZE <= WORD_LIMIT && f.magic < WORD_LIMIT && f.header < WORD_LIMIT
      modifies this
      ensures FooterAt(ram, a) == f
      ensures SameOutside(old(ram), ram, a, a + FTR_SIZE)
      ensures TagsKept(old(ram), ram, a, a + FTR_SIZE)
    {
      WriteWord(a, f.magic);
      label one:
      WriteWord(a + 4, f.header);
      WordUnchanged(old@one(ram), ram, a);
      TagsKeptOutside(old(ram), ram, a, a + FTR_SIZE);
    }

    method WriteFooterHeader(a: nat, header: nat)
      requires a + FTR_SIZE <= WORD_LIMIT && header < WORD_LIMIT
      modifies this
      ensures FooterAt(ram, a) == FooterAt(old(ram), a).(header := header)
      ensures SameOutside(old(ram), ram, a, a + FTR_SIZE)
      ensures TagsKept(old(ram), ram, a, a + FTR_SIZE)
    {
      WriteWord(a + 4, header);
      WordUnchanged(old(ram), ram, a);
      TagsKeptOutside(old(ram), ram, a, a + FTR_SIZE);
    }
  }
}
