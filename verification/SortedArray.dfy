/** The array of pointers kept in order by a comparison function (sorted_array.c). */
module SortedArrays {
  import opened Memory

  type Comparison = (nat, nat) -> int

  // ---- what insertion and removal mean on sequences

  /** Where a new element goes: before the first element that does not compare below it. */
  function InsertPoint(s: seq<nat>, el: nat, cmp: Comparison): (k: nat)
    ensures k <= |s|
    ensures forall i | 0 <= i < k :: cmp(s[i], el) < 0
    ensures k < |s| ==> cmp(s[k], el) >= 0
  {
    if |s| == 0 || cmp(s[0], el) >= 0 then 0 else 1 + InsertPoint(s[1..], el, cmp)
  }

  function InsertAt(s: seq<nat>, k: nat, el: nat): seq<nat>
    requires k <= |s|
  {
    s[..k] + [el] + s[k..]
  }

  /** One element was put in somewhere. */
  ghost predicate IsInsertion(before: seq<nat>, after: seq<nat>, el: nat)
  {
    exists k: nat :: k <= |before| && after == InsertAt(before, k, el)
  }

  function Inserted(s: seq<nat>, el: nat, cmp: Comparison): seq<nat>
  {
    InsertAt(s, InsertPoint(s, el, cmp), el)
  }

  function Removed(s: seq<nat>, i: nat): seq<nat>
    requires i < |s|
  {
    s[..i] + s[i + 1..]
  }

  /** Ordered by a key, equal keys allowed. */
  ghost predicate Ordered(s: seq<nat>, key: nat -> int)
  {
    forall i, j | 0 <= i < j < |s| :: key(s[i]) <= key(s[j])
  }

  /** The comparison answers "below" exactly when the key of an element of s is smaller than that of el. */
  ghost predicate Agrees(cmp: Comparison, key: nat -> int, s: seq<nat>, el: nat)
  {
    forall i | 0 <= i < |s| :: cmp(s[i], el) < 0 <==> key(s[i]) < key(el)
  }

  lemma InsertAtOrdered(s: seq<nat>, k: nat, el: nat, key: nat -> int)
    requires k <= |s| && Ordered(s, key)
    requires forall i | 0 <= i < k :: key(s[i]) <= key(el)
    requires forall i | k <= i < |s| :: key(el) <= key(s[i])
    ensures Ordered(InsertAt(s, k, el), key)
  {
    var r := InsertAt(s, k, el);
    forall i, j | 0 <= i < j < |r|
      ensures key(r[i]) <= key(r[j])
    {
      if i != k && j != k {
        assert r[i] == s[if i < k then i else i - 1];
        assert r[j] == s[if j < k then j else j - 1];
      }
    }
  }

  /** Insertion keeps the order and puts the new element before its equals. */
  lemma InsertKeepsOrder(s: seq<nat>, el: nat, cmp: Comparison, key: nat -> int)
    requires Ordered(s, key) && Agrees(cmp, key, s, el)
    ensures Ordered(Inserted(s, el, cmp), key)
    ensures forall i | 0 <= i < |s| :: i < InsertPoint(s, el, cmp) <==> key(s[i]) < key(el)
  {
    var k := InsertPoint(s, el, cmp);
    forall i | k <= i < |s|
      ensures key(el) <= key(s[i])
    {
      assert key(el) <= key(s[k]);
    }
    InsertAtOrdered(s, k, el, key);
  }

  /** Removal undoes insertion, which adds exactly one element. */
  lemma InsertThenRemove(s: seq<nat>, k: nat, el: nat)
    requires k <= |s|
    ensures Removed(InsertAt(s, k, el), k) == s
    ensures multiset(InsertAt(s, k, el)) == multiset(s) + multiset{el}
  {
    assert Removed(InsertAt(s, k, el), k) == s;
    assert multiset(s) == multiset(s[..k] + s[k..]) by {
      assert s == s[..k] + s[k..];
    }
  }

  lemma RemoveKeepsOrder(s: seq<nat>, i: nat, key: nat -> int)
    requires i < |s| && Ordered(s, key)
    ensures Ordered(Removed(s, i), key)
    ensures multiset(Removed(s, i)) == multiset(s) - multiset{s[i]}
    ensures multiset(Removed(s, i)) + multiset{s[i]} == multiset(s)
  {
    assert s == s[..i] + [s[i]] + s[i + 1..];
  }

  ghost predicate Distinct(s: seq<nat>)
  {
    forall i, j | 0 <= i < j < |s| :: s[i] != s[j]
  }

  lemma InsertedMembers(before: seq<nat>, after: seq<nat>, el: nat)
    requires IsInsertion(before, after, el)
    ensures forall a :: a in after <==> a == el || a in before
    ensures Distinct(before) && el !in before ==> Distinct(after)
  {
    var k: nat :| k <= |before| && after == InsertAt(before, k, el);
    assert before == before[..k] + before[k..];
    if Distinct(before) && el !in before {
      InsertedDistinct(before, k, el);
    }
  }

  lemma InsertedSomewhere(s: seq<nat>, el: nat, cmp: Comparison)
    ensures IsInsertion(s, Inserted(s, el, cmp), el)
  {
  }

  lemma OneInserted(after: seq<nat>, el: nat)
    requires IsInsertion([], after, el)
    ensures after == [el]
  {
  }

  lemma InsertedDistinct(s: seq<nat>, k: nat, el: nat)
    requires k <= |s| && Distinct(s) && el !in s
    ensures Distinct(InsertAt(s, k, el))
  {
    var r := InsertAt(s, k, el);
    forall i, j | 0 <= i < j < |r|
      ensures r[i] != r[j]
    {
      if i == k {
        assert r[j] == s[j - 1];
      } else if j == k {
        assert r[i] == s[i];
      } else {
        assert r[i] == s[if i < k then i else i - 1];
        assert r[j] == s[if j < k then j else j - 1];
      }
    }
  }

  lemma RemovedMembers(s: seq<nat>, i: nat)
    requires i < |s| && Distinct(s)
    ensures forall a :: a in Removed(s, i) <==> a in s && a != s[i]
    ensures Distinct(Removed(s, i))
  {
    var r := Removed(s, i);
    assert s == s[..i] + [s[i]] + s[i + 1..];
    forall a | a in r
      ensures a in s && a != s[i]
    {
      var j :| 0 <= j < |r| && r[j] == a;
      assert a == s[if j < i then j else j + 1];
    }
    forall j, k | 0 <= j < k < |r|
      ensures r[j] != r[k]
    {
      assert r[j] == s[if j < i then j else j + 1] && r[k] == s[if k < i then k else k + 1];
    }
  }

  // ---- the comparison the heap uses

  /** Two sizes subtracted as unsigned words, the result read as signed (heap.c:67-70). */
  function SizeCmp(a: nat, b: nat): int
    requires a < WORD_LIMIT && b < WORD_LIMIT
  {
    Signed(Sub32(a, b))
  }

  /** The truncated subtraction orders two sizes correctly exactly when they differ by less than the sign bit allows. */
  lemma SizeCmpCorrect(a: nat, b: nat)
    requires a < WORD_LIMIT && b < WORD_LIMIT
    ensures (SizeCmp(a, b) < 0 <==> a < b) <==> (b - a <= SIGN_LIMIT && a - b < SIGN_LIMIT)
    ensures a < SIGN_LIMIT && b < SIGN_LIMIT ==> SizeCmp(a, b) == a - b
  {
  }

  // ---- the array

  class SortedArray {
    // The words from sa_array on. The array sits in raw memory, so the word after the last slot can be read.
    const words: array<nat>
    const maxsize: nat
    var size: nat

    ghost predicate Valid()
      reads this
    {
      size <= maxsize < words.Length
    }

    ghost function Contents(): seq<nat>
      reads this, words
      requires Valid()
    {
      words[..size]
    }

    /** place_sorted_array: the array takes over the given memory, which is cleared. */
    constructor Place(words: array<nat>, maxsize: nat)
      requires maxsize < words.Length
      modifies words
      ensures Valid() && this.words == words && this.maxsize == maxsize
      ensures Contents() == []
      ensures forall i | 0 <= i < maxsize :: words[i] == 0
      ensures forall i | maxsize <= i < words.Length :: words[i] == old(words[i])
    {
      this.words := words;
      this.maxsize := maxsize;
      this.size := 0;
      new;
      for i := 0 to maxsize
        modifies words
        invariant forall j | 0 <= j < i :: words[j] == 0
        invariant forall j | i <= j < words.Length :: words[j] == old(words[j])
      {
        words[i] := 0;
      }
    }

    /** The shifting loop: every element from k on moves up one slot. */
    method ShiftIn(k: nat, el: nat)
      requires Valid() && k < size < maxsize
      modifies words
      ensures words[k] == el
      ensures forall i | 0 <= i < k || size < i < words.Length :: words[i] == old(words[i])
      ensures forall i | k < i <= size :: words[i] == old(words[i - 1])
    {
      var at := k;
      var tmp := words[at];
      words[at] := el;
      while at < size
        invariant k <= at <= size
        invariant tmp == old(words[at])
        invariant words[k] == el
        invariant forall i | 0 <= i < k || at < i < words.Length :: words[i] == old(words[i])
        invariant forall i | k < i <= at :: words[i] == old(words[i - 1])
      {
        at := at + 1;
        var tmp2 := words[at];
        words[at] := tmp;
        tmp := tmp2;
      }
    }

    /** insert_sorted_array: false stands for the failed assertion that there is room. */
    method Insert(el: nat, cmp: Comparison) returns (ok: bool)
      requires Valid()
      modifies this`size, words
      ensures Valid()
      ensures ok <==> old(size) < maxsize
      ensures ok ==> Contents() == Inserted(old(Contents()), el, cmp)
      ensures ok ==> IsInsertion(old(Contents()), Contents(), el)
      ensures !ok ==> Contents() == old(Contents())
      ensures forall i | maxsize <= i < words.Length :: words[i] == old(words[i])
    {
      hide InsertPoint;
      ghost var s := Contents();
      if size >= maxsize {
        return false;
      }
      var at := 0;
      while at < size && cmp(words[at], el) < 0
        invariant at <= size
        invariant forall i | 0 <= i < at :: cmp(s[i], el) < 0
      {
        at := at + 1;
      }
      InsertPointUnique(s, el, cmp, at);
      if at == size {
        words[size] := el;
      } else {
        ShiftIn(at, el);
      }
      size := size + 1;
      assert Contents() == InsertAt(s, at, el);
      return true;
    }

    /** lookup_sorted_array */
    method Lookup(i: nat) returns (el: nat)
      requires Valid() && i < size
      ensures el == Contents()[i]
    {
      el := words[i];
    }

    /** remove_sorted_array: the last step reads the slot after the array's contents. */
    method Remove(i: nat)
      requires Valid() && i < size
      modifies this`size, words
      ensures Valid()
      ensures Contents() == Removed(old(Contents()), i)
      ensures forall j | maxsize <= j < words.Length :: words[j] == old(words[j])
    {
      var it := i;
      while it < size
        modifies words
        invariant i <= it <= size
        invariant forall j | 0 <= j < i || it <= j < words.Length :: words[j] == old(words[j])
        invariant forall j | i <= j < it :: words[j] == old(words[j + 1])
      {
        words[it] := words[it + 1];
        it := it + 1;
      }
      size := size - 1;
      assert Contents() == Removed(old(Contents()), i);
    }
  }

  lemma InsertPointUnique(s: seq<nat>, el: nat, cmp: Comparison, k: nat)
    requires k <= |s|
    requires forall i | 0 <= i < k :: cmp(s[i], el) < 0
    requires k < |s| ==> cmp(s[k], el) >= 0
    ensures InsertPoint(s, el, cmp) == k
  {
  }
}
