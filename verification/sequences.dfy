/** Abstract, pointer-free counterparts of the sorted list's operations.

    The linked structure in SortedLists is proved to behave like these
    functions on the sequence of its elements, read from head to tail.
 */
module Sequences {

  /** Non-decreasing order, which the sorted list keeps along its chain. */
  predicate Sorted(s: seq<int>)
  {
    forall i, j :: 0 <= i < j < |s| ==> s[i] <= s[j]
  }

  /** `s` with `x` inserted at position k: the positions before k are
      kept, k holds `x`, and the rest move up by one. */
  function InsertAt<T>(s: seq<T>, k: nat, x: T): seq<T>
    requires k <= |s|
  {
    seq(|s| + 1, i requires 0 <= i <= |s| => if i < k then s[i] else if i == k then x else s[i - 1])
  }

  /** `s` without its element at position k; the rest move down by one. */
  function DeleteAt<T>(s: seq<T>, k: nat): seq<T>
    requires k < |s|
  {
    seq(|s| - 1, i requires 0 <= i < |s| - 1 => if i < k then s[i] else s[i + 1])
  }

  /** The two comparisons the list's forward scans stop on. */
  datatype Probe =
    | AtLeast  // the scanned value is not smaller than the item (add)
    | EqualTo  // the scanned value compares equal to the item (remove)

  predicate Hits(probe: Probe, item: int, value: int)
  {
    match probe
    case AtLeast => item <= value
    case EqualTo => item == value
  }

  /** Position of the first element the probe stops on, or |s| if none does. */
  function FirstHit(s: seq<int>, item: int, probe: Probe): (k: nat)
    ensures k <= |s|
    ensures forall i :: 0 <= i < k ==> !Hits(probe, item, s[i])
    ensures k < |s| ==> Hits(probe, item, s[k])
  {
    if |s| == 0 then 0
    else if Hits(probe, item, s[0]) then 0
    else 1 + FirstHit(s[1..], item, probe)
  }

  /** Reference insertion: `x` goes immediately before the first element
      that is not smaller than it. */
  function InsertSorted(s: seq<int>, x: int): seq<int>
  {
    if |s| == 0 then [x]
    else if x <= s[0] then [x] + s
    else [s[0]] + InsertSorted(s[1..], x)
  }

  /** Reference removal: the first element equal to `x` is dropped; nothing
      changes when there is none. */
  function RemoveFirst(s: seq<int>, x: int): seq<int>
  {
    if |s| == 0 then []
    else if s[0] == x then s[1..]
    else [s[0]] + RemoveFirst(s[1..], x)
  }

  /** The elements of `s`, last first. */
  function Reverse<T>(s: seq<T>): (r: seq<T>)
    ensures |r| == |s|
    ensures forall i :: 0 <= i < |s| ==> r[i] == s[|s| - 1 - i]
  {
    if |s| == 0 then [] else [s[|s| - 1]] + Reverse(s[..|s| - 1])
  }

  /** InsertSorted places `x` exactly at the first position whose element is
      not smaller than `x`. */
  lemma {:induction false} InsertSortedSplit(s: seq<int>, x: int)
    ensures InsertSorted(s, x) == InsertAt(s, FirstHit(s, x, AtLeast), x)
  {
    if |s| > 0 && x > s[0] {
      InsertSortedSplit(s[1..], x);
    }
  }

  /** Insertion adds exactly one occurrence of `x` and nothing else. */
  lemma {:induction false} InsertSortedCounts(s: seq<int>, x: int)
    ensures multiset(InsertSorted(s, x)) == multiset(s) + multiset{x}
  {
    if |s| > 0 {
      assert s == [s[0]] + s[1..];
      if x > s[0] {
        InsertSortedCounts(s[1..], x);
      }
    }
  }

  /** Insertion keeps a sorted sequence sorted. */
  lemma InsertSortedKeepsOrder(s: seq<int>, x: int)
    requires Sorted(s)
    ensures Sorted(InsertSorted(s, x))
  {
    InsertSortedSplit(s, x);
    var k := FirstHit(s, x, AtLeast);
    var r := InsertAt(s, k, x);
    forall i, j | 0 <= i < j < |r| ensures r[i] <= r[j] {
      if j < k || i > k {
      } else if i < k && j == k {
        assert r[i] == s[i] < x;
      } else if i == k {
        assert r[j] == s[j - 1] >= x;
      } else {
        assert r[i] == s[i] && r[j] == s[j - 1] && s[i] < x;
      }
    }
  }

  /** On a sorted sequence, an item not smaller than the last element is
      inserted at the end. */
  lemma InsertSortedAtEnd(s: seq<int>, x: int)
    requires Sorted(s)
    requires |s| > 0 && s[|s| - 1] <= x
    ensures InsertSorted(s, x) == s + [x]
  {
    InsertSortedSplit(s, x);
    var k := FirstHit(s, x, AtLeast);
    if k < |s| {
      // every element from k on lies between x and the last one
      forall i | k <= i < |s| ensures s[i] == x {
        assert x <= s[k] <= s[i] <= s[|s| - 1];
      }
    }
    assert InsertAt(s, k, x) == s + [x];
  }

  /** RemoveFirst drops exactly the element at the first position equal to
      `x`, and nothing when no element is. */
  lemma {:induction false} RemoveFirstSplit(s: seq<int>, x: int)
    ensures var k := FirstHit(s, x, EqualTo);
            RemoveFirst(s, x) == if k < |s| then DeleteAt(s, k) else s
  {
    if |s| == 0 {
    } else if s[0] == x {
      assert DeleteAt(s, 0) == s[1..];
    } else {
      var t := s[1..];
      RemoveFirstSplit(t, x);
      var k := FirstHit(t, x, EqualTo);
      assert FirstHit(s, x, EqualTo) == k + 1;
      if k < |t| {
        assert [s[0]] + DeleteAt(t, k) == DeleteAt(s, k + 1);
      } else {
        assert [s[0]] + t == s;
      }
    }
  }

  /** Removal takes away one occurrence of `x` when there is one. */
  lemma {:induction false} RemoveFirstCounts(s: seq<int>, x: int)
    ensures multiset(RemoveFirst(s, x)) == multiset(s) - multiset{x}
  {
    if |s| > 0 {
      assert s == [s[0]] + s[1..];
      if s[0] != x {
        RemoveFirstCounts(s[1..], x);
      }
    }
  }

  /** Removal keeps a sorted sequence sorted. */
  lemma RemoveFirstKeepsOrder(s: seq<int>, x: int)
    requires Sorted(s)
    ensures Sorted(RemoveFirst(s, x))
  {
    RemoveFirstSplit(s, x);
    var k := FirstHit(s, x, EqualTo);
    if k < |s| {
      var r := DeleteAt(s, k);
      forall i, j | 0 <= i < j < |r| ensures r[i] <= r[j] {
        if j < k {
          assert r[i] == s[i] && r[j] == s[j];
        } else if i < k {
          assert r[i] == s[i] && r[j] == s[j + 1];
        } else {
          assert r[i] == s[i + 1] && r[j] == s[j + 1];
        }
      }
    }
  }

  /** Removing an item right after inserting it gives back the original
      sequence, whether or not the item was already present. */
  lemma {:induction false} RemoveAfterInsert(s: seq<int>, x: int)
    ensures RemoveFirst(InsertSorted(s, x), x) == s
  {
    if |s| > 0 && x > s[0] {
      RemoveAfterInsert(s[1..], x);
      assert s == [s[0]] + s[1..];
    }
  }
}
