/** Ascending order on integer sequences, and the reference sort that the
    radix sort is compared against (the tests compare with std::sort). */
module Ordering {

  /** Non-decreasing order: every earlier element is at most every later one. */
  ghost predicate Sorted(s: seq<int>)
  {
    forall i, j :: 0 <= i < j < |s| ==> s[i] <= s[j]
  }

  /** Every element is at least zero. */
  ghost predicate NonNegative(s: seq<int>)
  {
    forall i :: 0 <= i < |s| ==> s[i] >= 0
  }

  /** Inserts `x` into `s` before the first element that is not smaller than it. */
  function Insert(x: int, s: seq<int>): seq<int>
  {
    if s == [] then [x]
    else if x <= s[0] then [x] + s
    else [s[0]] + Insert(x, s[1..])
  }

  /** Insertion adds exactly one occurrence of `x`. */
  lemma {:induction false} InsertPermutation(x: int, s: seq<int>)
    ensures multiset(Insert(x, s)) == multiset(s) + multiset{x}
    decreases |s|
  {
    if s != [] && x > s[0] {
      InsertPermutation(x, s[1..]);
      assert s == [s[0]] + s[1..];
    }
  }

  /** Inserting into an ascending sequence keeps it ascending; the new first
      element is `x` or the old first element. */
  lemma {:induction false} InsertSorted(x: int, s: seq<int>)
    requires Sorted(s)
    ensures Sorted(Insert(x, s))
    ensures Insert(x, s)[0] == x || (s != [] && Insert(x, s)[0] == s[0])
    decreases |s|
  {
    if s != [] && x > s[0] {
      var t := Insert(x, s[1..]);
      InsertSorted(x, s[1..]);
      assert s[0] <= t[0] by {
        if t[0] != x { assert t[0] == s[1]; }
      }
      var r := [s[0]] + t;
      assert r == Insert(x, s);
      forall i, j | 0 <= i < j < |r| ensures r[i] <= r[j] {
        if i > 0 {
          assert r[i] == t[i - 1] && r[j] == t[j - 1];
        } else {
          assert r[j] == t[j - 1] && t[0] <= t[j - 1];
        }
      }
    }
  }

  /** The reference ascending sort of a sequence: what std::sort leaves in a
      vector<int>, written as an insertion sort. */
  function Sort(s: seq<int>): (r: seq<int>)
    ensures Sorted(r)
    ensures multiset(r) == multiset(s)
  {
    if s == [] then []
    else
      assert s == [s[0]] + s[1..];
      InsertSorted(s[0], Sort(s[1..]));
      InsertPermutation(s[0], Sort(s[1..]));
      Insert(s[0], Sort(s[1..]))
  }

  /** Two ascending sequences with the same elements, counted with
      multiplicity, are the same sequence: the sorted order of a multiset
      is unique. */
  lemma {:induction false} SortedUnique(a: seq<int>, b: seq<int>)
    requires Sorted(a) && Sorted(b)
    requires multiset(a) == multiset(b)
    ensures a == b
    decreases |a|
  {
    if a == [] {
      assert |multiset(b)| == 0;
    } else {
      assert a[0] in multiset(b);
      HeadIsLeast(b, a[0]);
      HeadIsLeast(a, b[0]);
      var x := a[0];
      assert x == b[0];
      DropHead(a);
      DropHead(b);
      SortedTail(a);
      SortedTail(b);
      SortedUnique(a[1..], b[1..]);
      assert a == [x] + a[1..] && b == [x] + b[1..];
    }
  }

  /** The first element of an ascending sequence is at most every element. */
  lemma HeadIsLeast(s: seq<int>, x: int)
    requires Sorted(s) && x in multiset(s)
    ensures s != [] && s[0] <= x
  {
    var j :| 0 <= j < |s| && s[j] == x;
  }

  /** Dropping the first element keeps a sequence ascending. */
  lemma SortedTail(s: seq<int>)
    requires s != [] && Sorted(s)
    ensures Sorted(s[1..])
  {
  }

  /** Removing the first element removes one occurrence of it. */
  lemma DropHead(s: seq<int>)
    requires s != []
    ensures multiset(s[1..]) == multiset(s) - multiset{s[0]}
  {
    assert s == [s[0]] + s[1..];
  }

  /** A sorted sequence with the same elements as `s` is exactly `Sort(s)`. */
  lemma SortCharacterised(s: seq<int>, r: seq<int>)
    requires Sorted(r) && multiset(r) == multiset(s)
    ensures r == Sort(s)
  {
    SortedUnique(r, Sort(s));
  }

  /** Sorting an already sorted sequence gives the same sequence. */
  lemma SortIdempotent(s: seq<int>)
    requires Sorted(s)
    ensures Sort(s) == s
  {
    SortCharacterised(s, s);
  }

  /** Two ascending sequences, the first entirely below the second, join
      into one ascending sequence. */
  lemma SortedConcat(a: seq<int>, b: seq<int>)
    requires Sorted(a) && Sorted(b)
    requires forall i, j :: 0 <= i < |a| && 0 <= j < |b| ==> a[i] <= b[j]
    ensures Sorted(a + b)
  {
  }

  /** Non-increasing order. */
  ghost predicate Descending(s: seq<int>)
  {
    forall i, j :: 0 <= i < j < |s| ==> s[i] >= s[j]
  }

  /** The elements of `s` in the opposite order. */
  function Reversed(s: seq<int>): seq<int>
  {
    if s == [] then [] else Reversed(s[1..]) + [s[0]]
  }

  /** Position `i` of the reversal holds the element at the mirrored position. */
  lemma {:induction false} ReversedAt(s: seq<int>, i: int)
    requires 0 <= i < |s|
    ensures |Reversed(s)| == |s| && Reversed(s)[i] == s[|s| - 1 - i]
    decreases |s|
  {
    ReversedLength(s);
    if i < |s| - 1 {
      ReversedAt(s[1..], i);
    }
  }

  /** Reversing keeps the length. */
  lemma {:induction false} ReversedLength(s: seq<int>)
    ensures |Reversed(s)| == |s|
    decreases |s|
  {
    if s != [] {
      ReversedLength(s[1..]);
    }
  }

  /** Reversing keeps every element with its multiplicity. */
  lemma {:induction false} ReversedPermutation(s: seq<int>)
    ensures multiset(Reversed(s)) == multiset(s)
    decreases |s|
  {
    if s != [] {
      ReversedPermutation(s[1..]);
      assert s == [s[0]] + s[1..];
    }
  }

  /** Sorting a non-increasing sequence reverses it. */
  lemma SortDescending(s: seq<int>)
    requires Descending(s)
    ensures Sort(s) == Reversed(s)
  {
    ReversedLength(s);
    var r := Reversed(s);
    forall i, j | 0 <= i < j < |r| ensures r[i] <= r[j] {
      ReversedAt(s, i);
      ReversedAt(s, j);
    }
    ReversedPermutation(s);
    SortCharacterised(s, r);
  }
}
