/** The signed LSD radix sort of `TestTaskSTL`: split the input by sign,
    radix-sort the non-negative values and the magnitudes of the negative
    ones with base-ten counting-sort passes, then write the negatives back
    in reverse order with their sign restored, followed by the non-negatives. */
module RadixSorter {
  import opened Ordering
  import opened CountingPass

  // ---------------------------------------------------------------------
  // Sorting a non-negative sequence

  /** LSD radix sort of non-negative values, in place: one stable pass per
      decimal place, least significant first, while the largest value still
      has a digit at that place. Empty and one-element arrays are left as
      they are without a single pass. */
  method RadixSortForNonNegative(a: array<int>)
    requires forall k :: 0 <= k < a.Length ==> a[k] >= 0
    modifies a
    ensures Sorted(a[..])
    ensures multiset(a[..]) == multiset(old(a[..]))
    ensures a.Length <= 1 ==> a[..] == old(a[..])
  {
    if a.Length <= 1 {
      return;
    }
    var maxVal := a[0];
    var i := 1;
    while i < a.Length
      invariant 1 <= i <= a.Length
      invariant forall k :: 0 <= k < i ==> a[k] <= maxVal
      invariant 0 <= maxVal
    {
      if a[i] > maxVal {
        maxVal := a[i];
      }
      i := i + 1;
    }
    ghost var s := a[..];
    SortedModOne(s);
    var exp := 1;
    while maxVal / exp > 0
      invariant exp >= 1
      invariant multiset(a[..]) == multiset(s)
      invariant forall k :: 0 <= k < a.Length ==> 0 <= a[k] <= maxVal
      invariant SortedMod(a[..], exp)
      decreases maxVal - exp
    {
      DivPositive(maxVal, exp);
      ghost var before := a[..];
      CountingSort(a, exp);
      StablePassPermutation(before, exp);
      StablePassSortedMod(before, exp);
      BoundsByPermutation(before, a[..], maxVal);
      exp := exp * Base;
    }
    DivZero(maxVal, exp);
    SortedModBelow(a[..], exp);
  }

  /** For a positive place value, `m / exp > 0` holds exactly when `exp <= m`. */
  lemma DivPositive(m: int, exp: int)
    requires m >= 0 && exp >= 1 && m / exp > 0
    ensures exp <= m
  {
    if exp > m {
      ModUnique(m, exp, 0, m);
    }
  }

  /** When `m / exp` is zero, every value in [0, m] is below `exp`. */
  lemma DivZero(m: int, exp: int)
    requires m >= 0 && exp >= 1 && m / exp <= 0
    ensures m < exp
  {
  }

  /** A permutation keeps every element within the same bounds. */
  lemma BoundsByPermutation(s: seq<int>, r: seq<int>, hi: int)
    requires multiset(r) == multiset(s)
    requires forall k :: 0 <= k < |s| ==> 0 <= s[k] <= hi
    ensures forall k :: 0 <= k < |r| ==> 0 <= r[k] <= hi
  {
    forall k | 0 <= k < |r| ensures 0 <= r[k] <= hi {
      assert r[k] in multiset(s);
      var j :| 0 <= j < |s| && s[j] == r[k];
    }
  }

  // ---------------------------------------------------------------------
  // Splitting by sign

  /** The non-negative elements of `s`, in their order in `s`. */
  function NonNegatives(s: seq<int>): seq<int>
  {
    if s == [] then []
    else
      var last := s[|s| - 1];
      NonNegatives(s[..|s| - 1]) + (if last >= 0 then [last] else [])
  }

  /** The magnitudes `-x` of the negative elements `x` of `s`, in their order in `s`. */
  function Magnitudes(s: seq<int>): seq<int>
  {
    if s == [] then []
    else
      var last := s[|s| - 1];
      Magnitudes(s[..|s| - 1]) + (if last < 0 then [-last] else [])
  }

  /** Magnitudes are positive and the other partition is non-negative. */
  lemma {:induction false} SplitSigns(s: seq<int>)
    ensures forall x :: x in Magnitudes(s) ==> x > 0
    ensures forall x :: x in NonNegatives(s) ==> x >= 0
    decreases |s|
  {
    if s != [] {
      SplitSigns(s[..|s| - 1]);
    }
  }

  /** Appending `x` adds one occurrence of `x` and changes no other count. */
  lemma CountSnoc(t: seq<int>, x: int, v: int)
    ensures multiset(t + [x])[v] == multiset(t)[v] + (if x == v then 1 else 0)
  {
    assert multiset(t + [x]) == multiset(t) + multiset{x};
  }

  /** Dropping the first element removes one occurrence of it. */
  lemma CountCons(t: seq<int>, v: int)
    requires t != []
    ensures multiset(t)[v] == multiset(t[1..])[v] + (if t[0] == v then 1 else 0)
  {
    assert t == [t[0]] + t[1..];
    assert multiset(t) == multiset{t[0]} + multiset(t[1..]);
  }

  /** A non-empty sequence is its front followed by its last element. */
  lemma LastSplit(s: seq<int>)
    requires s != []
    ensures s == s[..|s| - 1] + [s[|s| - 1]]
  {
  }

  /** Every element lands in exactly one partition: a value `v` occurs in
      `s` as often as it occurs among the non-negatives plus as often as
      its magnitude `-v` occurs among the magnitudes. */
  lemma {:induction false} SplitCounts(s: seq<int>, v: int)
    ensures multiset(s)[v] == multiset(NonNegatives(s))[v] + multiset(Magnitudes(s))[-v]
    decreases |s|
  {
    if s != [] {
      var s', last := s[..|s| - 1], s[|s| - 1];
      var n', m' := NonNegatives(s'), Magnitudes(s');
      SplitCounts(s', v);
      LastSplit(s);
      CountSnoc(s', last, v);
      if last >= 0 {
        assert NonNegatives(s) == n' + [last] && Magnitudes(s) == m';
        CountSnoc(n', last, v);
      } else {
        assert NonNegatives(s) == n' && Magnitudes(s) == m' + [-last];
        CountSnoc(m', -last, -v);
      }
    }
  }

  /** The two partitions together are as long as the input. */
  lemma {:induction false} SplitLength(s: seq<int>)
    ensures |NonNegatives(s)| + |Magnitudes(s)| == |s|
    decreases |s|
  {
    if s != [] {
      SplitLength(s[..|s| - 1]);
    }
  }

  /** Divides `arr` by sign into the magnitudes of its negative elements and
      its non-negative elements, each in input order. The two output vectors
      of the source are appended to and are modelled as returned sequences. */
  method SplitAndSort(arr: array<int>) returns (negatives: seq<int>, positives: seq<int>)
    ensures negatives == Magnitudes(arr[..]) && positives == NonNegatives(arr[..])
    ensures forall x :: x in negatives ==> x > 0
    ensures forall x :: x in positives ==> x >= 0
    ensures multiset(arr[..]) == multiset(positives) + multiset(Restore(negatives))
    ensures |negatives| + |positives| == arr.Length
  {
    negatives, positives := SplitLoop(arr);
    ghost var s := arr[..];
    SplitPermutation(s);
    SplitSigns(s);
    SplitLength(s);
  }

  /** The loop of `SplitAndSort`: one pass that appends each element to the
      output for its sign. */
  method SplitLoop(arr: array<int>) returns (negatives: seq<int>, positives: seq<int>)
    ensures negatives == Magnitudes(arr[..]) && positives == NonNegatives(arr[..])
  {
    negatives, positives := [], [];
    var i := 0;
    while i < arr.Length
      invariant 0 <= i <= arr.Length
      invariant negatives == Magnitudes(arr[..i]) && positives == NonNegatives(arr[..i])
    {
      assert arr[..i + 1][..i] == arr[..i];
      if arr[i] < 0 {
        negatives := negatives + [-arr[i]];
      } else {
        positives := positives + [arr[i]];
      }
      i := i + 1;
    }
    assert arr[..i] == arr[..];
  }

  // ---------------------------------------------------------------------
  // Recombination

  /** The ascending negative values from the ascending magnitudes: reversed,
      with the sign restored. */
  function Restore(mags: seq<int>): seq<int>
  {
    if mags == [] then [] else Restore(mags[1..]) + [-mags[0]]
  }

  /** Restoring keeps the length. */
  lemma {:induction false} RestoreLength(mags: seq<int>)
    ensures |Restore(mags)| == |mags|
    decreases |mags|
  {
    if mags != [] {
      RestoreLength(mags[1..]);
    }
  }

  /** Position `i` of the restored sequence holds the negated magnitude at
      the mirrored position. */
  lemma {:induction false} RestoreAt(mags: seq<int>, i: int)
    requires 0 <= i < |mags|
    ensures |Restore(mags)| == |mags| && Restore(mags)[i] == -mags[|mags| - 1 - i]
    decreases |mags|
  {
    RestoreLength(mags);
    if i < |mags| - 1 {
      RestoreAt(mags[1..], i);
    }
  }

  /** `v` occurs in the restored sequence as often as `-v` among the magnitudes. */
  lemma {:induction false} RestoreCount(mags: seq<int>, v: int)
    ensures multiset(Restore(mags))[v] == multiset(mags)[-v]
    decreases |mags|
  {
    if mags != [] {
      var rest := mags[1..];
      RestoreCount(rest, v);
      CountCons(mags, -v);
      var r := Restore(rest);
      assert Restore(mags) == r + [-mags[0]];
      CountSnoc(r, -mags[0], v);
    }
  }

  /** Splitting loses and invents nothing: the values of `s` are the
      non-negatives together with the negatives restored from their
      magnitudes. */
  lemma SplitPermutation(s: seq<int>)
    ensures multiset(s) == multiset(NonNegatives(s)) + multiset(Restore(Magnitudes(s)))
  {
    forall v ensures multiset(s)[v] == multiset(NonNegatives(s))[v] + multiset(Restore(Magnitudes(s)))[v] {
      SplitCounts(s, v);
      RestoreCount(Magnitudes(s), v);
    }
  }

  /** Ascending positive magnitudes restore to ascending negative values. */
  lemma RestoreSorted(mags: seq<int>)
    requires Sorted(mags)
    requires forall k :: 0 <= k < |mags| ==> mags[k] > 0
    ensures Sorted(Restore(mags))
    ensures forall k :: 0 <= k < |Restore(mags)| ==> Restore(mags)[k] < 0
  {
    RestoreLength(mags);
    var r := Restore(mags);
    forall i, j | 0 <= i < j < |r| ensures r[i] <= r[j] {
      RestoreAt(mags, i);
      RestoreAt(mags, j);
    }
    forall k | 0 <= k < |r| ensures r[k] < 0 {
      RestoreAt(mags, k);
    }
  }

  /** Every element of a permutation of `s` is an element of `s`. */
  lemma MembersByPermutation(s: seq<int>, r: seq<int>)
    requires multiset(r) == multiset(s)
    ensures forall k :: 0 <= k < |r| ==> r[k] in s
  {
    forall k | 0 <= k < |r| ensures r[k] in s {
      assert r[k] in multiset(r);
    }
  }

  /** Recombination sorts: the restored negatives followed by the sorted
      non-negatives are in ascending order, given the two partitions of `s`
      each sorted. */
  lemma RecombineSorted(s: seq<int>, negs: seq<int>, nonnegs: seq<int>)
    requires Sorted(negs) && multiset(negs) == multiset(Magnitudes(s))
    requires Sorted(nonnegs) && multiset(nonnegs) == multiset(NonNegatives(s))
    ensures Sorted(Restore(negs) + nonnegs)
  {
    SplitSigns(s);
    MembersByPermutation(Magnitudes(s), negs);
    MembersByPermutation(NonNegatives(s), nonnegs);
    RestoreSorted(negs);
    SortedConcat(Restore(negs), nonnegs);
  }

  /** Recombination is a permutation: the restored negatives followed by the
      non-negatives hold exactly the values of `s`, with multiplicity. */
  lemma RecombinePermutation(s: seq<int>, negs: seq<int>, nonnegs: seq<int>)
    requires multiset(negs) == multiset(Magnitudes(s))
    requires multiset(nonnegs) == multiset(NonNegatives(s))
    ensures multiset(Restore(negs) + nonnegs) == multiset(s)
  {
    forall v ensures multiset(Restore(negs))[v] == multiset(Restore(Magnitudes(s)))[v] {
      RestoreCount(negs, v);
      RestoreCount(Magnitudes(s), v);
    }
    SplitPermutation(s);
  }

  // ---------------------------------------------------------------------
  // The signed radix sort

  /** Copies a sequence into a fresh array. */
  method ToArray(s: seq<int>) returns (a: array<int>)
    ensures fresh(a) && a[..] == s
  {
    a := new int[|s|](k requires 0 <= k < |s| => s[k]);
  }

  /** Writes the sorted partitions back into `a`: the negatives first,
      reversed and with the sign restored, then the non-negatives in order. */
  method WriteBack(a: array<int>, neg: array<int>, pos: array<int>)
    requires a.Length == neg.Length + pos.Length
    requires a != neg && a != pos
    modifies a
    ensures a[..] == Restore(neg[..]) + pos[..]
  {
    var m := neg.Length;
    for i := 0 to m
      invariant forall k :: 0 <= k < i ==> a[k] == -neg[m - 1 - k]
    {
      a[i] := -neg[m - 1 - i];
    }
    for j := 0 to pos.Length
      invariant forall k :: 0 <= k < m ==> a[k] == -neg[m - 1 - k]
      invariant forall k :: 0 <= k < j ==> a[m + k] == pos[k]
    {
      a[m + j] := pos[j];
    }
    RestoreLength(neg[..]);
    forall k | 0 <= k < m ensures a[k] == Restore(neg[..])[k] {
      RestoreAt(neg[..], k);
    }
  }

  /** Sorts `a` in place into ascending order: the result is exactly what
      std::sort leaves, so it is sorted and a permutation of the input. */
  method RadixSort(a: array<int>)
    modifies a
    ensures a[..] == Sort(old(a[..]))
    ensures Sorted(a[..]) && multiset(a[..]) == multiset(old(a[..]))
    ensures a.Length <= 1 ==> a[..] == old(a[..])
  {
    ghost var s := a[..];
    var negatives, positives := SplitAndSort(a);
    var neg := ToArray(negatives);
    var pos := ToArray(positives);
    forall k | 0 <= k < neg.Length ensures neg[k] >= 0 {
      assert neg[k] in negatives;
    }
    forall k | 0 <= k < pos.Length ensures pos[k] >= 0 {
      assert pos[k] in positives;
    }
    RadixSortForNonNegative(neg);
    RadixSortForNonNegative(pos);
    WriteBack(a, neg, pos);
    RecombineSorted(s, neg[..], pos[..]);
    RecombinePermutation(s, neg[..], pos[..]);
    SortCharacterised(s, a[..]);
    if a.Length <= 1 {
      SortIdempotent(s);
    }
  }
}
