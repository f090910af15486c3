/** The fixed-input scenarios of the functional tests, each run through the
    signed radix sort. The tests compare the output with std::sort; the
    general form of that comparison is the contract of `RadixSort`. */
module Scenarios {
  import opened Ordering
  import opened RadixSorter

  /** Sorts a copy of `input` with the radix sort and returns the result. */
  method SortCopy(input: seq<int>) returns (r: seq<int>)
    ensures r == Sort(input)
    ensures Sorted(r) && multiset(r) == multiset(input)
  {
    var a := ToArray(input);
    RadixSort(a);
    r := a[..];
  }

  // ---------------------------------------------------------------------
  // The basic test: eight non-negative values of up to three digits

  const BasicInput: seq<int> := [170, 45, 75, 90, 802, 24, 2, 66]
  const BasicAscending: seq<int> := [2, 24, 45, 66, 75, 90, 170, 802]

  /** The basic input comes out in ascending order. */
  method BasicScenario() returns (r: seq<int>)
    ensures r == BasicAscending
  {
    r := SortCopy(BasicInput);
    BasicExpected();
  }

  /** std::sort on the basic input gives the ascending list. */
  lemma BasicExpected()
    ensures Sort(BasicInput) == BasicAscending
  {
    BasicInputBag();
    BasicAscendingBag();
    BasicSameBag();
    BasicInOrder();
    SortCharacterised(BasicInput, BasicAscending);
  }

  lemma BasicInputBag()
    ensures multiset(BasicInput) == multiset{170, 45, 75, 90, 802, 24, 2, 66}
  {
  }

  lemma BasicAscendingBag()
    ensures multiset(BasicAscending) == multiset{2, 24, 45, 66, 75, 90, 170, 802}
  {
  }

  lemma BasicSameBag()
    ensures multiset{170, 45, 75, 90, 802, 24, 2, 66} == multiset{2, 24, 45, 66, 75, 90, 170, 802}
  {
  }

  lemma BasicInOrder()
    ensures Sorted(BasicAscending)
  {
  }

  // ---------------------------------------------------------------------
  // The negative-numbers test: mixed signs, including zero

  const MixedInput: seq<int> := [3, -1, 0, -5, 2, -3]
  const MixedAscending: seq<int> := [-5, -3, -1, 0, 2, 3]

  /** Negative values come out before zero and the positive values, each
      group ascending. */
  method NegativeNumbersScenario() returns (r: seq<int>)
    ensures r == MixedAscending
  {
    r := SortCopy(MixedInput);
    MixedExpected();
  }

  /** std::sort on the mixed-sign input gives the ascending list. */
  lemma MixedExpected()
    ensures Sort(MixedInput) == MixedAscending
  {
    MixedInputBag();
    MixedAscendingBag();
    MixedSameBag();
    MixedInOrder();
    SortCharacterised(MixedInput, MixedAscending);
  }

  lemma MixedInputBag()
    ensures multiset(MixedInput) == multiset{3, -1, 0, -5, 2, -3}
  {
  }

  lemma MixedAscendingBag()
    ensures multiset(MixedAscending) == multiset{-5, -3, -1, 0, 2, 3}
  {
  }

  lemma MixedSameBag()
    ensures multiset{3, -1, 0, -5, 2, -3} == multiset{-5, -3, -1, 0, 2, 3}
  {
  }

  lemma MixedInOrder()
    ensures Sorted(MixedAscending)
  {
  }

  // ---------------------------------------------------------------------
  // The duplicates test: repeated values of both signs

  const DuplicatesInput: seq<int> := [5, 3, 5, -2, 3, -2, -2, 5, 0, 0, 7, 7, -7]
  const DuplicatesAscending: seq<int> := [-7, -2, -2, -2, 0, 0, 3, 3, 5, 5, 5, 7, 7]

  /** Every repeated value comes out as often as it went in, in ascending order. */
  method DuplicatesScenario() returns (r: seq<int>)
    ensures r == DuplicatesAscending
  {
    r := SortCopy(DuplicatesInput);
    DuplicatesExpected();
  }

  /** std::sort on the input with duplicates gives the ascending list. */
  lemma DuplicatesExpected()
    ensures Sort(DuplicatesInput) == DuplicatesAscending
  {
    DuplicatesInputBag();
    DuplicatesAscendingBag();
    DuplicatesSameBag();
    DuplicatesInOrder();
    SortCharacterised(DuplicatesInput, DuplicatesAscending);
  }

  lemma DuplicatesInputBag()
    ensures multiset(DuplicatesInput) == multiset{5, 3, 5, -2, 3, -2, -2, 5, 0, 0, 7, 7, -7}
  {
  }

  lemma DuplicatesAscendingBag()
    ensures multiset(DuplicatesAscending) == multiset{-7, -2, -2, -2, 0, 0, 3, 3, 5, 5, 5, 7, 7}
  {
  }

  lemma DuplicatesSameBag()
    ensures multiset{5, 3, 5, -2, 3, -2, -2, 5, 0, 0, 7, 7, -7} == multiset{-7, -2, -2, -2, 0, 0, 3, 3, 5, 5, 5, 7, 7}
  {
  }

  lemma DuplicatesInOrder()
    ensures Sorted(DuplicatesAscending)
  {
  }

  // ---------------------------------------------------------------------
  // The edge-case tests

  /** The empty vector stays empty. */
  method EmptyScenario() returns (r: seq<int>)
    ensures r == []
  {
    r := SortCopy([]);
  }

  /** A single element comes back unchanged. */
  method SingleElementScenario() returns (r: seq<int>)
    ensures r == [42]
  {
    r := SortCopy([42]);
    SortIdempotent([42]);
  }

  /** A strictly descending run across zero, 9, 8, ..., -3, comes out
      ascending, -3, -2, ..., 9. */
  method ReverseOrderScenario() returns (r: seq<int>)
    ensures r == seq(13, k => k - 3)
  {
    var input := seq(13, k => 9 - k);
    ReversedLength(input);
    forall k | 0 <= k < |input| ensures Reversed(input)[k] == k - 3 {
      ReversedAt(input, k);
    }
    SortDescending(input);
    r := SortCopy(input);
  }
}
