/** One stable counting-sort pass of the LSD radix sort: the elements are
    regrouped by their decimal digit at place value `exp` (ascending digit),
    and elements that share that digit keep their input order.

    The base is ten: the digit of `v` at place `exp` is `(v / exp) % 10`.
    The pass is only ever applied to non-negative values, where Dafny's
    Euclidean `/` and `%` agree with C++'s truncating ones. */
module CountingPass {
  import opened Ordering

  /** Number of digit values, and so of histogram buckets. */
  const Base: nat := 10

  /** The base-ten digit of `v` at place value `exp`. */
  function Digit(v: int, exp: int): (d: int)
    requires exp >= 1
    ensures 0 <= d < Base
  {
    (v / exp) % Base
  }

  /** The elements of `s` whose digit at `exp` is `d`, in their order in `s`. */
  function Bucket(s: seq<int>, exp: int, d: int): (r: seq<int>)
    requires exp >= 1
    ensures |r| <= |s|
    decreases |s|
  {
    if s == [] then []
    else
      var last := s[|s| - 1];
      Bucket(s[..|s| - 1], exp, d) + (if Digit(last, exp) == d then [last] else [])
  }

  /** Buckets 0 .. d-1 of `s`, one after the other. */
  function Prefix(s: seq<int>, exp: int, d: nat): (r: seq<int>)
    requires exp >= 1
  {
    if d == 0 then [] else Prefix(s, exp, d - 1) + Bucket(s, exp, d - 1)
  }

  /** The result of one stable counting-sort pass on `s` keyed on the digit at `exp`. */
  function StablePass(s: seq<int>, exp: int): seq<int>
    requires exp >= 1
  {
    Prefix(s, exp, Base)
  }

  /** The digits at `exp` ascend along `r`. */
  ghost predicate GroupedByDigit(r: seq<int>, exp: int)
    requires exp >= 1
  {
    forall i, j :: 0 <= i < j < |r| ==> Digit(r[i], exp) <= Digit(r[j], exp)
  }

  /** The write index at which the elements of digit `d` start: how many
      elements of `s` have a smaller digit. This is the prefix-offset table. */
  function Offset(s: seq<int>, exp: int, d: nat): nat
    requires exp >= 1
  {
    |Prefix(s, exp, d)|
  }

  // ---------------------------------------------------------------------
  // Buckets

  /** Every element of bucket `d` has digit `d`. */
  lemma {:induction false} BucketDigits(s: seq<int>, exp: int, d: int)
    requires exp >= 1
    ensures forall i :: 0 <= i < |Bucket(s, exp, d)| ==> Digit(Bucket(s, exp, d)[i], exp) == d
    decreases |s|
  {
    if s != [] {
      BucketDigits(s[..|s| - 1], exp, d);
    }
  }

  /** Every element of a bucket of `s` comes from `s`. */
  lemma {:induction false} BucketMembers(s: seq<int>, exp: int, d: int)
    requires exp >= 1
    ensures forall x :: x in Bucket(s, exp, d) ==> x in s
    decreases |s|
  {
    if s != [] {
      var s' := s[..|s| - 1];
      BucketMembers(s', exp, d);
      assert forall x :: x in s' ==> x in s;
    }
  }

  /** Filtering by digit distributes over concatenation. */
  lemma {:induction false} BucketAppend(a: seq<int>, b: seq<int>, exp: int, d: int)
    requires exp >= 1
    ensures Bucket(a + b, exp, d) == Bucket(a, exp, d) + Bucket(b, exp, d)
    decreases |b|
  {
    if b == [] {
      assert a + b == a;
    } else {
      var b' := b[..|b| - 1];
      assert (a + b)[..|a + b| - 1] == a + b';
      BucketAppend(a, b', exp, d);
    }
  }

  /** A prefix of `s` has no more elements of digit `d` than `s` has. */
  lemma BucketPrefixBound(s: seq<int>, j: nat, exp: int, d: int)
    requires exp >= 1 && j <= |s|
    ensures |Bucket(s[..j], exp, d)| <= |Bucket(s, exp, d)|
  {
    assert s == s[..j] + s[j..];
    BucketAppend(s[..j], s[j..], exp, d);
  }

  /** Extending `s` by one element extends exactly one bucket, that of its digit. */
  lemma BucketSnoc(s: seq<int>, x: int, exp: int, d: int)
    requires exp >= 1
    ensures Bucket(s + [x], exp, d) == Bucket(s, exp, d) + (if Digit(x, exp) == d then [x] else [])
  {
    assert (s + [x])[..|s|] == s;
  }

  /** Filtering a sequence whose digits are all `k` keeps everything when
      `d == k` and nothing otherwise. */
  lemma {:induction false} BucketUniform(s: seq<int>, exp: int, k: int, d: int)
    requires exp >= 1
    requires forall i :: 0 <= i < |s| ==> Digit(s[i], exp) == k
    ensures Bucket(s, exp, d) == if d == k then s else []
    decreases |s|
  {
    if s != [] {
      var s' := s[..|s| - 1];
      assert s == s' + [s[|s| - 1]];
      BucketUniform(s', exp, k, d);
    }
  }

  // ---------------------------------------------------------------------
  // Prefixes and offsets

  /** The first `d` buckets hold only elements whose digit is below `d`. */
  lemma {:induction false} PrefixDigits(s: seq<int>, exp: int, d: nat)
    requires exp >= 1
    ensures forall i :: 0 <= i < |Prefix(s, exp, d)| ==> Digit(Prefix(s, exp, d)[i], exp) < d
    decreases d
  {
    if d > 0 {
      PrefixDigits(s, exp, d - 1);
      BucketDigits(s, exp, d - 1);
      var p, b := Prefix(s, exp, d - 1), Bucket(s, exp, d - 1);
      assert forall i :: 0 <= i < |p + b| ==> (p + b)[i] == if i < |p| then p[i] else b[i - |p|];
    }
  }

  /** There is nothing to distribute in an empty sequence. */
  lemma {:induction false} PrefixOfEmpty(exp: int, d: nat)
    requires exp >= 1
    ensures Prefix([], exp, d) == []
    decreases d
  {
    if d > 0 {
      PrefixOfEmpty(exp, d - 1);
    }
  }

  /** The offsets never decrease with the digit. */
  lemma {:induction false} OffsetMono(s: seq<int>, exp: int, d1: nat, d2: nat)
    requires exp >= 1 && d1 <= d2
    ensures Offset(s, exp, d1) <= Offset(s, exp, d2)
    decreases d2
  {
    if d1 < d2 {
      OffsetMono(s, exp, d1, d2 - 1);
    }
  }

  /** Adding `x` to the input multiset adds `x` to the first `d` buckets
      exactly when its digit is below `d`. */
  lemma {:induction false} PrefixSnoc(s: seq<int>, x: int, exp: int, d: nat)
    requires exp >= 1
    ensures multiset(Prefix(s + [x], exp, d))
         == multiset(Prefix(s, exp, d)) + (if Digit(x, exp) < d then multiset{x} else multiset{})
    decreases d
  {
    if d > 0 {
      var k := Digit(x, exp);
      var p, p' := Prefix(s, exp, d - 1), Prefix(s + [x], exp, d - 1);
      var b, b' := Bucket(s, exp, d - 1), Bucket(s + [x], exp, d - 1);
      PrefixSnoc(s, x, exp, d - 1);
      BucketSnoc(s, x, exp, d - 1);
      ConcatGrows(p, p', b, b', x, k < d - 1, k == d - 1);
    }
  }

  /** Multiset bookkeeping for `PrefixSnoc`: when `x` joins at most one of
      two sequences, it joins their concatenation. */
  lemma ConcatGrows(p: seq<int>, p': seq<int>, b: seq<int>, b': seq<int>, x: int, inP: bool, inB: bool)
    requires !(inP && inB)
    requires multiset(p') == multiset(p) + (if inP then multiset{x} else multiset{})
    requires b' == b + (if inB then [x] else [])
    ensures multiset(p' + b') == multiset(p + b) + (if inP || inB then multiset{x} else multiset{})
  {
  }

  // ---------------------------------------------------------------------
  // Properties of the pass

  /** The pass is a permutation: the same elements with the same multiplicities. */
  lemma {:induction false} StablePassPermutation(s: seq<int>, exp: int)
    requires exp >= 1
    ensures multiset(StablePass(s, exp)) == multiset(s)
    ensures |StablePass(s, exp)| == |s|
    decreases |s|
  {
    var r := StablePass(s, exp);
    if s == [] {
      PrefixOfEmpty(exp, Base);
    } else {
      var s' := s[..|s| - 1];
      assert s == s' + [s[|s| - 1]];
      StablePassPermutation(s', exp);
      PrefixSnoc(s', s[|s| - 1], exp, Base);
    }
    assert |multiset(r)| == |r|;
  }

  /** The first `d` buckets are grouped by ascending digit. */
  lemma {:induction false} PrefixGrouped(s: seq<int>, exp: int, d: nat)
    requires exp >= 1
    ensures GroupedByDigit(Prefix(s, exp, d), exp)
    decreases d
  {
    if d > 0 {
      PrefixGrouped(s, exp, d - 1);
      PrefixDigits(s, exp, d - 1);
      var p, b := Prefix(s, exp, d - 1), Bucket(s, exp, d - 1);
      BucketDigits(s, exp, d - 1);
      forall i, j | 0 <= i < j < |p + b|
        ensures Digit((p + b)[i], exp) <= Digit((p + b)[j], exp)
      {
        if j < |p| {
          assert (p + b)[i] == p[i] && (p + b)[j] == p[j];
        } else if i < |p| {
          assert (p + b)[i] == p[i] && (p + b)[j] == b[j - |p|];
        } else {
          assert (p + b)[i] == b[i - |p|] && (p + b)[j] == b[j - |p|];
        }
      }
    }
  }

  /** After the pass the elements are grouped by ascending digit at `exp`. */
  lemma StablePassGrouped(s: seq<int>, exp: int)
    requires exp >= 1
    ensures GroupedByDigit(StablePass(s, exp), exp)
  {
    PrefixGrouped(s, exp, Base);
  }

  /** Taking bucket `d` of the first `k` buckets gives bucket `d` of the
      input when `d < k`, and nothing otherwise. */
  lemma {:induction false} BucketOfPrefix(s: seq<int>, exp: int, k: nat, d: int)
    requires exp >= 1
    ensures Bucket(Prefix(s, exp, k), exp, d) == if 0 <= d < k then Bucket(s, exp, d) else []
    decreases k
  {
    if k > 0 {
      var p, b := Prefix(s, exp, k - 1), Bucket(s, exp, k - 1);
      BucketDigits(s, exp, k - 1);
      BucketUniform(b, exp, k - 1, d);
      BucketOfPrefix(s, exp, k - 1, d);
      BucketAppend(p, b, exp, d);
    }
  }

  /** Stability: for every digit value, the elements carrying it come out of
      the pass in exactly the order they went in. */
  lemma StablePassStable(s: seq<int>, exp: int, d: int)
    requires exp >= 1 && 0 <= d < Base
    ensures Bucket(StablePass(s, exp), exp, d) == Bucket(s, exp, d)
  {
    BucketOfPrefix(s, exp, Base, d);
  }

  // ---------------------------------------------------------------------
  // What one pass does to the order of the values (the LSD argument)

  /** `s` is ascending in the value modulo `m`, i.e. in its digits below
      place `m` when `m` is a power of ten. */
  ghost predicate SortedMod(s: seq<int>, m: int)
    requires m >= 1
  {
    forall i, j :: 0 <= i < j < |s| ==> s[i] % m <= s[j] % m
  }

  /** Every sequence is ascending modulo 1: there are no digits below place 1. */
  lemma SortedModOne(s: seq<int>)
    ensures SortedMod(s, 1)
  {
    forall i | 0 <= i < |s| ensures s[i] % 1 == 0 {
      ModUnique(s[i], 1, s[i], 0);
    }
  }

  /** Values in [0, m) are their own remainder, so order modulo `m` is order. */
  lemma SortedModBelow(s: seq<int>, m: int)
    requires m >= 1 && SortedMod(s, m)
    requires forall i :: 0 <= i < |s| ==> 0 <= s[i] < m
    ensures Sorted(s)
  {
    forall i | 0 <= i < |s| ensures s[i] % m == s[i] {
      ModUnique(s[i], m, 0, s[i]);
    }
  }

  /** Remainders are unique: `v == q * m + r` with `0 <= r < m` fixes `v % m`. */
  lemma ModUnique(v: int, m: int, q: int, r: int)
    requires m >= 1 && 0 <= r < m && v == q * m + r
    ensures v % m == r
  {
    var q', r' := v / m, v % m;
    assert v == q' * m + r';
    assert (q - q') * m == r' - r;
    if q > q' {
      MulAtLeast(q - q', m);
    } else if q < q' {
      MulAtLeast(q' - q, m);
    }
  }

  /** A positive multiple of `m` is at least `m`. */
  lemma MulAtLeast(k: int, m: int)
    requires k >= 1 && m >= 1
    ensures k * m >= m
  {
    assert k * m == (k - 1) * m + m;
    assert (k - 1) * m >= 0;
  }

  /** The value modulo `exp * 10` is the digit at `exp` followed by the value
      modulo `exp`: `v % (10 exp) == Digit(v, exp) * exp + v % exp`. */
  lemma LowDigitSplit(v: int, exp: int)
    requires exp >= 1
    ensures v % (exp * Base) == Digit(v, exp) * exp + v % exp
    ensures Digit(v, exp) * exp <= v % (exp * Base) < (Digit(v, exp) + 1) * exp
  {
    var q, r := v / exp, v % exp;
    var q1, q0 := q / Base, q % Base;
    assert v == q * exp + r;
    assert q == q1 * Base + q0;
    Regroup(v, exp, q, r, q1, q0);
    ScaledDigit(q0, exp);
    ModUnique(v, exp * Base, q1, q0 * exp + r);
  }

  /** Substituting `q == q1 * 10 + q0` into `v == q * exp + r`. */
  lemma Regroup(v: int, exp: int, q: int, r: int, q1: int, q0: int)
    requires v == q * exp + r && q == q1 * Base + q0
    ensures v == q1 * (exp * Base) + (q0 * exp + r)
  {
    assert q * exp == q1 * Base * exp + q0 * exp;
  }

  /** A digit times `exp` lies in `[0, 9 exp]`, one `exp` below the next digit's. */
  lemma ScaledDigit(q0: int, exp: int)
    requires exp >= 1 && 0 <= q0 < Base
    ensures 0 <= q0 * exp <= (Base - 1) * exp
    ensures (q0 + 1) * exp == q0 * exp + exp
  {
    assert (Base - 1 - q0) * exp >= 0;
  }

  /** Filtering keeps the order modulo `m`: a bucket is a subsequence. */
  lemma {:induction false} BucketSortedMod(s: seq<int>, exp: int, d: int, m: int)
    requires exp >= 1 && m >= 1 && SortedMod(s, m)
    ensures SortedMod(Bucket(s, exp, d), m)
    decreases |s|
  {
    if s != [] {
      var s', last := s[..|s| - 1], s[|s| - 1];
      assert SortedMod(s', m);
      BucketSortedMod(s', exp, d, m);
      var b := Bucket(s', exp, d);
      BucketMembers(s', exp, d);
      forall i | 0 <= i < |b| ensures b[i] % m <= last % m {
        assert b[i] in b;
        var k :| 0 <= k < |s'| && s'[k] == b[i];
        assert s[k] == b[i];
      }
    }
  }

  /** One multiple of `exp` is below another when its factor is. */
  lemma MulMono(a: int, b: int, exp: int)
    requires a <= b && exp >= 1
    ensures a * exp <= b * exp
  {
    assert b * exp - a * exp == (b - a) * exp;
  }

  /** Every value of `s` modulo `m` lies in `[lo, hi)`. */
  ghost predicate WithinMod(s: seq<int>, m: int, lo: int, hi: int)
    requires m >= 1
  {
    forall i :: 0 <= i < |s| ==> lo <= s[i] % m < hi
  }

  /** If `s` is ascending modulo `exp`, then bucket `d` is ascending modulo
      `exp * 10`, and its values modulo `exp * 10` lie in `[d exp, (d + 1) exp)`. */
  lemma BucketSortedHigh(s: seq<int>, exp: int, d: int)
    requires exp >= 1 && 0 <= d < Base && SortedMod(s, exp)
    ensures SortedMod(Bucket(s, exp, d), exp * Base)
    ensures WithinMod(Bucket(s, exp, d), exp * Base, d * exp, (d + 1) * exp)
  {
    var m, b := exp * Base, Bucket(s, exp, d);
    BucketDigits(s, exp, d);
    BucketSortedMod(s, exp, d, exp);
    forall i | 0 <= i < |b|
      ensures d * exp <= b[i] % m < (d + 1) * exp
      ensures b[i] % m == d * exp + b[i] % exp
    {
      LowDigitSplit(b[i], exp);
    }
  }

  /** Two sequences ascending modulo `m`, the first within `[lo, k)` and the
      second within `[k, h)`, join into one ascending sequence within `[lo, h)`. */
  lemma ConcatSortedMod(p: seq<int>, b: seq<int>, m: int, lo: int, k: int, h: int)
    requires m >= 1 && lo <= k <= h && SortedMod(p, m) && SortedMod(b, m)
    requires WithinMod(p, m, lo, k) && WithinMod(b, m, k, h)
    ensures SortedMod(p + b, m) && WithinMod(p + b, m, lo, h)
  {
    var r := p + b;
    forall i, j | 0 <= i < j < |r| ensures r[i] % m <= r[j] % m {
      if j < |p| {
        assert r[i] == p[i] && r[j] == p[j];
      } else if i < |p| {
        assert r[i] == p[i] && r[j] == b[j - |p|];
      } else {
        assert r[i] == b[i - |p|] && r[j] == b[j - |p|];
      }
    }
    forall i | 0 <= i < |r| ensures lo <= r[i] % m < h {
      if i < |p| {
        assert r[i] == p[i];
      } else {
        assert r[i] == b[i - |p|];
      }
    }
  }

  /** If `s` is ascending modulo `exp`, then the first `d` buckets are
      ascending modulo `exp * 10`, and all their values modulo `exp * 10`
      lie below `d * exp`. */
  lemma {:induction false} PrefixSortedMod(s: seq<int>, exp: int, d: nat)
    requires exp >= 1 && d <= Base && SortedMod(s, exp)
    ensures SortedMod(Prefix(s, exp, d), exp * Base)
    ensures WithinMod(Prefix(s, exp, d), exp * Base, 0, d * exp)
    decreases d
  {
    if d > 0 {
      var p, b := Prefix(s, exp, d - 1), Bucket(s, exp, d - 1);
      var k, h := (d - 1) * exp, d * exp;
      PrefixSortedMod(s, exp, d - 1);
      BucketSortedHigh(s, exp, d - 1);
      ScaledDigit(d - 1, exp);
      ConcatSortedMod(p, b, exp * Base, 0, k, h);
      assert Prefix(s, exp, d) == p + b;
    }
  }

  /** The step of LSD radix sort: a stable pass on the digit at `exp` turns
      order modulo `exp` into order modulo `exp * 10`. */
  lemma StablePassSortedMod(s: seq<int>, exp: int)
    requires exp >= 1 && SortedMod(s, exp)
    ensures SortedMod(StablePass(s, exp), exp * Base)
  {
    PrefixSortedMod(s, exp, Base);
  }

  // ---------------------------------------------------------------------
  // The scatter phase

  /** The output `o` holds the sequence `b` from index `lo` on. */
  ghost predicate Region(o: seq<int>, lo: int, b: seq<int>)
  {
    0 <= lo && lo + |b| <= |o| && forall k :: 0 <= k < |b| ==> o[lo + k] == b[k]
  }

  /** Writing outside a region leaves it in place. */
  lemma RegionFrame(o: seq<int>, lo: int, b: seq<int>, p: int, x: int)
    requires Region(o, lo, b) && 0 <= p < |o|
    requires p < lo || lo + |b| <= p
    ensures Region(o[p := x], lo, b)
  {
  }

  /** Writing just past a region extends it by the written value. */
  lemma RegionExtend(o: seq<int>, lo: int, b: seq<int>, x: int)
    requires Region(o, lo, b) && lo + |b| < |o|
    ensures Region(o[lo + |b| := x], lo, b + [x])
  {
  }

  /** A region is a slice of the output. */
  lemma RegionSlice(o: seq<int>, lo: int, b: seq<int>)
    requires Region(o, lo, b)
    ensures o[lo..lo + |b|] == b
  {
  }

  /** The output up to `hi` is the output up to `lo` followed by the slice between. */
  lemma SliceJoin(o: seq<int>, lo: int, hi: int)
    requires 0 <= lo <= hi <= |o|
    ensures o[..hi] == o[..lo] + o[lo..hi]
  {
  }

  /** After scattering the first `i` elements of `s`, the elements of
      `s[..i]` with digit `d` sit, in order, from offset `Offset(s, exp, d)`
      of the output `o` onwards. */
  ghost predicate Placed(o: seq<int>, s: seq<int>, exp: int, i: nat)
    requires exp >= 1 && i <= |s|
  {
    forall d :: 0 <= d < Base ==> Region(o, Offset(s, exp, d), Bucket(s[..i], exp, d))
  }

  /** The offset of digit `d + 1` is the offset of `d` plus the size of bucket `d`. */
  lemma OffsetNext(s: seq<int>, exp: int, d: nat)
    requires exp >= 1
    ensures Offset(s, exp, d + 1) == Offset(s, exp, d) + |Bucket(s, exp, d)|
  {
  }

  /** Where bucket `d` of a prefix of `s` can lie: within the slot that
      bucket `d` of all of `s` occupies. */
  lemma SlotBounds(s: seq<int>, exp: int, j: nat, d: nat)
    requires exp >= 1 && j <= |s| && d < Base
    ensures Offset(s, exp, d) + |Bucket(s[..j], exp, d)| <= Offset(s, exp, d + 1) <= |s|
  {
    BucketPrefixBound(s, j, exp, d);
    OffsetNext(s, exp, d);
    OffsetMono(s, exp, d + 1, Base);
    StablePassPermutation(s, exp);
  }

  /** Before the scatter nothing is placed, so every region is empty. */
  lemma PlacedStart(o: seq<int>, s: seq<int>, exp: int)
    requires exp >= 1 && |o| == |s|
    ensures Placed(o, s, exp, 0)
  {
    forall d | 0 <= d < Base ensures Region(o, Offset(s, exp, d), Bucket(s[..0], exp, d)) {
      assert Offset(s, exp, d) <= |o| by {
        StablePassPermutation(s, exp);
        OffsetMono(s, exp, d, Base);
      }
    }
  }

  /** Counting one more element of `s` adds one to the count of its digit
      and leaves every other count alone. */
  lemma BucketSizesStep(s: seq<int>, exp: int, i: nat)
    requires exp >= 1 && i < |s|
    ensures forall d :: 0 <= d < Base ==>
      |Bucket(s[..i + 1], exp, d)| == |Bucket(s[..i], exp, d)| + (if Digit(s[i], exp) == d then 1 else 0)
  {
    assert s[..i + 1] == s[..i] + [s[i]];
    forall d | 0 <= d < Base
      ensures |Bucket(s[..i + 1], exp, d)| == |Bucket(s[..i], exp, d)| + (if Digit(s[i], exp) == d then 1 else 0)
    {
      BucketSnoc(s[..i], s[i], exp, d);
    }
  }

  /** The write index of element `i` of `s`, the offset of its digit plus
      the number of earlier elements with that digit, lies inside the slot
      of that digit. */
  lemma WriteInSlot(s: seq<int>, exp: int, i: nat)
    requires exp >= 1 && i < |s|
    ensures var d0 := Digit(s[i], exp);
      Offset(s, exp, d0) + |Bucket(s[..i], exp, d0)| < Offset(s, exp, d0 + 1) <= |s|
  {
    var x, d0 := s[i], Digit(s[i], exp);
    assert s[..i + 1] == s[..i] + [x];
    BucketSnoc(s[..i], x, exp, d0);
    SlotBounds(s, exp, i + 1, d0);
  }

  /** One more element of `s` extends the bucket of its own digit by itself
      and leaves the other buckets alone. */
  lemma BucketStep(s: seq<int>, exp: int, i: nat, d: nat)
    requires exp >= 1 && i < |s|
    ensures Bucket(s[..i + 1], exp, d) ==
      Bucket(s[..i], exp, d) + (if d == Digit(s[i], exp) then [s[i]] else [])
  {
    assert s[..i + 1] == s[..i] + [s[i]];
    BucketSnoc(s[..i], s[i], exp, d);
  }

  /** The write index of element `i` lies past the placed region of every
      smaller digit. */
  lemma WriteAboveRegion(s: seq<int>, exp: int, i: nat, d: nat)
    requires exp >= 1 && i < |s| && d < Digit(s[i], exp)
    ensures Offset(s, exp, d) + |Bucket(s[..i], exp, d)|
         <= Offset(s, exp, Digit(s[i], exp)) + |Bucket(s[..i], exp, Digit(s[i], exp))|
  {
    var d0 := Digit(s[i], exp);
    var end, next, lo0 := Offset(s, exp, d) + |Bucket(s[..i], exp, d)|, Offset(s, exp, d + 1), Offset(s, exp, d0);
    assert end <= next by { SlotBounds(s, exp, i, d); }
    assert next <= lo0 by { OffsetMono(s, exp, d + 1, d0); }
  }

  /** The write index of element `i` lies before the placed region of every
      larger digit. */
  lemma WriteBelowRegion(s: seq<int>, exp: int, i: nat, d: nat)
    requires exp >= 1 && i < |s| && Digit(s[i], exp) < d
    ensures Offset(s, exp, Digit(s[i], exp)) + |Bucket(s[..i], exp, Digit(s[i], exp))| < Offset(s, exp, d)
  {
    var d0 := Digit(s[i], exp);
    var p, next0, lo := Offset(s, exp, d0) + |Bucket(s[..i], exp, d0)|, Offset(s, exp, d0 + 1), Offset(s, exp, d);
    assert p < next0 by { WriteInSlot(s, exp, i); }
    assert next0 <= lo by { OffsetMono(s, exp, d0 + 1, d); }
  }

  /** Scattering element `i` of `s` (digit `d0`) to write index `p`, the
      running offset of `d0`, moves the region of digit `d` on by one
      element when `d == d0` and leaves it alone otherwise. */
  lemma PlacedStepDigit(o: seq<int>, s: seq<int>, exp: int, i: nat, d: nat)
    requires exp >= 1 && i < |s| && |o| == |s| && d < Base
    requires Region(o, Offset(s, exp, d), Bucket(s[..i], exp, d))
    ensures var d0 := Digit(s[i], exp);
      var p := Offset(s, exp, d0) + |Bucket(s[..i], exp, d0)|;
      p < |o| && Region(o[p := s[i]], Offset(s, exp, d), Bucket(s[..i + 1], exp, d))
  {
    var x, d0 := s[i], Digit(s[i], exp);
    var p := Offset(s, exp, d0) + |Bucket(s[..i], exp, d0)|;
    var lo, b := Offset(s, exp, d), Bucket(s[..i], exp, d);
    WriteInSlot(s, exp, i);
    BucketStep(s, exp, i, d);
    if d == d0 {
      RegionExtend(o, lo, b, x);
    } else {
      if d < d0 {
        WriteAboveRegion(s, exp, i, d);
      } else {
        WriteBelowRegion(s, exp, i, d);
      }
      RegionFrame(o, lo, b, p, x);
    }
  }

  /** Scattering element `i` of `s` to the running offset of its digit keeps
      every earlier element where it was, and places the new one right after
      the earlier elements that share its digit. */
  lemma PlacedStep(o: seq<int>, s: seq<int>, exp: int, i: nat)
    requires exp >= 1 && i < |s| && |o| == |s|
    requires Placed(o, s, exp, i)
    ensures var p := Cursors(s, exp, i)[Digit(s[i], exp)];
      p < |o| && Placed(o[p := s[i]], s, exp, i + 1)
  {
    var d0 := Digit(s[i], exp);
    var p := Offset(s, exp, d0) + |Bucket(s[..i], exp, d0)|;
    assert p < |o| by {
      PlacedStepDigit(o, s, exp, i, d0);
    }
    var o' := o[p := s[i]];
    forall d | 0 <= d < Base
      ensures Region(o', Offset(s, exp, d), Bucket(s[..i + 1], exp, d))
    {
      assert Region(o, Offset(s, exp, d), Bucket(s[..i], exp, d));
      PlacedStepDigit(o, s, exp, i, d);
    }
  }

  /** Once every element is scattered, bucket `d` of `s` is the slice of
      the output from its offset on. */
  lemma PlacedRegion(o: seq<int>, s: seq<int>, exp: int, d: nat)
    requires exp >= 1 && |o| == |s| && d < Base
    requires Placed(o, s, exp, |s|)
    ensures BucketFilled(o, s, exp, d)
  {
    assert s[..|s|] == s;
    RegionSlice(o, Offset(s, exp, d), Bucket(s, exp, d));
  }

  /** Bucket `d` of `s` is the slice of `o` from its offset on. */
  ghost predicate BucketFilled(o: seq<int>, s: seq<int>, exp: int, d: nat)
    requires exp >= 1
  {
    Offset(s, exp, d) + |Bucket(s, exp, d)| <= |o| &&
    o[Offset(s, exp, d)..Offset(s, exp, d) + |Bucket(s, exp, d)|] == Bucket(s, exp, d)
  }

  /** With every bucket below `d` in its slice, the output up to the offset
      of `d` is the concatenation of those buckets. */
  lemma {:induction false} FilledPrefix(o: seq<int>, s: seq<int>, exp: int, d: nat)
    requires exp >= 1 && d <= Base
    requires forall e :: 0 <= e < d ==> BucketFilled(o, s, exp, e)
    ensures Offset(s, exp, d) <= |o| && o[..Offset(s, exp, d)] == Prefix(s, exp, d)
    decreases d
  {
    if d > 0 {
      var lo, b := Offset(s, exp, d - 1), Bucket(s, exp, d - 1);
      var p := Prefix(s, exp, d - 1);
      FilledPrefix(o, s, exp, d - 1);
      assert BucketFilled(o, s, exp, d - 1);
      var hi := lo + |b|;
      assert Offset(s, exp, d) == hi && Prefix(s, exp, d) == p + b;
      assert o[..hi] == p + b by {
        SliceJoin(o, lo, hi);
      }
    }
  }

  /** A complete scatter leaves exactly the result of the stable pass. */
  lemma PlacedComplete(o: seq<int>, s: seq<int>, exp: int)
    requires exp >= 1 && |o| == |s|
    requires Placed(o, s, exp, |s|)
    ensures o == StablePass(s, exp)
  {
    forall e | 0 <= e < Base ensures BucketFilled(o, s, exp, e) {
      PlacedRegion(o, s, exp, e);
    }
    FilledPrefix(o, s, exp, Base);
    StablePassPermutation(s, exp);
    assert o[..|o|] == o;
  }

  // ---------------------------------------------------------------------
  // The pass itself

  /** The histogram phase: how many elements of `a` carry each digit at `exp`. */
  method DigitHistogram(a: array<int>, exp: int) returns (count: array<int>)
    requires exp >= 1
    ensures fresh(count) && count.Length == Base
    ensures forall d :: 0 <= d < Base ==> count[d] == |Bucket(a[..], exp, d)|
  {
    ghost var s := a[..];
    count := new int[Base](_ => 0);
    var i := 0;
    while i < a.Length
      invariant 0 <= i <= a.Length
      invariant forall d :: 0 <= d < Base ==> count[d] == |Bucket(s[..i], exp, d)|
    {
      BucketSizesStep(s, exp, i);
      var dx := Digit(a[i], exp);
      count[dx] := count[dx] + 1;
      i := i + 1;
    }
    assert s[..i] == s;
  }

  /** The prefix-sum phase: the first write index of every digit, the
      number of elements with a smaller digit. */
  method StartOffsets(count: array<int>, ghost s: seq<int>, exp: int) returns (next: array<int>)
    requires exp >= 1 && count.Length == Base
    requires forall d :: 0 <= d < Base ==> count[d] == |Bucket(s, exp, d)|
    ensures fresh(next) && next.Length == Base
    ensures forall d :: 0 <= d < Base ==> next[d] == Offset(s, exp, d)
  {
    next := new int[Base](_ => 0);
    var d := 1;
    while d < Base
      invariant 1 <= d <= Base
      invariant forall k :: 0 <= k < d ==> next[k] == Offset(s, exp, k)
    {
      OffsetNext(s, exp, d - 1);
      next[d] := next[d - 1] + count[d - 1];
      d := d + 1;
    }
  }

  /** The running write index of every digit once the first `i` elements
      of `s` are scattered: its offset plus the elements already written. */
  ghost function Cursors(s: seq<int>, exp: int, i: nat): (c: seq<int>)
    requires exp >= 1 && i <= |s|
    ensures |c| == Base
  {
    seq(Base, d requires 0 <= d < Base => Offset(s, exp, d) + |Bucket(s[..i], exp, d)|)
  }

  /** Scattering element `i` advances the cursor of its digit by one and
      leaves the others alone. */
  lemma CursorsStep(s: seq<int>, exp: int, i: nat)
    requires exp >= 1 && i < |s|
    ensures var dx := Digit(s[i], exp);
      Cursors(s, exp, i + 1) == Cursors(s, exp, i)[dx := Cursors(s, exp, i)[dx] + 1]
  {
    var dx := Digit(s[i], exp);
    var c, c' := Cursors(s, exp, i), Cursors(s, exp, i + 1);
    var u := c[dx := c[dx] + 1];
    forall d | 0 <= d < Base ensures c'[d] == u[d] {
      BucketSizesStep(s, exp, i);
    }
    assert c' == u;
  }

  /** One step of the scatter: element `i` of `a` goes to the cursor of
      its digit, and that cursor moves on by one. */
  method ScatterOne(a: array<int>, exp: int, next: array<int>, out: array<int>, i: int)
    requires exp >= 1 && 0 <= i < a.Length == out.Length
    requires next.Length == Base && next != a && out != a && out != next
    requires next[..] == Cursors(a[..], exp, i)
    requires Placed(out[..], a[..], exp, i)
    modifies next, out
    ensures next[..] == Cursors(a[..], exp, i + 1)
    ensures Placed(out[..], a[..], exp, i + 1)
  {
    ghost var s := a[..];
    var x := a[i];
    var dx := Digit(x, exp);
    var p := next[dx];
    ghost var o, c := out[..], next[..];
    PlacedStep(o, s, exp, i);
    out[p] := x;
    assert out[..] == o[p := x];
    CursorsStep(s, exp, i);
    next[dx] := p + 1;
    assert next[..] == c[dx := p + 1];
    assert a[..] == s;
  }

  /** The scatter phase: every element of `a`, in input order, is written
      to the running offset of its digit, which then moves on by one. */
  method Scatter(a: array<int>, exp: int, next: array<int>) returns (out: array<int>)
    requires exp >= 1 && next.Length == Base && next != a
    requires forall d :: 0 <= d < Base ==> next[d] == Offset(a[..], exp, d)
    modifies next
    ensures fresh(out) && out.Length == a.Length
    ensures out[..] == StablePass(a[..], exp)
  {
    ghost var s := a[..];
    out := new int[a.Length];
    PlacedStart(out[..], s, exp);
    assert next[..] == Cursors(s, exp, 0);
    var i := 0;
    while i < a.Length
      modifies out, next
      invariant 0 <= i <= a.Length
      invariant next[..] == Cursors(s, exp, i)
      invariant Placed(out[..], s, exp, i)
    {
      ScatterOne(a, exp, next, out, i);
      i := i + 1;
    }
    PlacedComplete(out[..], s, exp);
  }

  /** One stable counting-sort pass over `a`, in place, keyed on the digit
      at place `exp`: a histogram of the digits, the prefix sums that give
      each digit's first write index, a scatter in input order into a
      scratch buffer, and a copy back. The callers only pass non-negative
      values (a negative one would index the histogram out of range). */
  method CountingSort(a: array<int>, exp: int)
    requires exp >= 1
    requires forall k :: 0 <= k < a.Length ==> a[k] >= 0
    modifies a
    ensures a[..] == StablePass(old(a[..]), exp)
  {
    var count := DigitHistogram(a, exp);
    var next := StartOffsets(count, a[..], exp);
    var out := Scatter(a, exp, next);
    forall k | 0 <= k < a.Length {
      a[k] := out[k];
    }
    assert a[..] == out[..];
  }
}
