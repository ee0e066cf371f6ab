/** Orders, permutations of a range, and how sorting a range is put together from a partition. */
module SortSpec {

  predicate OrderedTriple<T(!new)>(less: (T, T) -> bool, x: T, y: T, z: T) {
    (less(x, y) ==> !less(y, x)) && (less(x, y) && less(y, z) ==> less(x, z)) && (less(x, z) ==> less(x, y) || less(y, z))
  }

  /** The comparators that the sort is for: a strict order in which being incomparable is transitive. */
  ghost predicate StrictWeakOrder<T(!new)>(less: (T, T) -> bool) {
    forall x, y, z {:trigger OrderedTriple(less, x, y, z)} :: OrderedTriple(less, x, y, z)
  }

  lemma Asymmetric<T(!new)>(less: (T, T) -> bool, x: T, y: T)
    requires StrictWeakOrder(less) && less(x, y)
    ensures !less(y, x)
  {
    assert OrderedTriple(less, x, y, y);
  }

  lemma Irreflexive<T(!new)>(less: (T, T) -> bool, x: T)
    requires StrictWeakOrder(less)
    ensures !less(x, x)
  {
    assert OrderedTriple(less, x, x, x);
  }

  lemma AtMostTransitive<T(!new)>(less: (T, T) -> bool, x: T, y: T, z: T)
    requires StrictWeakOrder(less) && !less(y, x) && !less(z, y)
    ensures !less(z, x)
  {
    assert OrderedTriple(less, z, y, x);
  }

  // ----- ranges, low and high included -----

  /** s' is s with the elements of [low..high] in another order. */
  ghost predicate Rearranged<T>(s: seq<T>, s': seq<T>, low: nat, high: int) {
    |s'| == |s| && low <= high + 1 <= |s| && s'[..low] == s[..low] && s'[high + 1..] == s[high + 1..] &&
    multiset(s'[low..high + 1]) == multiset(s[low..high + 1])
  }

  /** The same, for the one way to choose `high`: a form whose parts come to mind only where Rearranged is named. */
  ghost predicate Permuted<T>(s: seq<T>, s': seq<T>, low: nat, high: int) {
    |s'| == |s| && low <= high + 1 <= |s| && forall h {:trigger Rearranged(s, s', low, h)} :: h == high ==> Rearranged(s, s', low, h)
  }

  lemma PermutedSame<T>(s: seq<T>, low: nat, high: int)
    requires low <= high + 1 <= |s|
    ensures Permuted(s, s, low, high)
  {
    assert Rearranged(s, s, low, high);
  }

  lemma PermutedTransitive<T>(s: seq<T>, s': seq<T>, s'': seq<T>, low: nat, high: int)
    requires Permuted(s, s', low, high) && Permuted(s', s'', low, high)
    ensures Permuted(s, s'', low, high)
  {
    assert Rearranged(s, s', low, high) && Rearranged(s', s'', low, high);
  }

  /** A permutation of a part is one of the whole. */
  lemma PermutedWider<T>(s: seq<T>, s': seq<T>, low: nat, high: int, low': nat, high': int)
    requires Permuted(s, s', low, high) && low' <= low && high <= high' < |s|
    ensures Permuted(s, s', low', high')
  {
    assert Rearranged(s, s', low, high);
    assert s'[..low'] == s'[..low][..low'] == s[..low][..low'] == s[..low'];
    assert s'[high' + 1..] == s'[high + 1..][high' - high..] == s[high + 1..][high' - high..] == s[high' + 1..];
    Parts(s, low, high, low', high');
    Parts(s', low, high, low', high');
    assert s'[low'..low] == s'[..low][low'..] == s[..low][low'..] == s[low'..low];
    assert s'[high + 1..high' + 1] == s'[high + 1..][..high' - high] == s[high + 1..][..high' - high] == s[high + 1..high' + 1];
  }

  lemma Parts<T>(s: seq<T>, low: nat, high: int, low': nat, high': int)
    requires low <= high + 1 <= |s| && low' <= low && high <= high' < |s|
    ensures multiset(s[low'..high' + 1]) == multiset(s[low'..low]) + multiset(s[low..high + 1]) + multiset(s[high + 1..high' + 1])
  {
    assert s[low'..high' + 1] == s[low'..low] + s[low..high + 1] + s[high + 1..high' + 1];
  }

  function Swapped<T>(s: seq<T>, i: nat, j: nat): seq<T>
    requires i < |s| && j < |s|
  {
    s[i := s[j]][j := s[i]]
  }

  lemma SwappedPermuted<T>(s: seq<T>, i: nat, j: nat, low: nat, high: int)
    requires low <= i <= high < |s| && low <= j <= high
    ensures Permuted(s, Swapped(s, i, j), low, high)
  {
    var part, part' := s[low..high + 1], Swapped(s, i, j)[low..high + 1];
    assert part' == Swapped(part, i - low, j - low);
    assert Rearranged(s, Swapped(s, i, j), low, high);
  }

  /** Every element of the range was in it before, and what is outside is as before. */
  lemma PermutedElement<T>(s: seq<T>, s': seq<T>, low: nat, high: int, i: nat) returns (k: nat)
    requires Permuted(s, s', low, high) && i < |s'|
    ensures k < |s| && s'[i] == s[k] && (low <= i <= high <==> low <= k <= high) && (!(low <= i <= high) ==> k == i)
  {
    assert Rearranged(s, s', low, high);
    if low <= i <= high {
      assert s'[i] == s'[low..high + 1][i - low];
      assert s'[i] in multiset(s'[low..high + 1]);
      assert s'[i] in s[low..high + 1];
      var part := s[low..high + 1];
      var m :| 0 <= m < |part| && part[m] == s'[i];
      k := low + m;
    } else if i < low {
      assert s'[i] == s'[..low][i] == s[..low][i];
      k := i;
    } else {
      assert s'[i] == s'[high + 1..][i - (high + 1)] == s[high + 1..][i - (high + 1)];
      k := i;
    }
  }

  /** The whole has the elements that it had, and those outside the range are where they were. */
  lemma PermutedWhole<T>(s: seq<T>, s': seq<T>, low: nat, high: int)
    requires Permuted(s, s', low, high)
    ensures multiset(s') == multiset(s) && forall i :: 0 <= i < |s| && !(low <= i <= high) ==> s'[i] == s[i]
  {
    assert Rearranged(s, s', low, high);
    assert s == s[..low] + s[low..high + 1] + s[high + 1..] && s' == s'[..low] + s'[low..high + 1] + s'[high + 1..];
    forall i | 0 <= i < |s| && !(low <= i <= high) ensures s'[i] == s[i] {
      var k := PermutedElement(s, s', low, high, i);
    }
  }

  // ----- sorted -----

  ghost predicate Sorted<T>(s: seq<T>, less: (T, T) -> bool, low: nat, high: int) {
    high < |s| && forall i, j :: low <= i < j <= high ==> !less(s[j], s[i])
  }

  /** Sorted but for pairs inside [low..mid - 1] and pairs inside [mid + 1..high]. */
  ghost predicate SortedAround<T>(s: seq<T>, less: (T, T) -> bool, from: nat, to: int, low: nat, mid: int, high: int) {
    to < |s| && forall i, j :: from <= i < j <= to && !(low <= i && j < mid) && !(mid < i && j <= high) ==> !less(s[j], s[i])
  }

  /** Sorted but for pairs inside [low..high]. */
  ghost predicate SortedBut<T>(s: seq<T>, less: (T, T) -> bool, from: nat, to: int, low: nat, high: int) {
    to < |s| && forall i, j :: from <= i < j <= to && !(low <= i && j <= high) ==> !less(s[j], s[i])
  }

  lemma SortedButKept<T>(s: seq<T>, s': seq<T>, less: (T, T) -> bool, from: nat, to: int, low: nat, high: int)
    requires SortedBut(s, less, from, to, low, high) && Permuted(s, s', low, high) && from <= low && high <= to
    ensures SortedBut(s', less, from, to, low, high)
  {
    forall i, j | from <= i < j <= to && !(low <= i && j <= high) ensures !less(s'[j], s'[i]) {
      var k := PermutedElement(s, s', low, high, i);
      var m := PermutedElement(s, s', low, high, j);
      assert from <= k < m <= to && !(low <= k && m <= high);
    }
  }

  /** What partitioning around a pivot achieves. */
  ghost predicate Partitioned<T>(s: seq<T>, less: (T, T) -> bool, low: nat, mid: nat, high: int) {
    low <= mid <= high < |s| &&
    (forall i :: low <= i < mid ==> !less(s[mid], s[i])) &&
    forall i :: mid < i <= high ==> !less(s[i], s[mid])
  }

  lemma PartitionSplits<T(!new)>(s: seq<T>, less: (T, T) -> bool, from: nat, to: int, low: nat, mid: nat, high: int)
    requires StrictWeakOrder(less) && SortedBut(s, less, from, to, low, high) && from <= low && high <= to && Partitioned(s, less, low, mid, high)
    ensures SortedAround(s, less, from, to, low, mid, high)
  {
    forall i, j | from <= i < j <= to && !(low <= i && j < mid) && !(mid < i && j <= high) ensures !less(s[j], s[i]) {
      if low <= i && j <= high && i < mid < j {
        AtMostTransitive(less, s[i], s[mid], s[j]);
      }
    }
  }

  /** Sorting the part below the pivot leaves only the part above it. */
  lemma LowerSorted<T>(s: seq<T>, s': seq<T>, less: (T, T) -> bool, from: nat, to: int, low: nat, mid: nat, high: int)
    requires SortedAround(s, less, from, to, low, mid, high) && from <= low <= mid <= high <= to
    requires Permuted(s, s', low, mid - 1) && Sorted(s', less, low, mid - 1)
    ensures SortedBut(s', less, from, to, mid + 1, high)
  {
    forall i, j | from <= i < j <= to && !(mid + 1 <= i && j <= high) ensures !less(s'[j], s'[i]) {
      var k := PermutedElement(s, s', low, mid - 1, i);
      var m := PermutedElement(s, s', low, mid - 1, j);
      if !(low <= i && j < mid) {
        assert from <= k < m <= to && !(low <= k && m < mid) && !(mid < k && m <= high);
      }
    }
  }

  /** Sorting the part above the pivot leaves only the part below it. */
  lemma UpperSorted<T>(s: seq<T>, s': seq<T>, less: (T, T) -> bool, from: nat, to: int, low: nat, mid: nat, high: int)
    requires SortedAround(s, less, from, to, low, mid, high) && from <= low <= mid <= high <= to
    requires Permuted(s, s', mid + 1, high) && Sorted(s', less, mid + 1, high)
    ensures SortedBut(s', less, from, to, low, mid - 1)
  {
    forall i, j | from <= i < j <= to && !(low <= i && j <= mid - 1) ensures !less(s'[j], s'[i]) {
      var k := PermutedElement(s, s', mid + 1, high, i);
      var m := PermutedElement(s, s', mid + 1, high, j);
      if !(mid < i && j <= high) {
        assert from <= k < m <= to && !(low <= k && m < mid) && !(mid < k && m <= high);
      }
    }
  }
}
