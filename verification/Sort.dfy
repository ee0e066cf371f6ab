/** Lua's quicksort on the array part of a table, for comparators without side effects. */
module Sort {
  import opened SortSpec

  datatype Outcome = Done | InvalidOrder

  function Pow2(n: nat): (r: nat)
    ensures r > 0
  {
    if n == 0 then 1 else 2 * Pow2(n - 1)
  }

  method Swap<T>(t: array<T>, i: nat, j: nat, ghost low: nat, ghost high: nat)
    requires low <= i <= high < t.Length && low <= j <= high
    modifies t
    ensures t[..] == Swapped(old(t[..]), i, j) && Permuted(old(t[..]), t[..], low, high)
  {
    SwappedPermuted(t[..], i, j, low, high);
    t[i], t[j] := t[j], t[i];
    assert t[..] == Swapped(old(t[..]), i, j);
  }

  method SwapAgain<T>(t: array<T>, i: nat, j: nat, ghost low: nat, ghost high: nat, ghost before: seq<T>)
    requires low <= i <= high < t.Length && low <= j <= high && Permuted(before, t[..], low, high)
    modifies t
    ensures t[..] == Swapped(old(t[..]), i, j) && Permuted(before, t[..], low, high)
  {
    Swap(t, i, j, low, high);
    PermutedTransitive(before, old(t[..]), t[..], low, high);
  }

  /** The lower and the upper end in order. */
  method OrderEnds<T(!new)>(t: array<T>, less: (T, T) -> bool, low: nat, high: nat)
    requires StrictWeakOrder(less) && low < high < t.Length
    modifies t
    ensures Permuted(old(t[..]), t[..], low, high) && !less(t[high], t[low])
  {
    if less(t[high], t[low]) {
      Asymmetric(less, t[high], t[low]);
      Swap(t, low, high, low, high);
    } else {
      PermutedSame(t[..], low, high);
    }
  }

  /** The middle element between the ends. */
  method OrderMiddle<T(!new)>(t: array<T>, less: (T, T) -> bool, low: nat, middle: nat, high: nat)
    requires StrictWeakOrder(less) && low < middle < high < t.Length && !less(t[high], t[low])
    modifies t
    ensures Permuted(old(t[..]), t[..], low, high)
    ensures !less(t[middle], t[low]) && !less(t[high], t[middle])
  {
    if less(t[middle], t[low]) {
      Asymmetric(less, t[middle], t[low]);
      Swap(t, middle, low, low, high);
    } else if less(t[high], t[middle]) {
      Asymmetric(less, t[high], t[middle]);
      Swap(t, middle, high, low, high);
    } else {
      PermutedSame(t[..], low, high);
    }
  }

  /** Elements up to `lower` are at most the pivot, elements from `upper` on at least. */
  ghost predicate Around<T>(s: seq<T>, less: (T, T) -> bool, low: nat, lower: int, upper: int, high: nat, pivot: T) {
    high < |s| && (forall k :: low <= k <= high && k <= lower ==> !less(pivot, s[k])) &&
    forall k :: low <= k <= high && upper <= k ==> !less(s[k], pivot)
  }

  lemma AroundExchanged<T>(s: seq<T>, less: (T, T) -> bool, low: nat, lower: nat, upper: nat, high: nat, pivot: T)
    requires Around(s, less, low, lower - 1, upper + 1, high, pivot) && low < lower <= upper < high
    requires !less(s[lower], pivot) && !less(pivot, s[upper])
    ensures Around(Swapped(s, lower, upper), less, low, lower, upper, high, pivot)
  {
  }

  lemma AroundPartitioned<T>(s: seq<T>, less: (T, T) -> bool, low: nat, mid: nat, high: nat)
    requires low < mid < high < |s| && Around(s, less, low, mid - 1, mid, high, s[high - 1])
    ensures Partitioned(Swapped(s, high - 1, mid), less, low, mid, high)
  {
  }

  /** From the left: the next element that is not below the pivot. */
  method ScanUp<T(!new)>(t: array<T>, less: (T, T) -> bool, low: nat, lower0: nat, upper: nat, high: nat, pivot: T)
    returns (r: Outcome, lower: nat)
    requires StrictWeakOrder(less) && low <= lower0 <= upper < high < t.Length && (lower0 == upper ==> upper + 1 < high)
    requires Around(t[..], less, low, lower0, upper, high, pivot)
    ensures r.Done? && lower0 < lower < high && (lower <= upper || lower == lower0 + 1)
    ensures Around(t[..], less, low, lower - 1, upper, high, pivot) && !less(t[lower], pivot)
  {
    lower := lower0 + 1;
    while less(t[lower], pivot)
      invariant lower0 < lower < high && (lower <= upper || lower == lower0 + 1)
      invariant forall k :: low <= k < lower ==> !less(pivot, t[k])
      decreases high - lower
    {
      assert t[lower] == t[..][lower];
      Asymmetric(less, t[lower], pivot);
      if lower > high {
        return InvalidOrder, lower;
      }
      lower := lower + 1;
    }
    return Done, lower;
  }

  /** From the right: the next element that is not above the pivot. */
  method ScanDown<T(!new)>(t: array<T>, less: (T, T) -> bool, low: nat, lower: nat, upper0: nat, high: nat, pivot: T)
    returns (r: Outcome, upper: nat)
    requires StrictWeakOrder(less) && low < lower < high < t.Length && low < upper0 < high && lower <= upper0 + 1
    requires Around(t[..], less, low, lower - 1, upper0, high, pivot) && !less(t[lower], pivot)
    ensures r.Done? && low <= upper < upper0 && lower <= upper + 2
    ensures Around(t[..], less, low, lower - 1, upper + 1, high, pivot) && !less(pivot, t[upper])
  {
    upper := upper0 - 1;
    while less(pivot, t[upper])
      invariant low <= upper < upper0 && lower <= upper + 2
      invariant forall k :: upper < k <= high ==> !less(t[k], pivot)
      decreases upper
    {
      Asymmetric(less, pivot, t[upper]);
      assert t[upper] == t[..][upper] && t[lower - 1] == t[..][lower - 1];
      if upper < low {
        return InvalidOrder, upper;
      }
      upper := upper - 1;
    }
    return Done, upper;
  }

  /** Exchanges elements that are on the wrong side of the pivot until the two scans meet. */
  method Exchange<T(!new)>(t: array<T>, less: (T, T) -> bool, low: nat, high: nat, pivot: T, ghost before: seq<T>) returns (r: Outcome, lower: nat)
    requires StrictWeakOrder(less) && low + 2 < high < t.Length && t[high - 1] == pivot && Permuted(before, t[..], low, high)
    requires !less(pivot, t[low]) && !less(t[high], pivot)
    modifies t
    ensures r.Done? && low < lower < high && Permuted(before, t[..], low, high) && t[high - 1] == pivot
    ensures Around(t[..], less, low, lower - 1, lower, high, pivot)
  {
    lower := low;
    var upper := high - 1;
    Irreflexive(less, pivot);
    while true
      invariant low <= lower <= upper < high && low < upper && (lower == upper ==> upper + 1 < high)
      invariant Around(t[..], less, low, lower, upper, high, pivot) && t[high - 1] == pivot
      invariant Permuted(before, t[..], low, high)
      decreases upper
    {
      r, lower := ScanUp(t, less, low, lower, upper, high, pivot);
      if !r.Done? {
        return;
      }
      r, upper := ScanDown(t, less, low, lower, upper, high, pivot);
      if !r.Done? {
        return;
      }
      if upper < lower {
        break;
      }
      AroundExchanged(t[..], less, low, lower, upper, high, pivot);
      SwapAgain(t, lower, upper, low, high, before);
    }
    return Done, lower;
  }

  /** Splits t[low..high] around the median of its ends and its middle. */
  method Partition<T(!new)>(t: array<T>, less: (T, T) -> bool, low: nat, middle: nat, high: nat)
    returns (r: Outcome, mid: nat)
    requires StrictWeakOrder(less) && low + 2 < high < t.Length && low < middle < high
    requires !less(t[middle], t[low]) && !less(t[high], t[middle])
    modifies t
    ensures r.Done? && low < mid < high && Permuted(old(t[..]), t[..], low, high) && Partitioned(t[..], less, low, mid, high)
  {
    var pivot := t[middle];
    Swap(t, middle, high - 1, low, high);
    r, mid := Exchange(t, less, low, high, pivot, old(t[..]));
    AroundPartitioned(t[..], less, low, mid, high);
    SwapAgain(t, high - 1, mid, low, high, old(t[..]));
  }

  lemma LogStep(depth: nat, n: nat, m: nat)
    requires n > 3 && 2 * m <= n - 1 && Pow2(depth) <= if m == 0 then 1 else m
    ensures Pow2(depth + 1) <= n
  {
  }

  /** Brings the ends and the middle in order, which sorts up to three elements; splits more around their median. */
  method Divide<T(!new)>(t: array<T>, less: (T, T) -> bool, low: nat, high: nat) returns (r: Outcome, sorted: bool, mid: nat)
    requires StrictWeakOrder(less) && low < high < t.Length
    modifies t
    ensures r.Done? && Permuted(old(t[..]), t[..], low, high) && low <= mid <= high
    ensures sorted ==> Sorted(t[..], less, low, high)
    ensures !sorted ==> high - low > 2 && Partitioned(t[..], less, low, mid, high)
  {
    OrderEnds(t, less, low, high);
    if high - low == 1 {
      return Done, true, low;
    }
    var middle := (low + high) / 2;
    ghost var s := t[..];
    OrderMiddle(t, less, low, middle, high);
    PermutedTransitive(old(t[..]), s, t[..], low, high);
    if high - low == 2 {
      AtMostTransitive(less, t[low], t[middle], t[high]);
      return Done, true, low;
    }
    s := t[..];
    r, mid := Partition(t, less, low, middle, high);
    PermutedTransitive(old(t[..]), s, t[..], low, high);
    sorted := false;
  }

  /** Where the loop has got to: t is `before` permuted, and sorted but for t[low..high]. */
  ghost predicate Halfway<T>(before: seq<T>, s: seq<T>, less: (T, T) -> bool, from: nat, to: int, low: nat, high: int) {
    from <= low <= high + 1 && high <= to && Permuted(before, s, from, to) && SortedBut(s, less, from, to, low, high)
  }

  lemma HalfwayDivided<T(!new)>(before: seq<T>, s: seq<T>, s': seq<T>, less: (T, T) -> bool, from: nat, to: int, low: nat, high: int)
    requires StrictWeakOrder(less) && Halfway(before, s, less, from, to, low, high) && Permuted(s, s', low, high)
    ensures Halfway(before, s', less, from, to, low, high)
    ensures Sorted(s', less, low, high) ==> Sorted(s', less, from, to)
  {
    PermutedWider(s, s', low, high, from, to);
    PermutedTransitive(before, s, s', from, to);
    SortedButKept(s, s', less, from, to, low, high);
  }

  lemma HalfwayLower<T(!new)>(before: seq<T>, s: seq<T>, s': seq<T>, less: (T, T) -> bool, from: nat, to: int, low: nat, mid: nat, high: int)
    requires StrictWeakOrder(less) && Halfway(before, s, less, from, to, low, high) && Partitioned(s, less, low, mid, high)
    requires Permuted(s, s', low, mid - 1) && Sorted(s', less, low, mid - 1)
    ensures Halfway(before, s', less, from, to, mid + 1, high)
  {
    PartitionSplits(s, less, from, to, low, mid, high);
    LowerSorted(s, s', less, from, to, low, mid, high);
    PermutedWider(s, s', low, mid - 1, from, to);
    PermutedTransitive(before, s, s', from, to);
  }

  lemma HalfwayUpper<T(!new)>(before: seq<T>, s: seq<T>, s': seq<T>, less: (T, T) -> bool, from: nat, to: int, low: nat, mid: nat, high: int)
    requires StrictWeakOrder(less) && Halfway(before, s, less, from, to, low, high) && Partitioned(s, less, low, mid, high)
    requires Permuted(s, s', mid + 1, high) && Sorted(s', less, mid + 1, high)
    ensures Halfway(before, s', less, from, to, low, mid - 1)
  {
    PartitionSplits(s, less, from, to, low, mid, high);
    UpperSorted(s, s', less, from, to, low, mid, high);
    PermutedWider(s, s', mid + 1, high, from, to);
    PermutedTransitive(before, s, s', from, to);
  }

  /** Sorts t[low..high] and nothing else. Calls nest no deeper than the logarithm of the length. */
  method SortRange<T(!new)>(t: array<T>, less: (T, T) -> bool, low0: nat, high0: int) returns (r: Outcome, ghost depth: nat)
    requires StrictWeakOrder(less) && low0 <= high0 + 1 <= t.Length
    modifies t
    ensures r.Done? && Permuted(old(t[..]), t[..], low0, high0) && Sorted(t[..], less, low0, high0)
    ensures Pow2(depth) <= if low0 > high0 then 1 else high0 - low0 + 1
    decreases high0 - low0
  {
    var low, high := low0, high0;
    depth := 0;
    ghost var before := t[..];
    PermutedSame(before, low0, high0);
    while low < high
      invariant low0 <= low <= high + 1 && high <= high0 && Halfway(before, t[..], less, low0, high0, low, high)
      invariant Pow2(depth) <= if low0 > high0 then 1 else high0 - low0 + 1
      decreases high - low
    {
      ghost var s := t[..];
      var sorted, mid;
      r, sorted, mid := Divide(t, less, low, high);
      HalfwayDivided(before, s, t[..], less, low0, high0, low, high);
      if !r.Done? || sorted {
        return r, depth;
      }
      s := t[..];
      ghost var nested := 0;
      if mid - low < high - mid {
        r, nested := SortRange(t, less, low, mid - 1);
        HalfwayLower(before, s, t[..], less, low0, high0, low, mid, high);
        LogStep(nested, high - low + 1, mid - low);
        low := mid + 1;
      } else {
        r, nested := SortRange(t, less, mid + 1, high);
        HalfwayUpper(before, s, t[..], less, low0, high0, low, mid, high);
        LogStep(nested, high - low + 1, high - mid);
        high := mid - 1;
      }
      if !r.Done? {
        return;
      }
      if depth < nested + 1 {
        depth := nested + 1;
      }
    }
    return Done, depth;
  }

  /** Sorts elements low..high of a table: its elements are those it had, and all others are where they were. */
  method SortElements<T(!new)>(t: array<T>, less: (T, T) -> bool, low: nat, high: int) returns (r: Outcome)
    requires StrictWeakOrder(less) && low <= high + 1 <= t.Length
    modifies t
    ensures r.Done? && multiset(t[..]) == multiset(old(t[..])) && Sorted(t[..], less, low, high)
    ensures forall i :: 0 <= i < t.Length && !(low <= i <= high) ==> t[i] == old(t[i])
  {
    ghost var before, depth := t[..], 0;
    r, depth := SortRange(t, less, low, high);
    PermutedWhole(before, t[..], low, high);
    forall i | 0 <= i < t.Length && !(low <= i <= high) ensures t[i] == before[i] { assert t[..][i] == before[i]; }
  }
}
