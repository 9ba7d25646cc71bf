/** The in-place merge sort and the `my_sort` system call built on it. */
module MergeSort {
  import opened Errno
  import opened MergeSortSpec
  import opened MergeSortCost

  // The length of the scratch array of `merge`.
  const SCRATCH: nat := 256
  // The smallest size that `my_sort` accepts.
  const SMALLEST: nat := 256

  /**
   * Merges the ascending ranges a[i1..j1] and a[i2..j2], bounds inclusive, through a scratch array of
   * `cap` elements. C gives a write past that array no meaning, so there the model stops, not `ok`.
   * `used` is how far the scratch array was written, `cost` the number of key comparisons.
   */
  method Merge(a: array<Elem>, i1: nat, j1: nat, i2: nat, j2: nat, cap: nat)
    returns (ok: bool, ghost used: nat, ghost cost: nat)
    requires i1 <= j1 < i2 <= j2 < a.Length && i2 == j1 + 1
    modifies a
    ensures ok <==> j2 - i1 < cap
    ensures used == Min(cap, j2 - i1 + 1)
    ensures ok ==> a[i1..j2 + 1] == Merged(old(a[i1..i2]), old(a[i2..j2 + 1]))
    ensures ok ==> cost == MergeCost(old(a[i1..i2]), old(a[i2..j2 + 1]))
    ensures !ok ==> a[..] == old(a[..])
    ensures a[..i1] == old(a[..i1]) && a[j2 + 1..] == old(a[j2 + 1..])
  {
    hide Merged, MergeCost;
    var temp := new Elem[cap](_ => Elem(0, 0));
    var k;
    k, cost := FillScratch(a, temp, i1, j1, i2, j2);
    used := k;
    ok := k == j2 - i1 + 1;
    if ok {
      CopyBack(a, temp, i1, j2);
    }
  }

  function Min(x: nat, y: nat): nat {
    if x < y then x else y
  }

  function Max(x: nat, y: nat): nat {
    if x < y then y else x
  }

  /** Transfers the scratch array's first elements to a[i1..j2]. */
  method CopyBack(a: array<Elem>, temp: array<Elem>, i1: nat, j2: nat)
    requires i1 <= j2 < a.Length && j2 - i1 < temp.Length && a != temp
    modifies a
    ensures a[i1..j2 + 1] == temp[..j2 - i1 + 1]
    ensures a[..i1] == old(a[..i1]) && a[j2 + 1..] == old(a[j2 + 1..])
  {
    var i, j := i1, 0;
    while i <= j2
      invariant i1 <= i <= j2 + 1 && j == i - i1
      invariant forall m :: i1 <= m < i ==> a[m] == temp[m - i1]
      invariant forall m :: 0 <= m < i1 || i <= m < a.Length ==> a[m] == old(a[m])
    {
      a[i], i, j := temp[j], i + 1, j + 1;
    }
  }

  /** Picks from the two ranges while both have elements, then copies what is left of either. */
  method FillScratch(a: array<Elem>, temp: array<Elem>, i1: nat, j1: nat, i2: nat, j2: nat)
    returns (used: nat, ghost cost: nat)
    requires i1 <= j1 < i2 <= j2 < a.Length && i2 == j1 + 1 && a != temp
    modifies temp
    ensures used == Min(temp.Length, j2 - i1 + 1)
    ensures used == j2 - i1 + 1 ==>
              && temp[..used] == Merged(a[i1..i2], a[i2..j2 + 1])
              && cost == MergeCost(a[i1..i2], a[i2..j2 + 1])
    ensures forall m :: used <= m < temp.Length ==> temp[m] == old(temp[m])
  {
    hide Merged, MergeCost;
    var i, j, k;
    i, j, k, cost := PickSmaller(a, temp, i1, j1, i2, j2);
    if i == i2 || j == j2 + 1 {
      MergeRest(temp[..k], a[..], i, i2, j, j2 + 1);
    }
    k := CopyRest(a, temp, i, i2, k);
    used := CopyRest(a, temp, j, j2 + 1, k);
  }

  /** The comparing loop: where it stops, and that merging what is left completes the merge. */
  method PickSmaller(a: array<Elem>, temp: array<Elem>, i1: nat, j1: nat, i2: nat, j2: nat)
    returns (i: nat, j: nat, k: nat, ghost cost: nat)
    requires i1 <= j1 < i2 <= j2 < a.Length && i2 == j1 + 1 && a != temp
    modifies temp
    ensures i1 <= i <= i2 <= j <= j2 + 1 && k == i - i1 + j - i2 <= temp.Length
    ensures i == i2 || j == j2 + 1 || k == temp.Length
    ensures forall m :: k <= m < temp.Length ==> temp[m] == old(temp[m])
    ensures temp[..k] + Merged(a[i..i2], a[j..j2 + 1]) == Merged(a[i1..i2], a[i2..j2 + 1])
    ensures cost + MergeCost(a[i..i2], a[j..j2 + 1]) == MergeCost(a[i1..i2], a[i2..j2 + 1])
  {
    hide *;
    ghost var a0, end := a[..], j2 + 1;
    ghost var all := Merged(a0[i1..i2], a0[i2..end]);
    i, j, k := i1, i2, 0;
    cost := 0;
    while i <= j1 && j <= j2 && k < temp.Length
      invariant i1 <= i <= i2 <= j <= end && k == i - i1 + j - i2 <= temp.Length
      invariant forall m :: k <= m < temp.Length ==> temp[m] == old(temp[m])
      invariant temp[..k] + Merged(a0[i..i2], a0[j..end]) == all
      invariant cost + MergeCost(a0[i..i2], a0[j..end]) == MergeCost(a0[i1..i2], a0[i2..end])
    {
      ghost var out := temp[..k];
      MergeStep(out, a0, i, i2, j, end);
      if a[i].key < a[j].key {
        temp[k], k, i := a[i], k + 1, i + 1;
      } else {
        temp[k], k, j := a[j], k + 1, j + 1;
      }
      assert temp[..k] == out + [temp[k - 1]];
      cost := cost + 1;
    }
  }

  /** Appends a[i..end], as far as it fits, to the first k elements of the scratch array. */
  method CopyRest(a: array<Elem>, temp: array<Elem>, i: nat, end: nat, k: nat) returns (k': nat)
    requires i <= end <= a.Length && k <= temp.Length && a != temp
    modifies temp
    ensures k' == Min(temp.Length, k + end - i)
    ensures temp[..k'] == old(temp[..k]) + a[i..i + (k' - k)]
    ensures forall m :: k' <= m < temp.Length ==> temp[m] == old(temp[m])
  {
    var from := i;
    k' := k;
    while from < end && k' < temp.Length
      invariant i <= from <= end && k' == k + from - i <= temp.Length
      invariant temp[..k] == old(temp[..k])
      invariant forall m :: k <= m < k' ==> temp[m] == a[m - k + i]
      invariant forall m :: k' <= m < temp.Length ==> temp[m] == old(temp[m])
    {
      temp[k'], k', from := a[from], k' + 1, from + 1;
    }
  }

  /** One comparison, seen on the values. */
  lemma MergeStep(out: seq<Elem>, a: seq<Elem>, i: nat, i2: nat, j: nat, end: nat)
    requires i < i2 <= j < end <= |a|
    ensures a[i].key < a[j].key ==>
              && out + Merged(a[i..i2], a[j..end]) == out + [a[i]] + Merged(a[i + 1..i2], a[j..end])
              && MergeCost(a[i..i2], a[j..end]) == 1 + MergeCost(a[i + 1..i2], a[j..end])
    ensures a[i].key >= a[j].key ==>
              && out + Merged(a[i..i2], a[j..end]) == out + [a[j]] + Merged(a[i..i2], a[j + 1..end])
              && MergeCost(a[i..i2], a[j..end]) == 1 + MergeCost(a[i..i2], a[j + 1..end])
  {
    assert a[i..i2][1..] == a[i + 1..i2] && a[j..end][1..] == a[j + 1..end];
  }

  /**
   * Sorts a[i..j], bounds inclusive: `ok` unless some merge would write past its scratch array.
   * `widest` is the furthest that any merge wrote it.
   */
  method MergeSort(a: array<Elem>, i: nat, j: nat, cap: nat) returns (ok: bool, ghost widest: nat, ghost cost: nat)
    requires i <= j < a.Length
    modifies a
    ensures ok <==> i == j || j - i < cap
    ensures widest == if i == j then 0 else Min(cap, j - i + 1)
    ensures ok ==> a[i..j + 1] == Sorted(old(a[i..j + 1]))
    ensures ok ==> cost == old(SortCost(a[i..j + 1]))
    ensures a[..i] == old(a[..i]) && a[j + 1..] == old(a[j + 1..])
    decreases j - i
  {
    hide Merged, MergeCost, Sorted, SortCost;
    ok, widest, cost := true, 0, 0;
    ghost var a0 := a[..];
    if i < j {
      var mid := (i + j) / 2;
      ghost var left, right, merging, used;
      ok, widest, left := MergeSort(a, i, mid, cap);
      ghost var a1 := a[..];
      OutsideAll(a0, a1, i, mid + 1, i, j + 1);
      if !ok {
        return;
      }
      ok, used, right := MergeSort(a, mid + 1, j, cap);
      widest := Max(widest, used);
      ghost var a2 := a[..];
      OutsideAll(a1, a2, mid + 1, j + 1, i, j + 1);
      if !ok {
        return;
      }
      HalvesSorted(a0, a1, a2, i, mid, j);
      ok, used, merging := Merge(a, i, mid, mid + 1, j, cap);
      widest, cost := Max(widest, used), left + right + merging;
    } else {
      SortOne(a0[i..j + 1]);
    }
  }

  /** With each half sorted in turn, what is left of sorting the range, and of its cost, is one merge. */
  lemma HalvesSorted(a0: seq<Elem>, a1: seq<Elem>, a2: seq<Elem>, i: nat, mid: nat, j: nat)
    requires i < j < |a0| == |a1| == |a2| && mid == (i + j) / 2
    requires a1[..i] == a0[..i] && a1[mid + 1..] == a0[mid + 1..]
    requires a2[..mid + 1] == a1[..mid + 1] && a2[j + 1..] == a1[j + 1..]
    requires a1[i..mid + 1] == Sorted(a0[i..mid + 1]) && a2[mid + 1..j + 1] == Sorted(a1[mid + 1..j + 1])
    ensures Sorted(a0[i..j + 1]) == Merged(a2[i..mid + 1], a2[mid + 1..j + 1])
    ensures SortCost(a0[i..j + 1]) == SortCost(a0[i..mid + 1]) + SortCost(a1[mid + 1..j + 1])
                                      + MergeCost(a2[i..mid + 1], a2[mid + 1..j + 1])
  {
    hide *;
    SplitRange(a0, i, mid, j);
    Outside(a0, a1, i, mid + 1, mid + 1, j + 1);
    Outside(a1, a2, mid + 1, j + 1, i, mid + 1);
  }

  /** What changes only inside [lo, hi) changes only inside any wider range. */
  lemma OutsideAll<T>(a: seq<T>, b: seq<T>, lo: nat, hi: nat, from: nat, to: nat)
    requires from <= lo <= hi <= to <= |a| == |b| && b[..lo] == a[..lo] && b[hi..] == a[hi..]
    ensures b[..from] == a[..from] && b[to..] == a[to..]
  {
    Outside(a, b, lo, hi, 0, from);
    Outside(a, b, lo, hi, to, |a|);
  }

  /** Once one range is used up no comparison is left. */
  lemma MergeRest(out: seq<Elem>, a: seq<Elem>, i: nat, i2: nat, j: nat, end: nat)
    requires i <= i2 <= j <= end <= |a| && (i == i2 || j == end)
    ensures out + Merged(a[i..i2], a[j..end]) == out + a[i..i2] + a[j..end]
    ensures MergeCost(a[i..i2], a[j..end]) == 0
  {
  }

  lemma SortOne(s: seq<Elem>)
    requires |s| == 1
    ensures Sorted(s) == s && SortCost(s) == 0
  {
  }

  /** Where the middle index falls, and what sorting and its cost are in terms of the two parts. */
  lemma SplitRange(a: seq<Elem>, i: nat, mid: nat, j: nat)
    requires i < j < |a| && mid == (i + j) / 2
    ensures var s, left, right := a[i..j + 1], a[i..mid + 1], a[mid + 1..j + 1];
            && Sorted(s) == Merged(Sorted(left), Sorted(right))
            && SortCost(s) == SortCost(left) + SortCost(right) + MergeCost(Sorted(left), Sorted(right))
  {
    var s := a[i..j + 1];
    assert s[..Half(|s|)] == a[i..mid + 1] && s[Half(|s|)..] == a[mid + 1..j + 1];
  }

  /** What changes only inside [lo, hi) leaves every range beside it as it was. */
  lemma Outside<T>(a: seq<T>, b: seq<T>, lo: nat, hi: nat, from: nat, to: nat)
    requires lo <= hi <= |a| == |b| && b[..lo] == a[..lo] && b[hi..] == a[hi..]
    requires from <= to <= |a| && (to <= lo || hi <= from)
    ensures b[from..to] == a[from..to]
  {
    forall k | from <= k < to
      ensures b[k] == a[k]
    {
      assert k < lo ==> b[k] == b[..lo][k] && a[k] == a[..lo][k];
      assert hi <= k ==> b[k] == b[hi..][k - hi] && a[k] == a[hi..][k - hi];
    }
  }

  method CopyBackwards(to: array<Elem>, from: array<Elem>)
    requires to != from && to.Length == from.Length
    modifies to
    ensures to[..] == Reversed(from[..])
  {
    var i := 0;
    while i < from.Length
      invariant 0 <= i <= from.Length
      invariant forall k :: 0 <= k < i ==> to[k] == from[from.Length - 1 - k]
    {
      to[i] := from[from.Length - 1 - i];
      i := i + 1;
    }
  }

  /** What the call does with its two buffers, for scratch arrays of any size. */
  method SortAndReverse(temp: array<Elem>, kernel: array<Elem>, cap: nat) returns (ok: bool)
    requires temp != kernel && 0 < temp.Length == kernel.Length
    modifies temp, kernel
    ensures ok <==> temp.Length == 1 || temp.Length <= cap
    ensures ok ==> IsStableDescendingSort(old(temp[..]), kernel[..]) && multiset(kernel[..]) == multiset(old(temp[..]))
  {
    hide *;
    ghost var src := temp[..];
    assert src[0..|src|] == src;
    ghost var widest, cost;
    ok, widest, cost := MergeSort(temp, 0, temp.Length - 1, cap);
    if ok {
      assert temp[..] == temp[0..|src|] == Sorted(src);
      CopyBackwards(kernel, temp);
      ReversedSortIsStable(src);
    }
  }

  datatype Outcome =
    | Failed(errno: int)
    | Returned(buffer: seq<Elem>)
    // A merge writes past the end of its scratch array; C gives the call no meaning from there on.
    | Overrun

  /**
   * The system call. The flags say whether the two kernel allocations and the two copies
   * between user and kernel memory succeed. Sizes between the smallest accepted one and the scratch
   * array's are sorted, so just one is; any larger one makes a merge write past the array.
   */
  method MySort(src: seq<Elem>, alloc1: bool, alloc2: bool, copyIn: bool, copyOut: bool)
    returns (r: Outcome)
    ensures |src| < 256 ==> r == Failed(EINVAL)
    ensures 256 <= |src| && !(alloc1 && alloc2) ==> r == Failed(ENOSPC)
    ensures 256 <= |src| && alloc1 && alloc2 && !copyIn ==> r == Failed(EFAULT)
    ensures 256 <= |src| && alloc1 && alloc2 && copyIn ==>
              && (r == Overrun <==> 256 < |src|)
              && (r == Failed(EFAULT) <==> |src| == 256 && !copyOut)
              && (r.Returned? <==> |src| == 256 && copyOut)
    ensures r.Returned? ==> IsStableDescendingSort(src, r.buffer) && multiset(r.buffer) == multiset(src)
  {
    if |src| < SMALLEST {
      return Failed(EINVAL);
    }
    if !alloc1 {
      return Failed(ENOSPC);
    }
    if !alloc2 {
      return Failed(ENOSPC);
    }
    var kernel := new Elem[|src|](_ => Elem(0, 0));
    if !copyIn {
      return Failed(EFAULT);
    }
    var temp := new Elem[|src|](k requires 0 <= k < |src| => src[k]);
    assert temp[..] == src;
    var ok := SortAndReverse(temp, kernel, SCRATCH);
    if !ok {
      return Overrun;
    }
    if !copyOut {
      return Failed(EFAULT);
    }
    r := Returned(kernel[..]);
  }
}
