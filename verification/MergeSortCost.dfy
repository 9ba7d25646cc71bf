/** How many key comparisons the merge sort makes: the exact worst case, and inputs that reach it. */
module MergeSortCost {
  import opened MergeSortSpec
  import opened Powers

  /** Comparisons made while both parts still have elements. */
  function MergeCost(xs: seq<Elem>, ys: seq<Elem>): nat
    decreases |xs| + |ys|
  {
    if xs == [] || ys == [] then 0
    else if xs[0].key < ys[0].key then 1 + MergeCost(xs[1..], ys)
    else 1 + MergeCost(xs, ys[1..])
  }

  function SortCost(s: seq<Elem>): nat
    decreases |s|
  {
    if |s| <= 1 then 0
    else
      var left, right := s[..Half(|s|)], s[Half(|s|)..];
      SortCost(left) + SortCost(right) + MergeCost(Sorted(left), Sorted(right))
  }

  /** The smallest exponent whose power of two is at least `n`. */
  function CeilLog2(n: nat): (c: nat)
    ensures n <= Pow2(c)
    ensures forall d: nat :: n <= Pow2(d) ==> c <= d
  {
    if n <= 1 then 0
    else
      var c := 1 + CeilLog2(Half(n));
      assert forall d: nat :: n <= Pow2(d) ==> c <= d by {
        forall d: nat | n <= Pow2(d)
          ensures c <= d
        {
          assert d != 0 && Half(n) <= Pow2(d - 1);
        }
      }
      c
  }

  /** n * ceil(log2 n) - 2^ceil(log2 n) + 1 */
  function WorstCase(n: nat): int {
    Closed(n, CeilLog2(n))
  }

  function Closed(n: nat, c: nat): int {
    n * c - Pow2(c) + 1
  }

  /** The recurrence of the worst case: every merge makes one comparison less than it has elements. */
  function Recurrence(n: nat): nat {
    if n <= 1 then 0 else Recurrence(Half(n)) + Recurrence(n / 2) + n - 1
  }

  lemma {:induction false} MergeCostBound(xs: seq<Elem>, ys: seq<Elem>)
    ensures MergeCost(xs, ys) <= if xs == [] || ys == [] then 0 else |xs| + |ys| - 1
    decreases |xs| + |ys|
  {
    if xs == [] || ys == [] {
    } else if xs[0].key < ys[0].key {
      MergeCostBound(xs[1..], ys);
    } else {
      MergeCostBound(xs, ys[1..]);
    }
  }

  lemma {:induction false} SortCostMeetsRecurrence(s: seq<Elem>)
    ensures SortCost(s) <= Recurrence(|s|)
    decreases |s|
  {
    if 1 < |s| {
      var left, right := s[..Half(|s|)], s[Half(|s|)..];
      SortCostMeetsRecurrence(left);
      SortCostMeetsRecurrence(right);
      SortedPermutes(left);
      SortedPermutes(right);
      MergeCostBound(Sorted(left), Sorted(right));
      assert |left| == Half(|s|) && |right| == |s| / 2;
      assert SortCost(s) == SortCost(left) + SortCost(right) + MergeCost(Sorted(left), Sorted(right));
    }
  }

  /** Both halves fit the next lower exponent, which makes the closed form inductive. */
  lemma {:induction false} ClosedForm(n: nat, c: nat)
    requires 1 <= n <= Pow2(c) <= 2 * n
    ensures Recurrence(n) == Closed(n, c)
  {
    if n == 1 {
      ClosedOfOne(c);
    } else {
      assert Recurrence(n) == Recurrence(Half(n)) + Recurrence(n / 2) + n - 1;
      hide *;
      HalvesFit(n, c);
      ClosedForm(Half(n), c - 1);
      ClosedForm(n / 2, c - 1);
      ClosedAdds(Half(n), n / 2, c);
    }
  }

  lemma ClosedOfOne(c: nat)
    requires Pow2(c) <= 2
    ensures Closed(1, c) == 0
  {
    Pow2Exceeds(c);
    assert c == 0 || c == 1;
  }

  lemma HalvesFit(n: nat, c: nat)
    requires 2 <= n <= Pow2(c) <= 2 * n
    ensures 1 <= c && 1 <= n / 2 <= Half(n) <= Pow2(c - 1) <= 2 * (n / 2) && Half(n) + n / 2 == n
  {
    var p := Pow2(c - 1);
    assert Pow2(c) == 2 * p;
    assert c != 1 ==> p == 2 * Pow2(c - 2);
    assert c == 1 ==> p == 1;
    hide *;
    assert p <= n <= 2 * p;
    HalveBetween(n, p);
  }

  lemma HalveBetween(n: nat, p: nat)
    requires 2 <= n && p <= n <= 2 * p && (p % 2 == 0 || p == 1)
    ensures 1 <= n / 2 <= Half(n) <= p <= 2 * (n / 2) && Half(n) + n / 2 == n
  {
  }

  lemma {:induction false} Pow2Exceeds(c: nat)
    ensures c < Pow2(c)
  {
    if c != 0 {
      Pow2Exceeds(c - 1);
    }
  }

  lemma ClosedAdds(h: nat, l: nat, c: nat)
    requires 1 <= c
    ensures Closed(h, c - 1) + Closed(l, c - 1) + h + l - 1 == Closed(h + l, c)
  {
    assert h * (c - 1) == h * c - h && l * (c - 1) == l * c - l && (h + l) * c == h * c + l * c;
  }

  lemma RecurrenceIsWorstCase(n: nat)
    requires 1 <= n
    ensures Recurrence(n) == WorstCase(n)
  {
    var c := CeilLog2(n);
    assert Pow2(c) <= 2 * n by {
      if c != 0 {
        assert !(n <= Pow2(c - 1));
      }
    }
    ClosedForm(n, c);
  }

  lemma SortCostBound(s: seq<Elem>)
    requires s != []
    ensures SortCost(s) <= WorstCase(|s|)
  {
    SortCostMeetsRecurrence(s);
    RecurrenceIsWorstCase(|s|);
  }

  // ----- the bound is reached -----

  function Evens(v: seq<Elem>): seq<Elem> {
    seq(Half(|v|), k requires 0 <= k < Half(|v|) => v[2 * k])
  }

  function Odds(v: seq<Elem>): seq<Elem> {
    seq(|v| / 2, k requires 0 <= k < |v| / 2 => v[2 * k + 1])
  }

  /** Undo the merge sort of `v` so that every merge has to interleave its parts fully. */
  function Scrambled(v: seq<Elem>): (r: seq<Elem>)
    ensures |r| == |v|
    decreases |v|
  {
    if |v| <= 1 then v else Scrambled(Evens(v)) + Scrambled(Odds(v))
  }

  ghost predicate StrictlyAscending(v: seq<Elem>) {
    forall i, j :: 0 <= i < j < |v| ==> v[i].key < v[j].key
  }

  lemma FirstTwo(v: seq<Elem>)
    requires 2 <= |v|
    ensures Evens(v) == [v[0]] + Evens(v[2..]) && Odds(v) == [v[1]] + Odds(v[2..])
    ensures v == [v[0], v[1]] + v[2..]
  {
  }

  lemma {:induction false} InterleavingIsDearest(v: seq<Elem>)
    requires StrictlyAscending(v) && v != []
    ensures Merged(Evens(v), Odds(v)) == v
    ensures MergeCost(Evens(v), Odds(v)) == |v| - 1
  {
    if 2 < |v| {
      var xs, ys := Evens(v[2..]), Odds(v[2..]);
      InterleavingIsDearest(v[2..]);
      FirstTwo(v);
      assert xs != [] && xs[0] == v[2];
      hide Evens, Odds;
      assert ([v[0]] + xs)[1..] == xs && ([v[1]] + ys)[1..] == ys;
      assert Merged(xs, [v[1]] + ys) == [v[1]] + Merged(xs, ys);
      assert v == [v[0]] + ([v[1]] + v[2..]);
    } else if |v| == 2 {
      assert Evens(v) == [v[0]] && Odds(v) == [v[1]];
      assert v == [v[0]] + [v[1]];
    }
  }

  /** Every strictly ascending sequence can be scrambled so that sorting it costs the most. */
  lemma {:induction false} WorstCaseIsReached(v: seq<Elem>)
    requires StrictlyAscending(v) && v != []
    ensures Sorted(Scrambled(v)) == v
    ensures SortCost(Scrambled(v)) == WorstCase(|v|)
  {
    ScrambledCost(v);
    RecurrenceIsWorstCase(|v|);
  }

  /** So the bound is exact at every length for which there are enough different keys. */
  lemma WorstCaseOfLength(n: nat)
    requires 1 <= n <= 0x1_0000_0000
    ensures exists s :: |s| == n && SortCost(s) == WorstCase(n)
  {
    var v := seq(n, i requires 0 <= i < n => Elem(i - 0x8000_0000, i));
    WorstCaseIsReached(v);
    SortedPermutes(Scrambled(v));
  }

  lemma {:induction false} ScrambledCost(v: seq<Elem>)
    requires StrictlyAscending(v)
    ensures Sorted(Scrambled(v)) == v
    ensures SortCost(Scrambled(v)) == Recurrence(|v|)
    decreases |v|
  {
    if 1 < |v| {
      ScrambledCost(Evens(v));
      ScrambledCost(Odds(v));
      InterleavingIsDearest(v);
      var s := Scrambled(v);
      assert s[..Half(|s|)] == Scrambled(Evens(v)) && s[Half(|s|)..] == Scrambled(Odds(v));
    }
  }
}
