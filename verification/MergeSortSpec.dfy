/** What the merge sort of `my_sort` computes, on elements that remember where they came from. */
module MergeSortSpec {
  type Int32 = x: int | -0x8000_0000 <= x < 0x8000_0000

  // The source sorts bare keys; the tag makes the treatment of equal keys visible.
  datatype Elem = Elem(key: Int32, tag: nat)

  /** Merging takes the right-hand element on a tie. */
  function Merged(xs: seq<Elem>, ys: seq<Elem>): (r: seq<Elem>)
    decreases |xs| + |ys|
  {
    if xs == [] then ys
    else if ys == [] then xs
    else if xs[0].key < ys[0].key then [xs[0]] + Merged(xs[1..], ys)
    else [ys[0]] + Merged(xs, ys[1..])
  }

  function Sorted(s: seq<Elem>): seq<Elem>
    decreases |s|
  {
    if |s| <= 1 then s else Merged(Sorted(s[..Half(|s|)]), Sorted(s[Half(|s|)..]))
  }

  /** The length of the left part: the source's middle index is inclusive. */
  function Half(n: nat): (h: nat)
    ensures 2 <= n ==> 1 <= h < n
  {
    (n + 1) / 2
  }

  function Reversed<T>(s: seq<T>): (r: seq<T>)
    ensures |r| == |s|
    ensures forall k :: 0 <= k < |s| ==> r[k] == s[|s| - 1 - k]
  {
    if s == [] then [] else Reversed(s[1..]) + [s[0]]
  }

  /** The elements with key `k`, in the order in which they occur. */
  function Only(k: Int32, s: seq<Elem>): seq<Elem> {
    if s == [] then [] else (if s[0].key == k then [s[0]] else []) + Only(k, s[1..])
  }

  ghost predicate Ascending(s: seq<Elem>) {
    forall i, j :: 0 <= i < j < |s| ==> s[i].key <= s[j].key
  }

  ghost predicate Descending(s: seq<Elem>) {
    forall i, j :: 0 <= i < j < |s| ==> s[i].key >= s[j].key
  }

  /** `r` is a stable descending sort of `s`, said without naming any algorithm. */
  ghost predicate IsStableDescendingSort(s: seq<Elem>, r: seq<Elem>) {
    Descending(r) && forall k :: Only(k, r) == Only(k, s)
  }

  // ----- permutation and order -----

  lemma {:induction false} MergedPermutes(xs: seq<Elem>, ys: seq<Elem>)
    ensures multiset(Merged(xs, ys)) == multiset(xs) + multiset(ys)
    decreases |xs| + |ys|
  {
    if xs == [] || ys == [] {
    } else if xs[0].key < ys[0].key {
      MergedPermutes(xs[1..], ys);
      assert xs == [xs[0]] + xs[1..];
    } else {
      MergedPermutes(xs, ys[1..]);
      assert ys == [ys[0]] + ys[1..];
    }
  }

  lemma {:induction false} SortedPermutes(s: seq<Elem>)
    ensures multiset(Sorted(s)) == multiset(s)
    ensures |Sorted(s)| == |s|
    decreases |s|
  {
    if 1 < |s| {
      var h := Half(|s|);
      SortedPermutes(s[..h]);
      SortedPermutes(s[h..]);
      MergedPermutes(Sorted(s[..h]), Sorted(s[h..]));
      SplitPermutes(s, h);
    }
    SameLength(Sorted(s), s);
  }

  lemma SplitPermutes<T>(s: seq<T>, h: nat)
    requires h <= |s|
    ensures multiset(s) == multiset(s[..h]) + multiset(s[h..])
  {
    assert s == s[..h] + s[h..];
  }

  lemma SameLength<T>(s: seq<T>, t: seq<T>)
    requires multiset(s) == multiset(t)
    ensures |s| == |t|
  {
    assert |s| == |multiset(s)| && |t| == |multiset(t)|;
  }

  /** Merging after taking the smaller head `e` cannot bring up anything below it. */
  lemma AscendingCons(e: Elem, xs: seq<Elem>, ys: seq<Elem>)
    requires Ascending(Merged(xs, ys))
    requires forall x :: x in xs || x in ys ==> e.key <= x.key
    ensures Ascending([e] + Merged(xs, ys))
  {
    MergedPermutes(xs, ys);
    forall x | x in Merged(xs, ys)
      ensures e.key <= x.key
    {
      assert x in multiset(Merged(xs, ys));
    }
  }

  lemma {:induction false} MergedAscends(xs: seq<Elem>, ys: seq<Elem>)
    requires Ascending(xs) && Ascending(ys)
    ensures Ascending(Merged(xs, ys))
    decreases |xs| + |ys|
  {
    if xs == [] || ys == [] {
    } else if xs[0].key < ys[0].key {
      MergedAscends(xs[1..], ys);
      AscendingCons(xs[0], xs[1..], ys);
    } else {
      MergedAscends(xs, ys[1..]);
      AscendingCons(ys[0], xs, ys[1..]);
    }
  }

  lemma {:induction false} SortedAscends(s: seq<Elem>)
    ensures Ascending(Sorted(s))
    decreases |s|
  {
    if 1 < |s| {
      SortedAscends(s[..Half(|s|)]);
      SortedAscends(s[Half(|s|)..]);
      MergedAscends(Sorted(s[..Half(|s|)]), Sorted(s[Half(|s|)..]));
    }
  }

  // ----- equal keys -----

  lemma {:induction false} OnlyConcat(k: Int32, s: seq<Elem>, t: seq<Elem>)
    ensures Only(k, s + t) == Only(k, s) + Only(k, t)
  {
    if s == [] {
      assert s + t == t;
    } else {
      hide Only;
      OnlyCons(k, s[0], s[1..]);
      OnlyCons(k, s[0], s[1..] + t);
      OnlyConcat(k, s[1..], t);
      assert s == [s[0]] + s[1..] && s + t == [s[0]] + (s[1..] + t);
    }
  }

  lemma OnlyCons(k: Int32, e: Elem, s: seq<Elem>)
    ensures Only(k, [e] + s) == (if e.key == k then [e] else []) + Only(k, s)
  {
    assert ([e] + s)[1..] == s;
  }

  lemma {:induction false} OnlyMember(k: Int32, s: seq<Elem>, e: Elem)
    ensures e in Only(k, s) <==> e in s && e.key == k
  {
    if s != [] {
      OnlyMember(k, s[1..], e);
      assert s == [s[0]] + s[1..];
    }
  }

  lemma OnlyOfLarger(k: Int32, s: seq<Elem>)
    requires forall e :: e in s ==> k < e.key
    ensures Only(k, s) == []
  {
    if Only(k, s) != [] {
      OnlyMember(k, s, Only(k, s)[0]);
    }
  }

  lemma {:induction false} ReversedConcat<T>(s: seq<T>, t: seq<T>)
    ensures Reversed(s + t) == Reversed(t) + Reversed(s)
  {
    if s == [] {
      assert s + t == t;
    } else {
      assert (s + t)[1..] == s[1..] + t;
      ReversedConcat(s[1..], t);
    }
  }

  lemma {:induction false} OnlyReversed(k: Int32, s: seq<Elem>)
    ensures Only(k, Reversed(s)) == Reversed(Only(k, s))
  {
    if s != [] {
      OnlyReversed(k, s[1..]);
      OnlyConcat(k, Reversed(s[1..]), [s[0]]);
      ReversedConcat(if s[0].key == k then [s[0]] else [], Only(k, s[1..]));
    }
  }

  /** On a tie merging prefers the right: all of its equals come out before the left ones. */
  lemma {:induction false} MergedSwapsTies(k: Int32, xs: seq<Elem>, ys: seq<Elem>)
    requires Ascending(xs) && Ascending(ys)
    ensures Only(k, Merged(xs, ys)) == Only(k, ys) + Only(k, xs)
    decreases |xs| + |ys|
  {
    if xs == [] || ys == [] {
    } else if xs[0].key < ys[0].key {
      MergedSwapsTies(k, xs[1..], ys);
      if xs[0].key == k {
        OnlyOfLarger(k, ys);
      }
    } else {
      MergedSwapsTies(k, xs, ys[1..]);
    }
  }

  lemma {:induction false} SortedReversesTies(k: Int32, s: seq<Elem>)
    ensures Only(k, Sorted(s)) == Reversed(Only(k, s))
    decreases |s|
  {
    if 2 <= |s| {
      var left, right := s[..Half(|s|)], s[Half(|s|)..];
      SortedReversesTies(k, left);
      SortedReversesTies(k, right);
      SortedAscends(left);
      SortedAscends(right);
      MergedSwapsTies(k, Sorted(left), Sorted(right));
      ReversedConcat(Only(k, left), Only(k, right));
      OnlyOfParts(k, s, left, right);
    } else if |s| == 1 {
      OnlyOfOne(k, s);
    }
  }

  lemma OnlyOfParts(k: Int32, s: seq<Elem>, left: seq<Elem>, right: seq<Elem>)
    requires |left| <= |s| && left == s[..|left|] && right == s[|left|..]
    ensures Only(k, s) == Only(k, left) + Only(k, right)
  {
    OnlyConcat(k, left, right);
    assert s == left + right;
  }

  lemma OnlyOfOne(k: Int32, s: seq<Elem>)
    requires |s| == 1
    ensures Only(k, s) == Reversed(Only(k, s))
  {
    assert |Only(k, s)| <= 1;
  }

  // ----- the whole call -----

  /** Sorting upwards and then copying backwards is a stable descending sort ... */
  lemma ReversedSortIsStable(s: seq<Elem>)
    ensures IsStableDescendingSort(s, Reversed(Sorted(s)))
    ensures multiset(Reversed(Sorted(s))) == multiset(s)
  {
    SortedAscends(s);
    forall k
      ensures Only(k, Reversed(Sorted(s))) == Only(k, s)
    {
      SortedReversesTies(k, s);
      OnlyReversed(k, Sorted(s));
      assert Reversed(Reversed(Only(k, s))) == Only(k, s);
    }
    SortedPermutes(s);
    ReversedPermutes(Sorted(s));
  }

  lemma {:induction false} ReversedPermutes<T>(s: seq<T>)
    ensures multiset(Reversed(s)) == multiset(s)
  {
    if s != [] {
      ReversedPermutes(s[1..]);
      assert s == [s[0]] + s[1..];
    }
  }

  /** ... and there is only one. */
  lemma {:induction false} StableSortIsUnique(s: seq<Elem>, r1: seq<Elem>, r2: seq<Elem>)
    requires IsStableDescendingSort(s, r1) && IsStableDescendingSort(s, r2)
    ensures r1 == r2
  {
    SameGroupsSameOrder(r1, r2);
  }

  lemma OnlyRest(k: Int32, s: seq<Elem>)
    requires s != []
    ensures Only(k, s[1..]) == if s[0].key == k then Only(k, s)[1..] else Only(k, s)
  {
  }

  lemma {:induction false} SameGroupsSameOrder(r1: seq<Elem>, r2: seq<Elem>)
    requires Descending(r1) && Descending(r2)
    requires forall k :: Only(k, r1) == Only(k, r2)
    ensures r1 == r2
  {
    if r1 == [] {
      if r2 != [] {
        OnlyMember(r2[0].key, r1, r2[0]);
        OnlyMember(r2[0].key, r2, r2[0]);
      }
    } else {
      OnlyMember(r1[0].key, r1, r1[0]);
      OnlyMember(r1[0].key, r2, r1[0]);
      OnlyMember(r2[0].key, r1, r2[0]);
      OnlyMember(r2[0].key, r2, r2[0]);
      assert r1[0].key == r2[0].key;
      assert Only(r1[0].key, r1)[0] == r1[0] && Only(r1[0].key, r2)[0] == r2[0];
      assert r1[0] == r2[0];
      forall k
        ensures Only(k, r1[1..]) == Only(k, r2[1..])
      {
        OnlyRest(k, r1);
        OnlyRest(k, r2);
      }
      SameGroupsSameOrder(r1[1..], r2[1..]);
    }
  }

  /** Seen on the tags: when the input is tagged by position, equal keys keep their order. */
  lemma StableSortKeepsTagOrder(s: seq<Elem>, r: seq<Elem>, i: nat, j: nat)
    requires IsStableDescendingSort(s, r)
    requires forall p, q :: 0 <= p < q < |s| ==> s[p].tag < s[q].tag
    requires i < j < |r|
    ensures r[j].key < r[i].key || r[i].tag < r[j].tag
  {
    if r[j].key == r[i].key {
      var k := r[i].key;
      TagsAscend(k, s);
      var before, after := r[..j], r[j..];
      assert r == before + after;
      OnlyConcat(k, before, after);
      OnlyMember(k, before, before[i]);
      var p :| 0 <= p < |Only(k, before)| && Only(k, before)[p] == before[i];
      assert Only(k, after)[0] == r[j];
      assert Only(k, r)[p] == r[i] && Only(k, r)[|Only(k, before)|] == r[j];
    }
  }

  lemma {:induction false} TagsAscend(k: Int32, s: seq<Elem>)
    requires forall p, q :: 0 <= p < q < |s| ==> s[p].tag < s[q].tag
    ensures forall p, q :: 0 <= p < q < |Only(k, s)| ==> Only(k, s)[p].tag < Only(k, s)[q].tag
  {
    if s != [] {
      TagsAscend(k, s[1..]);
      forall q | 0 <= q < |Only(k, s[1..])|
        ensures s[0].tag < Only(k, s[1..])[q].tag
      {
        OnlyMember(k, s[1..], Only(k, s[1..])[q]);
      }
    }
  }
}
