/** Sorting the seed array, and grouping it into names with their counts. */
module AnimalGroups {
  import opened CStrings
  import opened Options

  datatype Animal = Animal(name: Name, count: nat)

  ghost predicate Sorted(s: seq<Name>) {
    forall i, j :: 0 <= i < j < |s| ==> AtMost(s[i], s[j])
  }

  // ----- the exchange sort -----

  /** Whatever may come first is first: position by position up to i. */
  ghost predicate SortedUpTo(s: seq<Name>, i: nat) {
    forall p, q :: 0 <= p < i && p < q < |s| ==> AtMost(s[p], s[q])
  }

  /** Nothing between i and j comes before the name at i. */
  ghost predicate SmallestSoFar(s: seq<Name>, i: nat, j: nat)
    requires i < |s|
  {
    forall q :: i < q < j && q < |s| ==> AtMost(s[i], s[q])
  }

  lemma Exchanged(s: seq<Name>, i: nat, j: nat)
    requires i < j < |s| && SortedUpTo(s, i) && SmallestSoFar(s, i, j) && StrCmp(s[i], s[j]) > 0
    ensures var t := s[i := s[j]][j := s[i]];
            SortedUpTo(t, i) && SmallestSoFar(t, i, j + 1) && multiset(t) == multiset(s)
  {
    var t := s[i := s[j]][j := s[i]];
    hide AtMost;
    forall q | i < q < j + 1
      ensures AtMost(t[i], t[q])
    {
      TotalOrder(s[j], s[i], t[q]);
    }
    forall p, q | 0 <= p < i && p < q < |t|
      ensures AtMost(t[p], t[q])
    {
      assert AtMost(s[p], s[i]) && AtMost(s[p], s[j]) && AtMost(s[p], s[q]);
    }
  }

  /** One look at a pair, exchanging it when it is in the wrong order. */
  method Exchange(a: array<Name>, i: nat, j: nat)
    requires i < j < a.Length && SortedUpTo(a[..], i) && SmallestSoFar(a[..], i, j)
    modifies a
    ensures SortedUpTo(a[..], i) && SmallestSoFar(a[..], i, j + 1)
    ensures multiset(a[..]) == multiset(old(a[..]))
  {
    ghost var s := a[..];
    if StrCmp(a[i], a[j]) > 0 {
      Exchanged(s, i, j);
      hide *;
      var temp := a[i];
      a[i] := a[j];
      a[j] := temp;
      assert a[..] == s[i := s[j]][j := s[i]];
    }
  }

  method ExchangeSort(a: array<Name>)
    modifies a
    ensures Sorted(a[..]) && multiset(a[..]) == multiset(old(a[..]))
  {
    var i := 0;
    while i < a.Length
      invariant 0 <= i <= a.Length
      invariant SortedUpTo(a[..], i) && multiset(a[..]) == multiset(old(a[..]))
    {
      var j := i + 1;
      while j < a.Length
        invariant i < j <= a.Length
        invariant SortedUpTo(a[..], i) && SmallestSoFar(a[..], i, j)
        invariant multiset(a[..]) == multiset(old(a[..]))
      {
        Exchange(a, i, j);
        j := j + 1;
      }
      i := i + 1;
    }
  }

  // ----- grouping -----

  /** How often the name occurs. */
  function Count(s: seq<Name>, name: Name): nat {
    if s == [] then 0 else (if StrCmp(name, s[0]) == 0 then 1 else 0) + Count(s[1..], name)
  }

  lemma {:induction false} CountIsMultiplicity(s: seq<Name>, name: Name)
    ensures Count(s, name) == multiset(s)[name] <= |s|
  {
    if s != [] {
      CountIsMultiplicity(s[1..], name);
      StrCmpZero(name, s[0]);
      assert s == [s[0]] + s[1..];
    }
  }

  /** One group per round: the first name, as often as it occurs at all, which is how far to move on. */
  function Groups(s: seq<Name>): (g: seq<Animal>)
    decreases |s|
  {
    if s == [] then []
    else
      CountIsMultiplicity(s, s[0]);
      var c := Count(s, s[0]);
      [Animal(s[0], c)] + Groups(s[c..])
  }

  function Repeated(name: Name, c: nat): (s: seq<Name>)
    ensures |s| == c && forall i :: 0 <= i < c ==> s[i] == name
  {
    seq(c, _ => name)
  }

  /** Each name written out as often as its count says. */
  function Expanded(g: seq<Animal>): seq<Name> {
    if g == [] then [] else Repeated(g[0].name, g[0].count) + Expanded(g[1..])
  }

  ghost predicate StrictlyAscending(g: seq<Animal>) {
    forall i, j :: 0 <= i < j < |g| ==> Less(g[i].name, g[j].name)
  }

  /** In a sorted array the occurrences of its first name are exactly its first elements. */
  lemma {:induction false} FirstNameFirst(s: seq<Name>, name: Name)
    requires Sorted(s) && forall i :: 0 <= i < |s| ==> AtMost(name, s[i])
    ensures Count(s, name) <= |s|
    ensures forall i :: 0 <= i < Count(s, name) ==> s[i] == name
    ensures forall i :: Count(s, name) <= i < |s| ==> Less(name, s[i])
  {
    if s != [] {
      if s[0] == name {
        StrCmpZero(name, name);
        FirstNameFirst(s[1..], name);
      } else {
        forall i | 0 <= i < |s|
          ensures Less(name, s[i])
        {
          TotalOrder(name, s[0], s[i]);
          TotalOrder(s[0], s[i], name);
          if i != 0 {
            AtMostTransitive(name, s[0], s[i]);
          }
        }
        NoneEqual(s, name);
      }
    }
  }

  lemma {:induction false} NoneEqual(s: seq<Name>, name: Name)
    requires forall i :: 0 <= i < |s| ==> Less(name, s[i])
    ensures Count(s, name) == 0
  {
    if s != [] {
      NoneEqual(s[1..], name);
    }
  }

  /** A group's count is the multiplicity of its name, and every name of the array has its group. */
  ghost predicate CountsOf(g: seq<Animal>, s: seq<Name>) {
    && (forall i :: 0 <= i < |g| ==> g[i].count == multiset(s)[g[i].name] > 0)
    && (forall name :: name in s ==> exists i :: 0 <= i < |g| && g[i].name == name)
  }

  /** What one round of grouping takes off a sorted array. */
  lemma FirstGroup(s: seq<Name>)
    requires Sorted(s) && s != []
    ensures 0 < Count(s, s[0]) <= |s|
    ensures var c := Count(s, s[0]);
            s == Repeated(s[0], c) + s[c..] && Groups(s) == [Animal(s[0], c)] + Groups(s[c..])
    ensures forall x :: x in s[Count(s, s[0])..] ==> Less(s[0], x)
  {
    hide StrCmp;
    StrCmpZero(s[0], s[0]);
    FirstNameFirst(s, s[0]);
    var c := Count(s, s[0]);
    assert 0 < c && Groups(s) == [Animal(s[0], c)] + Groups(s[c..]);
    hide *;
    RepeatedFirst(s, s[0], c);
    forall x | x in s[c..]
      ensures Less(s[0], x)
    {
      var i :| 0 <= i < |s[c..]| && s[c..][i] == x;
      assert x == s[c + i];
    }
  }

  lemma RepeatedFirst(s: seq<Name>, name: Name, c: nat)
    requires c <= |s| && forall i :: 0 <= i < c ==> s[i] == name
    ensures s == Repeated(name, c) + s[c..]
  {
  }

  lemma SortedRest(s: seq<Name>, c: nat)
    requires Sorted(s) && c <= |s|
    ensures Sorted(s[c..])
  {
    hide AtMost;
  }

  /** Grouping a sorted array is undone by writing the groups out ... */
  lemma {:induction false} GroupsExpand(s: seq<Name>)
    requires Sorted(s)
    ensures Expanded(Groups(s)) == s
    ensures StrictlyAscending(Groups(s))
    ensures forall i :: 0 <= i < |Groups(s)| ==> Groups(s)[i].count > 0 && Groups(s)[i].name in s
    decreases |s|
  {
    if s != [] {
      var c := Count(s, s[0]);
      FirstGroup(s);
      SortedRest(s, c);
      hide Sorted, Count, Groups, Less;
      var rest := s[c..];
      GroupsExpand(rest);
      var g := Groups(rest);
      assert ([Animal(s[0], c)] + g)[1..] == g;
      forall i | 0 <= i < |g|
        ensures Less(s[0], g[i].name) && g[i].name in s
      {
        assert g[i].name in rest;
      }
    }
  }

  lemma {:induction false} GroupOf(g: seq<Animal>, x: Name) returns (i: nat)
    requires x in Expanded(g)
    ensures i < |g| && g[i].name == x
  {
    if x in Expanded(g[1..]) {
      i := GroupOf(g[1..], x);
      i := i + 1;
    } else {
      i := 0;
    }
  }

  lemma PrependRepeated(name: Name, c: nat, rest: seq<Name>)
    requires Sorted(rest) && forall x :: x in rest ==> Less(name, x)
    ensures Sorted(Repeated(name, c) + rest)
    ensures c != 0 ==> Groups(Repeated(name, c) + rest) == [Animal(name, c)] + Groups(rest)
  {
    var s := Repeated(name, c) + rest;
    StrCmpZero(name, name);
    forall i, j | 0 <= i < j < |s|
      ensures AtMost(s[i], s[j])
    {
      assert c <= j ==> s[j] == rest[j - c] && s[j] in rest;
    }
    CountRepeated(name, c, rest);
    assert s[c..] == rest;
  }

  /** ... and writing out is undone by grouping, whenever names ascend and counts are positive. */
  lemma {:induction false} ExpandedGroups(g: seq<Animal>)
    requires StrictlyAscending(g) && forall i :: 0 <= i < |g| ==> g[i].count > 0
    ensures Sorted(Expanded(g)) && Groups(Expanded(g)) == g
  {
    if g != [] {
      ExpandedGroups(g[1..]);
      forall x | x in Expanded(g[1..])
        ensures Less(g[0].name, x)
      {
        var i := GroupOf(g[1..], x);
        assert g[i + 1].name == x;
      }
      PrependRepeated(g[0].name, g[0].count, Expanded(g[1..]));
      assert g == [Animal(g[0].name, g[0].count)] + g[1..];
    }
  }

  lemma {:induction false} CountRepeated(name: Name, c: nat, rest: seq<Name>)
    requires forall x :: x in rest ==> Less(name, x)
    ensures Count(Repeated(name, c) + rest, name) == c
  {
    var s := Repeated(name, c) + rest;
    if c == 0 {
      NoneEqual(rest, name);
      assert s == rest;
    } else {
      CountRepeated(name, c - 1, rest);
      StrCmpZero(name, name);
      assert s[1..] == Repeated(name, c - 1) + rest;
    }
  }

  lemma {:induction false} MultiplicityOfExpanded(g: seq<Animal>, i: nat)
    requires StrictlyAscending(g) && i < |g|
    ensures multiset(Expanded(g))[g[i].name] == g[i].count
  {
    var a, rest := g[0], Expanded(g[1..]);
    assert multiset(Expanded(g)) == multiset(Repeated(a.name, a.count)) + multiset(rest);
    MultiplicityOfRepeated(a.name, a.count, g[i].name);
    StrCmpZero(a.name, g[i].name);
    if i != 0 {
      MultiplicityOfExpanded(g[1..], i - 1);
    } else {
      NotExpanded(g[1..], a.name);
    }
  }

  lemma {:induction false} MultiplicityOfRepeated(name: Name, c: nat, other: Name)
    ensures multiset(Repeated(name, c))[other] == if other == name then c else 0
  {
    if c != 0 {
      MultiplicityOfRepeated(name, c - 1, other);
      assert Repeated(name, c) == [name] + Repeated(name, c - 1);
    }
  }

  lemma {:induction false} NotExpanded(g: seq<Animal>, name: Name)
    requires forall i :: 0 <= i < |g| ==> Less(name, g[i].name)
    ensures multiset(Expanded(g))[name] == 0
  {
    if g != [] {
      NotExpanded(g[1..], name);
      MultiplicityOfRepeated(g[0].name, g[0].count, name);
      StrCmpZero(name, name);
    }
  }

  /** What the module makes of any seed, through any sorted arrangement of it. */
  lemma GroupsOfSeed(seed: seq<Name>, s: seq<Name>)
    requires Sorted(s) && multiset(s) == multiset(seed)
    ensures StrictlyAscending(Groups(s)) && CountsOf(Groups(s), seed) && Expanded(Groups(s)) == s
  {
    hide Groups, Expanded, Sorted;
    GroupsExpand(s);
    var g := Groups(s);
    forall i | 0 <= i < |g|
      ensures g[i].count == multiset(seed)[g[i].name]
    {
      MultiplicityOfExpanded(g, i);
    }
    forall name | name in seed
      ensures exists i :: 0 <= i < |g| && g[i].name == name
    {
      assert name in multiset(seed);
      var i := GroupOf(g, name);
    }
  }

  // ----- filters -----

  /** The module's two parameters; a count of zero, or no name, turns a filter off. */
  datatype Filter = Filter(findCount: int, findName: Option<string>) {
    predicate ByCount(a: Animal) { a.count >= findCount }
    predicate ByName(a: Animal) { findName.Some? && StrCmp(a.name, findName.value) == 0 }

    predicate Keeps(a: Animal) {
      (findCount != 0 ==> ByCount(a)) && (findName.Some? ==> ByName(a))
    }
  }

  function Kept(g: seq<Animal>, f: Filter): seq<Animal> {
    if g == [] then []
    else
      var before := Kept(g[..|g| - 1], f);
      if f.Keeps(g[|g| - 1]) then before + [g[|g| - 1]] else before
  }

  /** A count of zero and no name are no conditions; others mean at least so many, and just that name. */
  lemma KeepsExactly(f: Filter)
    ensures forall a :: f.Keeps(a) <==>
              (f.findCount == 0 || f.findCount <= a.count) && (f.findName.None? || f.findName.value == a.name)
  {
    forall a
      ensures f.Keeps(a) <==>
              (f.findCount == 0 || f.findCount <= a.count) && (f.findName.None? || f.findName.value == a.name)
    {
      if f.findName.Some? {
        StrCmpZero(a.name, f.findName.value);
      }
    }
  }

  /** The chosen list has the animals kept and no others, in the order they had. */
  lemma {:induction false} KeptExactly(g: seq<Animal>, f: Filter)
    requires StrictlyAscending(g)
    ensures StrictlyAscending(Kept(g, f))
    ensures forall a :: a in Kept(g, f) <==>
              && a in g
              && (f.findCount == 0 || f.findCount <= a.count)
              && (f.findName.None? || f.findName.value == a.name)
  {
    KeepsExactly(f);
    if g != [] {
      var before, last := g[..|g| - 1], g[|g| - 1];
      KeptExactly(before, f);
      assert g == before + [last];
      forall i | 0 <= i < |Kept(before, f)|
        ensures Less(Kept(before, f)[i].name, last.name)
      {
        assert Kept(before, f)[i] in before;
      }
    }
  }

  /** With both filters on, the list is the type filter's choice from the count filter's, one node at most. */
  lemma {:induction false} BothFilters(g: seq<Animal>, f: Filter)
    requires f.findCount != 0 && f.findName.Some?
    ensures Kept(g, f) == Kept(Kept(g, Filter(f.findCount, None)), Filter(0, f.findName))
    ensures StrictlyAscending(g) ==> |Kept(g, f)| <= 1
  {
    var byCount, byName := Filter(f.findCount, None), Filter(0, f.findName);
    if g != [] {
      var before, last := g[..|g| - 1], g[|g| - 1];
      BothFilters(before, f);
      var counted := Kept(before, byCount);
      if byCount.Keeps(last) {
        assert (counted + [last])[..|counted|] == counted;
      }
      if f.Keeps(last) && StrictlyAscending(g) {
        NoneOfThatName(before, f, last.name);
      }
    }
  }

  lemma {:induction false} NoneOfThatName(g: seq<Animal>, f: Filter, name: Name)
    requires f.findName.Some? && StrCmp(name, f.findName.value) == 0
    requires forall i :: 0 <= i < |g| ==> Less(g[i].name, name)
    ensures Kept(g, f) == []
  {
    if g != [] {
      NoneOfThatName(g[..|g| - 1], f, name);
      StrCmpZero(name, f.findName.value);
    }
  }
}
