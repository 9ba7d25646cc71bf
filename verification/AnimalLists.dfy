/** The module's circular lists, built when it is loaded and torn down when it is removed. */
module AnimalLists {
  import opened CStrings
  import opened AnimalGroups
  import opened Options

  /** A list element, or a list's head, with the links that are part of it. */
  class Node {
    const animal: Animal
    var next: Node?
    var prev: Node?

    /** Allocated, filled in, and linked to itself. */
    constructor (name: Name, count: nat)
      ensures animal == Animal(name, count) && next == this && prev == this
    {
      animal := Animal(name, count);
      next, prev := this, this;
    }
  }

  /** r[0] is the head; the links run through r in order and around both ends, and no node occurs twice. */
  ghost predicate Linked(r: seq<Node>)
    reads r
  {
    && r != []
    && (forall i, j :: 0 <= i < j < |r| ==> r[i] != r[j])
    && (forall i :: 0 <= i < |r| - 1 ==> r[i].next == r[i + 1])
    && (forall i :: 0 < i < |r| ==> r[i].prev == r[i - 1])
    && r[|r| - 1].next == r[0] && r[0].prev == r[|r| - 1]
  }

  lemma NextOf(r: seq<Node>, k: nat)
    requires Linked(r) && k < |r|
    ensures r[k].next == if k + 1 < |r| then r[k + 1] else r[0]
    ensures r[k].next == r[0] <==> k + 1 == |r|
  {
  }

  /** The same names, in an order that puts none before a smaller one. */
  ghost predicate SortOf(s: seq<Name>, seed: seq<Name>) {
    Sorted(s) && multiset(s) == multiset(seed)
  }

  ghost function Animals(nodes: seq<Node>): (g: seq<Animal>)
    ensures |g| == |nodes|
  {
    seq(|nodes|, i requires 0 <= i < |nodes| => nodes[i].animal)
  }

  method InitListHead(h: Node)
    modifies h
    ensures Linked([h])
  {
    h.next := h;
    h.prev := h;
  }

  method ListAddTail(entry: Node, head: Node, ghost r: seq<Node>)
    requires Linked(r) && r[0] == head && entry !in r
    modifies entry, head, r[|r| - 1]
    ensures Linked(r + [entry])
  {
    var last := head.prev;
    head.prev := entry;
    entry.next := head;
    entry.prev := last;
    last.next := entry;
  }

  /** Unlinks an element and leaves its own links poisoned. */
  method ListDel(entry: Node, ghost r: seq<Node>, ghost k: nat)
    requires Linked(r) && 0 < k < |r| && r[k] == entry
    modifies entry, r[k - 1], r[if k + 1 < |r| then k + 1 else 0]
    ensures Linked(r[..k] + r[k + 1..]) && entry.next == entry.prev == null
  {
    entry.prev.next := entry.next;
    entry.next.prev := entry.prev;
    entry.next := null;
    entry.prev := null;
  }

  ghost function Elements(nodes: seq<Node>): set<Node> {
    set n | n in nodes
  }

  class AnimalModule {
    // The head of the first list, and those of the four lists of which loading fills one.
    const root: Node
    const countRoot: Node
    const typeRoot: Node
    const bothRoot: Node
    const noRoot: Node
    // How many nodes the lists have, and how many altogether.
    var noNodes: nat
    var noCountNodes: nat
    var noTypeNodes: nat
    var noBothNodes: nat
    var noNoNodes: nat
    var totalNodes: nat
    // What is allocated and not yet freed, in which order nodes were freed, and the lists' elements.
    ghost var live: set<Node>
    ghost var freed: seq<Node>
    ghost var leaked: set<Node>
    ghost var first: seq<Node>
    ghost var second: seq<Node>

    ghost function Heads(): set<Node> {
      {root, countRoot, typeRoot, bothRoot, noRoot}
    }

    ghost predicate DistinctHeads() {
      && root !in {countRoot, typeRoot, bothRoot, noRoot} && countRoot !in {typeRoot, bothRoot, noRoot}
      && typeRoot !in {bothRoot, noRoot} && bothRoot != noRoot
    }

    constructor ()
      ensures DistinctHeads() && Unloaded() && fresh(Heads())
    {
      root := new Node("", 0);
      countRoot := new Node("", 0);
      typeRoot := new Node("", 0);
      bothRoot := new Node("", 0);
      noRoot := new Node("", 0);
      noNodes, noCountNodes, noTypeNodes, noBothNodes, noNoNodes, totalNodes := 0, 0, 0, 0, 0, 0;
      live, freed, leaked, first, second := {}, [], {}, [], [];
    }

    ghost predicate Unloaded()
      reads this
    {
      && noNodes == noCountNodes == noTypeNodes == noBothNodes == noNoNodes == totalNodes == 0
      && live == leaked == {} && freed == first == second == []
    }

    /** The second list that a choice of filters fills. */
    function SecondHead(f: Filter): Node {
      if f.findCount != 0 && f.findName.Some? then bothRoot
      else if f.findCount != 0 then countRoot
      else if f.findName.Some? then typeRoot
      else noRoot
    }

    /** The three lists that a choice of filters leaves out. */
    ghost predicate OthersEmpty(f: Filter)
      reads countRoot, typeRoot, bothRoot, noRoot
    {
      && (f.findCount == 0 || f.findName.Some? ==> Linked([countRoot]))
      && (f.findCount != 0 || f.findName.None? ==> Linked([typeRoot]))
      && (f.findCount == 0 || f.findName.None? ==> Linked([bothRoot]))
      && (f.findCount != 0 || f.findName.Some? ==> Linked([noRoot]))
    }

    /** The lists share no element with each other, and none is a head. */
    ghost predicate Apart(a: set<Node>, b: set<Node>) {
      Heads() !! a && Heads() !! b && a !! b
    }

    ghost predicate Loaded(f: Filter)
      reads this, root, SecondHead(f), first, second
    {
      && DistinctHeads()
      && Linked([root] + first) && Linked([SecondHead(f)] + second)
      && Apart(Elements(first), Elements(second)) && leaked !! Elements(first) && leaked !! Elements(second)
      && live == Elements(first) + Elements(second) + leaked
      && totalNodes == |first| + |second|
    }

    /** One node allocated and put at the end of a list. */
    method AddEntry(name: Name, count: nat, head: Node, ghost nodes: seq<Node>) returns (entry: Node)
      requires Linked([head] + nodes)
      modifies this`live, head, nodes
      ensures fresh(entry) && entry.animal == Animal(name, count)
      ensures Linked([head] + (nodes + [entry]))
      ensures live == old(live) + {entry}
      ensures Animals(nodes + [entry]) == Animals(nodes) + [Animal(name, count)]
      ensures Elements(nodes + [entry]) == Elements(nodes) + {entry}
    {
      entry := new Node(name, count);
      live := live + {entry};
      ListAddTail(entry, head, [head] + nodes);
      assert [head] + nodes + [entry] == [head] + (nodes + [entry]);
    }

    /** How often the name at i occurs from there on. */
    method CountFrom(names: array<Name>, i: nat) returns (countAnimal: nat)
      requires i < names.Length
      ensures countAnimal == Count(names[i..], names[i])
    {
      countAnimal := 0;
      var j := i;
      while j < names.Length
        invariant i <= j <= names.Length
        invariant countAnimal + Count(names[j..], names[i]) == Count(names[i..], names[i])
      {
        if StrCmp(names[i], names[j]) == 0 {
          countAnimal := countAnimal + 1;
        }
        assert names[j..][1..] == names[j + 1..];
        j := j + 1;
      }
    }

    /** One node per name of the sorted array. */
    method BuildFirst(names: array<Name>)
      requires Sorted(names[..]) && Linked([root]) && first == []
      modifies this`live, this`first, this`noNodes, root
      ensures Linked([root] + first) && Animals(first) == Groups(names[..])
      ensures fresh(first) && live == old(live) + Elements(first) && noNodes == old(noNodes) + |first|
    {
      GroupsOfNone();
      hide Groups, Count, Sorted, Linked, Animals, Elements;
      var i := 0;
      assert names[0..] == names[..];
      assert [root] + first == [root];
      while i < names.Length
        invariant 0 <= i <= names.Length
        invariant Linked([root] + first) && fresh(first)
        invariant Animals(first) + Groups(names[i..]) == Groups(names[..])
        invariant live == old(live) + Elements(first) && noNodes == old(noNodes) + |first|
      {
        var countAnimal := CountFrom(names, i);
        noNodes := noNodes + 1;
        GroupsStep(names[i..]);
        assert names[i..][countAnimal..] == names[i + countAnimal..];
        var entry := AddEntry(names[i], countAnimal, root, first);
        first := first + [entry];
        i := i + countAnimal;
      }
      assert names[i..] == [];
    }

    /** Copies what the filter keeps of the first list, in its order, to the end of an empty list. */
    method CopyKept(f: Filter, dst: Node)
      requires Linked([root] + first) && Linked([dst]) && dst !in [root] + first && second == []
      modifies this`live, this`second, dst
      ensures Linked([root] + first) && Linked([dst] + second)
      ensures Animals(second) == Kept(Animals(first), f)
      ensures fresh(second) && live == old(live) + Elements(second)
    {
      hide Linked, Kept, Animals, Elements;
      ghost var r, k, g := [root] + first, 0, Animals(first);
      NextOf(r, 0);
      var ptr := root.next;
      EmptyList(f);
      assert [dst] + second == [dst];
      while ptr != root
        invariant 0 <= k <= |first| && Linked(r)
        invariant ptr == (if k < |first| then first[k] else root) && (ptr == root <==> k == |first|)
        invariant Linked([dst] + second) && fresh(second)
        invariant Animals(second) == Kept(g[..k], f)
        invariant live == old(live) + Elements(second)
        decreases |first| - k
      {
        KeptNext(first, k, f);
        if f.Keeps(ptr.animal) {
          var entry := AddEntry(ptr.animal.name, ptr.animal.count, dst, second);
          second := second + [entry];
        }
        NextOf(r, k + 1);
        ptr := ptr.next;
        k := k + 1;
      }
      assert g[..k] == g;
    }

    method CountNodes(head: Node, ghost nodes: seq<Node>) returns (n: nat)
      requires Linked([head] + nodes)
      ensures n == |nodes|
    {
      ghost var r := [head] + nodes;
      n := 0;
      NextOf(r, 0);
      var ptr := head.next;
      while ptr != head
        invariant n <= |nodes| && ptr == (if n < |nodes| then nodes[n] else head) && (ptr == head <==> n == |nodes|)
        decreases |nodes| - n
      {
        NextOf(r, n + 1);
        n := n + 1;
        ptr := ptr.next;
      }
    }

    /** Frees a node; freeing what is not allocated would be an error. */
    ghost method Free(entry: Node)
      requires entry in live
      modifies this`live, this`freed
      ensures live == old(live) - {entry} && freed == old(freed) + [entry]
    {
      live := live - {entry};
      freed := freed + [entry];
    }

    /** One round of the teardown: the first element leaves the list and is freed. */
    method DeleteFirst(ptr: Node, head: Node, ghost rest: seq<Node>)
      requires rest != [] && ptr == rest[0] && Linked([head] + rest) && Elements(rest) <= live
      modifies this`live, this`freed, head, rest
      ensures Linked([head] + rest[1..]) && Elements(rest[1..]) <= live
      ensures live == old(live) - {ptr} && freed == old(freed) + [ptr]
    {
      ghost var r := [head] + rest;
      DistinctElements(head, rest);
      assert r[..1] + r[2..] == [head] + rest[1..];
      ListDel(ptr, r, 1);
      Free(ptr);
    }

    /** Unlinks and frees every element, having read the following one's address before. */
    method Teardown(head: Node, ghost nodes: seq<Node>)
      requires Linked([head] + nodes) && Elements(nodes) <= live
      modifies this`live, this`freed, head, nodes
      ensures Linked([head])
      ensures live == old(live) - Elements(nodes) && freed == old(freed) + nodes
    {
      ghost var rest := nodes;
      FirstLinks(head, rest);
      hide Linked;
      var ptr := head.next;
      var tmp := ptr.next;
      while ptr != head
        invariant Linked([head] + rest) && Elements(rest) <= live
        invariant |rest| <= |nodes| && rest == nodes[|nodes| - |rest|..]
        invariant ptr == (if rest != [] then rest[0] else head) && (ptr == head <==> rest == [])
        invariant rest != [] ==> tmp == if 1 < |rest| then rest[1] else head
        invariant live == old(live) - (Elements(nodes) - Elements(rest))
        invariant freed + rest == old(freed) + nodes
        decreases |rest|
      {
        ElementsStep(head, rest);
        DeleteFirst(ptr, head, rest);
        rest := rest[1..];
        FirstLinks(head, rest);
        ptr := tmp;
        tmp := tmp.next;
      }
      assert [head] + rest == [head];
    }

    method InitHeads()
      requires DistinctHeads()
      modifies Heads()
      ensures Linked([root]) && Linked([countRoot]) && Linked([typeRoot]) && Linked([bothRoot]) && Linked([noRoot])
    {
      hide Linked;
      InitListHead(root);
      InitListHead(countRoot);
      InitListHead(typeRoot);
      InitListHead(bothRoot);
      InitListHead(noRoot);
    }

    /** Loading the module: sort the names, build the first list, then the second the filters ask for. */
    method Start(names: array<Name>, f: Filter)
      requires DistinctHeads() && Unloaded()
      modifies this, Heads(), names
      ensures SortOf(names[..], old(names[..]))
      ensures Loaded(f) && freed == []
      ensures Animals(first) == Groups(names[..]) && Animals(second) == Kept(Animals(first), f)
      ensures |leaked| == 1 && OthersEmpty(f)
    {
      hide Linked, SortOf, Groups, Kept, Animals, Loaded, Elements;
      Prepare(names);
      ghost var sorted := names[..];
      BuildRest(f);
      assert names[..] == sorted;
    }

    /** From the first list on. */
    method BuildRest(f: Filter)
      requires DistinctHeads() && Linked([root] + first) && second == [] && Heads() !! Elements(first)
      requires Linked([countRoot]) && Linked([typeRoot]) && Linked([bothRoot]) && Linked([noRoot])
      requires noCountNodes == noTypeNodes == noBothNodes == noNoNodes == totalNodes == 0 && noNodes == |first|
      requires leaked !! Elements(first) && live == Elements(first) + leaked
      modifies this`live, this`second, this`totalNodes
      modifies this`noCountNodes, this`noTypeNodes, this`noBothNodes, this`noNoNodes
      modifies countRoot, typeRoot, bothRoot, noRoot
      ensures Loaded(f) && Animals(second) == Kept(Animals(first), f) && OthersEmpty(f)
    {
      hide Linked, Kept, Animals;
      BuildSecond(f);
      AddTotals(f);
    }

    /** The counters of the lists that have been filled. */
    method AddTotals(f: Filter)
      requires DistinctHeads() && Linked([root] + first) && Linked([SecondHead(f)] + second)
      requires Apart(Elements(first), Elements(second)) && leaked !! Elements(first) && leaked !! Elements(second)
      requires live == Elements(first) + Elements(second) + leaked && Total(f) == |first| + |second| && totalNodes == 0
      modifies this`totalNodes
      ensures Loaded(f) && freed == old(freed)
    {
      hide Elements, Apart;
      totalNodes := totalNodes + noNodes;
      if f.findCount != 0 && f.findName.Some? {
        totalNodes := totalNodes + noBothNodes;
      } else if f.findCount != 0 || f.findName.Some? {
        if f.findCount != 0 {
          totalNodes := totalNodes + noCountNodes;
        }
        if f.findName.Some? {
          totalNodes := totalNodes + noTypeNodes;
        }
      } else {
        totalNodes := totalNodes + noNoNodes;
      }
    }

    /** Up to the first list. */
    method Prepare(names: array<Name>)
      requires DistinctHeads() && Unloaded()
      modifies this`live, this`leaked, this`first, this`noNodes, Heads(), names
      ensures SortOf(names[..], old(names[..]))
      ensures Linked([root] + first) && Animals(first) == Groups(names[..])
      ensures Linked([countRoot]) && Linked([typeRoot]) && Linked([bothRoot]) && Linked([noRoot])
      ensures Heads() !! Elements(first) && leaked !! Elements(first) && |leaked| == 1 && leaked !! Heads()
      ensures live == Elements(first) + leaked && noNodes == |first| && freed == []
    {
      hide Linked, Sorted, Groups, Kept, Animals, StrCmp;
      // This node is never linked and never freed.
      var newNode := new Node("", 0);
      live, leaked := live + {newNode}, leaked + {newNode};
      ExchangeSort(names);
      InitHeads();
      ghost var sorted := names[..];
      BuildFirst(names);
      assert names[..] == sorted;
    }

    /** Exactly one of the four branches runs. */
    method BuildSecond(f: Filter)
      requires DistinctHeads() && Linked([root] + first) && Heads() !! Elements(first) && second == []
      requires Linked([countRoot]) && Linked([typeRoot]) && Linked([bothRoot]) && Linked([noRoot])
      requires noCountNodes == noTypeNodes == noBothNodes == noNoNodes == totalNodes == 0 && noNodes == |first|
      modifies this`live, this`second, this`noCountNodes, this`noTypeNodes, this`noBothNodes, this`noNoNodes
      modifies countRoot, typeRoot, bothRoot, noRoot
      ensures Linked([root] + first) && Linked([SecondHead(f)] + second)
      ensures Animals(second) == Kept(Animals(first), f)
      ensures Apart(Elements(first), Elements(second)) && leaked !! Elements(second)
      ensures live == old(live) + Elements(second) && freed == old(freed)
      ensures Total(f) == |first| + |second| && OthersEmpty(f)
    {
      hide Linked, Animals, Kept;
      if f.findCount != 0 && f.findName.Some? {
        CopyKept(f, bothRoot);
        noBothNodes := CountNodes(bothRoot, second);
      } else if f.findCount != 0 || f.findName.Some? {
        if f.findCount != 0 {
          CopyKept(f, countRoot);
          noCountNodes := CountNodes(countRoot, second);
        }
        if f.findName.Some? {
          CopyKept(f, typeRoot);
          noTypeNodes := CountNodes(typeRoot, second);
        }
      } else {
        CopyKept(f, noRoot);
        noNoNodes := CountNodes(noRoot, second);
      }
      assert fresh(second);
    }

    /** How the counters are added up, from a total of zero. */
    function Total(f: Filter): nat
      reads this
    {
      totalNodes + noNodes +
      if f.findCount != 0 && f.findName.Some? then noBothNodes
      else if f.findCount != 0 || f.findName.Some? then
        (if f.findCount != 0 then noCountNodes else 0) + (if f.findName.Some? then noTypeNodes else 0)
      else noNoNodes
    }

    /** Removing it: both lists end up empty, each element having been freed exactly once. */
    method End(f: Filter)
      requires Loaded(f) && freed == []
      modifies this`live, this`freed, root, SecondHead(f), first, second
      ensures Linked([root]) && Linked([SecondHead(f)])
      ensures freed == first + second && |freed| == totalNodes && live == leaked
      ensures forall i, j :: 0 <= i < j < |freed| ==> freed[i] != freed[j]
    {
      DistinctElements(root, first);
      DistinctElements(SecondHead(f), second);
      assert forall n :: n in second ==> n in Elements(second);
      assert forall n :: n in first ==> n in Elements(first);
      assert forall n :: n in [SecondHead(f)] + second ==> n != root && n !in first;
      ghost var r := [SecondHead(f)] + second;
      label Before:
      Teardown(root, first);
      assert forall n :: n in r ==> n.next == old@Before(n.next) && n.prev == old@Before(n.prev);
      TeardownSecond(f);
      DistinctTogether(first, second);
    }

    method TeardownSecond(f: Filter)
      requires Linked([SecondHead(f)] + second) && Elements(second) <= live
      modifies this`live, this`freed, SecondHead(f), second
      ensures Linked([SecondHead(f)])
      ensures live == old(live) - Elements(second) && freed == old(freed) + second
    {
      hide Linked, Elements;
      if f.findCount != 0 && f.findName.Some? {
        Teardown(bothRoot, second);
      } else if f.findCount != 0 || f.findName.Some? {
        if f.findCount != 0 {
          Teardown(countRoot, second);
        }
        if f.findName.Some? {
          Teardown(typeRoot, second);
        }
      } else {
        Teardown(noRoot, second);
      }
    }
  }

  lemma DistinctTogether(a: seq<Node>, b: seq<Node>)
    requires forall i, j :: 0 <= i < j < |a| ==> a[i] != a[j]
    requires forall i, j :: 0 <= i < j < |b| ==> b[i] != b[j]
    requires forall n :: n in a ==> n !in b
    ensures forall i, j :: 0 <= i < j < |a + b| ==> (a + b)[i] != (a + b)[j]
  {
    forall i, j | 0 <= i < j < |a + b|
      ensures (a + b)[i] != (a + b)[j]
    {
      assert i < |a| ==> (a + b)[i] in a;
      assert |a| <= i ==> (a + b)[i] == b[i - |a|];
      assert |a| <= j ==> (a + b)[j] in b && (a + b)[j] == b[j - |a|];
    }
  }

  lemma DistinctElements(head: Node, nodes: seq<Node>)
    requires Linked([head] + nodes)
    ensures forall i, j :: 0 <= i < j < |nodes| ==> nodes[i] != nodes[j]
    ensures head !in nodes
  {
    var r := [head] + nodes;
    assert forall i :: 0 <= i < |nodes| ==> nodes[i] == r[i + 1];
  }

  lemma ElementsStep(head: Node, rest: seq<Node>)
    requires rest != [] && Linked([head] + rest)
    ensures Elements(rest[1..]) == Elements(rest) - {rest[0]} && rest[0] in Elements(rest)
    ensures [rest[0]] + rest[1..] == rest
  {
    DistinctElements(head, rest);
  }

  /** Where the first two links of a list lead. */
  lemma FirstLinks(head: Node, rest: seq<Node>)
    requires Linked([head] + rest)
    ensures head.next == (if rest != [] then rest[0] else head) && (head.next == head <==> rest == [])
    ensures rest != [] ==> rest[0].next == (if 1 < |rest| then rest[1] else head)
  {
    var r := [head] + rest;
    NextOf(r, 0);
    if rest != [] {
      NextOf(r, 1);
      assert r[1] == rest[0];
    }
  }

  lemma GroupsOfNone()
    ensures Groups([]) == [] && Animals([]) == [] && Elements([]) == {}
  {
  }

  lemma EmptyList(f: Filter)
    ensures Kept([], f) == [] && Animals([]) == [] && Elements([]) == {}
  {
  }

  lemma KeptNext(nodes: seq<Node>, k: nat, f: Filter)
    requires k < |nodes|
    ensures var g := Animals(nodes);
            Kept(g[..k + 1], f) == if f.Keeps(nodes[k].animal) then Kept(g[..k], f) + [nodes[k].animal] else Kept(g[..k], f)
  {
    var g := Animals(nodes);
    assert g[..k + 1][..k] == g[..k];
  }

  lemma GroupsStep(s: seq<Name>)
    requires s != []
    ensures 0 < Count(s, s[0]) <= |s| && Groups(s) == [Animal(s[0], Count(s, s[0]))] + Groups(s[Count(s, s[0])..])
  {
    CountIsMultiplicity(s, s[0]);
  }
}
