/** Which layouts can be reached by changing one member at a time. */
module MemoryMapReach {
  import opened MemoryMap

  datatype Change = Change(field: Field, addr: nat)
  datatype Reached = Rejected | At(layout: Layout)

  /** The capability, and a mapping above every address. */
  predicate Free(env: Env) {
    env.resource && env.vma
  }

  predicate SameData(a: Layout, b: Layout) {
    forall f :: START_DATA <= f <= BRK ==> a[f] == b[f]
  }

  /** Two data segments and heaps that never take more between them than the larger one does. */
  predicate Roomy(limit: Limit, a: Layout, b: Layout) {
    limit.Unlimited? || SameData(a, b)
  }

  /** Makes single-member calls one after the other, until one is rejected. */
  function Play(space: Space, env: Env, l: Layout, changes: seq<Change>): Reached
    decreases |changes|
  {
    if changes == [] then At(l)
    else
      var (error, l') := SetMmResult(space, l, Member(changes[0].field), changes[0].addr, 0, 0, env);
      if error != 0 then Rejected else Play(space, env, l', changes[1..])
  }

  /** How many of the calls name the member. */
  function Times(changes: seq<Change>, f: Field): nat {
    if changes == [] then 0 else (if changes[0].field == f then 1 else 0) + Times(changes[1..], f)
  }

  // ----- the plan: raise from the top, then lower from the bottom -----

  function Raises(a: Layout, b: Layout, k: nat): seq<Change>
    requires k <= MEMBERS
  {
    if k == 0 then []
    else (if a[k - 1] < b[k - 1] then [Change(k - 1, b[k - 1])] else []) + Raises(a, b, k - 1)
  }

  function Lowers(a: Layout, b: Layout, k: nat): seq<Change>
    requires k <= MEMBERS
    decreases MEMBERS - k
  {
    if k == MEMBERS then []
    else (if b[k] < a[k] then [Change(k, b[k])] else []) + Lowers(a, b, k + 1)
  }

  function Plan(a: Layout, b: Layout): seq<Change> {
    Raises(a, b, MEMBERS) + Lowers(a, b, 0)
  }

  /** Halfway through raising: the members from k on have been raised. */
  function Raised(a: Layout, b: Layout, k: nat): (l: Layout) {
    seq(MEMBERS, i requires 0 <= i < MEMBERS => if k <= i && a[i] < b[i] then b[i] else a[i])
  }

  /** Halfway through lowering: the members below k have been lowered. */
  function Lowered(a: Layout, b: Layout, k: nat): (l: Layout) {
    seq(MEMBERS, i requires 0 <= i < MEMBERS => if k <= i && b[i] < a[i] then a[i] else b[i])
  }

  lemma HalfwayIsValid(space: Space, limit: Limit, a: Layout, b: Layout, k: nat)
    requires Valid(space, limit, a) && Valid(space, limit, b) && Roomy(limit, a, b)
    ensures Valid(space, limit, Raised(a, b, k)) && Valid(space, limit, Lowered(a, b, k))
  {
  }

  lemma Accepted(space: Space, env: Env, l: Layout, f: Field, v: nat, rest: seq<Change>)
    requires Free(env) && Valid(space, env.limit, l[f := v])
    ensures Play(space, env, l, [Change(f, v)] + rest) == Play(space, env, l[f := v], rest)
  {
    assert ([Change(f, v)] + rest)[1..] == rest;
    assert l[f := v] == SetMmResult(space, l, Member(f), v, 0, 0, env).1;
  }

  lemma RaiseNext(a: Layout, b: Layout, k: nat)
    requires 0 < k <= MEMBERS
    ensures Raised(a, b, k - 1) == if a[k - 1] < b[k - 1] then Raised(a, b, k)[k - 1 := b[k - 1]] else Raised(a, b, k)
    ensures Raises(a, b, k) == (if a[k - 1] < b[k - 1] then [Change(k - 1, b[k - 1])] else []) + Raises(a, b, k - 1)
  {
  }

  lemma LowerNext(a: Layout, b: Layout, k: nat)
    requires k < MEMBERS
    ensures Lowered(a, b, k + 1) == if b[k] < a[k] then Lowered(a, b, k)[k := b[k]] else Lowered(a, b, k)
    ensures Lowers(a, b, k) == (if b[k] < a[k] then [Change(k, b[k])] else []) + Lowers(a, b, k + 1)
  {
  }

  lemma {:induction false} RaisesArrive(space: Space, env: Env, a: Layout, b: Layout, k: nat)
    requires Free(env) && Valid(space, env.limit, a) && Valid(space, env.limit, b) && Roomy(env.limit, a, b)
    requires k <= MEMBERS
    ensures Play(space, env, Raised(a, b, k), Raises(a, b, k)) == At(Raised(a, b, 0))
  {
    if k != 0 {
      var rest := Raises(a, b, k - 1);
      hide *;
      RaisesArrive(space, env, a, b, k - 1);
      RaiseNext(a, b, k);
      HalfwayIsValid(space, env.limit, a, b, k - 1);
      if a[k - 1] < b[k - 1] {
        Accepted(space, env, Raised(a, b, k), k - 1, b[k - 1], rest);
      } else {
        assert [] + rest == rest;
      }
    }
  }

  lemma {:induction false} LowersArrive(space: Space, env: Env, a: Layout, b: Layout, k: nat)
    requires Free(env) && Valid(space, env.limit, a) && Valid(space, env.limit, b) && Roomy(env.limit, a, b)
    requires k <= MEMBERS
    ensures Play(space, env, Lowered(a, b, k), Lowers(a, b, k)) == At(b)
    decreases MEMBERS - k
  {
    if k == MEMBERS {
      assert Lowered(a, b, k) == b;
    } else {
      var rest := Lowers(a, b, k + 1);
      hide *;
      LowersArrive(space, env, a, b, k + 1);
      LowerNext(a, b, k);
      HalfwayIsValid(space, env.limit, a, b, k + 1);
      if b[k] < a[k] {
        Accepted(space, env, Lowered(a, b, k), k, b[k], rest);
      } else {
        assert [] + rest == rest;
      }
    }
  }

  lemma {:induction false} PlayConcat(space: Space, env: Env, l: Layout, xs: seq<Change>, ys: seq<Change>)
    ensures Play(space, env, l, xs + ys) ==
            match Play(space, env, l, xs) { case Rejected => Rejected case At(m) => Play(space, env, m, ys) }
    decreases |xs|
  {
    if xs == [] {
      assert xs + ys == ys;
    } else {
      assert (xs + ys)[1..] == xs[1..] + ys;
      PlayConcat(space, env, SetMmResult(space, l, Member(xs[0].field), xs[0].addr, 0, 0, env).1, xs[1..], ys);
    }
  }

  lemma {:induction false} TimesConcat(xs: seq<Change>, ys: seq<Change>, f: Field)
    ensures Times(xs + ys, f) == Times(xs, f) + Times(ys, f)
  {
    if xs == [] {
      assert xs + ys == ys;
    } else {
      assert (xs + ys)[1..] == xs[1..] + ys;
      TimesConcat(xs[1..], ys, f);
    }
  }

  lemma {:induction false} RaisesOnce(a: Layout, b: Layout, k: nat, f: Field)
    requires k <= MEMBERS
    ensures Times(Raises(a, b, k), f) == if f < k && a[f] < b[f] then 1 else 0
  {
    if k != 0 {
      RaisesOnce(a, b, k - 1, f);
      TimesConcat(if a[k - 1] < b[k - 1] then [Change(k - 1, b[k - 1])] else [], Raises(a, b, k - 1), f);
    }
  }

  lemma {:induction false} LowersOnce(a: Layout, b: Layout, k: nat, f: Field)
    requires k <= MEMBERS
    ensures Times(Lowers(a, b, k), f) == if k <= f && b[f] < a[f] then 1 else 0
    decreases MEMBERS - k
  {
    if k != MEMBERS {
      LowersOnce(a, b, k + 1, f);
      TimesConcat(if b[k] < a[k] then [Change(k, b[k])] else [], Lowers(a, b, k + 1), f);
    }
  }

  /**
   * Between any two valid layouts the plan is accepted call by call, and it names each member
   * that differs exactly once and no other: without a data limit always, with one as long as it
   * has nothing to say about the difference.
   */
  lemma PlanArrives(space: Space, env: Env, a: Layout, b: Layout)
    requires Free(env) && Valid(space, env.limit, a) && Valid(space, env.limit, b) && Roomy(env.limit, a, b)
    ensures Play(space, env, a, Plan(a, b)) == At(b)
    ensures forall f: Field :: Times(Plan(a, b), f) == if a[f] != b[f] then 1 else 0
  {
    RaisesArrive(space, env, a, b, MEMBERS);
    LowersArrive(space, env, a, b, 0);
    PlayConcat(space, env, a, Raises(a, b, MEMBERS), Lowers(a, b, 0));
    assert Raised(a, b, MEMBERS) == a && Raised(a, b, 0) == Lowered(a, b, 0);
    forall f: Field
      ensures Times(Plan(a, b), f) == if a[f] != b[f] then 1 else 0
    {
      RaisesOnce(a, b, MEMBERS, f);
      LowersOnce(a, b, 0, f);
      TimesConcat(Raises(a, b, MEMBERS), Lowers(a, b, 0), f);
    }
  }

  /** No sequence of calls can do with fewer: each member that differs has to be named. */
  lemma {:induction false} DifferingIsNamed(space: Space, env: Env, a: Layout, changes: seq<Change>, f: Field)
    requires Play(space, env, a, changes).At?
    requires Play(space, env, a, changes).layout[f] != a[f]
    ensures Times(changes, f) >= 1
    decreases |changes|
  {
    if changes != [] && changes[0].field != f {
      var next := SetMmResult(space, a, Member(changes[0].field), changes[0].addr, 0, 0, env).1;
      DifferingIsNamed(space, env, next, changes[1..], f);
    }
  }

  /** Whatever the whole-map call installs over a valid layout, single-member calls can build. */
  lemma WholeMapIsReachable(space: Space, env: Env, whole: Env, a: Layout)
    requires Free(env) && env.limit.Unlimited? && Valid(space, Unlimited, a)
    requires SetMapResult(space, a, whole).0 == 0
    ensures var b := SetMapResult(space, a, whole).1; Play(space, env, a, Plan(a, b)) == At(b)
  {
    PlanArrives(space, env, a, SetMapResult(space, a, whole).1);
  }

  /** Without the capability no sequence of single-member calls gets anywhere. */
  lemma NoCapabilityNoChange(space: Space, env: Env, a: Layout, changes: seq<Change>)
    requires !env.resource
    ensures Play(space, env, a, changes) == if changes == [] then At(a) else Rejected
  {
    if changes != [] {
      WithoutCapability(space, a, Member(changes[0].field), changes[0].addr, 0, 0, env);
    }
  }

  // ----- under a data limit -----

  ghost predicate Leads(space: Space, env: Env, a: Layout, b: Layout) {
    exists changes :: Play(space, env, a, changes) == At(b)
  }

  ghost predicate Linked(space: Space, env: Env, a: Layout, b: Layout) {
    Leads(space, env, a, b) && Leads(space, env, b, a)
  }

  lemma LeadsOn(space: Space, env: Env, a: Layout, b: Layout, c: Layout)
    requires Leads(space, env, a, b) && Leads(space, env, b, c)
    ensures Leads(space, env, a, c)
  {
    var xs :| Play(space, env, a, xs) == At(b);
    var ys :| Play(space, env, b, ys) == At(c);
    PlayConcat(space, env, a, xs, ys);
  }

  lemma LinkedOn(space: Space, env: Env, a: Layout, b: Layout, c: Layout)
    requires Linked(space, env, a, b) && Linked(space, env, b, c)
    ensures Linked(space, env, a, c)
  {
    LeadsOn(space, env, a, b, c);
    LeadsOn(space, env, c, b, a);
  }

  /** A single change between valid layouts can be taken back. */
  lemma OneChange(space: Space, env: Env, a: Layout, f: Field, v: nat)
    requires Free(env) && Valid(space, env.limit, a) && Valid(space, env.limit, a[f := v])
    ensures Linked(space, env, a, a[f := v])
  {
    var b := a[f := v];
    assert b[f := a[f]] == a;
    Accepted(space, env, a, f, v, []);
    Accepted(space, env, b, f, a[f], []);
    assert Play(space, env, a, [Change(f, v)] + []) == At(b);
    assert Play(space, env, b, [Change(f, a[f])] + []) == At(a);
  }

  lemma TwoChanges(space: Space, env: Env, a: Layout, f: Field, v: nat, g: Field, w: nat)
    requires Free(env) && Valid(space, env.limit, a)
    requires Valid(space, env.limit, a[f := v]) && Valid(space, env.limit, a[f := v][g := w])
    ensures Linked(space, env, a, a[f := v][g := w])
  {
    OneChange(space, env, a, f, v);
    OneChange(space, env, a[f := v], g, w);
    LinkedOn(space, env, a, a[f := v], a[f := v][g := w]);
  }

  /** A data segment of one byte at `data`, and an empty heap at `heap`. */
  function Placed(l: Layout, data: nat, heap: nat): Layout {
    l[START_DATA := data][END_DATA := data + 1][START_BRK := heap][BRK := heap]
  }

  /** A byte to spare beside the smallest data segment. */
  predicate SpareByte(limit: Limit) {
    limit.Bytes? ==> 2 <= limit.bytes
  }

  lemma Shrinks(space: Space, env: Env, l: Layout)
    requires Free(env) && Valid(space, env.limit, l)
    ensures var small := Placed(l, l[START_DATA], l[START_BRK]);
            Valid(space, env.limit, small) && Linked(space, env, l, small)
  {
    TwoChanges(space, env, l, BRK, l[START_BRK], END_DATA, l[START_DATA] + 1);
    assert Placed(l, l[START_DATA], l[START_BRK]) == l[BRK := l[START_BRK]][END_DATA := l[START_DATA] + 1];
  }

  /** The spare byte lets the segment move down one address at a time ... */
  lemma DataOneDown(space: Space, env: Env, l: Layout, data: nat, heap: nat)
    requires Free(env) && SpareByte(env.limit) && Valid(space, env.limit, Placed(l, data, heap)) && space.lo < data
    ensures Valid(space, env.limit, Placed(l, data - 1, heap))
    ensures Linked(space, env, Placed(l, data, heap), Placed(l, data - 1, heap))
  {
    var here, next := Placed(l, data, heap), Placed(l, data - 1, heap);
    assert next == here[START_DATA := data - 1][END_DATA := data];
    hide Play, Linked;
    TwoChanges(space, env, here, START_DATA, data - 1, END_DATA, data);
  }

  lemma {:induction false} DataMovesDown(space: Space, env: Env, l: Layout, data: nat, heap: nat)
    requires Free(env) && SpareByte(env.limit) && Valid(space, env.limit, Placed(l, data, heap))
    requires space.lo <= data
    ensures Valid(space, env.limit, Placed(l, space.lo, heap))
    ensures Linked(space, env, Placed(l, data, heap), Placed(l, space.lo, heap))
  {
    var here := Placed(l, data, heap);
    if data == space.lo {
      assert Play(space, env, here, []) == At(here);
    } else {
      hide *;
      DataOneDown(space, env, l, data, heap);
      DataMovesDown(space, env, l, data - 1, heap);
      LinkedOn(space, env, here, Placed(l, data - 1, heap), Placed(l, space.lo, heap));
    }
  }

  /** ... and the heap after it. */
  lemma HeapOneDown(space: Space, env: Env, l: Layout, heap: nat)
    requires Free(env) && SpareByte(env.limit) && Valid(space, env.limit, Placed(l, space.lo, heap))
    requires space.lo + 2 < heap
    ensures Valid(space, env.limit, Placed(l, space.lo, heap - 1))
    ensures Linked(space, env, Placed(l, space.lo, heap), Placed(l, space.lo, heap - 1))
  {
    var here, next := Placed(l, space.lo, heap), Placed(l, space.lo, heap - 1);
    assert next == here[START_BRK := heap - 1][BRK := heap - 1];
    hide Play, Linked;
    TwoChanges(space, env, here, START_BRK, heap - 1, BRK, heap - 1);
  }

  lemma {:induction false} HeapMovesDown(space: Space, env: Env, l: Layout, heap: nat)
    requires Free(env) && SpareByte(env.limit) && Valid(space, env.limit, Placed(l, space.lo, heap))
    requires space.lo + 2 <= heap
    ensures Valid(space, env.limit, Placed(l, space.lo, space.lo + 2))
    ensures Linked(space, env, Placed(l, space.lo, heap), Placed(l, space.lo, space.lo + 2))
    decreases heap
  {
    var here := Placed(l, space.lo, heap);
    if heap == space.lo + 2 {
      assert Play(space, env, here, []) == At(here);
    } else {
      hide *;
      HeapOneDown(space, env, l, heap);
      HeapMovesDown(space, env, l, heap - 1);
      LinkedOn(space, env, here, Placed(l, space.lo, heap - 1), Placed(l, space.lo, space.lo + 2));
    }
  }

  /** Data segment and heap at the bottom of the address space. */
  function Gathered(space: Space, l: Layout): Layout {
    Placed(l, space.lo, space.lo + 2)
  }

  lemma Gathers(space: Space, env: Env, l: Layout)
    requires Free(env) && SpareByte(env.limit) && Valid(space, env.limit, l)
    ensures Valid(space, env.limit, Gathered(space, l)) && Linked(space, env, l, Gathered(space, l))
  {
    var data, heap := l[START_DATA], l[START_BRK];
    Shrinks(space, env, l);
    assert space.lo <= data && space.lo + 2 <= heap;
    assert Gathered(space, l) == Placed(l, space.lo, space.lo + 2);
    hide *;
    DataMovesDown(space, env, l, data, heap);
    HeapMovesDown(space, env, l, heap);
    LinkedOn(space, env, l, Placed(l, data, heap), Placed(l, space.lo, heap));
    LinkedOn(space, env, l, Placed(l, space.lo, heap), Gathered(space, l));
  }

  /**
   * At a limit of one byte the data segment takes it all, and no run of accepted calls moves any of
   * the four members the limit speaks of.
   */
  lemma {:induction false} TightLimitFreezes(space: Space, env: Env, a: Layout, changes: seq<Change>)
    requires env.limit == Bytes(1) && Valid(space, env.limit, a)
    requires Play(space, env, a, changes).At?
    ensures forall f :: START_DATA <= f <= BRK ==> Play(space, env, a, changes).layout[f] == a[f]
    decreases |changes|
  {
    if changes != [] {
      var next := SetMmResult(space, a, Member(changes[0].field), changes[0].addr, 0, 0, env).1;
      assert next[START_DATA] == a[START_DATA] && next[END_DATA] == a[END_DATA];
      assert next[START_BRK] == a[START_BRK] && next[BRK] == a[BRK];
      TightLimitFreezes(space, env, next, changes[1..]);
    }
  }

  predicate Connected(limit: Limit, a: Layout, b: Layout) {
    SpareByte(limit) || SameData(a, b)
  }

  /**
   * Between valid layouts under any data limit: one can be made into the other, call by call,
   * exactly when the limit leaves a byte to spare or the data segment and heap need not move.
   */
  lemma ConnectedExactly(space: Space, env: Env, a: Layout, b: Layout)
    requires Free(env) && Valid(space, env.limit, a) && Valid(space, env.limit, b)
    ensures Leads(space, env, a, b) <==> Connected(env.limit, a, b)
  {
    if SpareByte(env.limit) {
      var a', b' := Gathered(space, a), Gathered(space, b);
      Gathers(space, env, a);
      Gathers(space, env, b);
      PlanArrives(space, env, a', b');
      LeadsOn(space, env, a, a', b');
      LeadsOn(space, env, a, b', b);
    } else if SameData(a, b) {
      PlanArrives(space, env, a, b);
    } else {
      forall changes | Play(space, env, a, changes) == At(b)
        ensures SameData(a, b)
      {
        TightLimitFreezes(space, env, a, changes);
      }
    }
  }

  // ----- from layouts that are not valid -----

  predicate ValidAfter(space: Space, limit: Limit, a: Layout, f: Field, v: nat) {
    Valid(space, limit, a[f := v])
  }

  /**
   * From an arbitrary layout, not necessarily a valid one, under any data limit: a valid layout can be
   * reached exactly when it is already there, or changing a single member is enough to become valid
   * at all, in a way connected to it.
   */
  lemma ReachableExactly(space: Space, env: Env, a: Layout, b: Layout)
    requires Free(env) && Valid(space, env.limit, b)
    ensures Leads(space, env, a, b) <==>
            || a == b
            || exists f: Field, v: nat :: ValidAfter(space, env.limit, a, f, v) && Connected(env.limit, a[f := v], b)
  {
    if a == b {
      assert Play(space, env, a, []) == At(b);
    } else if f: Field, v: nat :| ValidAfter(space, env.limit, a, f, v) && Connected(env.limit, a[f := v], b) {
      ConnectedExactly(space, env, a[f := v], b);
      var rest :| Play(space, env, a[f := v], rest) == At(b);
      Accepted(space, env, a, f, v, rest);
    } else {
      forall changes: seq<Change>
        ensures Play(space, env, a, changes) != At(b)
      {
        if changes != [] {
          var f, v := changes[0].field, changes[0].addr;
          if ValidAfter(space, env.limit, a, f, v) {
            ConnectedExactly(space, env, a[f := v], b);
          }
        }
      }
    }
  }

  const PAGES := Space(1, 9)
  // No code and no data: neither can be put right while the other is wrong.
  const TWICE_WRONG: Layout := [1, 1, 1, 1, 3, 3, 1, 1, 1, 1, 1]

  lemma TwiceWrongIsStuck(env: Env, b: Layout)
    requires Free(env) && Valid(PAGES, env.limit, b)
    ensures !Leads(PAGES, env, TWICE_WRONG, b)
  {
    ReachableExactly(PAGES, env, TWICE_WRONG, b);
    forall f: Field, v: nat
      ensures !ValidAfter(PAGES, env.limit, TWICE_WRONG, f, v)
    {
      var l := TWICE_WRONG[f := v];
      assert l[START_CODE] == l[END_CODE] || l[START_DATA] == l[END_DATA];
    }
  }

  // The same, but for an empty heap one address further up.
  const LOW_HEAP: Layout := [1, 2, 1, 2, 3, 3, 1, 1, 1, 1, 1]
  const HIGH_HEAP: Layout := [1, 2, 1, 2, 4, 4, 1, 1, 1, 1, 1]

  /** Two layouts that one whole-map call exchanges, and that a limit of one byte keeps apart otherwise. */
  lemma OneByteKeepsApart(env: Env)
    requires Free(env) && env.limit == Bytes(1)
    ensures Valid(PAGES, env.limit, LOW_HEAP) && Valid(PAGES, env.limit, HIGH_HEAP)
    ensures !Leads(PAGES, env, LOW_HEAP, HIGH_HEAP)
  {
    ConnectedExactly(PAGES, env, LOW_HEAP, HIGH_HEAP);
    assert LOW_HEAP[BRK] != HIGH_HEAP[BRK];
  }
}
