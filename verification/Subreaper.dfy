/** The flag that tells a task it has a child subreaper above it, and the pruned walk that spreads it. */
module Subreaper {
  type Pid = nat

  /**
   * Parents by child, the tasks with `has_child_subreaper`, those with `is_child_subreaper`, and
   * the reapers of a pid namespace, whose descendants never leave it.
   */
  datatype Tree = Tree(parent: map<Pid, Pid>, has: set<Pid>, sub: set<Pid>, reapers: set<Pid>)

  // ----- the full walk, as the tasks it flags -----

  /** `d` is below `top` by at most n + 1 steps, with no namespace reaper on the way down to it. */
  predicate UnderBy(parent: map<Pid, Pid>, reapers: set<Pid>, top: Pid, d: Pid, n: nat)
    decreases n
  {
    && d in parent && d !in reapers
    && (parent[d] == top || (n != 0 && UnderBy(parent, reapers, top, parent[d], n - 1)))
  }

  ghost predicate Under(parent: map<Pid, Pid>, reapers: set<Pid>, top: Pid, d: Pid) {
    exists n: nat :: UnderBy(parent, reapers, top, d, n)
  }

  /** Everything a walk meets that stops at reapers only. */
  ghost function FullWalk(parent: map<Pid, Pid>, reapers: set<Pid>, top: Pid): set<Pid> {
    set d | d in parent && Under(parent, reapers, top, d)
  }

  // ----- what the pruning relies on -----

  /** A flagged task's children are flagged or reapers, tasks in `open` excepted. */
  ghost predicate ClosedExcept(t: Tree, open: set<Pid>) {
    forall c :: c in t.parent && t.parent[c] in t.has && t.parent[c] !in open ==> c in t.has || c in t.reapers
  }

  ghost predicate ChildrenDone(t: Tree, p: Pid) {
    forall c :: c in t.parent && t.parent[c] == p ==> c in t.has || c in t.reapers
  }

  /** Flagged tasks and subreapers alike have only flagged children and reapers. */
  ghost predicate Inherited(t: Tree) {
    forall c :: c in t.parent && (t.parent[c] in t.has || t.parent[c] in t.sub) ==> c in t.has || c in t.reapers
  }

  lemma UnderChild(parent: map<Pid, Pid>, reapers: set<Pid>, top: Pid, c: Pid, d: Pid, n: nat)
    requires c in parent && parent[c] == top && c !in reapers && UnderBy(parent, reapers, c, d, n)
    ensures Under(parent, reapers, top, d)
  {
    UnderChildBy(parent, reapers, top, c, d, n);
    assert UnderBy(parent, reapers, top, d, n + 1);
  }

  lemma {:induction false} UnderChildBy(parent: map<Pid, Pid>, reapers: set<Pid>, top: Pid, c: Pid, d: Pid, n: nat)
    requires c in parent && parent[c] == top && c !in reapers && UnderBy(parent, reapers, c, d, n)
    ensures UnderBy(parent, reapers, top, d, n + 1)
    decreases n
  {
    if parent[d] != c {
      UnderChildBy(parent, reapers, top, c, parent[d], n - 1);
    } else {
      assert UnderBy(parent, reapers, top, c, n);
    }
  }

  lemma FullWalkOfChild(parent: map<Pid, Pid>, reapers: set<Pid>, top: Pid, c: Pid)
    requires c in parent && parent[c] == top && c !in reapers
    ensures FullWalk(parent, reapers, c) <= FullWalk(parent, reapers, top)
    ensures c in FullWalk(parent, reapers, top)
  {
    assert UnderBy(parent, reapers, top, c, 0);
    forall d | d in FullWalk(parent, reapers, c)
      ensures d in FullWalk(parent, reapers, top)
    {
      var n: nat :| UnderBy(parent, reapers, c, d, n);
      UnderChild(parent, reapers, top, c, d, n);
    }
  }

  /** Once the flags are closed below `top`, nothing of the full walk is missing. */
  lemma {:induction false} ClosureCovers(t: Tree, top: Pid, d: Pid, n: nat)
    requires ClosedExcept(t, {}) && ChildrenDone(t, top) && UnderBy(t.parent, t.reapers, top, d, n)
    ensures d in t.has
    decreases n
  {
    if t.parent[d] != top {
      ClosureCovers(t, top, t.parent[d], n - 1);
    }
  }

  lemma ClosureCoversWalk(t: Tree, top: Pid)
    requires ClosedExcept(t, {}) && ChildrenDone(t, top)
    ensures FullWalk(t.parent, t.reapers, top) <= t.has
  {
    forall d | d in FullWalk(t.parent, t.reapers, top)
      ensures d in t.has
    {
      var n: nat :| UnderBy(t.parent, t.reapers, top, d, n);
      ClosureCovers(t, top, d, n);
    }
  }

  // ----- the calls -----

  /** The tasks whose flags the calls change in place. */
  class TaskTree {
    var parent: map<Pid, Pid>
    var has: set<Pid>
    var sub: set<Pid>
    var reapers: set<Pid>

    ghost function Now(): Tree
      reads this
    {
      Tree(parent, has, sub, reapers)
    }

    /** The visitor: true asks the walk to go on below the task. */
    method PropagateHasChildSubreaper(p: Pid) returns (descend: bool)
      modifies this`has
      ensures descend <==> p !in old(has) && p !in reapers
      ensures has == if descend then old(has) + {p} else old(has)
    {
      if p in has || p in reapers {
        return false;
      }
      has := has + {p};
      return true;
    }

    /** Visits the tasks below `top`, those of a child only if the visitor asked for them. */
    method WalkProcessTree(top: Pid, ghost open: set<Pid>)
      requires ClosedExcept(Now(), open + {top})
      modifies this`has
      ensures ClosedExcept(Now(), open) && ChildrenDone(Now(), top)
      ensures old(has) <= has <= old(has) + FullWalk(parent, reapers, top)
      decreases parent.Keys - has
    {
      var todo := set c | c in parent && parent[c] == top;
      while todo != {}
        invariant forall c :: c in todo ==> c in parent && parent[c] == top
        invariant forall c :: c in parent && parent[c] == top ==> c in todo || c in has || c in reapers
        invariant ClosedExcept(Now(), open + {top})
        invariant old(has) <= has <= old(has) + FullWalk(parent, reapers, top)
        decreases todo
      {
        var c :| c in todo;
        todo := todo - {c};
        var descend := PropagateHasChildSubreaper(c);
        if descend {
          FullWalkOfChild(parent, reapers, top, c);
          assert c in parent.Keys && c !in parent.Keys - has;
          WalkProcessTree(c, open + {top});
        }
      }
    }

    /** prctl(PR_SET_CHILD_SUBREAPER): the pruned walk flags exactly what a full walk would. */
    method SetChildSubreaper(me: Pid, on: bool)
      requires Inherited(Now())
      modifies this`has, this`sub
      ensures Now() == Prctl(old(Now()), me, on)
      ensures Inherited(Now())
    {
      sub := if on then sub + {me} else sub - {me};
      if !on {
        return;
      }
      WalkProcessTree(me, {});
      ClosureCoversWalk(Now(), me);
    }
  }

  // ----- runs -----

  ghost function Prctl(t: Tree, me: Pid, on: bool): Tree {
    if on then t.(sub := t.sub + {me}, has := t.has + FullWalk(t.parent, t.reapers, me))
    else t.(sub := t.sub - {me})
  }

  datatype Event = SetSubreaper(me: Pid, on: bool) | Fork(me: Pid, child: Pid, newNamespace: bool)

  /** A new task is nobody's parent yet; it inherits the flag, also from a parent that is a subreaper. */
  ghost function After(t: Tree, e: Event): Tree {
    match e
    case SetSubreaper(me, on) => Prctl(t, me, on)
    case Fork(me, child, newNamespace) =>
      if !Fresh(t, child) then t
      else Tree(
        t.parent[child := me],
        if me in t.has || me in t.sub then t.has + {child} else t.has,
        t.sub,
        if newNamespace then t.reapers + {child} else t.reapers)
  }

  ghost predicate Fresh(t: Tree, child: Pid) {
    && child !in t.parent && child !in t.has && child !in t.sub && child !in t.reapers
    && forall c :: c in t.parent ==> t.parent[c] != child
  }

  ghost function Run(t: Tree, events: seq<Event>): Tree
    decreases |events|
  {
    if events == [] then t else Run(After(t, events[0]), events[1..])
  }

  /** Setting the flag below `me` and below every task flagged on the way keeps the rest in order. */
  lemma PrctlKeepsInherited(t: Tree, me: Pid, on: bool)
    requires Inherited(t)
    ensures Inherited(Prctl(t, me, on))
  {
    var t' := Prctl(t, me, on);
    if on {
      forall c | c in t.parent && (t.parent[c] in t'.has || t.parent[c] in t'.sub)
        ensures c in t'.has || c in t.reapers
      {
        if c !in t.reapers && c !in t.has {
          var p := t.parent[c];
          if p == me {
            assert UnderBy(t.parent, t.reapers, me, c, 0);
          } else {
            var n: nat :| UnderBy(t.parent, t.reapers, me, p, n);
            assert UnderBy(t.parent, t.reapers, me, c, n + 1);
          }
        }
      }
    }
  }

  lemma {:induction false} RunKeepsInherited(t: Tree, events: seq<Event>)
    requires Inherited(t)
    ensures Inherited(Run(t, events))
    decreases |events|
  {
    if events != [] {
      if events[0].SetSubreaper? {
        PrctlKeepsInherited(t, events[0].me, events[0].on);
      }
      RunKeepsInherited(After(t, events[0]), events[1..]);
    }
  }

  /** After any run, every task below a subreaper in its namespace carries the flag. */
  lemma FlagIsComplete(t: Tree, events: seq<Event>, a: Pid, d: Pid)
    requires Inherited(t)
    requires var t' := Run(t, events); a in t'.sub && Under(t'.parent, t'.reapers, a, d)
    ensures d in Run(t, events).has
  {
    RunKeepsInherited(t, events);
    var t' := Run(t, events);
    ClosureCoversWalk(t', a);
  }

  // ----- and nobody else gets it -----

  predicate AboveBy(parent: map<Pid, Pid>, a: Pid, d: Pid, n: nat)
    decreases n
  {
    d in parent && (parent[d] == a || (n != 0 && AboveBy(parent, a, parent[d], n - 1)))
  }

  /** Every flagged task has above it one that has asked to be a subreaper at some time. */
  ghost predicate Founded(t: Tree, asked: set<Pid>) {
    && t.sub <= asked
    && forall d :: d in t.has ==> exists a, n: nat :: a in asked && AboveBy(t.parent, a, d, n)
  }

  function Asking(events: seq<Event>): set<Pid> {
    if events == [] then {}
    else (if events[0].SetSubreaper? && events[0].on then {events[0].me} else {}) + Asking(events[1..])
  }

  lemma {:induction false} UnderIsBelow(parent: map<Pid, Pid>, reapers: set<Pid>, top: Pid, d: Pid, n: nat)
    requires UnderBy(parent, reapers, top, d, n)
    ensures AboveBy(parent, top, d, n)
    decreases n
  {
    if parent[d] != top {
      UnderIsBelow(parent, reapers, top, parent[d], n - 1);
    }
  }

  lemma {:induction false} AboveAfterFork(parent: map<Pid, Pid>, a: Pid, d: Pid, n: nat, child: Pid, me: Pid)
    requires child !in parent && AboveBy(parent, a, d, n)
    ensures AboveBy(parent[child := me], a, d, n)
    decreases n
  {
    if parent[d] != a {
      AboveAfterFork(parent, a, parent[d], n - 1, child, me);
    }
  }

  lemma PrctlKeepsFounded(t: Tree, asked: set<Pid>, me: Pid, on: bool)
    requires Founded(t, asked)
    ensures Founded(Prctl(t, me, on), asked + if on then {me} else {})
  {
    var t', asked' := Prctl(t, me, on), asked + if on then {me} else {};
    forall d | d in t'.has
      ensures exists a, n: nat :: a in asked' && AboveBy(t.parent, a, d, n)
    {
      if d in t.has {
        var a, n: nat :| a in asked && AboveBy(t.parent, a, d, n);
        assert a in asked';
      } else {
        var n: nat :| UnderBy(t.parent, t.reapers, me, d, n);
        UnderIsBelow(t.parent, t.reapers, me, d, n);
        assert me in asked';
      }
    }
  }

  lemma ForkKeepsFounded(t: Tree, asked: set<Pid>, e: Event)
    requires Founded(t, asked) && e.Fork? && Fresh(t, e.child)
    ensures Founded(After(t, e), asked)
  {
    var t' := After(t, e);
    forall d | d in t'.has
      ensures exists a, n: nat :: a in asked && AboveBy(t'.parent, a, d, n)
    {
      var from := if d == e.child then e.me else d;
      if from in t.has {
        var a, n: nat :| a in asked && AboveBy(t.parent, a, from, n);
        AboveAfterFork(t.parent, a, from, n, e.child, e.me);
        assert d == e.child ==> AboveBy(t'.parent, a, d, n + 1);
        assert a in asked;
      } else {
        assert AboveBy(t'.parent, e.me, d, 0) && e.me in asked;
      }
    }
  }

  lemma {:induction false} FlagIsFounded(t: Tree, asked: set<Pid>, events: seq<Event>)
    requires Founded(t, asked)
    ensures Founded(Run(t, events), asked + Asking(events))
    decreases |events|
  {
    if events == [] {
      assert asked + {} == asked;
    } else {
      var e := events[0];
      var more := if e.SetSubreaper? && e.on then {e.me} else {};
      match e {
        case SetSubreaper(me, on) => PrctlKeepsFounded(t, asked, me, on);
        case Fork(me, child, _) =>
          if Fresh(t, child) {
            ForkKeepsFounded(t, asked, e);
          }
          assert asked + more == asked;
      }
      FlagIsFounded(After(t, e), asked + more, events[1..]);
      assert asked + more + Asking(events[1..]) == asked + Asking(events);
    }
  }

  // ----- who is a subreaper, and whose flag can change -----

  /** What the last call made by `a` asked for, if it made any. */
  function LastAsked(was: bool, events: seq<Event>, a: Pid): bool
    decreases |events|
  {
    if events == [] then was
    else
      var e := events[0];
      LastAsked(if e.SetSubreaper? && e.me == a then e.on else was, events[1..], a)
  }

  /** After any run a task is a subreaper exactly when its last call said so, or it made none and was one before. */
  lemma {:induction false} SubreaperExactly(t: Tree, events: seq<Event>, a: Pid)
    ensures a in Run(t, events).sub <==> LastAsked(a in t.sub, events, a)
    decreases |events|
  {
    if events != [] {
      hide FullWalk, Fresh;
      SubreaperExactly(After(t, events[0]), events[1..], a);
    }
  }

  /** A call that says on flags the tasks below the caller, down to where a namespace reaper stops it, and no other. */
  lemma CallFlagsExactly(t: Tree, me: Pid, on: bool, d: Pid)
    ensures var t' := After(t, SetSubreaper(me, on));
            && (d in t'.has <==> d in t.has || (on && d in t.parent && Under(t.parent, t.reapers, me, d)))
            && t'.parent == t.parent && t'.reapers == t.reapers
  {
  }

  /** A new task starts below its parent, flagged if that is flagged or a subreaper, and as no subreaper itself. */
  lemma ForkInherits(t: Tree, me: Pid, child: Pid, newNamespace: bool, d: Pid)
    ensures var t' := After(t, Fork(me, child, newNamespace));
            if Fresh(t, child) then
              && (d in t'.has <==> d in t.has || (d == child && (me in t.has || me in t.sub)))
              && (d in t'.reapers <==> d in t.reapers || (d == child && newNamespace))
              && t'.sub == t.sub && t'.parent == t.parent[child := me]
            else t' == t
  {
  }

  /** Over any run no flag is ever cleared, and a namespace reaper that exists never gets one. */
  lemma {:induction false} FlagsOnlySpread(t: Tree, events: seq<Event>, d: Pid)
    ensures d in t.has ==> d in Run(t, events).has
    ensures d in t.reapers && d in Run(t, events).has ==> d in t.has
    decreases |events|
  {
    if events != [] {
      var e := events[0];
      if e.SetSubreaper? {
        CallFlagsExactly(t, e.me, e.on, d);
      }
      FlagsOnlySpread(After(t, e), events[1..], d);
    }
  }
}
