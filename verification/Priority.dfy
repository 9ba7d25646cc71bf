/** Setting and reading the nice values of a set of tasks. */
module Priority {
  import opened Errno

  const MIN_NICE := -20
  const MAX_NICE := 19
  const PRIO_PROCESS := 0
  const PRIO_PGRP := 1
  const PRIO_USER := 2

  /**
   * A task as the calls see it. `visible`: it has a number in the caller's namespace.
   * `capNice`, `canNice` and `hook` are what the capability, limit and security checks say about it.
   */
  datatype Task = Task(
    pid: int, pgrp: int, uid: int, euid: int, visible: bool,
    capNice: bool, canNice: bool, hook: int)

  datatype Caller = Caller(pid: int, pgrp: int, uid: int, euid: int)

  datatype Selector = ByPid(pid: int) | ByGroup(pgrp: int) | ByUser(uid: int)

  predicate Selected(t: Task, s: Selector) {
    match s
    case ByPid(pid) => t.pid == pid
    case ByGroup(pgrp) => t.pgrp == pgrp
    case ByUser(uid) => t.uid == uid && t.visible
  }

  /** `kuid` is the kernel's number for the user `who`. Zero always means the caller's own. */
  function SelectorOf(c: Caller, which: int, who: int, kuid: int): Selector {
    if which == PRIO_PROCESS then ByPid(if who == 0 then c.pid else who)
    else if which == PRIO_PGRP then ByGroup(if who == 0 then c.pgrp else who)
    else ByUser(if who == 0 then c.uid else kuid)
  }

  function Clamped(v: int): int {
    if v < MIN_NICE then MIN_NICE else if v > MAX_NICE then MAX_NICE else v
  }

  function NiceToRlimit(nice: int): int {
    MAX_NICE - nice + 1
  }

  // ----- one task -----

  predicate Permitted(c: Caller, t: Task) {
    t.uid == c.euid || t.euid == c.euid || t.capNice
  }

  predicate Accepted(c: Caller, t: Task, nice: int, v: int) {
    Permitted(c, t) && (nice <= v || t.canNice) && t.hook == 0
  }

  /** Why a task is refused. */
  function Refusal(c: Caller, t: Task, nice: int, v: int): int {
    if !Permitted(c, t) then EPERM else if v < nice && !t.canNice then EACCES else t.hook
  }

  // ----- the tasks in the order of the kernel's lists, and their nice values before the call -----

  datatype World = World(caller: Caller, tasks: seq<Task>, nice: seq<int>, sel: Selector, v: int) {
    ghost predicate Valid() {
      |nice| == |tasks| && forall i :: 0 <= i < |nice| ==> MIN_NICE <= nice[i] <= MAX_NICE
    }

    predicate In(i: nat)
      requires i < |tasks|
    {
      Selected(tasks[i], sel)
    }

    predicate Ok(i: nat)
      requires i < |tasks| == |nice|
    {
      Accepted(caller, tasks[i], nice[i], v)
    }

    function Code(i: nat): int
      requires i < |tasks| == |nice|
    {
      Refusal(caller, tasks[i], nice[i], v)
    }

    /** The error the call carries along after the first k tasks. */
    function ErrorAfter(k: nat): int
      requires k <= |tasks| == |nice|
    {
      if k == 0 then ESRCH
      else
        var error := ErrorAfter(k - 1);
        if !In(k - 1) then error
        else if !Ok(k - 1) then Code(k - 1)
        else if error == ESRCH then 0 else error
    }

    /** Accepted tasks change even when the call as a whole reports an error. */
    function NiceAfter(): (r: seq<int>)
      requires |tasks| == |nice|
    {
      seq(|nice|, i requires 0 <= i < |nice| => if In(i) && Ok(i) then v else nice[i])
    }

    ghost predicate AnyIn(from: nat, to: nat)
      requires to <= |tasks|
    {
      exists i :: from <= i < to && In(i)
    }

    /** Task j is selected and refused, and everything selected after it up to k is accepted. */
    ghost predicate LastRefused(j: nat, k: nat)
      requires k <= |tasks| == |nice|
    {
      j < k && In(j) && !Ok(j) && forall i :: j < i < k && In(i) ==> Ok(i)
    }
  }

  // ----- which tasks, which value, which refusal -----

  /** The tasks a call is about: one process, a group or a user, by number or, for zero, the caller's own. */
  lemma SelectedExactly(c: Caller, t: Task, who: int, kuid: int)
    ensures Selected(t, SelectorOf(c, 0, who, kuid)) <==> t.pid == if who == 0 then c.pid else who
    ensures Selected(t, SelectorOf(c, 1, who, kuid)) <==> t.pgrp == if who == 0 then c.pgrp else who
    ensures Selected(t, SelectorOf(c, 2, who, kuid)) <==> t.visible && t.uid == if who == 0 then c.uid else kuid
  {
  }

  function Distance(x: int, y: int): nat {
    if x < y then y - x else x - y
  }

  /** Of the nice values there are, -20 to 19, the one nearest to what was asked for. */
  lemma ClampedIsNearest(v: int, x: int)
    requires -20 <= x <= 19
    ensures -20 <= Clamped(v) <= 19 && Distance(v, Clamped(v)) <= Distance(v, x)
    ensures Distance(v, x) == Distance(v, Clamped(v)) ==> x == Clamped(v)
  {
  }

  /** A task of another user needs the capability, a better priority the task's permission, any change the hook's. */
  lemma AcceptedExactly(w: World, i: nat)
    requires w.Valid() && i < |w.tasks|
    ensures var t := w.tasks[i];
            && (w.Ok(i) <==>
                  && (w.caller.euid in {t.uid, t.euid} || t.capNice)
                  && (w.nice[i] <= w.v || t.canNice) && t.hook == 0)
            && (!w.Ok(i) ==> w.Code(i) == if w.caller.euid !in {t.uid, t.euid} && !t.capNice then EPERM
                                         else if w.v < w.nice[i] && !t.canNice then EACCES else t.hook)
  {
  }

  /** Exactly the tasks both selected and accepted get the value; all others keep theirs. */
  lemma ChangesExactly(w: World, i: nat)
    requires w.Valid() && i < |w.tasks|
    ensures |w.NiceAfter()| == |w.nice|
    ensures w.NiceAfter()[i] == if Selected(w.tasks[i], w.sel) && w.Ok(i) then w.v else w.nice[i]
  {
  }

  lemma {:induction false} NoneRefused(w: World, k: nat)
    requires w.Valid() && k <= |w.tasks|
    requires forall i :: 0 <= i < k && w.In(i) ==> w.Ok(i)
    ensures w.ErrorAfter(k) == if w.AnyIn(0, k) then 0 else ESRCH
  {
    if k != 0 {
      NoneRefused(w, k - 1);
    }
  }

  lemma {:induction false} SomeRefused(w: World, j: nat, k: nat)
    requires w.Valid() && k <= |w.tasks| && w.LastRefused(j, k)
    ensures w.ErrorAfter(k) == if w.Code(j) == ESRCH && w.AnyIn(j + 1, k) then 0 else w.Code(j)
  {
    if j != k - 1 {
      SomeRefused(w, j, k - 1);
    }
  }

  lemma {:induction false} FindLastRefused(w: World, k: nat) returns (j: nat)
    requires w.Valid() && k <= |w.tasks|
    requires exists i :: 0 <= i < k && w.In(i) && !w.Ok(i)
    ensures w.LastRefused(j, k)
  {
    if w.In(k - 1) && !w.Ok(k - 1) {
      j := k - 1;
    } else {
      j := FindLastRefused(w, k - 1);
    }
  }

  /**
   * When `setpriority` reports success: something was selected, and the last task refused, if any,
   * was refused by a hook saying "no such process" and has an accepted one after it.
   */
  lemma SucceedsExactly(w: World)
    requires w.Valid()
    ensures w.ErrorAfter(|w.tasks|) == 0 <==>
            && w.AnyIn(0, |w.tasks|)
            && forall j :: 0 <= j < |w.tasks| && w.LastRefused(j, |w.tasks|) ==>
                 w.Code(j) == ESRCH && w.AnyIn(j + 1, |w.tasks|)
  {
    if exists i :: 0 <= i < |w.tasks| && w.In(i) && !w.Ok(i) {
      var j := FindLastRefused(w, |w.tasks|);
      SomeRefused(w, j, |w.tasks|);
    } else {
      NoneRefused(w, |w.tasks|);
    }
  }

  // Two tasks of one group and one user: a hook answers "no such process" about the first.
  const MISREPORTED: World := World(
    Caller(1, 1, 0, 0),
    [Task(1, 1, 0, 0, true, true, true, ESRCH), Task(2, 1, 0, 0, true, true, true, 0)],
    [0, 0], ByGroup(1), 5)

  /** So a call can report success with a task of the set refused and left as it was. */
  lemma SuccessDespiteRefusal()
    ensures MISREPORTED.Valid() && MISREPORTED.ErrorAfter(2) == 0
    ensures MISREPORTED.In(0) && !MISREPORTED.Ok(0) && MISREPORTED.NiceAfter() == [0, 5]
  {
    var w := MISREPORTED;
    SomeRefused(w, 0, 2);
    assert w.In(1) && w.Ok(1);
  }

  /** With hooks that never say so, success means that all were accepted and there were some. */
  lemma SucceedsWhenAllAccepted(w: World)
    requires w.Valid()
    requires forall i :: 0 <= i < |w.tasks| ==> w.tasks[i].hook != ESRCH
    ensures w.ErrorAfter(|w.tasks|) == 0 <==>
            w.AnyIn(0, |w.tasks|) && forall i :: 0 <= i < |w.tasks| && w.In(i) ==> w.Ok(i)
  {
    if exists i :: 0 <= i < |w.tasks| && w.In(i) && !w.Ok(i) {
      var j := FindLastRefused(w, |w.tasks|);
      SomeRefused(w, j, |w.tasks|);
    } else {
      NoneRefused(w, |w.tasks|);
    }
  }

  /** What `getpriority` reports: the best priority over the set, or that the set is empty. */
  ghost predicate IsPriority(tasks: seq<Task>, nice: seq<int>, sel: Selector, r: int)
    requires |tasks| == |nice|
  {
    if exists i :: 0 <= i < |tasks| && Selected(tasks[i], sel) then
      && (exists i :: 0 <= i < |tasks| && Selected(tasks[i], sel) && r == NiceToRlimit(nice[i]))
      && (forall i :: 0 <= i < |tasks| && Selected(tasks[i], sel) ==> NiceToRlimit(nice[i]) <= r)
    else r == ESRCH
  }

  /** After a successful `setpriority` the same selector reads back as 20 minus the clamped value. */
  lemma SetThenGet(w: World, v0: int, r: int)
    requires w.Valid() && w.v == Clamped(v0)
    requires forall i :: 0 <= i < |w.tasks| ==> w.tasks[i].hook != ESRCH
    requires w.ErrorAfter(|w.tasks|) == 0 && IsPriority(w.tasks, w.NiceAfter(), w.sel, r)
    ensures r == 20 - Clamped(v0)
  {
    SucceedsWhenAllAccepted(w);
    var i :| 0 <= i < |w.tasks| && w.In(i);
    var j :| 0 <= j < |w.tasks| && Selected(w.tasks[j], w.sel) && r == NiceToRlimit(w.NiceAfter()[j]);
    assert w.In(j);
  }

  /** Priorities count the other way round, from 40 for the best to 1, so that none looks like an error. */
  lemma PriorityOfSet(tasks: seq<Task>, nice: seq<int>, sel: Selector, r: int)
    requires |tasks| == |nice| && (forall i :: 0 <= i < |nice| ==> MIN_NICE <= nice[i] <= MAX_NICE)
    requires IsPriority(tasks, nice, sel, r)
    ensures r == ESRCH <==> forall i :: 0 <= i < |tasks| ==> !Selected(tasks[i], sel)
    ensures r != ESRCH ==> 1 <= r <= 40
    ensures forall i :: 0 <= i < |tasks| && Selected(tasks[i], sel) ==> 20 - nice[i] <= r
    ensures r != ESRCH ==> exists i :: 0 <= i < |tasks| && Selected(tasks[i], sel) && r == 20 - nice[i]
  {
  }

  // ----- the calls -----

  class TaskList {
    const tasks: seq<Task>
    var nice: seq<int>

    constructor (tasks: seq<Task>)
      ensures this.tasks == tasks && |nice| == |tasks| && forall i :: 0 <= i < |nice| ==> nice[i] == 0
    {
      this.tasks, nice := tasks, seq(|tasks|, _ => 0);
    }

    ghost predicate Valid()
      reads this
    {
      |nice| == |tasks| && forall i :: 0 <= i < |nice| ==> MIN_NICE <= nice[i] <= MAX_NICE
    }

    ghost predicate DistinctPids() {
      forall i, j :: 0 <= i < j < |tasks| ==> tasks[i].pid != tasks[j].pid
    }

    ghost function Now(c: Caller, sel: Selector, v: int): World
      reads this
    {
      World(c, tasks, nice, sel, v)
    }

    method SetOnePrioPerm(c: Caller, p: nat) returns (ok: bool)
      requires p < |tasks|
      ensures ok <==> Permitted(c, tasks[p])
    {
      if tasks[p].uid == c.euid || tasks[p].euid == c.euid {
        return true;
      }
      if tasks[p].capNice {
        return true;
      }
      return false;
    }

    method SetOnePrio(c: Caller, p: nat, niceval: int, error: int) returns (error': int)
      requires Valid() && p < |tasks| && MIN_NICE <= niceval <= MAX_NICE
      modifies this`nice
      ensures var ok := Accepted(c, tasks[p], old(nice)[p], niceval);
              && nice == (if ok then old(nice)[p := niceval] else old(nice))
              && error' == (if !ok then Refusal(c, tasks[p], old(nice)[p], niceval)
                            else if error == ESRCH then 0 else error)
    {
      error' := error;
      var permitted := SetOnePrioPerm(c, p);
      if !permitted {
        return EPERM;
      }
      if niceval < nice[p] && !tasks[p].canNice {
        return EACCES;
      }
      var noNice := tasks[p].hook;
      if noNice != 0 {
        return noNice;
      }
      if error' == ESRCH {
        error' := 0;
      }
      nice := nice[p := niceval];
    }

    method FindTask(pid: int) returns (p: int)
      ensures p == -1 ==> forall i :: 0 <= i < |tasks| ==> tasks[i].pid != pid
      ensures p != -1 ==> 0 <= p < |tasks| && tasks[p].pid == pid
    {
      p := 0;
      while p < |tasks|
        invariant 0 <= p <= |tasks|
        invariant forall i :: 0 <= i < p ==> tasks[i].pid != pid
      {
        if tasks[p].pid == pid {
          return;
        }
        p := p + 1;
      }
      p := -1;
    }

    /** The loop over a group's or a user's tasks. */
    method SetEach(c: Caller, sel: Selector, niceval: int) returns (error: int)
      requires Valid() && MIN_NICE <= niceval <= MAX_NICE
      modifies this`nice
      ensures var w := old(Now(c, sel, niceval)); error == w.ErrorAfter(|tasks|) && nice == w.NiceAfter()
      ensures Valid()
    {
      ghost var w := Now(c, sel, niceval);
      error := ESRCH;
      var i := 0;
      while i < |tasks|
        invariant 0 <= i <= |tasks| && |nice| == |tasks|
        invariant forall k :: 0 <= k < |nice| ==> nice[k] == if k < i then w.NiceAfter()[k] else w.nice[k]
        invariant Valid() && error == w.ErrorAfter(i)
      {
        if Selected(tasks[i], sel) {
          assert nice[i] == w.nice[i];
          error := SetOnePrio(c, i, niceval, error);
        }
        i := i + 1;
      }
    }

    /** `userKnown`: some record exists for the user asked about; without one the user has no tasks. */
    method SetPriority(c: Caller, which: int, who: int, niceval: int, kuid: int, userKnown: bool)
      returns (error: int)
      requires Valid() && DistinctPids()
      requires userKnown || forall i :: 0 <= i < |tasks| ==> tasks[i].uid != kuid
      modifies this`nice
      ensures Valid()
      ensures which < PRIO_PROCESS || PRIO_USER < which ==> error == EINVAL && nice == old(nice)
      ensures PRIO_PROCESS <= which <= PRIO_USER ==>
                var w := old(Now(c, SelectorOf(c, which, who, kuid), Clamped(niceval)));
                error == w.ErrorAfter(|tasks|) && nice == w.NiceAfter()
    {
      error := EINVAL;
      if which > PRIO_USER || which < PRIO_PROCESS {
        return;
      }
      error := ESRCH;
      var v := niceval;
      if v < MIN_NICE {
        v := MIN_NICE;
      }
      if v > MAX_NICE {
        v := MAX_NICE;
      }
      ghost var w := Now(c, SelectorOf(c, which, who, kuid), v);
      if which == PRIO_PROCESS {
        var p := FindTask(if who != 0 then who else c.pid);
        if p != -1 {
          OnlyOne(w, p);
          error := SetOnePrio(c, p, v, error);
        } else {
          NoneRefused(w, |tasks|);
        }
        assert nice == w.NiceAfter();
      } else if which == PRIO_PGRP {
        error := SetEach(c, ByGroup(if who != 0 then who else c.pgrp), v);
      } else {
        var uid := kuid;
        if who == 0 {
          uid := c.uid;
        } else if uid != c.uid {
          if !userKnown {
            NoneRefused(w, |tasks|);
            assert nice == w.NiceAfter();
            return;
          }
        }
        error := SetEach(c, ByUser(uid), v);
      }
    }

    method GetPriority(c: Caller, which: int, who: int, kuid: int, userKnown: bool) returns (retval: int)
      requires Valid() && DistinctPids()
      requires userKnown || forall i :: 0 <= i < |tasks| ==> tasks[i].uid != kuid
      ensures which < PRIO_PROCESS || PRIO_USER < which ==> retval == EINVAL
      ensures PRIO_PROCESS <= which <= PRIO_USER ==>
                IsPriority(tasks, nice, SelectorOf(c, which, who, kuid), retval)
    {
      if which > PRIO_USER || which < PRIO_PROCESS {
        return EINVAL;
      }
      retval := ESRCH;
      if which == PRIO_PROCESS {
        var p := FindTask(if who != 0 then who else c.pid);
        if p != -1 {
          var niceval := NiceToRlimit(nice[p]);
          if niceval > retval {
            retval := niceval;
          }
        }
      } else if which == PRIO_PGRP {
        retval := BestOf(ByGroup(if who != 0 then who else c.pgrp));
      } else {
        var uid := kuid;
        if who == 0 {
          uid := c.uid;
        } else if uid != c.uid {
          if !userKnown {
            return;
          }
        }
        retval := BestOf(ByUser(uid));
      }
    }

    method BestOf(sel: Selector) returns (retval: int)
      requires Valid()
      ensures IsPriority(tasks, nice, sel, retval)
    {
      retval := ESRCH;
      var i := 0;
      while i < |tasks|
        invariant 0 <= i <= |tasks|
        invariant IsPriority(tasks[..i], nice[..i], sel, retval)
      {
        if Selected(tasks[i], sel) {
          var niceval := NiceToRlimit(nice[i]);
          if niceval > retval {
            retval := niceval;
          }
        }
        i := i + 1;
      }
      assert tasks[..i] == tasks && nice[..i] == nice;
    }
  }

  lemma {:induction false} OnlyOne(w: World, p: nat)
    requires w.Valid() && p < |w.tasks| && w.In(p)
    requires forall i :: 0 <= i < |w.tasks| && w.In(i) ==> i == p
    ensures w.ErrorAfter(|w.tasks|) == if w.Ok(p) then 0 else w.Code(p)
  {
    if w.Ok(p) {
      NoneRefused(w, |w.tasks|);
    } else {
      SomeRefused(w, p, |w.tasks|);
    }
  }
}
