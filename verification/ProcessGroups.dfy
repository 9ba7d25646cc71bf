/** Process groups and sessions. */
module ProcessGroups {
  import opened Errno

  type Pid = int

  /** `parent` is the process that has the real parent as one of its threads; `noExec` says forked, not yet execed. */
  datatype Proc = Proc(parent: Pid, pgrp: Pid, session: Pid, leader: bool, noExec: bool)

  /** The live processes by number, and their further threads, each with the process it belongs to. */
  datatype System = System(procs: map<Pid, Proc>, threads: map<Pid, Pid>)

  // ----- what always holds -----

  ghost predicate Inv(s: System) {
    && (forall p :: p in s.procs ==> 0 < p && p !in s.threads)
    && (forall t :: t in s.threads ==> 0 < t)
    && GroupsWithinSessions(s) && OwnGroupInOwnSession(s) && LeadersLead(s)
  }

  /** A process group never spans sessions. */
  ghost predicate GroupsWithinSessions(s: System) {
    forall p, q :: p in s.procs && q in s.procs && s.procs[p].pgrp == s.procs[q].pgrp
      ==> s.procs[p].session == s.procs[q].session
  }

  /** The group that carries a live process's number is in that process's session. */
  ghost predicate OwnGroupInOwnSession(s: System) {
    forall p, q :: p in s.procs && q in s.procs && s.procs[q].pgrp == p
      ==> s.procs[q].session == s.procs[p].session
  }

  /** A session leader, and nobody else, is in the session of its own number; it stays in its own group. */
  ghost predicate LeadersLead(s: System) {
    forall p :: p in s.procs ==>
      && (s.procs[p].leader <==> s.procs[p].session == p)
      && (s.procs[p].leader ==> s.procs[p].pgrp == p)
  }

  // ----- the calls -----

  ghost predicate GroupInSession(s: System, pgid: Pid, session: Pid) {
    exists g :: g in s.procs && s.procs[g].pgrp == pgid && s.procs[g].session == session
  }

  ghost function SetPgidResult(s: System, me: Pid, pid0: Pid, pgid0: Pid, hook: int): (int, System)
    requires me in s.procs
  {
    var pid := if pid0 == 0 then me else pid0;
    var pgid := if pgid0 == 0 then pid else pgid0;
    if pgid < 0 then (EINVAL, s)
    else if pid in s.threads then (EINVAL, s)
    else if pid !in s.procs then (ESRCH, s)
    else
      var p := s.procs[pid];
      if p.parent == me && p.session != s.procs[me].session then (EPERM, s)
      else if p.parent == me && !p.noExec then (EACCES, s)
      else if p.parent != me && pid != me then (ESRCH, s)
      else if p.leader then (EPERM, s)
      else if pgid != pid && !GroupInSession(s, pgid, s.procs[me].session) then (EPERM, s)
      else if hook != 0 then (hook, s)
      else (0, s.(procs := s.procs[pid := p.(pgrp := pgid)]))
  }

  function Lead(s: System, me: Pid): System
    requires me in s.procs
  {
    s.(procs := s.procs[me := s.procs[me].(leader := true, session := me, pgrp := me)])
  }

  ghost function SetSidResult(s: System, me: Pid): (int, System)
    requires me in s.procs
  {
    if s.procs[me].leader || exists q :: q in s.procs && s.procs[q].pgrp == me then (EPERM, s)
    else (me, Lead(s, me))
  }

  /** The kernel's table of tasks. `me` is always the process whose thread makes the call. */
  class ProcessTable {
    var procs: map<Pid, Proc>
    var threads: map<Pid, Pid>

    constructor (init: Pid)
      requires 0 < init
      ensures Inv(Now()) && procs.Keys == {init} && procs[init].leader && threads == map[]
    {
      procs := map[init := Proc(0, init, init, true, false)];
      threads := map[];
    }

    ghost function Now(): System
      reads this
    {
      System(procs, threads)
    }

    method SetPgid(me: Pid, pid0: Pid, pgid0: Pid, hook: int) returns (err: int)
      requires Inv(Now()) && me in procs
      modifies this`procs
      ensures (err, Now()) == SetPgidResult(old(Now()), me, pid0, pgid0, hook)
    {
      var pid, pgid := pid0, pgid0;
      if pid == 0 {
        pid := me;
      }
      if pgid == 0 {
        pgid := pid;
      }
      if pgid < 0 {
        return EINVAL;
      }
      if pid !in procs && pid !in threads {
        return ESRCH;
      }
      if pid in threads {
        return EINVAL;
      }
      var p := procs[pid];
      if p.parent == me {
        if p.session != procs[me].session {
          return EPERM;
        }
        if !p.noExec {
          return EACCES;
        }
      } else {
        if pid != me {
          return ESRCH;
        }
      }
      if p.leader {
        return EPERM;
      }
      if pgid != pid {
        // The kernel looks at one member of the group only; which one makes no difference.
        if !exists g :: g in procs && procs[g].pgrp == pgid {
          return EPERM;
        }
        var g :| g in procs && procs[g].pgrp == pgid;
        if procs[g].session != procs[me].session {
          return EPERM;
        }
      }
      if hook != 0 {
        return hook;
      }
      if p.pgrp != pgid {
        procs := procs[pid := p.(pgrp := pgid)];
      }
      assert procs == old(procs)[pid := p.(pgrp := pgid)];
      err := 0;
    }

    method SetSid(me: Pid) returns (err: int)
      requires Inv(Now()) && me in procs
      modifies this`procs
      ensures (err, Now()) == SetSidResult(old(Now()), me)
    {
      if procs[me].leader {
        return EPERM;
      }
      if exists q :: q in procs && procs[q].pgrp == me {
        return EPERM;
      }
      procs := procs[me := procs[me].(leader := true)];
      SetSpecialPids(me);
      assert procs == Lead(old(Now()), me).procs;
      err := me;
    }

    method SetSpecialPids(me: Pid)
      requires me in procs
      modifies this`procs
      ensures procs == old(procs)[me := old(procs)[me].(session := me, pgrp := me)]
    {
      if procs[me].session != me {
        procs := procs[me := procs[me].(session := me)];
      }
      if procs[me].pgrp != me {
        procs := procs[me := procs[me].(pgrp := me)];
      }
    }
  }

  // ----- runs -----

  /** The rest of a process's life is not in this file's source; only its effect on the ids matters here. */
  datatype Event =
    | SetPgid(me: Pid, pid: Pid, pgid: Pid, hook: int)
    | SetSid(me: Pid)
    | Fork(me: Pid, parent: Pid, child: Pid)
    | Thread(me: Pid, tid: Pid)
    | Exec(me: Pid)
    | Exit(me: Pid, reaper: Pid)

  /** A number is handed out only while nothing is called by it. */
  ghost predicate Fresh(s: System, n: Pid) {
    && 0 < n && n !in s.procs && n !in s.threads
    && forall p :: p in s.procs ==> s.procs[p].pgrp != n && s.procs[p].session != n
  }

  /** What an event makes of the system; one that cannot happen leaves it as it is. */
  ghost function After(s: System, e: Event): System {
    if e.me !in s.procs then s
    else
      match e
      case SetPgid(me, pid, pgid, hook) => SetPgidResult(s, me, pid, pgid, hook).1
      case SetSid(me) => SetSidResult(s, me).1
      case Fork(me, parent, child) =>
        if !Fresh(s, child) then s
        else s.(procs := s.procs[child := s.procs[me].(parent := parent, leader := false, noExec := true)])
      case Thread(me, tid) => if !Fresh(s, tid) then s else s.(threads := s.threads[tid := me])
      case Exec(me) =>
        System(s.procs[me := s.procs[me].(noExec := false)], WithoutThreads(s.threads, me))
      case Exit(me, reaper) =>
        System(map p | p in s.procs && p != me :: Reparented(s.procs[p], me, reaper), WithoutThreads(s.threads, me))
  }

  function WithoutThreads(threads: map<Pid, Pid>, me: Pid): map<Pid, Pid> {
    map t | t in threads && threads[t] != me :: threads[t]
  }

  function Reparented(p: Proc, from: Pid, to: Pid): Proc {
    if p.parent == from then p.(parent := to) else p
  }

  ghost function Run(s: System, events: seq<Event>): System
    decreases |events|
  {
    if events == [] then s else Run(After(s, events[0]), events[1..])
  }

  lemma SetPgidKeepsInv(s: System, me: Pid, pid: Pid, pgid: Pid, hook: int)
    requires Inv(s) && me in s.procs
    ensures Inv(SetPgidResult(s, me, pid, pgid, hook).1)
  {
  }

  lemma SetSidKeepsInv(s: System, me: Pid)
    requires Inv(s) && me in s.procs
    ensures Inv(SetSidResult(s, me).1)
  {
  }

  // ----- what a caller can rely on -----

  /** Zero stands for the caller's own number, and for the process's own number as its group. */
  function Target(me: Pid, pid: Pid): Pid {
    if pid == 0 then me else pid
  }

  function Wanted(me: Pid, pid: Pid, pgid: Pid): Pid {
    if pgid == 0 then Target(me, pid) else pgid
  }

  /** A process may be put into a group of its own, or into one that the caller's session already has. */
  ghost predicate NewOrHere(s: System, me: Pid, p: Pid, g: Pid)
    requires me in s.procs
  {
    g == p || exists q :: q in s.procs && s.procs[q].pgrp == g && s.procs[q].session == s.procs[me].session
  }

  /** The result of `setpgid` in every case: the first thing in the way, or zero. */
  lemma SetPgidOutcome(s: System, me: Pid, pid: Pid, pgid: Pid, hook: int)
    requires Inv(s) && me in s.procs
    ensures var err, p, g := SetPgidResult(s, me, pid, pgid, hook).0, Target(me, pid), Wanted(me, pid, pgid);
            if g < 0 || p in s.threads then err == EINVAL
            else if p !in s.procs || (p != me && s.procs[p].parent != me) then err == ESRCH
            else if s.procs[p].parent == me && s.procs[p].session != s.procs[me].session then err == EPERM
            else if s.procs[p].parent == me && !s.procs[p].noExec then err == EACCES
            else if s.procs[p].session == p || !NewOrHere(s, me, p, g) then err == EPERM
            else err == hook
  {
  }

  /** A zero result puts that process into that group; nothing else moves, and any other result moves nothing. */
  lemma SetPgidMoves(s: System, me: Pid, pid: Pid, pgid: Pid, hook: int)
    requires me in s.procs
    ensures var (err, t) := SetPgidResult(s, me, pid, pgid, hook);
            var p, g := Target(me, pid), Wanted(me, pid, pgid);
            && (err != 0 ==> t == s)
            && (err == 0 ==>
                  && p in s.procs && t.procs.Keys == s.procs.Keys && t.threads == s.threads
                  && t.procs[p] == s.procs[p].(pgrp := g)
                  && forall q :: q in s.procs && q != p ==> t.procs[q] == s.procs[q])
  {
  }

  /**
   * A parent can move a child exactly while it has not execed, is in the parent's session and does not
   * lead one, and only into a group of its own or one of that session.
   */
  lemma ParentMovesChildExactly(s: System, me: Pid, child: Pid, pgid: Pid)
    requires Inv(s) && me in s.procs && child in s.procs && child != me && s.procs[child].parent == me && 0 <= pgid
    ensures SetPgidResult(s, me, child, pgid, 0).0 == 0 <==>
            && s.procs[child].noExec && s.procs[child].session == s.procs[me].session != child
            && (pgid == 0 || NewOrHere(s, me, child, pgid))
  {
    SetPgidOutcome(s, me, child, pgid, 0);
  }

  /** `setsid` succeeds exactly for a process that leads no session and whose number no group has. */
  lemma SetSidOutcome(s: System, me: Pid)
    requires Inv(s) && me in s.procs
    ensures var (ret, t) := SetSidResult(s, me);
            if s.procs[me].session != me && forall q :: q in s.procs ==> s.procs[q].pgrp != me then
              && ret == me && t.procs.Keys == s.procs.Keys && t.threads == s.threads
              && t.procs[me] == s.procs[me].(leader := true, session := me, pgrp := me)
              && forall q :: q in s.procs && q != me ==> t.procs[q] == s.procs[q]
            else ret == EPERM && t == s
  {
  }

  /** Fork hands group and session on, and no other event of a process's life moves anybody. */
  lemma LifeMovesNobody(s: System, e: Event)
    requires Inv(s) && e.me in s.procs && !e.SetPgid? && !e.SetSid?
    ensures var t := After(s, e);
            && (forall p :: p in s.procs && (p != e.me || !e.Exit?) ==>
                  && p in t.procs && t.procs[p].pgrp == s.procs[p].pgrp && t.procs[p].session == s.procs[p].session
                  && t.procs[p].noExec == (s.procs[p].noExec && (p != e.me || !e.Exec?))
                  && t.procs[p].parent ==
                     if e.Exit? && s.procs[p].parent == e.me then e.reaper else s.procs[p].parent)
            && (forall x :: x in t.threads <==>
                  if e.Thread? && x == e.tid && Fresh(s, x) then true
                  else x in s.threads && !((e.Exec? || e.Exit?) && s.threads[x] == e.me))
            && (e.Fork? && Fresh(s, e.child) ==>
                  && t.procs.Keys == s.procs.Keys + {e.child} && e.me in t.procs
                  && t.procs[e.child] == Proc(e.parent, s.procs[e.me].pgrp, s.procs[e.me].session, false, true))
            && (e.Exit? ==> t.procs.Keys == s.procs.Keys - {e.me})
            && (!(e.Fork? && Fresh(s, e.child)) && !e.Exit? ==> t.procs.Keys == s.procs.Keys)
  {
  }

  /** A child just forked can always lead a session of its own, whatever its parent leads. */
  lemma ForkedChildCanLead(s: System, me: Pid, parent: Pid, child: Pid)
    requires Inv(s) && me in s.procs && Fresh(s, child)
    ensures SetSidResult(After(s, Fork(me, parent, child)), child).0 == child
  {
    var e := Fork(me, parent, child);
    LifeMovesNobody(s, e);
    LifeKeepsInv(s, e);
    SetSidOutcome(After(s, e), child);
  }

  lemma EventKeepsInv(s: System, e: Event)
    requires Inv(s)
    ensures Inv(After(s, e))
  {
    match e {
      case SetPgid(me, pid, pgid, hook) =>
        hide Inv;
        if me in s.procs {
          SetPgidKeepsInv(s, me, pid, pgid, hook);
        }
      case SetSid(me) =>
        hide Inv;
        if me in s.procs {
          SetSidKeepsInv(s, me);
        }
      case _ =>
        LifeKeepsInv(s, e);
    }
  }

  /** A new process or thread shares group and session; exec and exit move nobody. */
  lemma LifeKeepsInv(s: System, e: Event)
    requires Inv(s) && !e.SetPgid? && !e.SetSid?
    ensures Inv(After(s, e))
  {
  }

  /** Groups stay within sessions over every run. */
  lemma {:induction false} RunKeepsInv(s: System, events: seq<Event>)
    requires Inv(s)
    ensures Inv(Run(s, events))
    decreases |events|
  {
    if events != [] {
      EventKeepsInv(s, events[0]);
      RunKeepsInv(After(s, events[0]), events[1..]);
    }
  }

  /** As long as a process lives it changes session at most once, by becoming the leader of its own. */
  lemma {:induction false} SessionChangesOnce(s: System, events: seq<Event>, p: Pid)
    requires Inv(s) && p in s.procs
    requires forall i :: 0 <= i < |events| ==> !(events[i].Exit? && events[i].me == p)
    ensures p in Run(s, events).procs
    ensures var now := Run(s, events).procs[p];
            && (now.session == s.procs[p].session || now.session == p)
            && (s.procs[p].leader ==> now.leader && now.pgrp == now.session == p)
    decreases |events|
  {
    if events != [] {
      EventKeepsInv(s, events[0]);
      SessionChangesOnce(After(s, events[0]), events[1..], p);
    }
  }

  /**
   * The guard of `setsid`: without it the call would break up a group between sessions
   * exactly when some other process is in the group of the caller's number.
   */
  lemma GuardExactly(s: System, me: Pid)
    requires Inv(s) && me in s.procs && !s.procs[me].leader
    ensures Inv(Lead(s, me)) <==> forall q :: q in s.procs && q != me ==> s.procs[q].pgrp != me
  {
    var t := Lead(s, me);
    if Inv(t) {
      forall q | q in s.procs && q != me
        ensures s.procs[q].pgrp != me
      {
        var other, mine, mine' := s.procs[q], s.procs[me], t.procs[me];
        assert t.procs[q] == other && mine'.pgrp == mine'.session == me;
        assert other.pgrp == me ==> other.session == mine.session;
        assert other.pgrp == mine'.pgrp ==> other.session == mine'.session;
      }
    }
  }
}
