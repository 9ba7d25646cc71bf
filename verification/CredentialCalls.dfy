/** What a single user-id call does, as its caller sees it, and what runs can do with the capability. */
module CredentialCalls {
  import opened Errno
  import opened Credentials
  import opened CredentialRuns

  // ----- when a call succeeds -----

  /** Every id asked for has a kernel id; only `setuid` has to ask for one. */
  ghost predicate Understood(m: Mapping, call: Call) {
    match call
    case SetRe(r, e) => (r != NONE ==> r in m.down) && (e != NONE ==> e in m.down)
    case Set(id) => id in m.down
    case SetRes(r, e, s) => (r != NONE ==> r in m.down) && (e != NONE ==> e in m.down) && (s != NONE ==> s in m.down)
    case SetFs(id) => id in m.down
  }

  /** Which of its own ids a task may take over as which, without the capability. */
  ghost predicate OwnIds(m: Mapping, a: Ids, call: Call)
    requires Understood(m, call)
  {
    match call
    case SetRe(r, e) => (r != NONE ==> m.down[r] in {a.r, a.e}) && (e != NONE ==> m.down[e] in {a.r, a.e, a.s})
    case Set(id) => m.down[id] in {a.r, a.s}
    case SetRes(r, e, s) =>
      && (r != NONE ==> m.down[r] in {a.r, a.e, a.s})
      && (e != NONE ==> m.down[e] in {a.r, a.e, a.s})
      && (s != NONE ==> m.down[s] in {a.r, a.e, a.s})
    case SetFs(id) => m.down[id] in {a.r, a.e, a.s, a.f}
  }

  /** The task would get another real id, and needs that user's record. */
  ghost predicate ChangesUser(m: Mapping, a: Ids, call: Call, capable: bool)
    requires Understood(m, call)
  {
    match call
    case SetRe(r, _) => r != NONE && m.down[r] != a.r
    case Set(id) => capable && m.down[id] != a.r
    case SetRes(r, _, _) => r != NONE && m.down[r] != a.r
    case SetFs(_) => false
  }

  /** The result of every call but `setfsuid`, in every environment: the first thing in the way, or zero. */
  lemma UidOutcome(m: Mapping, st: State, call: Call, env: Env)
    requires m.Valid() && !call.SetFs?
    ensures var ret, a := UidStep(m, st, call, env).0, st.cred.Uids();
            if !Understood(m, call) then ret == EINVAL
            else if !env.memory then ret == ENOMEM
            else if !env.capable && !OwnIds(m, a, call) then ret == EPERM
            else if ChangesUser(m, a, call, env.capable) && !env.record then ret == EAGAIN
            else ret == if env.hook < 0 then env.hook else 0
  {
  }

  ghost predicate UserEffect(m: Mapping, a: Ids, call: Call, capable: bool, b: Ids)
    requires Understood(m, call)
  {
    match call
    case SetRe(r, e) =>
      && b.r == (if r == NONE then a.r else m.down[r])
      && b.e == b.f == (if e == NONE then a.e else m.down[e])
      // The saved id is given up, unless all that was asked for is the real id as effective one, or nothing.
      && b.s == (if r == NONE && (e == NONE || m.down[e] == a.r) then a.s else b.e)
    case Set(id) =>
      && b.e == b.f == m.down[id]
      && (if capable then b.r == b.s == m.down[id] else b.r == a.r && b.s == a.s)
    case SetRes(r, e, s) =>
      && b.r == (if r == NONE then a.r else m.down[r])
      && b.e == b.f == (if e == NONE then a.e else m.down[e])
      && b.s == (if s == NONE then a.s else m.down[s])
    case SetFs(id) => b == a.(f := m.down[id])
  }

  /** What a successful call leaves: the ids it was asked for, the user record, and the process-limit flag. */
  lemma UidEffect(m: Mapping, st: State, call: Call, env: Env)
    requires m.Valid() && !call.SetFs? && st.cred.user == st.cred.uid
    requires UidStep(m, st, call, env).0 == 0
    ensures var st' := UidStep(m, st, call, env).1;
            && Understood(m, call) && UserEffect(m, st.cred.Uids(), call, env.capable, st'.cred.Uids())
            && st'.cred.user == st'.cred.uid && st'.cred.Gids() == st.cred.Gids()
            && st'.nprocExceeded == (if st'.cred.uid != st.cred.uid then env.overLimit else st.nprocExceeded)
  {
    UidOutcome(m, st, call, env);
  }

  /** `setfsuid` reports the old id's number whatever happens, and never says whether it did anything. */
  lemma FsOutcome(m: Mapping, st: State, id: Id, env: Env)
    requires m.Valid()
    ensures var (ret, st') := UidStep(m, st, SetFs(id), env);
            var a := st.cred.Uids();
            && (if Named(m, a.f) then ret in m.down && m.down[ret] == a.f else ret == 65534)
            && st'.nprocExceeded == st.nprocExceeded
            && st'.cred ==
               if id in m.down && env.memory && env.hook == 0 && (env.capable || m.down[id] in {a.r, a.e, a.s, a.f})
               then st.cred.(fsuid := m.down[id]) else st.cred
  {
  }

  // ----- giving privileges up -----

  /** After a privileged `setuid` succeeds, no unprivileged run gets any other user id back. */
  lemma SetUidIsFinal(m: Mapping, st: State, u: Id, env: Env, steps: seq<Step>)
    requires m.Valid() && env.capable && Unprivileged(steps)
    requires UidStep(m, st, Set(u), env).0 == 0
    ensures var k := m.Make(u);
            UidRun(m, UidStep(m, st, Set(u), env).1, steps).cred.Uids() == Ids(k, k, k, k)
  {
    RunReaches(m, UidStep(m, st, Set(u), env).1, steps);
  }

  /** Nor after a privileged `setgid` any other group id. */
  lemma SetGidIsFinal(m: Mapping, c: Cred, g: Id, env: Env, steps: seq<Step>)
    requires m.Valid() && env.capable && Unprivileged(steps)
    requires GidStep(m, c, Set(g), env).0 == 0
    ensures var k := m.Make(g);
            GidRun(m, GidStep(m, c, Set(g), env).1, steps).Gids() == Ids(k, k, k, k)
  {
    GidRunReaches(m, GidStep(m, c, Set(g), env).1, steps);
  }

  /** Without the capability `setuid` can be taken back: it leaves the real and the saved id where they were. */
  lemma SetUidIsTemporary(m: Mapping, st: State, u: Id, env: Env, back: Env)
    requires m.Valid() && !env.capable && UidStep(m, st, Set(u), env).0 == 0
    requires !back.capable && back.memory && back.hook == 0
    requires Named(m, st.cred.euid) && st.cred.euid in {st.cred.uid, st.cred.suid}
    ensures var e := st.cred.euid;
            var (ret, st') := UidStep(m, UidStep(m, st, Set(u), env).1, Set(m.up[e]), back);
            ret == 0 && st'.cred.Uids() == st.cred.Uids().(f := e)
  {
  }

  // ----- runs that may use the capability -----

  predicate Gets(m: Mapping, from: Id, to: Id) {
    to == from || Named(m, to)
  }

  /** As without the capability, but every id that has a number can be had. */
  predicate Gains(m: Mapping, a: Ids, b: Ids) {
    || (b == a.(f := b.f) && Gets(m, a.f, b.f))
    || (Gets(m, a.r, b.r) && Gets(m, a.e, b.e) && Gets(m, a.s, b.s) && Gets(m, b.e, b.f))
    || (b.s == a.e && Named(m, b.r) && Gets(m, a.e, b.e) && Gets(m, b.e, b.f))
  }

  lemma GainsTransitive(m: Mapping, a: Ids, b: Ids, c: Ids)
    requires Gains(m, a, b) && Gains(m, b, c)
    ensures Gains(m, a, c)
  {
  }

  lemma StepGains(m: Mapping, st: State, call: Call, env: Env)
    requires m.Valid()
    ensures Gains(m, st.cred.Uids(), UidStep(m, st, call, env).1.cred.Uids())
  {
  }

  lemma {:induction false} RunGains(m: Mapping, st: State, steps: seq<Step>)
    requires m.Valid()
    ensures Gains(m, st.cred.Uids(), UidRun(m, st, steps).cred.Uids())
    decreases |steps|
  {
    if steps != [] {
      hide Gains, UidStep;
      var st' := UidStep(m, st, steps[0].call, steps[0].env).1;
      StepGains(m, st, steps[0].call, steps[0].env);
      RunGains(m, st', steps[1..]);
      GainsTransitive(m, st.cred.Uids(), st'.cred.Uids(), UidRun(m, st, steps).cred.Uids());
    } else {
      var a := st.cred.Uids();
      assert a == a.(f := a.f);
    }
  }

  const PRIVILEGED := Env(true, true, true, false, 0)

  /** The shift first, if there is to be one; then the three ids, then the fourth. */
  function Way(m: Mapping, a: Ids, b: Ids): seq<Step> {
    var fs := [Step(SetFsTo(m, b), PRIVILEGED)];
    if b == a.(f := b.f) && Gets(m, a.f, b.f) then fs
    else if Gets(m, a.r, b.r) && Gets(m, a.e, b.e) && Gets(m, a.s, b.s) then [Step(SetResTo(m, a, b), PRIVILEGED)] + fs
    else if Named(m, b.r) then
      [Step(SetRe(m.up[b.r], NONE), PRIVILEGED)]
      + ([Step(SetResTo(m, Ids(b.r, a.e, a.e, a.e), b), PRIVILEGED)] + fs)
    else fs
  }

  lemma RunFirst(m: Mapping, st: State, call: Call, env: Env, rest: seq<Step>)
    ensures UidRun(m, st, [Step(call, env)] + rest) == UidRun(m, UidStep(m, st, call, env).1, rest)
  {
    assert ([Step(call, env)] + rest)[1..] == rest;
  }

  lemma FsWay(m: Mapping, st: State, b: Ids)
    requires m.Valid() && b == st.cred.Uids().(f := b.f) && Gets(m, st.cred.fsuid, b.f)
    ensures UidRun(m, st, [Step(SetFsTo(m, b), PRIVILEGED)]).cred.Uids() == b
  {
    RunFirst(m, st, SetFsTo(m, b), PRIVILEGED, []);
    assert [Step(SetFsTo(m, b), PRIVILEGED)] + [] == [Step(SetFsTo(m, b), PRIVILEGED)];
  }

  lemma ResWay(m: Mapping, st: State, a: Ids, b: Ids)
    requires m.Valid() && a == st.cred.Uids()
    requires Gets(m, a.r, b.r) && Gets(m, a.e, b.e) && Gets(m, a.s, b.s) && Gets(m, b.e, b.f)
    ensures UidRun(m, st, [Step(SetResTo(m, a, b), PRIVILEGED)] + [Step(SetFsTo(m, b), PRIVILEGED)]).cred.Uids() == b
  {
    var st1 := UidStep(m, st, SetResTo(m, a, b), PRIVILEGED).1;
    RunFirst(m, st, SetResTo(m, a, b), PRIVILEGED, [Step(SetFsTo(m, b), PRIVILEGED)]);
    assert st1.cred.Uids() == Ids(b.r, b.e, b.s, b.e);
    FsWay(m, st1, b);
  }

  /** The ids that runs can end with when any of their calls may have the capability, exactly. */
  lemma PrivilegedReachableExactly(m: Mapping, st: State, b: Ids)
    requires m.Valid()
    ensures Gains(m, st.cred.Uids(), b) <==> exists steps :: UidRun(m, st, steps).cred.Uids() == b
  {
    if Gains(m, st.cred.Uids(), b) {
      WayArrives(m, st, b);
    }
    forall steps | UidRun(m, st, steps).cred.Uids() == b
      ensures Gains(m, st.cred.Uids(), b)
    {
      RunGains(m, st, steps);
    }
  }

  lemma WayArrives(m: Mapping, st: State, b: Ids)
    requires m.Valid() && Gains(m, st.cred.Uids(), b)
    ensures UidRun(m, st, Way(m, st.cred.Uids(), b)).cred.Uids() == b
  {
    var a := st.cred.Uids();
    if b == a.(f := b.f) && Gets(m, a.f, b.f) {
      FsWay(m, st, b);
    } else if Gets(m, a.r, b.r) && Gets(m, a.e, b.e) && Gets(m, a.s, b.s) {
      ResWay(m, st, a, b);
    } else {
      var shift := SetRe(m.up[b.r], NONE);
      var st1, between := UidStep(m, st, shift, PRIVILEGED).1, Ids(b.r, a.e, a.e, a.e);
      assert st1.cred.Uids() == between;
      RunFirst(m, st, shift, PRIVILEGED,
               [Step(SetResTo(m, between, b), PRIVILEGED)] + [Step(SetFsTo(m, b), PRIVILEGED)]);
      ResWay(m, st1, between, b);
    }
  }
}
