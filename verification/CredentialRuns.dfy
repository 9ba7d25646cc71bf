/** What whole runs of the credential calls can and cannot do. */
module CredentialRuns {
  import opened Errno
  import opened Credentials

  datatype Step = Step(call: Call, env: Env)

  function UidRun(m: Mapping, st: State, steps: seq<Step>): State
    decreases |steps|
  {
    if steps == [] then st else UidRun(m, UidStep(m, st, steps[0].call, steps[0].env).1, steps[1..])
  }

  function GidRun(m: Mapping, c: Cred, steps: seq<Step>): Cred
    decreases |steps|
  {
    if steps == [] then c else GidRun(m, GidStep(m, c, steps[0].call, steps[0].env).1, steps[1..])
  }

  predicate Unprivileged(steps: seq<Step>) {
    forall i :: 0 <= i < |steps| ==> !steps[i].env.capable
  }

  // ----- the user record, and failing calls -----

  /** The user record belongs to the real uid, whatever succeeds or fails on the way. */
  lemma {:induction false} UserRecordFollowsRealUid(m: Mapping, st: State, steps: seq<Step>)
    requires m.Valid() && st.cred.user == st.cred.uid
    ensures var c := UidRun(m, st, steps).cred; c.user == c.uid && c.Gids() == st.cred.Gids()
    decreases |steps|
  {
    if steps != [] {
      UserRecordFollowsRealUid(m, UidStep(m, st, steps[0].call, steps[0].env).1, steps[1..]);
    }
  }

  /**
   * A failing call leaves the credentials alone. It may still move the process-limit flag, and does so
   * only when the hook refuses a new real uid that already has its user record.
   */
  lemma FailedCallKeepsCredentials(m: Mapping, st: State, call: Call, env: Env)
    requires m.Valid() && !call.SetFs?
    ensures var (ret, st') := UidStep(m, st, call, env);
            && (ret < 0 ==> st'.cred == st.cred)
            && (ret < 0 && st'.nprocExceeded != st.nprocExceeded ==>
                  && env.hook == ret && env.record && st'.nprocExceeded == env.overLimit
                  && NewIds(m, st.cred.Uids(), call, env.capable).r != st.cred.uid)
            && (ret >= 0 ==> ret == 0 && st'.cred.Uids() == NewIds(m, st.cred.Uids(), call, env.capable))
  {
  }

  // ----- where unprivileged runs lead -----

  predicate Has(c: Ids, k: Id) {
    k == c.r || k == c.e || k == c.s
  }

  /** Some number in the namespace stands for the id, so that a call can ask for it. */
  predicate Named(m: Mapping, k: Id) {
    k in m.up
  }

  /** An id stays, or becomes one the task has and can name. */
  predicate Moves(m: Mapping, c: Ids, from: Id, to: Id) {
    to == from || (Has(c, to) && Named(m, to))
  }

  /** Only the filesystem id moves. */
  predicate FsOnly(m: Mapping, a: Ids, b: Ids) {
    b == a.(f := b.f) && Moves(m, a, a.f, b.f)
  }

  predicate FsSettled(m: Mapping, b: Ids) {
    Moves(m, b, b.e, b.f)
  }

  /** The three main ids move, each by itself; the filesystem id is then one of the new three. */
  predicate Rearranged(m: Mapping, a: Ids, b: Ids) {
    Moves(m, a, a.r, b.r) && Moves(m, a, a.e, b.e) && Moves(m, a, a.s, b.s) && FsSettled(m, b)
  }

  /** The saved id takes the effective one over, name or no name; only the real id's new value survives with it. */
  predicate Shifted(m: Mapping, a: Ids, b: Ids) {
    b.s == a.e && Has(a, b.r) && Named(m, b.r) && (b.e == a.e || b.e == b.r) && FsSettled(m, b)
  }

  predicate Reaches(m: Mapping, a: Ids, b: Ids) {
    FsOnly(m, a, b) || Rearranged(m, a, b) || Shifted(m, a, b)
  }

  lemma ReachesTransitive(m: Mapping, a: Ids, b: Ids, c: Ids)
    requires Reaches(m, a, b) && Reaches(m, b, c)
    ensures Reaches(m, a, c)
  {
  }

  lemma NewIdsReach(m: Mapping, c: Ids, call: Call)
    requires m.Valid() && ValidArgs(m, call) && Permitted(m, c, call, false)
    ensures Reaches(m, c, NewIds(m, c, call, false))
    ensures call.SetRes? ==> Rearranged(m, c, NewIds(m, c, call, false))
    ensures call.SetFs? ==> FsOnly(m, c, NewIds(m, c, call, false))
  {
  }

  lemma StepReaches(m: Mapping, st: State, call: Call, env: Env)
    requires m.Valid() && !env.capable
    ensures var a, b := st.cred.Uids(), UidStep(m, st, call, env).1.cred.Uids();
            && Reaches(m, a, b)
            && (call.SetRes? ==> a == b || Rearranged(m, a, b))
            && (call.SetFs? ==> FsOnly(m, a, b))
  {
    hide NewIds, Permitted, ValidArgs, Rearranged, Shifted;
    if ValidArgs(m, call) && Permitted(m, st.cred.Uids(), call, false) {
      NewIdsReach(m, st.cred.Uids(), call);
    }
  }

  lemma {:induction false} RunReaches(m: Mapping, st: State, steps: seq<Step>)
    requires m.Valid() && Unprivileged(steps)
    ensures Reaches(m, st.cred.Uids(), UidRun(m, st, steps).cred.Uids())
    decreases |steps|
  {
    if steps != [] {
      var (_, st') := UidStep(m, st, steps[0].call, steps[0].env);
      StepReaches(m, st, steps[0].call, steps[0].env);
      RunReaches(m, st', steps[1..]);
      ReachesTransitive(m, st.cred.Uids(), st'.cred.Uids(), UidRun(m, st, steps).cred.Uids());
    }
  }

  const SMOOTH := Env(false, true, true, false, 0)

  /** The argument that takes an id from one value to another. */
  function Asking(m: Mapping, from: Id, to: Id): Id {
    if to == from || to !in m.up then NONE else m.up[to]
  }

  function SetFsTo(m: Mapping, b: Ids): Call {
    SetFs(if b.f in m.up then m.up[b.f] else NONE)
  }

  function SetResTo(m: Mapping, a: Ids, b: Ids): Call {
    SetRes(Asking(m, a.r, b.r), Asking(m, a.e, b.e), Asking(m, a.s, b.s))
  }

  /** One `setfsuid`, or one `setresuid` and one `setfsuid`. */
  function Short(m: Mapping, a: Ids, b: Ids): seq<Step> {
    var fs := Step(SetFsTo(m, b), SMOOTH);
    if FsOnly(m, a, b) then [fs] else [Step(SetResTo(m, a, b), SMOOTH), fs]
  }

  /** The real id first, so that `setreuid` on it drags the effective id into the saved one. */
  function Dragging(m: Mapping, a: Ids, b: Ids): seq<Step>
    requires Named(m, b.r)
  {
    var dragged := Ids(b.r, a.e, a.e, a.e);
    [Step(SetRes(m.up[b.r], NONE, NONE), SMOOTH), Step(SetRe(m.up[b.r], NONE), SMOOTH),
     Step(SetResTo(m, dragged, b), SMOOTH), Step(SetFsTo(m, b), SMOOTH)]
  }

  /** What the four ids become when nothing but the rules decides; the record follows the real id. */
  predicate Arrives(m: Mapping, st: State, steps: seq<Step>, b: Ids) {
    UidRun(m, st, steps).cred == st.cred.WithUids(b).(user := b.r)
  }

  lemma RunOne(m: Mapping, st: State, call: Call, rest: seq<Step>)
    ensures UidRun(m, st, [Step(call, SMOOTH)] + rest) == UidRun(m, UidStep(m, st, call, SMOOTH).1, rest)
  {
    assert ([Step(call, SMOOTH)] + rest)[1..] == rest;
  }

  /** A permitted call arrives at its new ids. */
  lemma OneCall(m: Mapping, st: State, call: Call)
    requires m.Valid() && st.cred.user == st.cred.uid
    requires ValidArgs(m, call) && Permitted(m, st.cred.Uids(), call, false)
    ensures var c := UidStep(m, st, call, SMOOTH).1.cred;
            var n := NewIds(m, st.cred.Uids(), call, false);
            c == st.cred.WithUids(n).(user := n.r)
  {
  }

  lemma FsArrives(m: Mapping, st: State, b: Ids)
    requires m.Valid() && st.cred.user == st.cred.uid && FsOnly(m, st.cred.Uids(), b)
    ensures Arrives(m, st, [Step(SetFsTo(m, b), SMOOTH)], b)
  {
    RunOne(m, st, SetFsTo(m, b), []);
    assert [Step(SetFsTo(m, b), SMOOTH)] + [] == [Step(SetFsTo(m, b), SMOOTH)];
  }

  lemma RearrangedArrives(m: Mapping, st: State, b: Ids)
    requires m.Valid() && st.cred.user == st.cred.uid && Rearranged(m, st.cred.Uids(), b)
    ensures Arrives(m, st, [Step(SetResTo(m, st.cred.Uids(), b), SMOOTH), Step(SetFsTo(m, b), SMOOTH)], b)
  {
    var call, fs := SetResTo(m, st.cred.Uids(), b), Step(SetFsTo(m, b), SMOOTH);
    OneCall(m, st, call);
    RunOne(m, st, call, [fs]);
    var st1 := UidStep(m, st, call, SMOOTH).1;
    assert st1.cred.Uids() == Ids(b.r, b.e, b.s, b.e);
    FsArrives(m, st1, b);
    assert [Step(call, SMOOTH)] + [fs] == [Step(call, SMOOTH), fs];
  }

  lemma ShiftedArrives(m: Mapping, st: State, b: Ids)
    requires m.Valid() && st.cred.user == st.cred.uid && Shifted(m, st.cred.Uids(), b)
    ensures Arrives(m, st, Dragging(m, st.cred.Uids(), b), b)
  {
    var a, steps := st.cred.Uids(), Dragging(m, st.cred.Uids(), b);
    OneCall(m, st, steps[0].call);
    RunOne(m, st, steps[0].call, steps[1..]);
    var st1 := UidStep(m, st, steps[0].call, SMOOTH).1;
    OneCall(m, st1, steps[1].call);
    RunOne(m, st1, steps[1].call, steps[2..]);
    var st2 := UidStep(m, st1, steps[1].call, SMOOTH).1;
    assert st2.cred.Uids() == Ids(b.r, a.e, a.e, a.e);
    RearrangedArrives(m, st2, b);
    assert steps == [steps[0]] + steps[1..] && steps[1..] == [steps[1]] + steps[2..];
    assert steps[2..] == [steps[2], steps[3]];
  }

  /**
   * The ids an unprivileged run can end with, exactly, in any namespace. The run may meet failing
   * hooks and allocations; the calls that prove an end reachable do not need to.
   */
  lemma ReachableExactly(m: Mapping, st: State, b: Ids)
    requires m.Valid() && st.cred.user == st.cred.uid
    ensures Reaches(m, st.cred.Uids(), b) <==>
            exists steps :: Unprivileged(steps) && UidRun(m, st, steps).cred.Uids() == b
  {
    if Reaches(m, st.cred.Uids(), b) {
      var steps := Witness(m, st, b);
    }
    forall steps | Unprivileged(steps) && UidRun(m, st, steps).cred.Uids() == b
      ensures Reaches(m, st.cred.Uids(), b)
    {
      RunReaches(m, st, steps);
    }
  }

  lemma Witness(m: Mapping, st: State, b: Ids) returns (steps: seq<Step>)
    requires m.Valid() && st.cred.user == st.cred.uid && Reaches(m, st.cred.Uids(), b)
    ensures Unprivileged(steps) && Arrives(m, st, steps, b) && UidRun(m, st, steps).cred.Uids() == b
  {
    var a := st.cred.Uids();
    if FsOnly(m, a, b) {
      steps := Short(m, a, b);
      FsArrives(m, st, b);
    } else if Rearranged(m, a, b) {
      steps := Short(m, a, b);
      RearrangedArrives(m, st, b);
    } else {
      steps := Dragging(m, a, b);
      ShiftedArrives(m, st, b);
    }
  }

  // ----- the normal form -----

  /** One `setfsuid` alone, or after one `setresuid`, without privilege or trouble. */
  predicate IsShort(steps: seq<Step>) {
    && (forall i :: 0 <= i < |steps| ==> steps[i].env == SMOOTH)
    && (|steps| == 1 || (|steps| == 2 && steps[0].call.SetRes?))
    && steps[|steps| - 1].call.SetFs?
  }

  /** An end has a short way exactly when it is not a shift under an unnamed effective id. */
  lemma ShortWayExactly(m: Mapping, st: State, b: Ids)
    requires m.Valid() && st.cred.user == st.cred.uid
    ensures FsOnly(m, st.cred.Uids(), b) || Rearranged(m, st.cred.Uids(), b) <==>
            exists steps :: IsShort(steps) && Arrives(m, st, steps, b)
  {
    var a := st.cred.Uids();
    if FsOnly(m, a, b) {
      FsArrives(m, st, b);
      assert IsShort([Step(SetFsTo(m, b), SMOOTH)]);
    } else if Rearranged(m, a, b) {
      RearrangedArrives(m, st, b);
      assert IsShort([Step(SetResTo(m, a, b), SMOOTH), Step(SetFsTo(m, b), SMOOTH)]);
    }
    forall steps | IsShort(steps) && Arrives(m, st, steps, b)
      ensures FsOnly(m, a, b) || Rearranged(m, a, b)
    {
      ShortWayLeads(m, st, steps);
    }
  }

  lemma ShortWayLeads(m: Mapping, st: State, steps: seq<Step>)
    requires m.Valid() && IsShort(steps)
    ensures var a, b := st.cred.Uids(), UidRun(m, st, steps).cred.Uids(); FsOnly(m, a, b) || Rearranged(m, a, b)
  {
    var st1 := UidStep(m, st, steps[0].call, SMOOTH).1;
    assert steps == [steps[0]] + steps[1..];
    RunOne(m, st, steps[0].call, steps[1..]);
    StepReaches(m, st, steps[0].call, SMOOTH);
    if |steps| == 2 {
      assert steps[1..] == [steps[1]] + [];
      RunOne(m, st1, steps[1].call, []);
      StepReaches(m, st1, steps[1].call, SMOOTH);
      var c, b := st1.cred.Uids(), UidRun(m, st, steps).cred.Uids();
      hide UidStep, UidRun;
      ThenFs(m, st.cred.Uids(), c, b);
    }
  }

  lemma ThenFs(m: Mapping, a: Ids, c: Ids, b: Ids)
    requires a == c || Rearranged(m, a, c)
    requires FsOnly(m, c, b)
    ensures FsOnly(m, a, b) || Rearranged(m, a, b)
  {
  }

  /**
   * When every unprivileged run ends where a short way ends: always, unless the effective id has no
   * name, differs from the saved one, and the real or the saved id does have a name.
   */
  lemma NormalFormExactly(m: Mapping, st: State)
    requires m.Valid() && st.cred.user == st.cred.uid
    ensures var a := st.cred.Uids();
            (forall steps :: Unprivileged(steps) ==>
               exists short :: IsShort(short) && UidRun(m, st, short).cred == UidRun(m, st, steps).cred)
            <==> Named(m, a.e) || a.e == a.s || (!Named(m, a.r) && !Named(m, a.s))
  {
    var a := st.cred.Uids();
    if Named(m, a.e) || a.e == a.s || (!Named(m, a.r) && !Named(m, a.s)) {
      forall steps | Unprivileged(steps)
        ensures exists short :: IsShort(short) && UidRun(m, st, short).cred == UidRun(m, st, steps).cred
      {
        var b := UidRun(m, st, steps).cred.Uids();
        RunReaches(m, st, steps);
        UserRecordFollowsRealUid(m, st, steps);
        ShortWayExactly(m, st, b);
        var short :| IsShort(short) && Arrives(m, st, short, b);
      }
    } else {
      var k := if Named(m, a.r) then a.r else a.s;
      var b := Ids(k, a.e, a.e, a.e);
      var steps := Witness(m, st, b);
      forall short | IsShort(short)
        ensures UidRun(m, st, short).cred != UidRun(m, st, steps).cred
      {
        ShortWayLeads(m, st, short);
      }
    }
  }

  // A namespace with a number for one user only, and a task whose real id alone is that user's.
  const ONE_USER := Mapping(map[0 := 1000], map[1000 := 0])
  const VISITOR := State(Cred(1000, 2000, 3000, 2000, 1000, 0, 0, 0, 0), false)
  const VISITED := Ids(1000, 2000, 2000, 2000)

  /** `setreuid` on the real id takes the visitor where no short way leads: the effective id is saved. */
  lemma VisitorGoesFurther()
    ensures ONE_USER.Valid()
    ensures exists steps :: Unprivileged(steps) && UidRun(ONE_USER, VISITOR, steps).cred.Uids() == VISITED
    ensures forall short :: IsShort(short) ==> UidRun(ONE_USER, VISITOR, short).cred.Uids() != VISITED
  {
    ReachableExactly(ONE_USER, VISITOR, VISITED);
    forall short | IsShort(short)
      ensures UidRun(ONE_USER, VISITOR, short).cred.Uids() != VISITED
    {
      ShortWayLeads(ONE_USER, VISITOR, short);
    }
  }

  // ----- dropping privileges for good -----

  /** After `setreuid(u, u)` succeeds, no unprivileged run changes any of the four ids. */
  lemma DropIsFinal(m: Mapping, st: State, u: Id, env: Env, steps: seq<Step>)
    requires m.Valid() && u != NONE && Unprivileged(steps)
    requires UidStep(m, st, SetRe(u, u), env).0 == 0
    ensures var k := m.Make(u);
            UidRun(m, UidStep(m, st, SetRe(u, u), env).1, steps).cred.Uids() == Ids(k, k, k, k)
  {
    RunReaches(m, UidStep(m, st, SetRe(u, u), env).1, steps);
  }

  /** Nothing can change without privilege exactly when the ids agree, or none of them can be named. */
  lemma FrozenExactly(m: Mapping, st: State)
    requires m.Valid() && st.cred.user == st.cred.uid
    ensures (forall steps :: Unprivileged(steps) ==> UidRun(m, st, steps).cred.Uids() == st.cred.Uids())
            <==> var c := st.cred.Uids();
                 c.f == c.e && (c.r == c.e == c.s || !(Named(m, c.r) || Named(m, c.e) || Named(m, c.s)))
  {
    var c := st.cred.Uids();
    if c.f == c.e && (c.r == c.e == c.s || !(Named(m, c.r) || Named(m, c.e) || Named(m, c.s))) {
      forall steps | Unprivileged(steps)
        ensures UidRun(m, st, steps).cred.Uids() == c
      {
        RunReaches(m, st, steps);
      }
    } else {
      var k := if Named(m, c.r) then c.r else if Named(m, c.e) then c.e else c.s;
      var b := if c.f != c.e then c.(f := c.e) else Ids(k, k, k, k);
      var steps := Witness(m, st, b);
    }
  }

  // ----- groups behave as users do -----

  /** Nothing beyond the rules gets in the way of the user-id call. */
  predicate Unhindered(env: Env) {
    env.record && env.hook == 0
  }

  lemma StepsCorrespond(m: Mapping, st: State, c: Cred, call: Call, env: Env)
    requires m.Valid() && Unhindered(env) && st.cred.Uids() == c.Gids()
    ensures UidStep(m, st, call, env).0 == GidStep(m, c, call, env).0
    ensures UidStep(m, st, call, env).1.cred.Uids() == GidStep(m, c, call, env).1.Gids()
  {
  }

  lemma {:induction false} RunsCorrespond(m: Mapping, st: State, c: Cred, steps: seq<Step>)
    requires m.Valid() && st.cred.Uids() == c.Gids()
    requires forall i :: 0 <= i < |steps| ==> Unhindered(steps[i].env)
    ensures UidRun(m, st, steps).cred.Uids() == GidRun(m, c, steps).Gids()
    decreases |steps|
  {
    if steps != [] {
      StepsCorrespond(m, st, c, steps[0].call, steps[0].env);
      var (call, env) := (steps[0].call, steps[0].env);
      RunsCorrespond(m, UidStep(m, st, call, env).1, GidStep(m, c, call, env).1, steps[1..]);
    }
  }

  /** So run theorems carry over: group ids too only rearrange, whatever the user side's hooks would say. */
  lemma GidRunReaches(m: Mapping, c: Cred, steps: seq<Step>)
    requires m.Valid() && Unprivileged(steps)
    ensures Reaches(m, c.Gids(), GidRun(m, c, steps).Gids())
    ensures GidRun(m, c, steps).Uids() == c.Uids() && GidRun(m, c, steps).user == c.user
  {
    var freed := seq(|steps|, i requires 0 <= i < |steps| =>
      Step(steps[i].call, steps[i].env.(record := true, hook := 0)));
    GidRunIgnoresHooks(m, c, steps, freed);
    var st := State(c.WithUids(c.Gids()), false);
    RunsCorrespond(m, st, c, freed);
    RunReaches(m, st, freed);
    GidRunKeepsUids(m, c, steps);
  }

  lemma {:induction false} GidRunIgnoresHooks(m: Mapping, c: Cred, steps: seq<Step>, freed: seq<Step>)
    requires |steps| == |freed|
    requires forall i :: 0 <= i < |steps| ==>
               && freed[i].call == steps[i].call
               && freed[i].env == steps[i].env.(record := true, hook := 0)
    ensures GidRun(m, c, steps) == GidRun(m, c, freed)
    decreases |steps|
  {
    if steps != [] {
      GidRunIgnoresHooks(m, GidStep(m, c, steps[0].call, steps[0].env).1, steps[1..], freed[1..]);
    }
  }

  lemma {:induction false} GidRunKeepsUids(m: Mapping, c: Cred, steps: seq<Step>)
    ensures GidRun(m, c, steps).Uids() == c.Uids() && GidRun(m, c, steps).user == c.user
    decreases |steps|
  {
    if steps != [] {
      GidRunKeepsUids(m, GidStep(m, c, steps[0].call, steps[0].env).1, steps[1..]);
    }
  }
}
