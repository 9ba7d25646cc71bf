/** Resource limits, and their conversion between the width of a long and 64 bits. */
module Rlimit {
  import opened Errno
  import opened Options

  const RLIMIT_CPU: nat := 0
  const RLIMIT_NOFILE: nat := 7
  const RLIM_NLIMITS: nat := 16

  datatype Arch = Bits32 | Bits64

  function UlongMax(a: Arch): nat {
    if a.Bits32? then 0xFFFF_FFFF else 0xFFFF_FFFF_FFFF_FFFF
  }

  const RLIM64_INFINITY: nat := 0xFFFF_FFFF_FFFF_FFFF

  function RlimInfinity(a: Arch): nat {
    UlongMax(a)
  }

  /** Soft and hard limit. */
  datatype Limit = Limit(cur: nat, max: nat)

  predicate Fits64(l: Limit) {
    l.cur <= RLIM64_INFINITY && l.max <= RLIM64_INFINITY
  }

  // ----- conversions -----

  predicate IsInfinity64(a: Arch, x: nat) {
    if a.Bits32? then x >= UlongMax(a) else x == RLIM64_INFINITY
  }

  function To64(a: Arch, x: nat): nat {
    if x == RlimInfinity(a) then RLIM64_INFINITY else x
  }

  /** The cast drops the upper half on a 32-bit machine. */
  function From64(a: Arch, x: nat): nat {
    if IsInfinity64(a, x) then RlimInfinity(a) else x % (UlongMax(a) + 1)
  }

  function RlimTo64(a: Arch, l: Limit): Limit {
    Limit(To64(a, l.cur), To64(a, l.max))
  }

  function RlimFrom64(a: Arch, l: Limit): Limit {
    Limit(From64(a, l.cur), From64(a, l.max))
  }

  /** Converting to 64 bits and back loses nothing; converting from 64 bits keeps order. */
  lemma ConversionsAgree(a: Arch, x: nat, y: nat)
    requires x <= RLIM64_INFINITY && y <= RLIM64_INFINITY
    ensures From64(a, x) <= UlongMax(a)
    ensures x <= UlongMax(a) ==> From64(a, To64(a, x)) == x
    ensures x <= y ==> From64(a, x) <= From64(a, y)
    ensures x <= y <= UlongMax(a) ==> To64(a, x) <= To64(a, y)
    ensures To64(a, From64(a, x)) == x <==> x < UlongMax(a) || x == RLIM64_INFINITY
  {
    if x < UlongMax(a) {
      SmallModulo(x, UlongMax(a) + 1);
    }
    if y < UlongMax(a) {
      SmallModulo(y, UlongMax(a) + 1);
    }
  }

  lemma SmallModulo(x: nat, m: nat)
    requires x < m
    ensures x % m == x
  {
  }

  // ----- one change -----

  /** Whether the task still has its signal handlers, the capability, the hook's answer, the limit on open files. */
  datatype Env = Env(alive: bool, capable: bool, hook: int, nrOpen: nat)

  /** The limits of a task, by resource. */
  type Limits = s: seq<Limit> | |s| == RLIM_NLIMITS witness seq(RLIM_NLIMITS, _ => Limit(0, 0))

  /** Zero would mean that the processor limit was never set. */
  function Stored(resource: nat, l: Limit): Limit {
    if resource == RLIMIT_CPU && l.cur == 0 then l.(cur := 1) else l
  }

  function Verdict(s: Limits, resource: nat, change: Option<Limit>, env: Env): int {
    if resource >= RLIM_NLIMITS then EINVAL
    else if change.Some? && change.value.cur > change.value.max then EINVAL
    else if change.Some? && resource == RLIMIT_NOFILE && change.value.max > env.nrOpen then EPERM
    else if !env.alive then ESRCH
    else if change.Some? && change.value.max > s[resource].max && !env.capable then EPERM
    else if change.Some? then env.hook
    else 0
  }

  function After(s: Limits, resource: nat, change: Option<Limit>, env: Env): Limits {
    if Verdict(s, resource, change, env) == 0 && change.Some?
    then s[resource := Stored(resource, change.value)] else s
  }

  /**
   * Whether a call gets as far as rewriting a processor limit of zero in the caller's own structure,
   * which it does before it looks at what the checks of capability and hook have said.
   */
  predicate Rewrites(resource: nat, change: Option<Limit>, env: Env) {
    change.Some? && resource == RLIMIT_CPU && change.value.cur == 0 && env.alive
  }

  /** A task's limits, changed in place. */
  class Signal {
    var rlim: Limits

    /** `change'` is the caller's structure afterwards; a call rejected by capability or hook alters it too. */
    method DoPrlimit(resource: nat, change: Option<Limit>, env: Env)
      returns (retval: int, change': Option<Limit>, was: Option<Limit>)
      modifies this
      ensures retval == Verdict(old(rlim), resource, change, env)
      ensures rlim == After(old(rlim), resource, change, env)
      ensures was == if retval == 0 then Some(old(rlim)[resource]) else None
      ensures retval == 0 && change.Some? ==> change' == Some(rlim[resource])
      ensures change' == if Rewrites(resource, change, env) then Some(change.value.(cur := 1)) else change
    {
      change', was := change, None;
      if resource >= RLIM_NLIMITS {
        return EINVAL, change', was;
      }
      if change.Some? {
        if change.value.cur > change.value.max {
          return EINVAL, change', was;
        }
        if resource == RLIMIT_NOFILE && change.value.max > env.nrOpen {
          return EPERM, change', was;
        }
      }
      if !env.alive {
        return ESRCH, change', was;
      }
      retval := 0;
      if change.Some? {
        if change.value.max > rlim[resource].max && !env.capable {
          retval := EPERM;
        }
        if retval == 0 {
          retval := env.hook;
        }
        if resource == RLIMIT_CPU && change.value.cur == 0 {
          change' := Some(change.value.(cur := 1));
        }
      }
      if retval == 0 {
        was := Some(rlim[resource]);
        if change'.Some? {
          rlim := rlim[resource := change'.value];
        }
      }
    }

    /** The 64-bit call on another or the own task; `permission` is what the id checks and the hook say. */
    method Prlimit64(a: Arch, resource: nat, change64: Option<Limit>, wantOld: bool,
                     found: bool, permission: int, copyIn: bool, copyOut: bool, env: Env)
      returns (ret: int, was64: Option<Limit>)
      requires change64.Some? ==> Fits64(change64.value)
      modifies this
      ensures change64.Some? && !copyIn ==> ret == EFAULT && rlim == old(rlim) && was64 == None
      ensures (change64.Some? ==> copyIn) && !found ==> ret == ESRCH && rlim == old(rlim) && was64 == None
      ensures (change64.Some? ==> copyIn) && found && permission != 0 ==>
                ret == permission && rlim == old(rlim) && was64 == None
      ensures (change64.Some? ==> copyIn) && found && permission == 0 ==>
                var change := if change64.None? then None else Some(RlimFrom64(a, change64.value));
                var verdict := Verdict(old(rlim), resource, change, env);
                && rlim == After(old(rlim), resource, change, env)
                && ret == (if verdict == 0 && wantOld && !copyOut then EFAULT else verdict)
                && (verdict == 0 && wantOld && copyOut ==> was64 == Some(RlimTo64(a, old(rlim)[resource])))
                && (was64.Some? ==> verdict == 0 && wantOld && copyOut)
    {
      was64 := None;
      var change: Option<Limit> := None;
      if change64.Some? {
        if !copyIn {
          return EFAULT, was64;
        }
        change := Some(RlimFrom64(a, change64.value));
      }
      if !found {
        return ESRCH, was64;
      }
      if permission != 0 {
        return permission, was64;
      }
      var change', was;
      ret, change', was := DoPrlimit(resource, change, env);
      if ret == 0 && wantOld {
        was64 := Some(RlimTo64(a, was.value));
        if !copyOut {
          return EFAULT, None;
        }
      }
    }
  }

  // ----- which requests succeed -----

  /**
   * A change succeeds exactly when it keeps the soft limit within the hard one, of a resource there is and
   * a task that is still alive, no more files than the system allows, no higher hard limit than before unless
   * the capability is there, and the hook agrees.
   */
  lemma SucceedsExactly(s: Limits, resource: nat, l: Limit, env: Env)
    ensures Verdict(s, resource, Some(l), env) == 0 <==>
            && resource < 16 && l.cur <= l.max && env.alive && env.hook == 0
            && (resource == RLIMIT_NOFILE ==> l.max <= env.nrOpen)
            && (l.max <= s[resource].max || env.capable)
  {
  }

  /** What is in the way of one that does not. */
  lemma RefusedBecause(s: Limits, resource: nat, l: Limit, env: Env)
    ensures var error := Verdict(s, resource, Some(l), env);
            && (16 <= resource || l.max < l.cur ==> error == EINVAL)
            && (resource < 16 && l.cur <= l.max && error != 0 ==>
                  if resource == RLIMIT_NOFILE && env.nrOpen < l.max then error == EPERM
                  else if !env.alive then error == ESRCH
                  else if s[resource].max < l.max && !env.capable then error == EPERM
                  else error == env.hook)
  {
  }

  /** Asking for the present limit alone takes a resource there is and a task that is alive, and changes nothing. */
  lemma ReadingSucceedsExactly(s: Limits, resource: nat, env: Env)
    ensures After(s, resource, None, env) == s
    ensures Verdict(s, resource, None, env) == if 16 <= resource then EINVAL else if env.alive then 0 else ESRCH
  {
  }

  /** A success stores the limits asked for, but for a processor limit of zero, and touches no other resource. */
  lemma StoresExactly(s: Limits, resource: nat, l: Limit, env: Env, r: nat)
    requires r < RLIM_NLIMITS
    ensures var now := After(s, resource, Some(l), env)[r];
            if Verdict(s, resource, Some(l), env) != 0 || r != resource then now == s[r]
            else now.max == l.max && now.cur == if r == RLIMIT_CPU && l.cur == 0 then 1 else l.cur
  {
  }

  /** With the capability, and nothing else in the way, any hard limit can be had, and soft ones up to it. */
  lemma CapabilityRaises(s: Limits, resource: nat, l: Limit, env: Env)
    requires env.capable && env.alive && env.hook == 0 && resource < RLIM_NLIMITS && resource != RLIMIT_NOFILE
    requires 0 < l.cur <= l.max
    ensures After(s, resource, Some(l), env) == s[resource := l]
  {
    SucceedsExactly(s, resource, l, env);
  }

  // ----- runs of changes -----

  datatype Change = Change(resource: nat, limit: Limit, env: Env)

  function Run(s: Limits, changes: seq<Change>): Limits
    decreases |changes|
  {
    if changes == [] then s
    else Run(After(s, changes[0].resource, Some(changes[0].limit), changes[0].env), changes[1..])
  }

  /** Soft within hard, but for a processor limit of one second under a hard limit of none. */
  predicate SoftWithinHard(s: Limits) {
    forall r :: 0 <= r < RLIM_NLIMITS ==> s[r].cur <= s[r].max || (r == RLIMIT_CPU && s[r] == Limit(1, 0))
  }

  lemma {:induction false} RunKeepsSoftWithinHard(s: Limits, changes: seq<Change>)
    requires SoftWithinHard(s)
    ensures SoftWithinHard(Run(s, changes))
    decreases |changes|
  {
    if changes != [] {
      var c := changes[0];
      RunKeepsSoftWithinHard(After(s, c.resource, Some(c.limit), c.env), changes[1..]);
    }
  }

  /** The exception arises from one request only: no processor time at all, soft and hard. */
  lemma SoftAboveHardExactly(s: Limits, c: Change)
    requires c.resource < RLIM_NLIMITS && Verdict(s, c.resource, Some(c.limit), c.env) == 0
    ensures var l := After(s, c.resource, Some(c.limit), c.env)[c.resource];
            l.cur > l.max <==> c.resource == RLIMIT_CPU && c.limit == Limit(0, 0)
  {
  }

  /** With the usual checks out of the way, no processor time is what a task can ask for and not get. */
  lemma NoTimeIsOneSecond(s: Limits, env: Env)
    requires env.alive && env.hook == 0
    ensures After(s, RLIMIT_CPU, Some(Limit(0, 0)), env)[RLIMIT_CPU] == Limit(1, 0)
  {
  }

  lemma {:induction false} HardLimitsNeverRise(s: Limits, changes: seq<Change>, r: nat)
    requires r < RLIM_NLIMITS && forall i :: 0 <= i < |changes| ==> !changes[i].env.capable
    ensures Run(s, changes)[r].max <= s[r].max
    decreases |changes|
  {
    if changes != [] {
      var c := changes[0];
      HardLimitsNeverRise(After(s, c.resource, Some(c.limit), c.env), changes[1..], r);
    }
  }

  /** So without the capability a limit, once lowered, binds every later soft limit. */
  lemma LoweredForGood(s: Limits, changes: seq<Change>, r: nat)
    requires SoftWithinHard(s) && r < RLIM_NLIMITS
    requires forall i :: 0 <= i < |changes| ==> !changes[i].env.capable
    ensures var l := Run(s, changes)[r]; l.cur <= s[r].max || (r == RLIMIT_CPU && s[r].max == 0 && l.cur == 1)
  {
    HardLimitsNeverRise(s, changes, r);
    RunKeepsSoftWithinHard(s, changes);
  }

  /** What the 64-bit call stores it reports again, up to the infinities and the processor limit of zero. */
  lemma SetThenGet64(a: Arch, s: Limits, resource: nat, l: Limit, env: Env)
    requires Fits64(l) && resource < RLIM_NLIMITS
    requires Verdict(s, resource, Some(RlimFrom64(a, l)), env) == 0
    ensures var got := RlimTo64(a, After(s, resource, Some(RlimFrom64(a, l)), env)[resource]);
            && got.max == (if l.max >= UlongMax(a) then RLIM64_INFINITY else l.max)
            && got.cur == (if l.cur >= UlongMax(a) then RLIM64_INFINITY
                           else if resource == RLIMIT_CPU && l.cur == 0 then 1 else l.cur)
  {
    ConversionsAgree(a, l.cur, l.max);
    if l.cur < UlongMax(a) {
      SmallModulo(l.cur, UlongMax(a) + 1);
    }
    if l.max < UlongMax(a) {
      SmallModulo(l.max, UlongMax(a) + 1);
    }
  }
}
