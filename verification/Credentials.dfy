/** The calls that change a task's user and group ids. */
module Credentials {
  import opened Errno

  type Id = x: nat | x < 0x1_0000_0000

  // As an argument: leave this id alone. As a kernel id: no such user or group.
  const NONE: Id := 0xFFFF_FFFF
  // What an id without a name in the caller's namespace is reported as.
  const OVERFLOW: Id := 65534

  /** How a user namespace maps the ids its callers name to kernel ids, and back. */
  datatype Mapping = Mapping(down: map<Id, Id>, up: map<Id, Id>) {
    ghost predicate Valid() {
      && NONE !in down && NONE !in up
      && (forall id :: id in down ==> down[id] in up && up[down[id]] == id)
      && (forall k :: k in up ==> up[k] in down && down[up[k]] == k)
    }

    function Make(id: Id): Id {
      if id in down then down[id] else NONE
    }

    function Munged(k: Id): Id {
      if k in up then up[k] else OVERFLOW
    }
  }

  /** Real, effective, saved and filesystem id, of either sort. */
  datatype Ids = Ids(r: Id, e: Id, s: Id, f: Id)

  /** `user` is the owner of the user record the credentials are charged to. */
  datatype Cred = Cred(
    uid: Id, euid: Id, suid: Id, fsuid: Id, user: Id,
    gid: Id, egid: Id, sgid: Id, fsgid: Id)
  {
    function Uids(): Ids { Ids(uid, euid, suid, fsuid) }
    function Gids(): Ids { Ids(gid, egid, sgid, fsgid) }
    function WithUids(n: Ids): Cred {
      this.(uid := n.r, euid := n.e, suid := n.s, fsuid := n.f)
    }
    function WithGids(n: Ids): Cred {
      this.(gid := n.r, egid := n.e, sgid := n.s, fsgid := n.f)
    }
  }

  datatype Call = SetRe(r: Id, e: Id) | Set(id: Id) | SetRes(r: Id, e: Id, s: Id) | SetFs(id: Id)

  /**
   * What one call meets outside the credentials: the set-id capability, memory for a new credential,
   * a user record for a new real uid, whether that user is over its process limit, and the
   * security hook's answer.
   */
  datatype Env = Env(capable: bool, memory: bool, record: bool, overLimit: bool, hook: int)

  // ----- the rules, once for users and groups -----

  predicate ValidArgs(m: Mapping, call: Call) {
    match call
    case SetRe(r, e) => ValidOrKept(m, r) && ValidOrKept(m, e)
    case Set(id) => m.Make(id) != NONE
    case SetRes(r, e, s) => ValidOrKept(m, r) && ValidOrKept(m, e) && ValidOrKept(m, s)
    case SetFs(id) => m.Make(id) != NONE
  }

  predicate ValidOrKept(m: Mapping, id: Id) {
    id == NONE || m.Make(id) != NONE
  }

  /** An id is asked for, and it is none of three the task has. */
  predicate Foreign(id: Id, k: Id, a: Id, b: Id, c: Id) {
    id != NONE && k != a && k != b && k != c
  }

  /** Without the capability a task can only move among the ids it already has. */
  predicate Permitted(m: Mapping, c: Ids, call: Call, capable: bool) {
    capable ||
    match call
    case SetRe(r, e) => !Foreign(r, m.Make(r), c.r, c.e, c.e) && !Foreign(e, m.Make(e), c.r, c.e, c.s)
    case Set(id) => m.Make(id) == c.r || m.Make(id) == c.s
    case SetRes(r, e, s) =>
      && !Foreign(r, m.Make(r), c.r, c.e, c.s)
      && !Foreign(e, m.Make(e), c.r, c.e, c.s)
      && !Foreign(s, m.Make(s), c.r, c.e, c.s)
    case SetFs(id) => m.Make(id) in [c.r, c.e, c.s, c.f]
  }

  function Choose(m: Mapping, id: Id, now: Id): Id {
    if id == NONE then now else m.Make(id)
  }

  /** The filesystem id follows the effective id, except in the call that sets it alone. */
  function NewIds(m: Mapping, c: Ids, call: Call, capable: bool): Ids {
    match call
    case SetRe(r, e) =>
      var e' := Choose(m, e, c.e);
      Ids(Choose(m, r, c.r), e', if r != NONE || Choose(m, e, c.r) != c.r then e' else c.s, e')
    case Set(id) =>
      var k := m.Make(id);
      if capable then Ids(k, k, k, k) else Ids(c.r, k, c.s, k)
    case SetRes(r, e, s) =>
      var e' := Choose(m, e, c.e);
      Ids(Choose(m, r, c.r), e', Choose(m, s, c.s), e')
    case SetFs(id) => c.(f := m.Make(id))
  }

  datatype State = State(cred: Cred, nprocExceeded: bool)

  /** One user-id call: its result and the task's credentials afterwards. */
  function UidStep(m: Mapping, st: State, call: Call, env: Env): (int, State) {
    var c := st.cred;
    var n := NewIds(m, c.Uids(), call, env.capable);
    if call.SetFs? then
      (m.Munged(c.fsuid),
       if ValidArgs(m, call) && env.memory && Permitted(m, c.Uids(), call, env.capable) && env.hook == 0
       then st.(cred := c.WithUids(n)) else st)
    else if !ValidArgs(m, call) then (EINVAL, st)
    else if !env.memory then (ENOMEM, st)
    else if !Permitted(m, c.Uids(), call, env.capable) then (EPERM, st)
    else if n.r != c.uid && !env.record then (EAGAIN, st)
    else
      var flag := if n.r != c.uid then env.overLimit else st.nprocExceeded;
      if env.hook < 0 then (env.hook, State(c, flag))
      else (0, State(c.WithUids(n).(user := if n.r != c.uid then n.r else c.user), flag))
  }

  /** One group-id call; groups have neither user record nor hook. */
  function GidStep(m: Mapping, c: Cred, call: Call, env: Env): (int, Cred) {
    var allowed := env.memory && Permitted(m, c.Gids(), call, env.capable);
    var c' := c.WithGids(NewIds(m, c.Gids(), call, env.capable));
    if call.SetFs? then (m.Munged(c.fsgid), if ValidArgs(m, call) && allowed then c' else c)
    else if !ValidArgs(m, call) then (EINVAL, c)
    else if !env.memory then (ENOMEM, c)
    else if !allowed then (EPERM, c)
    else (0, c')
  }

  /** The checks with which `setresuid` and `setresgid` begin. */
  method CheckRes(m: Mapping, c: Ids, r: Id, e: Id, s: Id, env: Env) returns (retval: int)
    requires m.Valid()
    ensures retval == if !ValidArgs(m, SetRes(r, e, s)) then EINVAL
                      else if !env.memory then ENOMEM
                      else if !Permitted(m, c, SetRes(r, e, s), env.capable) then EPERM
                      else 0
  {
    var kr, ke, ks := m.Make(r), m.Make(e), m.Make(s);
    if r != NONE && kr == NONE {
      return EINVAL;
    }
    if e != NONE && ke == NONE {
      return EINVAL;
    }
    if s != NONE && ks == NONE {
      return EINVAL;
    }
    if !env.memory {
      return ENOMEM;
    }
    if !env.capable {
      if r != NONE && kr != c.r && kr != c.e && kr != c.s {
        return EPERM;
      }
      if e != NONE && ke != c.r && ke != c.e && ke != c.s {
        return EPERM;
      }
      if s != NONE && ks != c.r && ks != c.e && ks != c.s {
        return EPERM;
      }
    }
    retval := 0;
  }

  // ----- the calls themselves -----

  /** The running task. A call edits a copy of the credentials and then commits or drops it. */
  class Task {
    var cred: Cred
    var nprocExceeded: bool
    const uids: Mapping
    const gids: Mapping

    constructor (cred: Cred, uids: Mapping, gids: Mapping)
      ensures this.cred == cred && !nprocExceeded && this.uids == uids && this.gids == gids
    {
      this.cred, nprocExceeded, this.uids, this.gids := cred, false, uids, gids;
    }

    function Now(): State
      reads this
    {
      State(cred, nprocExceeded)
    }

    /** Charges the copy to the record of its new real uid. */
    method SetUser(nw: Cred, env: Env) returns (retval: int, nw': Cred)
      modifies this`nprocExceeded
      ensures !env.record ==> retval == EAGAIN && nw' == nw && nprocExceeded == old(nprocExceeded)
      ensures env.record ==> retval == 0 && nw' == nw.(user := nw.uid) && nprocExceeded == env.overLimit
    {
      if !env.record {
        return EAGAIN, nw;
      }
      if env.overLimit {
        nprocExceeded := true;
      } else {
        nprocExceeded := false;
      }
      return 0, nw.(user := nw.uid);
    }

    /** Asks the security hook, and installs the copy unless it objects. */
    method FixAndCommit(nw: Cred, env: Env) returns (retval: int)
      modifies this`cred
      ensures env.hook < 0 ==> retval == env.hook && cred == old(cred)
      ensures 0 <= env.hook ==> retval == 0 && cred == nw
    {
      retval := env.hook;
      if retval < 0 {
        return;
      }
      cred := nw;
      retval := 0;
    }

    method SetReUid(ruid: Id, euid: Id, env: Env) returns (retval: int)
      requires uids.Valid()
      modifies this
      ensures (retval, Now()) == UidStep(uids, old(Now()), SetRe(ruid, euid), env)
    {
      var kruid, keuid := uids.Make(ruid), uids.Make(euid);
      if ruid != NONE && kruid == NONE {
        return EINVAL;
      }
      if euid != NONE && keuid == NONE {
        return EINVAL;
      }
      if !env.memory {
        return ENOMEM;
      }
      var nw := cred;
      if ruid != NONE {
        nw := nw.(uid := kruid);
        if cred.uid != kruid && cred.euid != kruid && !env.capable {
          return EPERM;
        }
      }
      if euid != NONE {
        nw := nw.(euid := keuid);
        if cred.uid != keuid && cred.euid != keuid && cred.suid != keuid && !env.capable {
          return EPERM;
        }
      }
      if nw.uid != cred.uid {
        retval, nw := SetUser(nw, env);
        if retval < 0 {
          return;
        }
      }
      if ruid != NONE || (euid != NONE && keuid != cred.uid) {
        nw := nw.(suid := nw.euid);
      }
      nw := nw.(fsuid := nw.euid);
      retval := FixAndCommit(nw, env);
    }

    method SetUid(uid: Id, env: Env) returns (retval: int)
      requires uids.Valid()
      modifies this
      ensures (retval, Now()) == UidStep(uids, old(Now()), Set(uid), env)
    {
      var kuid := uids.Make(uid);
      if kuid == NONE {
        return EINVAL;
      }
      if !env.memory {
        return ENOMEM;
      }
      var nw := cred;
      if env.capable {
        nw := nw.(suid := kuid, uid := kuid);
        if kuid != cred.uid {
          retval, nw := SetUser(nw, env);
          if retval < 0 {
            return;
          }
        }
      } else if kuid != cred.uid && kuid != nw.suid {
        return EPERM;
      }
      nw := nw.(fsuid := kuid, euid := kuid);
      retval := FixAndCommit(nw, env);
    }

    method SetResUid(ruid: Id, euid: Id, suid: Id, env: Env) returns (retval: int)
      requires uids.Valid()
      modifies this
      ensures (retval, Now()) == UidStep(uids, old(Now()), SetRes(ruid, euid, suid), env)
    {
      retval := CheckRes(uids, cred.Uids(), ruid, euid, suid, env);
      if retval != 0 {
        return;
      }
      var kruid, keuid, ksuid := uids.Make(ruid), uids.Make(euid), uids.Make(suid);
      var nw := cred;
      if ruid != NONE {
        nw := nw.(uid := kruid);
        if kruid != cred.uid {
          retval, nw := SetUser(nw, env);
          if retval < 0 {
            return;
          }
        }
      }
      if euid != NONE {
        nw := nw.(euid := keuid);
      }
      if suid != NONE {
        nw := nw.(suid := ksuid);
      }
      nw := nw.(fsuid := nw.euid);
      retval := FixAndCommit(nw, env);
    }

    method SetFsUid(uid: Id, env: Env) returns (oldFsuid: int)
      requires uids.Valid()
      modifies this
      ensures (oldFsuid, Now()) == UidStep(uids, old(Now()), SetFs(uid), env)
    {
      oldFsuid := uids.Munged(cred.fsuid);
      var kuid := uids.Make(uid);
      if kuid == NONE {
        return;
      }
      if !env.memory {
        return;
      }
      if kuid == cred.uid || kuid == cred.euid || kuid == cred.suid || kuid == cred.fsuid || env.capable {
        if kuid != cred.fsuid {
          if env.hook == 0 {
            cred := cred.(fsuid := kuid);
          }
        }
      }
    }

    method SetReGid(rgid: Id, egid: Id, env: Env) returns (retval: int)
      requires gids.Valid()
      modifies this`cred
      ensures (retval, cred) == GidStep(gids, old(cred), SetRe(rgid, egid), env)
    {
      var krgid, kegid := gids.Make(rgid), gids.Make(egid);
      if rgid != NONE && krgid == NONE {
        return EINVAL;
      }
      if egid != NONE && kegid == NONE {
        return EINVAL;
      }
      if !env.memory {
        return ENOMEM;
      }
      var nw := cred;
      if rgid != NONE {
        if cred.gid == krgid || cred.egid == krgid || env.capable {
          nw := nw.(gid := krgid);
        } else {
          return EPERM;
        }
      }
      if egid != NONE {
        if cred.gid == kegid || cred.egid == kegid || cred.sgid == kegid || env.capable {
          nw := nw.(egid := kegid);
        } else {
          return EPERM;
        }
      }
      if rgid != NONE || (egid != NONE && kegid != cred.gid) {
        nw := nw.(sgid := nw.egid);
      }
      nw := nw.(fsgid := nw.egid);
      cred := nw;
      retval := 0;
    }

    method SetGid(gid: Id, env: Env) returns (retval: int)
      requires gids.Valid()
      modifies this`cred
      ensures (retval, cred) == GidStep(gids, old(cred), Set(gid), env)
    {
      var kgid := gids.Make(gid);
      if kgid == NONE {
        return EINVAL;
      }
      if !env.memory {
        return ENOMEM;
      }
      var nw := cred;
      if env.capable {
        nw := nw.(gid := kgid, egid := kgid, sgid := kgid, fsgid := kgid);
      } else if kgid == cred.gid || kgid == cred.sgid {
        nw := nw.(egid := kgid, fsgid := kgid);
      } else {
        return EPERM;
      }
      cred := nw;
      retval := 0;
    }

    method SetResGid(rgid: Id, egid: Id, sgid: Id, env: Env) returns (retval: int)
      requires gids.Valid()
      modifies this`cred
      ensures (retval, cred) == GidStep(gids, old(cred), SetRes(rgid, egid, sgid), env)
    {
      retval := CheckRes(gids, cred.Gids(), rgid, egid, sgid, env);
      if retval != 0 {
        return;
      }
      var krgid, kegid, ksgid := gids.Make(rgid), gids.Make(egid), gids.Make(sgid);
      var nw := cred;
      if rgid != NONE {
        nw := nw.(gid := krgid);
      }
      if egid != NONE {
        nw := nw.(egid := kegid);
      }
      if sgid != NONE {
        nw := nw.(sgid := ksgid);
      }
      nw := nw.(fsgid := nw.egid);
      cred := nw;
      retval := 0;
    }

    method SetFsGid(gid: Id, env: Env) returns (oldFsgid: int)
      requires gids.Valid()
      modifies this`cred
      ensures (oldFsgid, cred) == GidStep(gids, old(cred), SetFs(gid), env)
    {
      oldFsgid := gids.Munged(cred.fsgid);
      var kgid := gids.Make(gid);
      if kgid == NONE {
        return;
      }
      if !env.memory {
        return;
      }
      if kgid == cred.gid || kgid == cred.egid || kgid == cred.sgid || kgid == cred.fsgid || env.capable {
        if kgid != cred.fsgid {
          cred := cred.(fsgid := kgid);
        }
      }
    }
  }
}
