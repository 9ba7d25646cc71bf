/** The memory-map descriptor that `prctl(PR_SET_MM, ...)` changes as a whole or one member at a time. */
module MemoryMap {
  import opened Errno

  // The members, in the order of the source's table of offsets.
  const START_CODE := 0
  const END_CODE := 1
  const START_DATA := 2
  const END_DATA := 3
  const START_BRK := 4
  const BRK := 5
  const START_STACK := 6
  const ARG_START := 7
  const ARG_END := 8
  const ENV_START := 9
  const ENV_END := 10
  const MEMBERS := 11

  type Field = f: nat | f < MEMBERS
  type Layout = l: seq<nat> | |l| == MEMBERS witness [0, 0, 0, 0, 0, 0, 0, 0, 0, 0, 0]

  /** The addresses a user program may name: at least `lo` and below `hi`. */
  datatype Space = Space(lo: nat, hi: nat)

  datatype Limit = Unlimited | Bytes(bytes: nat)

  /** What the user hands in for the whole map; `exe` says whether it asks for another executable. */
  datatype Request = Request(layout: Layout, auxv: nat, auxvSize: nat, exe: bool)

  datatype Opt = Member(field: Field) | ExeFile | Auxv | Map | MapSize | Other

  /**
   * What a call meets outside the descriptor: the two capabilities, the data limit, whether some
   * mapping ends above the address, the user's request, the room for its auxiliary vector, and how
   * copying it, copying that vector, replacing the executable, setting the vector alone and storing
   * the size turn out.
   */
  datatype Env = Env(
    resource: bool, admin: bool, limit: Limit, vma: bool, request: Request, sizeMatches: bool,
    copied: bool, auxvRoom: nat, auxvCopied: bool, exeResult: int, auxvResult: int, sizeResult: int)

  // ----- which layouts are valid -----

  predicate InSpace(space: Space, v: nat) {
    space.lo <= v < space.hi
  }

  predicate Ordered(l: Layout) {
    && l[START_CODE] < l[END_CODE]
    && l[START_DATA] < l[END_DATA] < l[START_BRK] <= l[BRK]
    && l[ARG_START] <= l[ARG_END]
    && l[ENV_START] <= l[ENV_END]
  }

  /** The heap and the data segment together stay within the limit. */
  predicate WithinLimit(l: Layout, limit: Limit)
    requires Ordered(l)
  {
    limit.Bytes? ==> l[BRK] - l[START_BRK] + l[END_DATA] - l[START_DATA] <= limit.bytes
  }

  predicate Valid(space: Space, limit: Limit, l: Layout) {
    && (forall f :: 0 <= f < MEMBERS ==> InSpace(space, l[f]))
    && Ordered(l)
    && WithinLimit(l, limit)
  }

  predicate Acceptable(space: Space, env: Env, r: Request) {
    && Valid(space, env.limit, r.layout)
    && (r.auxvSize != 0 ==> r.auxv != 0 && r.auxvSize <= env.auxvRoom)
    && (r.exe ==> env.admin)
  }

  // ----- what the calls do -----

  /** These members are only accepted while some mapping ends above the new address. */
  predicate NeedsMapping(f: Field) {
    f in {START_STACK, ARG_START, ARG_END, ENV_START, ENV_END}
  }

  function SetMemberResult(space: Space, l: Layout, f: Field, addr: nat, env: Env): (int, Layout) {
    if !env.resource then (EPERM, l)
    else if !Valid(space, env.limit, l[f := addr]) then (EINVAL, l)
    else if NeedsMapping(f) && !env.vma then (EFAULT, l)
    else (0, l[f := addr])
  }

  function SetMapResult(space: Space, l: Layout, env: Env): (int, Layout) {
    if !env.sizeMatches then (EINVAL, l)
    else if !env.copied then (EFAULT, l)
    else if !Acceptable(space, env, env.request) then (EINVAL, l)
    else if env.request.auxvSize != 0 && !env.auxvCopied then (EFAULT, l)
    else if env.request.exe && env.exeResult != 0 then (env.exeResult, l)
    else (0, env.request.layout)
  }

  function SetMmResult(space: Space, l: Layout, opt: Opt, addr: nat, arg4: nat, arg5: nat, env: Env): (int, Layout) {
    if arg5 != 0 || (arg4 != 0 && !opt.Auxv? && !opt.Map? && !opt.MapSize?) then (EINVAL, l)
    else
      match opt
      case MapSize => (env.sizeResult, l)
      case Map => SetMapResult(space, l, env)
      case Member(f) => SetMemberResult(space, l, f, addr, env)
      case ExeFile => (if env.resource then env.exeResult else EPERM, l)
      case Auxv => (if env.resource then env.auxvResult else EPERM, l)
      case Other => (if env.resource then EINVAL else EPERM, l)
  }

  class Mm {
    const space: Space
    var layout: Layout

    constructor (space: Space, layout: Layout)
      ensures this.space == space && this.layout == layout
    {
      this.space, this.layout := space, layout;
    }

    method Validate(r: Request, env: Env) returns (error: int)
      ensures error == if Acceptable(space, env, r) then 0 else EINVAL
    {
      var i := 0;
      while i < MEMBERS
        invariant 0 <= i <= MEMBERS
        invariant forall f :: 0 <= f < i ==> InSpace(space, r.layout[f])
      {
        if r.layout[i] >= space.hi || r.layout[i] < space.lo {
          return EINVAL;
        }
        i := i + 1;
      }
      var l := r.layout;
      error := if l[START_CODE] < l[END_CODE] then 0 else EINVAL;
      error := if l[START_DATA] < l[END_DATA] then error else EINVAL;
      error := if l[START_BRK] <= l[BRK] then error else EINVAL;
      error := if l[ARG_START] <= l[ARG_END] then error else EINVAL;
      error := if l[ENV_START] <= l[ENV_END] then error else EINVAL;
      if error != 0 {
        return;
      }
      error := EINVAL;
      if l[START_BRK] <= l[END_DATA] || l[BRK] <= l[END_DATA] {
        return;
      }
      if !WithinLimit(l, env.limit) {
        return;
      }
      if r.auxvSize != 0 {
        if r.auxv == 0 || r.auxvSize > env.auxvRoom {
          return;
        }
      }
      if r.exe {
        if !env.admin {
          return;
        }
      }
      error := 0;
    }

    method SetMmMap(env: Env) returns (error: int)
      modifies this`layout
      ensures (error, layout) == SetMapResult(space, old(layout), env)
    {
      if !env.sizeMatches {
        return EINVAL;
      }
      if !env.copied {
        return EFAULT;
      }
      error := Validate(env.request, env);
      if error != 0 {
        return;
      }
      if env.request.auxvSize != 0 {
        if !env.auxvCopied {
          return EFAULT;
        }
      }
      if env.request.exe {
        error := env.exeResult;
        if error != 0 {
          return;
        }
      }
      layout := env.request.layout;
    }

    method SetMm(opt: Opt, addr: nat, arg4: nat, arg5: nat, env: Env) returns (error: int)
      modifies this`layout
      ensures (error, layout) == SetMmResult(space, old(layout), opt, addr, arg4, arg5, env)
    {
      if arg5 != 0 || (arg4 != 0 && opt != Auxv && opt != Map && opt != MapSize) {
        return EINVAL;
      }
      if opt == MapSize {
        return env.sizeResult;
      }
      if opt == Map {
        error := SetMmMap(env);
        return;
      }
      if !env.resource {
        return EPERM;
      }
      if opt == ExeFile {
        return env.exeResult;
      }
      if opt == Auxv {
        return env.auxvResult;
      }
      if opt.Member? {
        assert layout[opt.field := addr][opt.field] == addr;
      }
      if addr >= space.hi || addr < space.lo {
        return EINVAL;
      }
      if !opt.Member? {
        return EINVAL;
      }
      var map' := Request(layout[opt.field := addr], 0, 0, false);
      error := Validate(map', env);
      if error != 0 {
        return;
      }
      if NeedsMapping(opt.field) {
        if !env.vma {
          return EFAULT;
        }
      }
      layout := map'.layout;
    }
  }

  /** An accepted change leaves a valid layout, a rejected call the old one. */
  lemma CallKeepsValid(space: Space, l: Layout, opt: Opt, addr: nat, arg4: nat, arg5: nat, env: Env)
    ensures var (error, l') := SetMmResult(space, l, opt, addr, arg4, arg5, env);
            && (l' != l ==> error == 0 && Valid(space, env.limit, l'))
            && (error == 0 && (opt.Member? || opt.Map?) ==> Valid(space, env.limit, l'))
  {
  }

  // ----- which requests pass -----

  /** How many bytes lie between two members, in the order the source wants them. */
  function Bytes(l: Layout, from: Field, to: Field): int {
    l[to] as int - l[from] as int
  }

  /**
   * What a valid layout looks like: all members in the address space, code and data not empty, the heap
   * beyond the data segment, no stretch of negative length, data and heap within the limit.
   */
  lemma ValidExactly(space: Space, limit: Limit, l: Layout)
    ensures Valid(space, limit, l) <==>
            && (forall v :: v in l ==> space.lo <= v && v < space.hi)
            && 0 < Bytes(l, START_CODE, END_CODE) && 0 < Bytes(l, START_DATA, END_DATA)
            && 0 < Bytes(l, END_DATA, START_BRK) && 0 <= Bytes(l, START_BRK, BRK)
            && 0 <= Bytes(l, ARG_START, ARG_END) && 0 <= Bytes(l, ENV_START, ENV_END)
            && (limit == Unlimited || Bytes(l, START_DATA, END_DATA) + Bytes(l, START_BRK, BRK) <= limit.bytes)
  {
    assert forall f :: 0 <= f < MEMBERS ==> l[f] in l;
  }

  /** With the capability, a change of one member is accepted exactly so, and makes that change. */
  lemma MemberOutcome(space: Space, l: Layout, f: Field, v: nat, env: Env)
    requires env.resource
    ensures var (error, l') := SetMmResult(space, l, Member(f), v, 0, 0, env);
            && (error == 0 <==> Valid(space, env.limit, l[f := v])
                                && (env.vma || f in [START_CODE, END_CODE, START_DATA, END_DATA, START_BRK, BRK]))
            && (error != 0 ==> error == if Valid(space, env.limit, l[f := v]) then EFAULT else EINVAL)
            && |l'| == |l| && forall g: Field :: l'[g] == if error == 0 && g == f then v else l[g]
  {
  }

  /** Without it no call but the whole-map one changes anything, and none but the two map calls does anything. */
  lemma WithoutCapability(space: Space, l: Layout, opt: Opt, addr: nat, arg4: nat, arg5: nat, env: Env)
    requires !env.resource && opt != Map
    ensures var (error, l') := SetMmResult(space, l, opt, addr, arg4, arg5, env);
            && l' == l
            && (arg4 == arg5 == 0 && opt != MapSize ==> error == EPERM)
  {
  }

  /**
   * The whole-map call asks for no capability but to replace the executable: its result is the first thing
   * in the way, and it installs the layout of the request exactly when that is zero.
   */
  lemma MapOutcome(space: Space, l: Layout, addr: nat, arg4: nat, env: Env)
    ensures var (error, l') := SetMmResult(space, l, Map, addr, arg4, 0, env);
            var r := env.request;
            && l' == (if error == 0 then r.layout else l)
            && error == (if !env.sizeMatches then EINVAL
                         else if !env.copied then EFAULT
                         else if !Valid(space, env.limit, r.layout) || (r.exe && !env.admin) then EINVAL
                         else if r.auxvSize != 0 && (r.auxv == 0 || env.auxvRoom < r.auxvSize) then EINVAL
                         else if r.auxvSize != 0 && !env.auxvCopied then EFAULT
                         else if r.exe then env.exeResult else 0)
  {
  }

  /** The fifth argument is refused always, the fourth by all calls that have no use for it. */
  lemma SpareArguments(space: Space, l: Layout, opt: Opt, addr: nat, arg4: nat, arg5: nat, env: Env)
    requires arg5 != 0 || (arg4 != 0 && opt !in {Auxv, Map, MapSize})
    ensures SetMmResult(space, l, opt, addr, arg4, arg5, env) == (EINVAL, l)
  {
  }

  /** What the calls that concern no member report, and that they leave the layout alone. */
  lemma OtherCalls(space: Space, l: Layout, addr: nat, arg4: nat, env: Env)
    ensures SetMmResult(space, l, MapSize, addr, arg4, 0, env) == (env.sizeResult, l)
    ensures env.resource ==> SetMmResult(space, l, ExeFile, addr, 0, 0, env) == (env.exeResult, l)
    ensures env.resource ==> SetMmResult(space, l, Auxv, addr, arg4, 0, env) == (env.auxvResult, l)
    ensures env.resource ==> SetMmResult(space, l, Other, addr, 0, 0, env) == (EINVAL, l)
  {
  }
}
