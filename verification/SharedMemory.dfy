/**
 * Two threads exchanging N messages through two shared slots and one flag.
 *
 * A slot is three fields written and read one at a time; a field's content is the number of the
 * table entry it came from, or -1 while nothing has been written by this program.
 */
module SharedMemory {
  const FIELDS := 3
  const ALL: set<nat> := {0, 1, 2}

  type Slot = s: seq<int> | |s| == FIELDS witness [-1, -1, -1]
  type Logs = s: seq<seq<int>> | |s| == FIELDS witness [[], [], []]

  /** Where thread1 is: at the loop's head, writing, waiting for the flag, logging, about to reset it. */
  datatype Pc1 = Top1 | Write1(f: nat) | Wait1 | Log1(todo: set<nat>) | Clear1 | Exit1
  datatype Pc2 = Unborn | Top2 | Log2(todo: set<nat>) | Write2(f: nat) | Set2 | Exit2

  /**
   * `sigint` is the signal flag. Two histories: `filled`, whether thread2 started after the first
   * slot had been written, and `lost`, how often the flag was set while it was still set.
   */
  datatype State = State(
    pc1: Pc1, i1: nat, log1: Logs, slot1: Slot,
    pc2: Pc2, i2: nat, log2: Logs, slot2: Slot,
    send: bool, sigint: bool, filled: bool, lost: nat)

  const START := State(Top1, 0, [[], [], []], [-1, -1, -1], Unborn, 0, [[], [], []], [-1, -1, -1], false, false, false, 0)

  /** `f` is the field a thread that is logging reads next; the C program leaves that order open. */
  datatype Move = Thread1(f: nat) | Thread2(f: nat) | Signal

  function Step1(n: nat, s: State, f: nat): State {
    match s.pc1
    case Top1 => s.(pc1 := if s.sigint || s.i1 == n then Exit1 else Write1(0))
    case Write1(g) =>
      if g >= FIELDS then s
      else s.(slot1 := s.slot1[g := s.i1], pc1 := if g + 1 == FIELDS then Wait1 else Write1(g + 1))
    case Wait1 => if s.send then s.(pc1 := Log1(ALL)) else if s.sigint then s.(pc1 := Exit1) else s
    case Log1(todo) =>
      if f !in todo || f >= FIELDS then s
      else s.(log1 := s.log1[f := s.log1[f] + [s.slot2[f]]], pc1 := if todo == {f} then Clear1 else Log1(todo - {f}))
    case Clear1 => s.(send := false, i1 := s.i1 + 1, pc1 := Top1)
    case Exit1 => s
  }

  function Step2(n: nat, s: State, f: nat): State {
    match s.pc2
    case Unborn => s.(pc2 := Top2, filled := forall g :: 0 <= g < FIELDS ==> s.slot1[g] >= 0)
    case Top2 => s.(pc2 := if s.sigint || s.i2 == n then Exit2 else Log2(ALL))
    case Log2(todo) =>
      if f !in todo || f >= FIELDS then s
      else s.(log2 := s.log2[f := s.log2[f] + [s.slot1[f]]], pc2 := if todo == {f} then Write2(0) else Log2(todo - {f}))
    case Write2(g) =>
      if g >= FIELDS then s
      else s.(slot2 := s.slot2[g := s.i2], pc2 := if g + 1 == FIELDS then Set2 else Write2(g + 1))
    case Set2 => s.(i2 := s.i2 + 1, send := true, lost := if s.send then s.lost + 1 else s.lost, pc2 := Top2)
    case Exit2 => s
  }

  function Next(n: nat, s: State, m: Move): State {
    match m
    case Thread1(f) => Step1(n, s, f)
    case Thread2(f) => Step2(n, s, f)
    case Signal => s.(sigint := true)
  }

  predicate WithoutSignal(moves: seq<Move>) {
    forall i :: 0 <= i < |moves| ==> !moves[i].Signal?
  }

  function Run(n: nat, s: State, moves: seq<Move>): State
    decreases |moves|
  {
    if moves == [] then s else Run(n, Next(n, s, moves[0]), moves[1..])
  }

  // ----- the invariant -----

  /** Whether thread1 has already written field f in this round, and the same for thread2. */
  predicate Wrote1(s: State, f: nat) {
    (s.pc1.Write1? && f < s.pc1.f) || s.pc1.Wait1? || s.pc1.Log1? || s.pc1.Clear1?
  }

  predicate Wrote2(s: State, f: nat) {
    (s.pc2.Write2? && f < s.pc2.f) || s.pc2.Set2?
  }

  predicate Logged1(s: State, f: nat) {
    (s.pc1.Log1? && f !in s.pc1.todo) || s.pc1.Clear1?
  }

  predicate Logged2(s: State, f: nat) {
    (s.pc2.Log2? && f !in s.pc2.todo) || s.pc2.Write2? || s.pc2.Set2?
  }

  function One(b: bool): nat {
    if b then 1 else 0
  }

  /** What the program counters allow. */
  predicate Counters(n: nat, s: State) {
    && s.i1 + One(s.send) + s.lost == s.i2 <= n
    && (s.i2 != 0 ==> s.i1 + One(s.send) != 0)
    && (s.pc1.Log1? || s.pc1.Clear1? ==> s.send)
    && (s.pc1.Log1? ==> s.pc1.todo <= ALL && s.pc1.todo != {})
    && (s.pc1.Write1? ==> s.pc1.f < FIELDS)
    && (s.i1 == n ==> s.pc1.Top1? || s.pc1.Exit1?)
    && (s.pc1.Exit1? && !s.sigint ==> s.i1 == n)
    && (s.pc2.Log2? ==> s.pc2.todo <= ALL && s.pc2.todo != {})
    && (s.pc2.Write2? ==> s.pc2.f < FIELDS)
    && (s.i2 == n ==> s.pc2.Unborn? || s.pc2.Top2? || s.pc2.Exit2?)
    && (s.pc2.Unborn? ==> s.i2 == 0)
    && (s.pc2.Exit2? && !s.sigint ==> s.i2 == n)
  }

  /** A slot holds the writer's current number in the fields written this round, the one before elsewhere. */
  predicate Slots(s: State) {
    && (forall f :: 0 <= f < FIELDS && !s.pc1.Exit1? ==> s.slot1[f] == if Wrote1(s, f) then s.i1 else s.i1 - 1)
    && (forall f :: 0 <= f < FIELDS && s.pc1.Exit1? ==> s.i1 - 1 <= s.slot1[f] <= s.i1)
    && (forall f :: 0 <= f < FIELDS ==> s.slot2[f] == if Wrote2(s, f) then s.i2 else s.i2 - 1)
    && (s.filled ==> forall f :: 0 <= f < FIELDS ==> s.slot1[f] >= 0)
  }

  predicate NonDecreasing(log: seq<int>, bound: int) {
    && (forall j, k :: 0 <= j < k < |log| ==> log[j] <= log[k])
    && (forall k :: 0 <= k < |log| ==> log[k] <= bound)
  }

  /** The acknowledgements logged in `len` rounds never lag behind the round ... */
  predicate Acks(log: seq<int>, bound: int, len: nat) {
    |log| == len && NonDecreasing(log, bound) && forall k :: 0 <= k < len ==> log[k] >= k
  }

  /** ... and the messages logged never run ahead of it. */
  predicate Messages(log: seq<int>, bound: int, len: nat, filled: bool) {
    |log| == len && NonDecreasing(log, bound) && forall j :: 0 <= j < len ==> log[j] <= j && (filled ==> log[j] >= 0)
  }

  /** Each field's log by itself: text may be torn, and the fields of one entry may come from several. */
  predicate Orderly(s: State) {
    && (forall f :: 0 <= f < FIELDS ==> Acks(s.log1[f], s.slot2[f], s.i1 + One(Logged1(s, f))))
    && (forall f :: 0 <= f < FIELDS ==> Messages(s.log2[f], s.slot1[f], s.i2 + One(Logged2(s, f)), s.filled))
  }

  predicate Inv(n: nat, s: State) {
    Counters(n, s) && Slots(s) && Orderly(s)
  }

  lemma AckLogged(log: seq<int>, x: int, len: nat)
    requires Acks(log, x, len) && len <= x
    ensures Acks(log + [x], x, len + 1)
  {
  }

  lemma MessageLogged(log: seq<int>, x: int, len: nat, filled: bool)
    requires Messages(log, x, len, filled) && x <= len && (filled ==> x >= 0)
    ensures Messages(log + [x], x, len + 1, filled)
  {
  }

  lemma BoundRises(log: seq<int>, x: int, y: int, len: nat, filled: bool)
    requires x <= y
    ensures Acks(log, x, len) ==> Acks(log, y, len)
    ensures Messages(log, x, len, filled) ==> Messages(log, y, len, filled)
  {
  }

  lemma Step1KeepsCounters(n: nat, s: State, f: nat)
    requires Counters(n, s)
    ensures Counters(n, Step1(n, s, f))
  {
    assert s.pc1.Log1? && s.pc1.todo - {f} == {} ==> s.pc1.todo == {} || s.pc1.todo == {f};
  }

  lemma Step2KeepsCounters(n: nat, s: State, f: nat)
    requires Counters(n, s)
    ensures Counters(n, Step2(n, s, f))
  {
    assert s.pc2.Log2? && s.pc2.todo - {f} == {} ==> s.pc2.todo == {} || s.pc2.todo == {f};
  }

  lemma Step1KeepsSlots(n: nat, s: State, f: nat)
    requires Counters(n, s) && Slots(s)
    ensures Slots(Step1(n, s, f))
  {
  }

  lemma Step2KeepsSlots(n: nat, s: State, f: nat)
    requires Counters(n, s) && Slots(s)
    ensures Slots(Step2(n, s, f))
  {
  }

  /** What a step of thread1 does to the logs and slots of one field. */
  lemma Step1Effect(n: nat, s: State, f: nat, g: nat)
    requires Counters(n, s) && Slots(s) && g < FIELDS
    ensures var t := Step1(n, s, f);
            && t.log2 == s.log2 && t.slot2 == s.slot2 && t.i2 == s.i2 && t.pc2 == s.pc2 && t.filled == s.filled
            && s.slot1[g] <= t.slot1[g]
            && if t.log1[g] == s.log1[g] then t.i1 + One(Logged1(t, g)) == s.i1 + One(Logged1(s, g))
               else t.log1[g] == s.log1[g] + [s.slot2[g]] && !Logged1(s, g) && s.i1 <= s.slot2[g]
                    && t.i1 + One(Logged1(t, g)) == s.i1 + 1
  {
  }

  /** And thread2 the other way round. */
  lemma Step2Effect(n: nat, s: State, f: nat, g: nat)
    requires Counters(n, s) && Slots(s) && g < FIELDS
    ensures var t := Step2(n, s, f);
            && t.log1 == s.log1 && t.slot1 == s.slot1 && t.i1 == s.i1 && t.pc1 == s.pc1
            && s.slot2[g] <= t.slot2[g] && (s.pc2.Unborn? || t.filled == s.filled)
            && if t.log2[g] == s.log2[g] then t.i2 + One(Logged2(t, g)) == s.i2 + One(Logged2(s, g))
               else t.log2[g] == s.log2[g] + [s.slot1[g]] && !Logged2(s, g)
                    && s.slot1[g] <= s.i2 && (s.filled ==> s.slot1[g] >= 0)
                    && t.i2 + One(Logged2(t, g)) == s.i2 + 1
  {
    match s.pc2 {
      case Log2(todo) =>
        var t := Step2(n, s, f);
        assert t.log2[g] == if f in todo && f == g then s.log2[g] + [s.slot1[g]] else s.log2[g];
      case _ =>
    }
  }

  lemma Step1KeepsOrderly(n: nat, s: State, f: nat)
    requires Inv(n, s)
    ensures Orderly(Step1(n, s, f))
  {
    hide Step1, Counters, Slots, Acks, Messages, Logged1;
    var t := Step1(n, s, f);
    forall g | 0 <= g < FIELDS
      ensures Acks(t.log1[g], t.slot2[g], t.i1 + One(Logged1(t, g)))
      ensures Messages(t.log2[g], t.slot1[g], t.i2 + One(Logged2(t, g)), t.filled)
    {
      Step1Effect(n, s, f, g);
      BoundRises(s.log2[g], s.slot1[g], t.slot1[g], s.i2 + One(Logged2(s, g)), s.filled);
      if t.log1[g] != s.log1[g] {
        AckLogged(s.log1[g], s.slot2[g], s.i1);
      }
    }
  }

  lemma Step2KeepsOrderly(n: nat, s: State, f: nat)
    requires Inv(n, s) && !s.pc2.Unborn?
    ensures Orderly(Step2(n, s, f))
  {
    hide Step2, Counters, Slots, Acks, Messages, Logged2;
    var t := Step2(n, s, f);
    forall g | 0 <= g < FIELDS
      ensures Acks(t.log1[g], t.slot2[g], t.i1 + One(Logged1(t, g)))
      ensures Messages(t.log2[g], t.slot1[g], t.i2 + One(Logged2(t, g)), t.filled)
    {
      Step2Effect(n, s, f, g);
      BoundRises(s.log1[g], s.slot2[g], t.slot2[g], s.i1 + One(Logged1(s, g)), s.filled);
      if t.log2[g] != s.log2[g] {
        MessageLogged(s.log2[g], s.slot1[g], s.i2, s.filled);
      }
    }
  }

  /** Thread2 starts with empty logs. */
  lemma BirthKeepsOrderly(n: nat, s: State, f: nat)
    requires Inv(n, s) && s.pc2.Unborn?
    ensures Orderly(Step2(n, s, f))
  {
  }

  lemma NextKeepsInv(n: nat, s: State, m: Move)
    requires Inv(n, s)
    ensures Inv(n, Next(n, s, m))
  {
    match m {
      case Thread1(f) =>
        hide Step1, Counters, Slots, Orderly;
        Step1KeepsCounters(n, s, f);
        Step1KeepsSlots(n, s, f);
        Step1KeepsOrderly(n, s, f);
      case Thread2(f) =>
        hide Step2, Counters, Slots, Orderly;
        Step2KeepsCounters(n, s, f);
        Step2KeepsSlots(n, s, f);
        if s.pc2.Unborn? {
          BirthKeepsOrderly(n, s, f);
        } else {
          Step2KeepsOrderly(n, s, f);
        }
      case Signal =>
        hide Acks, Messages, Wrote1, Wrote2;
    }
  }

  lemma {:induction false} RunKeepsInv(n: nat, s: State, moves: seq<Move>)
    requires Inv(n, s)
    ensures Inv(n, Run(n, s, moves))
    decreases |moves|
  {
    hide Inv, Next;
    if moves != [] {
      NextKeepsInv(n, s, moves[0]);
      RunKeepsInv(n, Next(n, s, moves[0]), moves[1..]);
    }
  }

  lemma SlotBelow(n: nat, s: State, f: nat)
    requires Counters(n, s) && Slots(s) && f < FIELDS
    ensures s.slot2[f] < n || s.i1 + One(Logged1(s, f)) == 0
  {
  }

  lemma StartIsFine(n: nat)
    ensures Inv(n, START)
  {
    assert Counters(n, START) && Slots(START);
    forall f | 0 <= f < FIELDS
      ensures Acks(START.log1[f], START.slot2[f], 0) && Messages(START.log2[f], START.slot1[f], 0, false)
    {
      assert START.log1[f] == [] && START.log2[f] == [];
    }
  }

  /**
   * In every interleaving from the start, signals included, and for each field by itself: the k-th
   * acknowledgement thread1 logs comes from entry k or later, the j-th message thread2 logs from
   * entry j or earlier, and from no entry before the first if its slot was filled beforehand;
   * neither sequence ever decreases.
   */
  lemma OrderedInEveryRun(n: nat, moves: seq<Move>, f: nat)
    requires f < FIELDS
    ensures var s := Run(n, START, moves);
            && (forall k :: 0 <= k < |s.log1[f]| ==> k <= s.log1[f][k] < n)
            && (forall j, k :: 0 <= j < k < |s.log1[f]| ==> s.log1[f][j] <= s.log1[f][k])
            && (forall j :: 0 <= j < |s.log2[f]| ==> s.log2[f][j] <= j && (s.filled ==> 0 <= s.log2[f][j]))
            && (forall j, k :: 0 <= j < k < |s.log2[f]| ==> s.log2[f][j] <= s.log2[f][k])
  {
    hide Run, Counters, Slots, Acks, Messages;
    var s := Run(n, START, moves);
    StartIsFine(n);
    RunKeepsInv(n, START, moves);
    SlotBelow(n, s, f);
    AckFacts(s.log1[f], s.slot2[f], s.i1 + One(Logged1(s, f)), n);
    MessageFacts(s.log2[f], s.slot1[f], s.i2 + One(Logged2(s, f)), s.filled);
  }

  lemma AckFacts(log: seq<int>, bound: int, len: nat, n: nat)
    requires Acks(log, bound, len) && (bound < n || len == 0)
    ensures forall k :: 0 <= k < |log| ==> k <= log[k] < n
    ensures forall j, k :: 0 <= j < k < |log| ==> log[j] <= log[k]
  {
  }

  lemma MessageFacts(log: seq<int>, bound: int, len: nat, filled: bool)
    requires Messages(log, bound, len, filled)
    ensures forall j :: 0 <= j < |log| ==> log[j] <= j && (filled ==> 0 <= log[j])
    ensures forall j, k :: 0 <= j < k < |log| ==> log[j] <= log[k]
  {
  }
}
