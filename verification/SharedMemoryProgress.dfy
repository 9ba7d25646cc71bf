/** When the two threads over shared memory finish, and when thread1 is left waiting. */
module SharedMemoryProgress {
  import opened SharedMemory

  // ----- every run does a bounded amount of work -----

  function Left(todo: set<nat>): nat {
    One(0 in todo) + One(1 in todo) + One(2 in todo)
  }

  function Left1(n: nat, s: State): int {
    match s.pc1
    case Top1 => 10 * (n - s.i1) + 1
    case Write1(f) => 10 * (n - s.i1) - f
    case Wait1 => 10 * (n - s.i1) - 3
    case Log1(todo) => 10 * (n - s.i1) - 7 + Left(todo)
    case Clear1 => 10 * (n - s.i1) - 7
    case Exit1 => 0
  }

  function Left2(n: nat, s: State): int {
    match s.pc2
    case Unborn => 10 * n + 2
    case Top2 => 10 * (n - s.i2) + 1
    case Log2(todo) => 10 * (n - s.i2) - 3 + Left(todo)
    case Write2(f) => 10 * (n - s.i2) - 3 - f
    case Set2 => 10 * (n - s.i2) - 6
    case Exit2 => 0
  }

  function Measure(n: nat, s: State): int {
    Left1(n, s) + Left2(n, s)
  }

  lemma MeasureIsNatural(n: nat, s: State)
    requires Counters(n, s)
    ensures 0 <= Left1(n, s) && 0 <= Left2(n, s)
  {
  }

  /** Every step but an idle look at the flag brings the end nearer. */
  lemma Step1Works(n: nat, s: State, f: nat)
    requires Counters(n, s) && Step1(n, s, f) != s
    ensures Left1(n, Step1(n, s, f)) < Left1(n, s)
    ensures Left2(n, Step1(n, s, f)) == Left2(n, s)
  {
  }

  lemma Step2Works(n: nat, s: State, f: nat)
    requires Counters(n, s) && Step2(n, s, f) != s
    ensures Left2(n, Step2(n, s, f)) < Left2(n, s)
    ensures Left1(n, Step2(n, s, f)) == Left1(n, s)
  {
  }

  lemma NextWorks(n: nat, s: State, m: Move)
    requires Counters(n, s) && !m.Signal? && Next(n, s, m) != s
    ensures Measure(n, Next(n, s, m)) < Measure(n, s)
  {
    match m {
      case Thread1(f) => Step1Works(n, s, f);
      case Thread2(f) => Step2Works(n, s, f);
    }
  }

  /** How many of the moves are more than an idle look at the flag. */
  function Work(n: nat, s: State, moves: seq<Move>): nat
    decreases |moves|
  {
    if moves == [] then 0
    else
      var t := Next(n, s, moves[0]);
      (if moves[0].Signal? || t == s then 0 else 1) + Work(n, t, moves[1..])
  }

  lemma {:induction false} WorkIsBounded(n: nat, s: State, moves: seq<Move>)
    requires Inv(n, s)
    ensures Work(n, s, moves) <= Measure(n, s)
    decreases |moves|
  {
    if moves == [] {
      MeasureIsNatural(n, s);
    } else {
      NextKeepsInv(n, s, moves[0]);
      if !moves[0].Signal? && Next(n, s, moves[0]) != s {
        NextWorks(n, s, moves[0]);
      } else {
        assert Measure(n, Next(n, s, moves[0])) == Measure(n, s);
      }
      WorkIsBounded(n, Next(n, s, moves[0]), moves[1..]);
    }
  }

  // ----- where runs without a signal end -----

  /** Nothing is possible any more but an idle look at the flag. */
  ghost predicate Over(n: nat, s: State) {
    forall m: Move :: !m.Signal? ==> Next(n, s, m) == s
  }

  predicate Finished(s: State) {
    s.pc1.Exit1? && s.pc2.Exit2?
  }

  predicate LeftWaiting(s: State) {
    s.pc1.Wait1? && !s.send && s.pc2.Exit2?
  }

  /** A field that a logging thread has still to read. */
  function Pick(todo: set<nat>): nat {
    if 0 in todo then 0 else if 1 in todo then 1 else 2
  }

  function Choice1(s: State): nat {
    if s.pc1.Log1? then Pick(s.pc1.todo) else 0
  }

  function Choice2(s: State): nat {
    if s.pc2.Log2? then Pick(s.pc2.todo) else 0
  }

  lemma CanMove(n: nat, s: State)
    requires Counters(n, s) && !s.sigint
    ensures Step1(n, s, Choice1(s)) == s ==> s.pc1.Exit1? || (s.pc1.Wait1? && !s.send)
    ensures Step2(n, s, Choice2(s)) == s ==> s.pc2.Exit2?
  {
  }

  lemma OverExactly(n: nat, s: State)
    requires Inv(n, s) && !s.sigint
    ensures Over(n, s) <==> Finished(s) || LeftWaiting(s)
  {
    CanMove(n, s);
    if Over(n, s) {
      assert Next(n, s, Thread1(Choice1(s))) == s && Next(n, s, Thread2(Choice2(s))) == s;
    }
  }

  /**
   * At the end thread2 has sent all its acknowledgements, and thread1 has logged all but those whose
   * flag was lost on one still set. It has finished exactly when none was lost.
   */
  lemma OutcomeExactly(n: nat, s: State, f: nat)
    requires Inv(n, s) && !s.sigint && Over(n, s) && f < FIELDS
    ensures |s.log2[f]| == n && |s.log1[f]| == s.i1 == n - s.lost
    ensures Finished(s) <==> s.lost == 0
    ensures LeftWaiting(s) <==> s.lost != 0
  {
    OverExactly(n, s);
  }

  // ----- who can be stuck -----

  /** Thread2 will not set the flag any more. */
  predicate Done2(n: nat, s: State) {
    s.pc2.Exit2? || (s.pc2.Top2? && s.i2 == n)
  }

  lemma {:induction false} WaitsForever(n: nat, s: State, moves: seq<Move>)
    requires s.pc1.Wait1? && !s.send && !s.sigint && Done2(n, s) && WithoutSignal(moves)
    ensures Run(n, s, moves).pc1.Wait1?
    decreases |moves|
  {
    if moves != [] {
      WaitsForever(n, Next(n, s, moves[0]), moves[1..]);
    }
  }

  /** As long as thread2 has an acknowledgement to send, running it alone wakes thread1 up. */
  lemma {:induction false} WakeUp(n: nat, s: State) returns (moves: seq<Move>)
    requires Inv(n, s) && s.pc1.Wait1? && !s.sigint && (s.send || !Done2(n, s))
    ensures WithoutSignal(moves) && !Run(n, s, moves).pc1.Wait1?
    decreases Left2(n, s)
  {
    MeasureIsNatural(n, s);
    if s.send {
      moves := [Thread1(0)];
      assert Run(n, s, moves) == Run(n, Next(n, s, moves[0]), []);
    } else {
      var m := Thread2(Choice2(s));
      CanMove(n, s);
      Step2Works(n, s, m.f);
      NextKeepsInv(n, s, m);
      MeasureIsNatural(n, Next(n, s, m));
      var rest := WakeUp(n, Next(n, s, m));
      moves := [m] + rest;
      assert moves[1..] == rest;
    }
  }

  /** Without a signal thread1 waits forever exactly when thread2 has exited, or is about to, flag unset. */
  lemma StuckExactly(n: nat, s: State)
    requires Inv(n, s) && s.pc1.Wait1? && !s.sigint
    ensures (forall moves :: WithoutSignal(moves) ==> Run(n, s, moves).pc1.Wait1?) <==> !s.send && Done2(n, s)
  {
    if !s.send && Done2(n, s) {
      forall moves | WithoutSignal(moves)
        ensures Run(n, s, moves).pc1.Wait1?
      {
        WaitsForever(n, s, moves);
      }
    } else {
      var moves := WakeUp(n, s);
    }
  }

  // ----- the signal -----

  /** The threads' common flag says that the signal has come, and stays up. */
  lemma {:induction false} SignalSeenExactly(n: nat, s: State, moves: seq<Move>)
    ensures Run(n, s, moves).sigint <==> s.sigint || !WithoutSignal(moves)
    decreases |moves|
  {
    if moves != [] {
      SignalSeenExactly(n, Next(n, s, moves[0]), moves[1..]);
      assert WithoutSignal(moves) <==> !moves[0].Signal? && WithoutSignal(moves[1..]) by {
        assert moves == [moves[0]] + moves[1..];
      }
    }
  }

  /** Past its loop's head, and not yet back there. */
  predicate InRound1(s: State) {
    !s.pc1.Top1? && !s.pc1.Exit1?
  }

  predicate InRound2(s: State) {
    s.pc2.Log2? || s.pc2.Write2? || s.pc2.Set2?
  }

  function Rounds1(s: State): nat {
    s.i1 + One(InRound1(s))
  }

  function Rounds2(s: State): nat {
    s.i2 + One(InRound2(s))
  }

  lemma NextNoNewRound(n: nat, s: State, m: Move)
    requires s.sigint
    ensures var t := Next(n, s, m); t.sigint && Rounds1(t) <= Rounds1(s) && Rounds2(t) <= Rounds2(s)
  {
    match m {
      case Thread1(f) => assert Step1(n, s, f).pc2 == s.pc2;
      case Thread2(f) => assert Step2(n, s, f).pc1 == s.pc1;
      case Signal =>
    }
  }

  /** Once the signal has come each thread completes at most the round it is in. */
  lemma {:induction false} NoNewRound(n: nat, s: State, moves: seq<Move>)
    requires s.sigint
    ensures var t := Run(n, s, moves);
            && t.sigint
            && t.i1 <= s.i1 + One(InRound1(s)) && t.i2 <= s.i2 + One(InRound2(s))
            && Rounds1(t) <= Rounds1(s) && Rounds2(t) <= Rounds2(s)
    decreases |moves|
  {
    if moves != [] {
      NextNoNewRound(n, s, moves[0]);
      hide Next;
      NoNewRound(n, Next(n, s, moves[0]), moves[1..]);
    }
  }

  /** And nobody is left waiting: the only end of a run with a signal is that both threads have exited. */
  lemma SignalEndsBoth(n: nat, s: State)
    requires Inv(n, s) && s.sigint
    ensures Over(n, s) <==> Finished(s)
  {
    if Over(n, s) {
      assert Next(n, s, Thread1(Choice1(s))) == s && Next(n, s, Thread2(Choice2(s))) == s;
      hide Slots, Orderly;
    }
  }

  lemma {:induction false} FilledStays(n: nat, s: State, moves: seq<Move>)
    requires !s.pc2.Unborn? && s.filled
    ensures Run(n, s, moves).filled
    decreases |moves|
  {
    if moves != [] {
      FilledStays(n, Next(n, s, moves[0]), moves[1..]);
    }
  }

  /** When thread2 starts after thread1's first message is complete, every entry it ever logs is from a message. */
  lemma OnlyMessagesLogged(n: nat, before: seq<Move>, g: nat, after: seq<Move>, f: nat)
    requires f < FIELDS
    requires var s := Run(n, START, before);
             s.pc2.Unborn? && (s.pc1.Wait1? || s.pc1.Log1? || s.pc1.Clear1? || 0 < s.i1)
    ensures var log := Run(n, START, before + ([Thread2(g)] + after)).log2[f];
            forall j :: 0 <= j < |log| ==> 0 <= log[j] <= j
  {
    var s := Run(n, START, before);
    StartIsFine(n);
    RunKeepsInv(n, START, before);
    var t := Next(n, s, Thread2(g));
    assert t.filled;
    RunConcat(n, START, before, [Thread2(g)] + after);
    assert ([Thread2(g)] + after)[1..] == after;
    FilledStays(n, t, after);
    hide Inv, Next;
    OrderedInEveryRun(n, before + ([Thread2(g)] + after), f);
  }

  // ----- it does happen -----

  lemma {:induction false} RunConcat(n: nat, s: State, xs: seq<Move>, ys: seq<Move>)
    ensures Run(n, s, xs + ys) == Run(n, Run(n, s, xs), ys)
    decreases |xs|
  {
    if xs == [] {
      assert xs + ys == ys;
    } else {
      assert (xs + ys)[1..] == xs[1..] + ys;
      RunConcat(n, Next(n, s, xs[0]), xs[1..], ys);
    }
  }

  /** Thread2 alone runs to its end. */
  lemma {:induction false} Alone2(n: nat, s: State) returns (moves: seq<Move>)
    requires Inv(n, s) && !s.sigint
    ensures WithoutSignal(moves) && Run(n, s, moves).pc2.Exit2?
    ensures Inv(n, Run(n, s, moves)) && !Run(n, s, moves).sigint && Run(n, s, moves).i1 == s.i1
    decreases Left2(n, s)
  {
    hide Counters, Slots, Orderly;
    MeasureIsNatural(n, s);
    if s.pc2.Exit2? {
      moves := [];
    } else {
      var m := Thread2(Choice2(s));
      CanMove(n, s);
      Step2Works(n, s, m.f);
      NextKeepsInv(n, s, m);
      MeasureIsNatural(n, Next(n, s, m));
      var rest := Alone2(n, Next(n, s, m));
      moves := [m] + rest;
      assert moves[1..] == rest;
    }
  }

  /** Once thread2 has exited thread1 too runs to where it ends, and no more flags are lost. */
  lemma {:induction false} ThenAlone1(n: nat, s: State) returns (moves: seq<Move>)
    requires Inv(n, s) && !s.sigint && s.pc2.Exit2?
    ensures WithoutSignal(moves) && Inv(n, Run(n, s, moves)) && !Run(n, s, moves).sigint
    ensures Over(n, Run(n, s, moves)) && Run(n, s, moves).lost == s.lost
    decreases Left1(n, s)
  {
    MeasureIsNatural(n, s);
    if s.pc1.Exit1? || (s.pc1.Wait1? && !s.send) {
      OverExactly(n, s);
      moves := [];
    } else {
      var m := Thread1(Choice1(s));
      CanMove(n, s);
      Step1Works(n, s, m.f);
      NextKeepsInv(n, s, m);
      MeasureIsNatural(n, Next(n, s, m));
      var rest := ThenAlone1(n, Next(n, s, m));
      moves := [m] + rest;
      assert moves[1..] == rest;
    }
  }

  /** Thread1 can be left waiting exactly when there is more than one message. */
  lemma LostWakeUpExactly(n: nat)
    ensures (exists moves :: WithoutSignal(moves) && LeftWaiting(Run(n, START, moves))) <==> 2 <= n
  {
    if 2 <= n {
      var first := Alone2(n, START);
      var s := Run(n, START, first);
      var second := ThenAlone1(n, s);
      RunConcat(n, START, first, second);
      OutcomeExactly(n, Run(n, s, second), 0);
      assert WithoutSignal(first + second) && LeftWaiting(Run(n, START, first + second));
    }
    forall moves | WithoutSignal(moves) && LeftWaiting(Run(n, START, moves))
      ensures 2 <= n
    {
      RunKeepsInv(n, START, moves);
      SignalSeenExactly(n, START, moves);
    }
  }

  /** One step of either thread that can move, the scheduler choosing. */
  method Advance(n: nat, s: State) returns (t: State)
    requires Inv(n, s) && !s.sigint && !Finished(s) && !LeftWaiting(s)
    ensures Inv(n, t) && !t.sigint && 0 <= Measure(n, t) < Measure(n, s)
  {
    var m: Move;
    if {
    case !s.pc1.Exit1? && (!s.pc1.Wait1? || s.send) =>
      var f: nat := 0;
      if s.pc1.Log1? {
        f :| f in s.pc1.todo;
      }
      m := Thread1(f);
    case !s.pc2.Exit2? =>
      var f: nat := 0;
      if s.pc2.Log2? {
        f :| f in s.pc2.todo;
      }
      m := Thread2(f);
    }
    t := Next(n, s, m);
    assert t != s;
    NextWorks(n, s, m);
    NextKeepsInv(n, s, m);
    MeasureIsNatural(n, t);
  }

  /** The two loops, interleaved in any way, until nothing but idle looks at the flag is left to do. */
  method Interleave(n: nat) returns (s: State)
    ensures Inv(n, s) && !s.sigint
    ensures if s.lost == 0 then Finished(s) else LeftWaiting(s)
    ensures forall f :: 0 <= f < FIELDS ==> |s.log2[f]| == n && |s.log1[f]| == n - s.lost
  {
    s := START;
    StartIsFine(n);
    MeasureIsNatural(n, s);
    hide Inv, Measure;
    while !Finished(s) && !LeftWaiting(s)
      invariant Inv(n, s) && !s.sigint && 0 <= Measure(n, s)
      decreases Measure(n, s)
    {
      s := Advance(n, s);
    }
    OverExactly(n, s);
    forall f | 0 <= f < FIELDS
      ensures |s.log2[f]| == n && |s.log1[f]| == n - s.lost
    {
      OutcomeExactly(n, s, f);
    }
    OutcomeExactly(n, s, 0);
  }
}
