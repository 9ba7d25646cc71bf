/** Two threads exchanging their tables through two bounded message queues. */
module Queues {
  datatype Pc1 = Top1 | Send1 | Receive1 | Exit1
  datatype Pc2 = Top2 | Receive2 | Send2 | Exit2

  /** The two tables, equally long, and how many messages a queue holds. */
  datatype Config<T> = Config(table1: seq<T>, table2: seq<T>, room: nat) {
    function N(): nat { |table1| }
    ghost predicate Valid() { |table1| == |table2| && 1 <= room }
  }

  datatype State<T> = State(
    pc1: Pc1, i1: nat, log1: seq<T>, pc2: Pc2, i2: nat, log2: seq<T>,
    queue1: seq<T>, queue2: seq<T>)

  function Start<T>(): State<T> {
    State(Top1, 0, [], Top2, 0, [], [], [])
  }

  /** A send blocks while its queue is full, a receive while its queue is empty. */
  predicate Ready1<T>(c: Config<T>, s: State<T>) {
    match s.pc1
    case Top1 => true
    case Send1 => |s.queue1| < c.room && s.i1 < c.N()
    case Receive1 => s.queue2 != []
    case Exit1 => false
  }

  predicate Ready2<T>(c: Config<T>, s: State<T>) {
    match s.pc2
    case Top2 => true
    case Receive2 => s.queue1 != []
    case Send2 => |s.queue2| < c.room && s.i2 < |c.table2|
    case Exit2 => false
  }

  function Step1<T>(c: Config<T>, s: State<T>): State<T>
    requires Ready1(c, s)
  {
    match s.pc1
    case Top1 => s.(pc1 := if s.i1 == c.N() then Exit1 else Send1)
    case Send1 => s.(queue1 := s.queue1 + [c.table1[s.i1]], i1 := s.i1 + 1, pc1 := Receive1)
    case Receive1 => s.(log1 := s.log1 + [s.queue2[0]], queue2 := s.queue2[1..], pc1 := Top1)
  }

  function Step2<T>(c: Config<T>, s: State<T>): State<T>
    requires Ready2(c, s)
  {
    match s.pc2
    case Top2 => s.(pc2 := if s.i2 == c.N() then Exit2 else Receive2)
    case Receive2 => s.(log2 := s.log2 + [s.queue1[0]], queue1 := s.queue1[1..], pc2 := Send2)
    case Send2 => s.(queue2 := s.queue2 + [c.table2[s.i2]], i2 := s.i2 + 1, pc2 := Top2)
  }

  /** A schedule names the thread that runs next; one that is blocked or has exited does nothing. */
  function Run<T>(c: Config<T>, s: State<T>, schedule: seq<bool>): State<T>
    decreases |schedule|
  {
    if schedule == [] then s
    else
      var t := if schedule[0] then (if Ready1(c, s) then Step1(c, s) else s)
               else (if Ready2(c, s) then Step2(c, s) else s);
      Run(c, t, schedule[1..])
  }

  /**
   * A message queue in any state: a send waits exactly while it is full and puts its message behind the
   * others, a receive waits exactly while it is empty and logs the one in front, so neither ever overflows.
   */
  lemma QueueRules<T>(c: Config<T>, s: State<T>)
    requires c.Valid() && s.i1 < c.N() && s.i2 < c.N()
    ensures s.pc1 == Send1 ==> (Ready1(c, s) <==> |s.queue1| < c.room)
    ensures s.pc2 == Send2 ==> (Ready2(c, s) <==> |s.queue2| < c.room)
    ensures s.pc1 == Receive1 ==> (Ready1(c, s) <==> 0 < |s.queue2|)
    ensures s.pc2 == Receive2 ==> (Ready2(c, s) <==> 0 < |s.queue1|)
    ensures Ready1(c, s) ==>
              var t := Step1(c, s);
              && t.queue1 == s.queue1 + (if s.pc1 == Send1 then [c.table1[s.i1]] else [])
              && t.log1 + t.queue2 == s.log1 + s.queue2 && |t.log1| == |s.log1| + (if s.pc1 == Receive1 then 1 else 0)
              && (|s.queue1| <= c.room ==> |t.queue1| <= c.room)
    ensures Ready2(c, s) ==>
              var t := Step2(c, s);
              && t.queue2 == s.queue2 + (if s.pc2 == Send2 then [c.table2[s.i2]] else [])
              && t.log2 + t.queue1 == s.log2 + s.queue1 && |t.log2| == |s.log2| + (if s.pc2 == Receive2 then 1 else 0)
              && (|s.queue2| <= c.room ==> |t.queue2| <= c.room)
  {
  }

  /** Acknowledged, answered, received, sent: four counts in lockstep say where every message is. */
  ghost predicate Inv<T>(c: Config<T>, s: State<T>) {
    && |s.log1| <= s.i2 <= |s.log2| <= s.i1 <= |s.log1| + 1
    && s.i1 <= c.N() == |c.table2|
    && s.log1 == c.table2[..|s.log1|]
    && s.log2 == c.table1[..|s.log2|]
    && s.queue1 == c.table1[|s.log2|..s.i1]
    && s.queue2 == c.table2[|s.log1|..s.i2]
    && (s.i1 == |s.log1| + 1 <==> s.pc1 == Receive1)
    && (|s.log2| == s.i2 + 1 <==> s.pc2 == Send2)
    && (s.pc1 == Send1 ==> s.i1 < c.N()) && (s.pc1 == Exit1 ==> s.i1 == c.N())
    && (s.pc2 == Receive2 ==> s.i2 < c.N()) && (s.pc2 == Exit2 ==> s.i2 == c.N())
  }

  lemma Step1KeepsInv<T>(c: Config<T>, s: State<T>)
    requires c.Valid() && Inv(c, s) && Ready1(c, s)
    ensures Inv(c, Step1(c, s))
  {
    match s.pc1 {
      case Send1 => SliceGrows(c.table1, |s.log2|, s.i1);
      case Receive1 => SliceShrinks(c.table2, |s.log1|, s.i2);
      case _ =>
    }
  }

  lemma Step2KeepsInv<T>(c: Config<T>, s: State<T>)
    requires c.Valid() && Inv(c, s) && Ready2(c, s)
    ensures Inv(c, Step2(c, s))
  {
    match s.pc2 {
      case Send2 => SliceGrows(c.table2, |s.log1|, s.i2);
      case Receive2 => SliceShrinks(c.table1, |s.log2|, s.i1);
      case _ =>
    }
  }

  lemma SliceGrows<T>(table: seq<T>, from: nat, to: nat)
    requires from <= to < |table|
    ensures table[from..to] + [table[to]] == table[from..to + 1]
  {
  }

  lemma SliceShrinks<T>(table: seq<T>, from: nat, to: nat)
    requires from < to <= |table|
    ensures table[from..to][0] == table[from] && table[from..to][1..] == table[from + 1..to]
    ensures table[..from] + [table[from]] == table[..from + 1]
  {
  }

  lemma {:induction false} RunKeepsInv<T>(c: Config<T>, s: State<T>, schedule: seq<bool>)
    requires c.Valid() && Inv(c, s)
    ensures Inv(c, Run(c, s, schedule))
    decreases |schedule|
  {
    if schedule != [] {
      if schedule[0] && Ready1(c, s) {
        Step1KeepsInv(c, s);
        RunKeepsInv(c, Step1(c, s), schedule[1..]);
      } else if !schedule[0] && Ready2(c, s) {
        Step2KeepsInv(c, s);
        RunKeepsInv(c, Step2(c, s), schedule[1..]);
      } else {
        RunKeepsInv(c, s, schedule[1..]);
      }
    }
  }

  /** Strict ping-pong in every reachable state: one message at most, rounds at most one apart, no stuck pair. */
  lemma PingPong<T>(c: Config<T>, schedule: seq<bool>)
    requires c.Valid()
    ensures var s := Run(c, Start(), schedule);
            && |s.queue1| + |s.queue2| <= 1
            && s.i2 <= s.i1 <= s.i2 + 1
            && s.log1 <= c.table2 && s.log2 <= c.table1
            && (Ready1(c, s) || Ready2(c, s) || (s.pc1 == Exit1 && s.pc2 == Exit2))
  {
    RunKeepsInv(c, Start(), schedule);
    NeverStuck(c, Run(c, Start(), schedule));
  }

  /** A message is never sent into a queue that is not empty, so even room for one would do. */
  lemma NeverStuck<T>(c: Config<T>, s: State<T>)
    requires c.Valid() && Inv(c, s)
    ensures Ready1(c, s) || Ready2(c, s) || (s.pc1 == Exit1 && s.pc2 == Exit2)
    ensures s.pc1 == Send1 ==> s.queue1 == s.queue2 == []
    ensures s.pc2 == Send2 ==> s.queue1 == s.queue2 == []
  {
  }

  function Left1(n: nat, pc: Pc1, done: nat): int {
    match pc
    case Top1 => 3 * (n - done) + 1
    case Send1 => 3 * (n - done)
    case Receive1 => 3 * (n - done) - 1
    case Exit1 => 0
  }

  function Left2(n: nat, pc: Pc2, done: nat): int {
    match pc
    case Top2 => 3 * (n - done) + 1
    case Receive2 => 3 * (n - done)
    case Send2 => 3 * (n - done) - 1
    case Exit2 => 0
  }

  function Measure<T>(c: Config<T>, s: State<T>): int {
    Left1(c.N(), s.pc1, |s.log1|) + Left2(c.N(), s.pc2, s.i2)
  }

  lemma Step1Works<T>(c: Config<T>, s: State<T>)
    requires c.Valid() && Inv(c, s) && Ready1(c, s)
    ensures 0 <= Measure(c, Step1(c, s)) < Measure(c, s)
  {
  }

  lemma Step2Works<T>(c: Config<T>, s: State<T>)
    requires c.Valid() && Inv(c, s) && Ready2(c, s)
    ensures 0 <= Measure(c, Step2(c, s)) < Measure(c, s)
  {
  }

  /** The two loops under any scheduler: both finish, each having logged the other's whole table. */
  method Exchange<T>(table1: seq<T>, table2: seq<T>, room: nat) returns (log1: seq<T>, log2: seq<T>)
    requires |table1| == |table2| && 1 <= room
    ensures log1 == table2 && log2 == table1
  {
    var c := Config(table1, table2, room);
    var s := Start<T>();
    while !(s.pc1 == Exit1 && s.pc2 == Exit2)
      invariant Inv(c, s)
      decreases Measure(c, s)
    {
      NeverStuck(c, s);
      hide Inv, Measure, Step1, Step2;
      if {
        case Ready1(c, s) =>
          Step1KeepsInv(c, s);
          Step1Works(c, s);
          s := Step1(c, s);
        case Ready2(c, s) =>
          Step2KeepsInv(c, s);
          Step2Works(c, s);
          s := Step2(c, s);
      }
    }
    log1, log2 := s.log1, s.log2;
  }
}
