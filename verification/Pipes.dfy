/**
 * Two threads exchanging their tables through two pipes, as byte streams. Every write hands over as
 * many bytes as the whole table has, from the current record on, so it runs past the table's end;
 * every read asks for one record.
 */
module Pipes {
  type Byte = b: nat | b < 256
  type Bytes = seq<Byte>

  datatype Pc1 = Top1 | Write1 | Read1 | Exit1
  datatype Pc2 = Top2 | Read2 | Write2 | Exit2

  /** Two tables of records of `width` bytes, and how many bytes a pipe holds. */
  datatype Config = Config(table1: seq<Bytes>, table2: seq<Bytes>, width: nat, room: nat) {
    function N(): nat { |table1| }
    function TableBytes(): nat { N() * width }

    ghost predicate Valid() {
      && |table1| == |table2| && 1 <= width
      && (forall k :: 0 <= k < N() ==> |table1[k]| == |table2[k]| == width)
    }

    /** Room for one write, and for all of one thread's writes less what the other thread reads. */
    predicate Enough() {
      TableBytes() <= room && N() * TableBytes() <= room + N() * width
    }
  }

  function Flat(records: seq<Bytes>): Bytes {
    if records == [] then [] else records[0] + Flat(records[1..])
  }

  datatype State = State(
    pc1: Pc1, i1: nat, log1: seq<Bytes>, pc2: Pc2, i2: nat, log2: seq<Bytes>,
    pipe1: Bytes, pipe2: Bytes)

  const START := State(Top1, 0, [], Top2, 0, [], [], [])

  /** A write waits for room, a read for the first byte. */
  predicate Ready1(c: Config, s: State) {
    match s.pc1
    case Top1 => true
    case Write1 => |s.pipe1| + c.TableBytes() <= c.room && s.i1 < |c.table1|
    case Read1 => s.pipe2 != []
    case Exit1 => false
  }

  predicate Ready2(c: Config, s: State) {
    match s.pc2
    case Top2 => true
    case Read2 => s.pipe1 != []
    case Write2 => |s.pipe2| + c.TableBytes() <= c.room && s.i2 < |c.table2|
    case Exit2 => false
  }

  /** What one write puts into the pipe; `beyond` is whatever follows the table in memory. */
  function Block(c: Config, table: seq<Bytes>, i: nat, beyond: Bytes): Bytes
    requires i <= |table|
  {
    Flat(table[i..]) + beyond
  }

  predicate FillsBlock(c: Config, table: seq<Bytes>, i: nat, beyond: Bytes) {
    i <= |table| && |Block(c, table, i, beyond)| == c.TableBytes()
  }

  function Taken(c: Config, pipe: Bytes): nat {
    if |pipe| < c.width then |pipe| else c.width
  }

  function Step1(c: Config, s: State, beyond: Bytes): State
    requires Ready1(c, s) && (s.pc1 == Write1 ==> FillsBlock(c, c.table1, s.i1, beyond))
  {
    match s.pc1
    case Top1 => s.(pc1 := if s.i1 == c.N() then Exit1 else Write1)
    case Write1 => s.(pipe1 := s.pipe1 + Block(c, c.table1, s.i1, beyond), i1 := s.i1 + 1, pc1 := Read1)
    case Read1 =>
      var n := Taken(c, s.pipe2);
      s.(log1 := s.log1 + [s.pipe2[..n]], pipe2 := s.pipe2[n..], pc1 := Top1)
  }

  function Step2(c: Config, s: State, beyond: Bytes): State
    requires Ready2(c, s) && (s.pc2 == Write2 ==> FillsBlock(c, c.table2, s.i2, beyond))
  {
    match s.pc2
    case Top2 => s.(pc2 := if s.i2 == c.N() then Exit2 else Read2)
    case Read2 =>
      var n := Taken(c, s.pipe1);
      s.(log2 := s.log2 + [s.pipe1[..n]], pipe1 := s.pipe1[n..], pc2 := Write2)
    case Write2 => s.(pipe2 := s.pipe2 + Block(c, c.table2, s.i2, beyond), i2 := s.i2 + 1, pc2 := Top2)
  }

  datatype Move = Thread1(beyond: Bytes) | Thread2(beyond: Bytes)

  /** A thread that cannot move, or is handed a block of the wrong size, does nothing. */
  function Next(c: Config, s: State, m: Move): State {
    match m
    case Thread1(b) =>
      if Ready1(c, s) && (s.pc1 == Write1 ==> FillsBlock(c, c.table1, s.i1, b)) then Step1(c, s, b) else s
    case Thread2(b) =>
      if Ready2(c, s) && (s.pc2 == Write2 ==> FillsBlock(c, c.table2, s.i2, b)) then Step2(c, s, b) else s
  }

  function Run(c: Config, s: State, moves: seq<Move>): State
    decreases |moves|
  {
    if moves == [] then s else Run(c, Next(c, s, moves[0]), moves[1..])
  }

  /** In any state a read waits exactly for some byte, and moves a record's worth, or all there is, to the log. */
  lemma ReadConserves(c: Config, s: State)
    requires 1 <= c.width
    ensures s.pc1 == Read1 ==> (Ready1(c, s) <==> 0 < |s.pipe2|)
    ensures s.pc2 == Read2 ==> (Ready2(c, s) <==> 0 < |s.pipe1|)
    ensures s.pc1 == Read1 && Ready1(c, s) ==>
              var t := Step1(c, s, []);
              && |t.log1| == |s.log1| + 1 && t.log1[..|s.log1|] == s.log1 && t.log1[|s.log1|] + t.pipe2 == s.pipe2
              && |t.pipe2| == (if c.width < |s.pipe2| then |s.pipe2| - c.width else 0) && t.pipe1 == s.pipe1
    ensures s.pc2 == Read2 && Ready2(c, s) ==>
              var t := Step2(c, s, []);
              && |t.log2| == |s.log2| + 1 && t.log2[..|s.log2|] == s.log2 && t.log2[|s.log2|] + t.pipe1 == s.pipe1
              && |t.pipe1| == (if c.width < |s.pipe1| then |s.pipe1| - c.width else 0) && t.pipe2 == s.pipe2
  {
  }

  /** In any state a write waits exactly for room for a whole table, and appends that much, its next record first. */
  lemma WriteBeginsWithRecord(c: Config, s: State, beyond: Bytes)
    requires c.Valid()
    ensures s.pc1 == Write1 && s.i1 < c.N() ==> (Ready1(c, s) <==> |s.pipe1| + c.N() * c.width <= c.room)
    ensures s.pc2 == Write2 && s.i2 < c.N() ==> (Ready2(c, s) <==> |s.pipe2| + c.N() * c.width <= c.room)
    ensures s.pc1 == Write1 && Ready1(c, s) && FillsBlock(c, c.table1, s.i1, beyond) ==>
              var t := Step1(c, s, beyond);
              s.pipe1 + c.table1[s.i1] <= t.pipe1 && |t.pipe1| == |s.pipe1| + c.TableBytes() && t.i1 == s.i1 + 1
    ensures s.pc2 == Write2 && Ready2(c, s) && FillsBlock(c, c.table2, s.i2, beyond) ==>
              var t := Step2(c, s, beyond);
              s.pipe2 + c.table2[s.i2] <= t.pipe2 && |t.pipe2| == |s.pipe2| + c.TableBytes() && t.i2 == s.i2 + 1
  {
    if s.i1 < c.N() {
      assert c.table1[s.i1..][0] == c.table1[s.i1];
    }
    if s.i2 < c.N() {
      assert c.table2[s.i2..][0] == c.table2[s.i2];
    }
  }

  // ----- one direction -----

  /**
   * After w writes: the records read are the table's first, the rest of the table is next in the
   * pipe once anything has been written, and the pipe holds what was written and not read.
   */
  ghost predicate Stream(c: Config, table: seq<Bytes>, pipe: Bytes, log: seq<Bytes>, w: nat) {
    && |log| <= |table| && log == table[..|log|]
    && (w == 0 ==> pipe == [] && log == [])
    && (w != 0 ==> Flat(table[|log|..]) <= pipe)
    && |pipe| + |log| * c.width == w * c.TableBytes()
  }

  lemma {:induction false} FlatLength(records: seq<Bytes>, width: nat)
    requires forall k :: 0 <= k < |records| ==> |records[k]| == width
    ensures |Flat(records)| == |records| * width
  {
    if records != [] {
      FlatLength(records[1..], width);
      assert |records| * width == width + |records[1..]| * width;
    }
  }

  lemma Written(c: Config, table: seq<Bytes>, pipe: Bytes, log: seq<Bytes>, w: nat, beyond: Bytes)
    requires Stream(c, table, pipe, log, w) && FillsBlock(c, table, w, beyond)
    ensures Stream(c, table, pipe + Block(c, table, w, beyond), log, w + 1)
  {
    assert (w + 1) * c.TableBytes() == w * c.TableBytes() + c.TableBytes();
    if w == 0 {
      assert table[0..] == table && pipe + Block(c, table, w, beyond) == Block(c, table, w, beyond);
    }
  }

  /** A read that finds anything finds a whole record, the next one of the table. */
  lemma ReadNext(c: Config, table: seq<Bytes>, pipe: Bytes, log: seq<Bytes>, w: nat)
    requires Stream(c, table, pipe, log, w) && w != 0 && |log| < |table| && |table[|log|]| == c.width
    ensures Taken(c, pipe) == c.width <= |pipe|
    ensures pipe[..c.width] == table[|log|]
    ensures Stream(c, table, pipe[c.width..], log + [table[|log|]], w)
  {
    var r := |log|;
    assert Flat(table[r..]) == table[r] + Flat(table[r + 1..]) by {
      assert table[r..][1..] == table[r + 1..];
    }
    PrefixSplits(table[r], Flat(table[r + 1..]), pipe);
    assert (r + 1) * c.width == r * c.width + c.width;
  }

  lemma PrefixSplits(x: Bytes, y: Bytes, z: Bytes)
    requires x + y <= z
    ensures |x| <= |z| && z[..|x|] == x && y <= z[|x|..]
  {
    assert z[..|x|] == (x + y)[..|x|];
    assert z[|x|..][..|y|] == z[|x|..|x| + |y|] == (x + y)[|x|..];
  }

  // ----- both directions -----

  ghost predicate Inv(c: Config, s: State) {
    && Stream(c, c.table1, s.pipe1, s.log2, s.i1)
    && Stream(c, c.table2, s.pipe2, s.log1, s.i2)
    && s.i1 <= c.N() && s.i2 <= c.N()
    && s.i1 == |s.log1| + (if s.pc1 == Read1 then 1 else 0)
    && |s.log2| == s.i2 + (if s.pc2 == Write2 then 1 else 0)
    && (s.pc1 == Write1 ==> s.i1 < c.N()) && (s.pc1 == Exit1 ==> s.i1 == c.N())
    && (s.pc2 == Read2 ==> s.i2 < c.N()) && (s.pc2 == Exit2 ==> s.i2 == c.N())
  }

  lemma PipeNotEmpty(c: Config, table: seq<Bytes>, pipe: Bytes, log: seq<Bytes>, w: nat)
    requires 1 <= c.width && Stream(c, table, pipe, log, w) && w != 0
    requires |log| < |table| && |table[|log|]| == c.width
    ensures pipe != []
  {
    ReadNext(c, table, pipe, log, w);
  }

  lemma Step1KeepsInv(c: Config, s: State, beyond: Bytes)
    requires c.Valid() && Inv(c, s) && Ready1(c, s) && (s.pc1 == Write1 ==> FillsBlock(c, c.table1, s.i1, beyond))
    ensures Inv(c, Step1(c, s, beyond))
  {
    match s.pc1 {
      case Write1 => Written(c, c.table1, s.pipe1, s.log2, s.i1, beyond);
      case Read1 => ReadNext(c, c.table2, s.pipe2, s.log1, s.i2);
      case _ =>
    }
  }

  lemma Step2KeepsInv(c: Config, s: State, beyond: Bytes)
    requires c.Valid() && Inv(c, s) && Ready2(c, s) && (s.pc2 == Write2 ==> FillsBlock(c, c.table2, s.i2, beyond))
    ensures Inv(c, Step2(c, s, beyond))
  {
    match s.pc2 {
      case Write2 => Written(c, c.table2, s.pipe2, s.log1, s.i2, beyond);
      case Read2 => ReadNext(c, c.table1, s.pipe1, s.log2, s.i1);
      case _ =>
    }
  }

  lemma NextKeepsInv(c: Config, s: State, m: Move)
    requires c.Valid() && Inv(c, s)
    ensures Inv(c, Next(c, s, m))
  {
    hide Inv, Step1, Step2;
    if Next(c, s, m) != s {
      match m {
        case Thread1(b) => Step1KeepsInv(c, s, b);
        case Thread2(b) => Step2KeepsInv(c, s, b);
      }
    }
  }

  lemma {:induction false} RunKeepsInv(c: Config, s: State, moves: seq<Move>)
    requires c.Valid() && Inv(c, s)
    ensures Inv(c, Run(c, s, moves))
    decreases |moves|
  {
    if moves != [] {
      NextKeepsInv(c, s, moves[0]);
      RunKeepsInv(c, Next(c, s, moves[0]), moves[1..]);
    }
  }

  /** In every interleaving the k-th read of either thread returns record k of the other's table. */
  lemma ReadsAreRecords(c: Config, moves: seq<Move>)
    requires c.Valid()
    ensures var s := Run(c, START, moves); s.log1 <= c.table2 && s.log2 <= c.table1
  {
    RunKeepsInv(c, START, moves);
  }

  lemma Monotone(x: nat, y: nat, z: nat)
    requires x <= y
    ensures x * z <= y * z
  {
  }

  /**
   * A read can only be kept waiting by the other thread's first write, a write only by a pipe that
   * holds too much of what was written before.
   */
  lemma WaitsExactly(c: Config, s: State)
    requires c.Valid() && Inv(c, s)
    ensures s.pc1 == Top1 ==> Ready1(c, s)
    ensures s.pc2 == Top2 ==> Ready2(c, s)
    ensures s.pc1 == Read1 ==> (Ready1(c, s) <==> s.i2 != 0)
    ensures s.pc2 == Read2 ==> (Ready2(c, s) <==> s.i1 != 0)
    ensures s.pc1 == Write1 ==> (Ready1(c, s) <==> (s.i1 + 1) * c.TableBytes() <= c.room + |s.log2| * c.width)
    ensures s.pc2 == Write2 ==> (Ready2(c, s) <==> (s.i2 + 1) * c.TableBytes() <= c.room + |s.log1| * c.width)
  {
    if s.pc1 == Read1 && s.i2 != 0 {
      PipeNotEmpty(c, c.table2, s.pipe2, s.log1, s.i2);
    }
    if s.pc2 == Read2 && s.i1 != 0 {
      PipeNotEmpty(c, c.table1, s.pipe1, s.log2, s.i1);
    }
    OneMore(s.i1, c.TableBytes());
    OneMore(s.i2, c.TableBytes());
  }

  lemma OneMore(x: nat, y: nat)
    ensures (x + 1) * y == x * y + y
  {
  }

  // ----- when the threads finish -----

  predicate Finished(s: State) {
    s.pc1 == Exit1 && s.pc2 == Exit2
  }

  predicate Stuck(c: Config, s: State) {
    !Ready1(c, s) && !Ready2(c, s) && !Finished(s)
  }

  /** With enough room the two threads cannot both find their pipes too full. */
  lemma NotBothFull(n: nat, width: nat, table: nat, room: nat, i1: nat, i2: nat)
    requires i1 < n && i2 < n && table == n * width && n * table <= room + n * width
    ensures (i1 + 1) * table <= room + (i2 + 1) * width || (i2 + 1) * table <= room
  {
    if i2 + 1 == n {
      Monotone(i1 + 1, n, table);
    } else {
      Monotone(i2 + 1, n - 1, table);
      OneMore(n - 1, table);
    }
  }

  lemma NeverStuck(c: Config, s: State)
    requires c.Valid() && c.Enough() && Inv(c, s)
    ensures !Stuck(c, s)
  {
    var n, table, room := c.N(), c.TableBytes(), c.room;
    WaitsExactly(c, s);
    hide Ready1, Ready2, Stream;
    if s.pc1 == Write1 && s.pc2 == Write2 {
      NotBothFull(n, c.width, table, room, s.i1, s.i2);
    } else if s.pc1 == Write1 {
      assert s.pc2 == Read2 && s.i1 == 0 ==> (s.i1 + 1) * table == table;
      assert s.pc2 == Exit2 ==> |s.log2| * c.width == n * c.width;
      Monotone(s.i1 + 1, n, table);
    } else if s.pc2 == Write2 {
      assert s.pc1 == Read1 && s.i2 == 0 ==> (s.i2 + 1) * table == table;
      assert s.pc1 == Exit1 ==> |s.log1| * c.width == n * c.width;
      Monotone(s.i2 + 1, n, table);
    }
  }

  /** Neither thread has made its last write. */
  predicate Unfinished(c: Config, s: State) {
    s.i1 < c.N() && s.i2 < c.N()
  }

  /** Without enough room neither last write is ever possible, however much was read before it. */
  lemma NoLastWrite(c: Config, s: State)
    requires c.Valid() && !c.Enough() && Inv(c, s)
    ensures s.pc1 == Write1 && s.i1 + 1 == c.N() ==> !Ready1(c, s)
    ensures s.pc2 == Write2 && s.i2 + 1 == c.N() ==> !Ready2(c, s)
  {
    WaitsExactly(c, s);
    Monotone(|s.log1|, c.N(), c.width);
    Monotone(|s.log2|, c.N(), c.width);
  }

  lemma StaysUnfinished(c: Config, s: State, m: Move)
    requires c.Valid() && !c.Enough() && Inv(c, s) && Unfinished(c, s)
    ensures Unfinished(c, Next(c, s, m))
  {
    NoLastWrite(c, s);
    hide Inv, Config.Enough, Ready1, Ready2, FillsBlock;
  }

  lemma {:induction false} RunStaysUnfinished(c: Config, s: State, moves: seq<Move>)
    requires c.Valid() && !c.Enough() && Inv(c, s) && Unfinished(c, s)
    ensures Unfinished(c, Run(c, s, moves))
    decreases |moves|
  {
    if moves != [] {
      var t := Next(c, s, moves[0]);
      StaysUnfinished(c, s, moves[0]);
      NextKeepsInv(c, s, moves[0]);
      hide Next, Inv, Unfinished;
      RunStaysUnfinished(c, t, moves[1..]);
    }
  }

  function Left1(n: nat, pc: Pc1, done: nat): int {
    match pc
    case Top1 => 3 * (n - done) + 1
    case Write1 => 3 * (n - done)
    case Read1 => 3 * (n - done) - 1
    case Exit1 => 0
  }

  function Left2(n: nat, pc: Pc2, done: nat): int {
    match pc
    case Top2 => 3 * (n - done) + 1
    case Read2 => 3 * (n - done)
    case Write2 => 3 * (n - done) - 1
    case Exit2 => 0
  }

  function Measure(c: Config, s: State): int {
    Left1(c.N(), s.pc1, |s.log1|) + Left2(c.N(), s.pc2, s.i2)
  }

  lemma BlockFits(c: Config, table: seq<Bytes>, i: nat)
    requires i <= |table| == c.N() && forall k :: 0 <= k < |table| ==> |table[k]| == c.width
    ensures |Flat(table[i..])| <= c.TableBytes()
  {
    FlatLength(table[i..], c.width);
    Monotone(|table[i..]|, c.N(), c.width);
  }

  lemma Step1Works(c: Config, s: State, beyond: Bytes)
    requires c.Valid() && Inv(c, s) && Ready1(c, s) && (s.pc1 == Write1 ==> FillsBlock(c, c.table1, s.i1, beyond))
    ensures 0 <= Measure(c, Step1(c, s, beyond)) < Measure(c, s)
  {
  }

  lemma Step2Works(c: Config, s: State, beyond: Bytes)
    requires c.Valid() && Inv(c, s) && Ready2(c, s) && (s.pc2 == Write2 ==> FillsBlock(c, c.table2, s.i2, beyond))
    ensures 0 <= Measure(c, Step2(c, s, beyond)) < Measure(c, s)
  {
  }

  /** What lies behind the table from record i on: `junk` stands for the memory there. */
  function Beyond(c: Config, table: seq<Bytes>, i: nat, junk: nat -> Byte): (b: Bytes)
    requires i <= |table| == c.N() && forall k :: 0 <= k < |table| ==> |table[k]| == c.width
    ensures FillsBlock(c, table, i, b)
  {
    BlockFits(c, table, i);
    seq<Byte>(c.TableBytes() - |Flat(table[i..])|, (i: nat) => junk(i))
  }

  /** Any run can be taken on until nobody can move. */
  lemma {:induction false} RunToEnd(c: Config, s: State) returns (moves: seq<Move>)
    requires c.Valid() && Inv(c, s)
    ensures var t := Run(c, s, moves); !Ready1(c, t) && !Ready2(c, t)
    decreases Measure(c, s)
  {
    if Ready1(c, s) {
      var beyond := Beyond(c, c.table1, s.i1, _ => 0);
      Step1KeepsInv(c, s, beyond);
      Step1Works(c, s, beyond);
      var rest := RunToEnd(c, Step1(c, s, beyond));
      moves := [Thread1(beyond)] + rest;
    } else if Ready2(c, s) {
      var beyond := Beyond(c, c.table2, s.i2, _ => 0);
      Step2KeepsInv(c, s, beyond);
      Step2Works(c, s, beyond);
      var rest := RunToEnd(c, Step2(c, s, beyond));
      moves := [Thread2(beyond)] + rest;
    } else {
      moves := [];
    }
  }

  /** With enough room no run gets stuck and some run finishes; with less, none finishes and some gets stuck. */
  lemma FinishesExactly(c: Config)
    requires c.Valid()
    ensures c.Enough() <==> forall moves :: !Stuck(c, Run(c, START, moves))
    ensures c.Enough() <==> exists moves :: Finished(Run(c, START, moves))
  {
    forall moves
      ensures c.Enough() ==> !Stuck(c, Run(c, START, moves))
      ensures !c.Enough() ==> !Finished(Run(c, START, moves))
    {
      RunKeepsInv(c, START, moves);
      if c.Enough() {
        NeverStuck(c, Run(c, START, moves));
      } else {
        RunStaysUnfinished(c, START, moves);
      }
    }
    var moves := RunToEnd(c, START);
    assert Stuck(c, Run(c, START, moves)) || Finished(Run(c, START, moves));
  }

  /** Ten records of 48 bytes take pipes of 4320 bytes: a whole page is too little. */
  lemma TenRecordsNeed4320(c: Config)
    requires c.Valid() && c.N() == 10 && c.width == 48
    ensures 4320 <= c.room <==> exists moves :: Finished(Run(c, START, moves))
  {
    FinishesExactly(c);
  }

  /**
   * The two loops under any scheduler: they finish, each having logged the other's whole table,
   * exactly when the pipes have enough room, and else stop somewhere short of that.
   */
  method Exchange(table1: seq<Bytes>, table2: seq<Bytes>, width: nat, room: nat, junk: nat -> Byte)
    returns (finished: bool, log1: seq<Bytes>, log2: seq<Bytes>)
    requires Config(table1, table2, width, room).Valid()
    ensures finished <==> Config(table1, table2, width, room).Enough()
    ensures log1 <= table2 && log2 <= table1
    ensures finished ==> log1 == table2 && log2 == table1
  {
    var c := Config(table1, table2, width, room);
    var s := START;
    while Ready1(c, s) || Ready2(c, s)
      invariant Inv(c, s) && (c.Enough() || Unfinished(c, s))
      decreases Measure(c, s)
    {
      if !c.Enough() {
        NoLastWrite(c, s);
      }
      hide Measure, Config.Enough, FillsBlock;
      if {
        case Ready1(c, s) =>
          var beyond := Beyond(c, table1, s.i1, junk);
          Step1KeepsInv(c, s, beyond);
          Step1Works(c, s, beyond);
          s := Step1(c, s, beyond);
        case Ready2(c, s) =>
          var beyond := Beyond(c, table2, s.i2, junk);
          Step2KeepsInv(c, s, beyond);
          Step2Works(c, s, beyond);
          s := Step2(c, s, beyond);
      }
    }
    if c.Enough() {
      NeverStuck(c, s);
    }
    finished, log1, log2 := Finished(s), s.log1, s.log2;
  }
}
