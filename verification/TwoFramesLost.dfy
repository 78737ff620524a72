/** Two frames in one receive buffer after which the second one's value is not in the table: why TwoFramesServed asks for what it does. */
module TwoFramesLost {
  import opened Bytes
  import opened Table
  import opened Mttp
  import opened MttpProofs
  import opened Replication
  import opened Server
  import opened ServerProofs
  import opened TwoFrames

  // ----- a DLE in a payload -----

  lemma HeadedGives(m: seq<byte>, past: byte, place: nat, act: byte, lenght: word, cs: seq<Command>, suffix: seq<byte>)
    requires place <= |m| && |cs| <= MAX_COMMANDS && AllData(cs)
    requires m[place..] == Header(act, lenght) + (PrintCommands(cs) + ([DLE, ETX] + suffix))
    ensures Gives(m, past, place, 7 + |PrintCommands(cs)|, cs)
  {
    assert |m[place..]| >= 5;
    hide Run, PrintCommands, Header, AllData, WithCommands, Held, Drained;
    forall slots | |slots| == MAX_COMMANDS && AllFree(slots)
      ensures var (t, k) := Decode(slots, m[place..], past);
              k == 7 + |PrintCommands(cs)| && Held(t) == cs && AllFree(Drained(t))
    {
      FirstFreeIs(slots, 0);
      FrameRead(0, false, slots, act, lenght, cs, suffix, past);
      HeldBack(slots, cs);
    }
  }

  /** Printed, the second DLE and what follows it read as a start mark with its header. */
  function Escaped(): seq<byte> { [0, DLE, STX, DLE, STX, 2] }

  lemma EscapedPrint()
    ensures |PrintCommand(FirstInfo(Escaped()))| == 15 && PrintCommand(FirstInfo(Escaped()))[10..] == Header(ECD, 0x0210)
  {
    var d, x, y := [DLE], [0, 1, 0], [2, 2];
    EscapeNothing(x);
    EscapeNothing([STX]);
    EscapeNothing(y);
    assert Escape(d) == EscapeByte(DLE) + Escape(d[1..]);
    EscapeConcat(d, y);
    EscapeConcat([STX], d + y);
    EscapeConcat(d, [STX] + (d + y));
    EscapeConcat(x, d + ([STX] + (d + y)));
    assert Int16Bytes(1) + Escaped() == x + (d + ([STX] + (d + y)));
    assert Escape(Int16Bytes(1) + Escaped()) == [0, 1, 0, DLE, DLE, STX, DLE, DLE, 2, 2];
  }

  lemma EscapedTail(rest: seq<byte>)
    ensures var f := Frame(E_PUT, [FirstInfo(Escaped()), SecondInfo([2])]);
            |f| == 30 && (f + rest)[15..] == Header(ECD, 0x0210) + (PrintCommands([SecondInfo([2])]) + ([DLE, ETX] + rest))
    ensures |PrintCommands([SecondInfo([2])])| == 8
  {
    var c, cs := FirstInfo(Escaped()), [FirstInfo(Escaped()), SecondInfo([2])];
    EscapedPrint();
    FrameIs(E_PUT, cs);
    OneSmallFrame(SecondInfo([2]));
    FrameIs(E_PUT, [SecondInfo([2])]);
    assert cs[1..] == [SecondInfo([2])];
    assert PrintCommands(cs) == PrintCommand(c) + PrintCommands(cs[1..]);
    hide PrintCommand, PrintCommands, Frame, Body, Wrap16;
    var x, y := PrintCommand(c), PrintCommands(cs[1..]);
    assert Frame(E_PUT, cs) + rest == Header(E_PUT, Wrap16(5 + |Body(cs, true)|)) + x[..10] + (x[10..] + (y + ([DLE, ETX] + rest)));
  }

  /**
   With a DLE it can go wrong: from its third turn on the loop is in the middle of the first frame, at bytes that read as
   a frame, and saves the older second information over the newer again and again.
   */
  lemma SecondFrameLost(slots: seq<Slot>, s: Mem, past: byte) returns (c: seq<State>)
    requires |slots| == MAX_COMMANDS && AllFree(slots) && MemOk(s)
    ensures var m := Frame(E_PUT, [FirstInfo(Escaped()), SecondInfo([2])]) + Frame(E_PUT, [SecondInfo([3])]);
            Course(m, past, c) && Over(m, c) && c[0] == State(slots, s, 0)
    ensures c[|c| - 1].table == s.(info1 := Escaped(), info2 := [2])
    ensures var cs := [FirstInfo(Escaped()), SecondInfo([2])] + [SecondInfo([3])];
            Saveable(s, cs) && SavedAll(s, cs) == s.(info1 := Escaped(), info2 := [3])
  {
    hide Frame, MemOk, SavedAll, Saveable, Takeable, TurnFrom, AllFree, Course, PrintCommands, Escaped, Gives;
    var cs, ds, again := [FirstInfo(Escaped()), SecondInfo([2])], [SecondInfo([3])], [SecondInfo([2])];
    InfosTaken(s);
    var f := Frame(E_PUT, ds);
    EscapedTail(f);
    OneSmallFrame(SecondInfo([3]));
    assert f + [] == f;
    var e := TwoFramesTurns(slots, s, E_PUT, cs, ds, [], past);
    var m := Frame(E_PUT, cs) + f;
    HeadedGives(m, past, 15, ECD, 0x0210, again, f);
    AgainTaken(e[2].table);
    var d := Stuck(m, past, e[2], MAXDECODINGLOOPS - 2, again);
    JoinCourses(m, past, e, d);
    c := [e[0]] + ([e[1]] + d);
  }

  lemma AgainTaken(s: Mem)
    requires MemOk(s)
    ensures Takeable(s, [SecondInfo([2])]) && Saveable(s, [SecondInfo([2])]) && SavedAll(s, [SecondInfo([2])]) == s.(info2 := [2])
  {
    hide MemOk, SavedAll, Saveable;
    InfoSaved2(s, [2]);
  }

  lemma InfosTaken(s: Mem)
    requires MemOk(s)
    ensures var cs, ds := [FirstInfo(Escaped()), SecondInfo([2])], [SecondInfo([3])];
            Takeable(s, cs) && Takeable(s, ds) && Saveable(s, cs + ds) && SavedAll(s, cs + ds) == s.(info1 := Escaped(), info2 := [3])
  {
    hide MemOk, SavedAll, Saveable;
    var cs := [FirstInfo(Escaped()), SecondInfo([2])];
    InfosSaved(s, Escaped(), [2], [2]);
    InfoSaved2(s, [3]);
    SavedConcat(s, cs, [SecondInfo([3])]);
    InfoSaved2(SavedAll(s, cs), [3]);
  }

  // ----- a length that spells a mark -----

  /** The commands of the frames: all the first bytes, then twice the second information; 0x1004 bytes with header and end. */
  function Ones(n: nat): seq<byte> { seq(n, i => 1) }

  function Twos(n: nat): seq<byte> { seq(n, i => 2) }

  function Repeated(c: Command, n: nat): seq<Command> { seq(n, i => c) }

  function LongPair(): Pair {
    Pair(E_PUT, Repeated(FirstInfo(Ones(6)), 2), Repeated(FirstInfo(Ones(79)), 47) + [SecondInfo(Ones(18))] + [SecondInfo(Twos(19))])
  }

  lemma PlainLength(c: Command)
    requires NoDle(Inner(c))
    ensures |PrintCommand(c)| == 7 + |c.payload|
  {
    PlainPrint(c);
  }

  lemma RepeatedLength(c: Command, n: nat)
    ensures |PrintCommands(Repeated(c, n))| == n * |PrintCommand(c)|
  {
    hide PrintCommand;
    if n > 0 {
      RepeatedLength(c, n - 1);
      assert Repeated(c, n) == Repeated(c, n - 1) + [c];
      PrintAppend(Repeated(c, n - 1), c);
    }
  }

  lemma LongPairOk()
    ensures var w := LongPair();
            && w.act == E_PUT && PairOk(w) && Short(w.first) && Short(w.second) && |w.first| == 2 && |w.second| == 49
            && w.second[47] == SecondInfo(Ones(18)) && w.second[..48] == Repeated(FirstInfo(Ones(79)), 47) + [SecondInfo(Ones(18))]
            && w.second == w.second[..48] + [SecondInfo(Twos(19))]
  {}

  lemma LongLengths()
    ensures var w := LongPair();
            |PrintCommands(w.first)| == 26 && |PrintCommands(w.second[..48])| == 4067 && |PrintCommands(w.second)| == 4093
  {
    LongPairOk();
    hide PrintCommand, PrintCommands, Repeated, PairOk, Short, Inner;
    var b, c, d, e := FirstInfo(Ones(6)), FirstInfo(Ones(79)), SecondInfo(Ones(18)), SecondInfo(Twos(19));
    InfoLengths();
    RepeatedLength(b, 2);
    RepeatedLength(c, 47);
    PrintAppend(Repeated(c, 47), d);
    PrintAppend(Repeated(c, 47) + [d], e);
  }

  lemma InfoLengths()
    ensures |PrintCommand(FirstInfo(Ones(6)))| == 13 && |PrintCommand(FirstInfo(Ones(79)))| == 86
    ensures |PrintCommand(SecondInfo(Ones(18)))| == 25 && |PrintCommand(SecondInfo(Twos(19)))| == 26
  {
    hide PrintCommand;
    PlainLength(FirstInfo(Ones(6)));
    PlainLength(FirstInfo(Ones(79)));
    PlainLength(SecondInfo(Ones(18)));
    PlainLength(SecondInfo(Twos(19)));
  }

  lemma LongPairIs()
    ensures var w := LongPair();
            && Len1(w) == 33 && Len2(w) == 0x1004 && Skipped(w, 6) == 2 && Skipped(w, 33) == 0 && Room(w, 6) == 48 && Room(w, 33) == 49
            && End(w, 6) == 4107 && End(w, 33) == 4133
  {
    var w := LongPair();
    LongPairOk();
    LongLengths();
    PlainLength(w.first[0]);
    hide PrintCommand, PrintCommands, PairOk, Short, Frame, LongPair;
    FrameIs(w.act, w.first);
    FrameIs(w.act, w.second);
    EndBounds(w, 33);
    NoneSkipped(w, 33);
  }

  lemma {:induction false} RepeatedSaved(s: Mem, p: seq<byte>, n: nat)
    requires MemOk(s) && 0 < |p| <= 100 && n > 0
    ensures Saveable(s, Repeated(FirstInfo(p), n)) && SavedAll(s, Repeated(FirstInfo(p), n)) == s.(info1 := p)
  {
    hide MemOk, SavedAll, Saveable;
    InfoSaved1(s, p);
    if n == 1 {
      assert Repeated(FirstInfo(p), 1) == [FirstInfo(p)];
    } else {
      RepeatedSaved(s, p, n - 1);
      SavedConcat(s, Repeated(FirstInfo(p), n - 1), [FirstInfo(p)]);
      InfoSaved1(SavedAll(s, Repeated(FirstInfo(p), n - 1)), p);
      assert Repeated(FirstInfo(p), n) == Repeated(FirstInfo(p), n - 1) + [FirstInfo(p)];
    }
  }

  lemma InfoAdded(s: Mem, cs: seq<Command>, p: seq<byte>)
    requires MemOk(s) && Saveable(s, cs) && 0 < |p| <= 100
    ensures Saveable(s, cs + [SecondInfo(p)]) && SavedAll(s, cs + [SecondInfo(p)]) == SavedAll(s, cs).(info2 := p)
  {
    hide MemOk, SavedAll, Saveable;
    InfoSaved2(s, p);
    SavedConcat(s, cs, [SecondInfo(p)]);
    InfoSaved2(SavedAll(s, cs), p);
  }

  /** What the second frame saves, and what the second frame and its last but one command again. */
  lemma LongSaved(s: Mem)
    requires MemOk(s)
    ensures var w := LongPair();
            && Takeable(s, w.first) && Takeable(s, w.second) && SavedAll(s, w.first) == s.(info1 := Ones(6))
            && SavedAll(s, w.second) == s.(info1 := Ones(79), info2 := Twos(19))
            && Saveable(s, w.second + [SecondInfo(Ones(18))]) && Short(w.second + [SecondInfo(Ones(18))])
            && SavedAll(s, w.second + [SecondInfo(Ones(18))]) == s.(info1 := Ones(79), info2 := Ones(18))
  {
    LongPairOk();
    var w, cs := LongPair(), Repeated(FirstInfo(Ones(79)), 47);
    assert AllData(w.first) && AllData(w.second) && Short(w.second + [SecondInfo(Ones(18))]);
    hide MemOk, SavedAll, Saveable, Repeated, PairOk, Short;
    RepeatedSaved(s, Ones(6), 2);
    RepeatedSaved(s, Ones(79), 47);
    InfoAdded(s, cs, Ones(18));
    InfoAdded(s, cs + [SecondInfo(Ones(18))], Twos(19));
    InfoAdded(s, w.second, Ones(18));
  }

  /** Slots 0 and 1 free, and the commands of the second frame but the last behind them. */
  predicate Shifted(slots: seq<Slot>, ds: seq<Command>) {
    |slots| == MAX_COMMANDS && |ds| == MAX_COMMANDS - 1
    && forall j :: 0 <= j < MAX_COMMANDS ==> if j < 2 then !slots[j].exist else slots[j] == Filled(ds[j - 2])
  }

  /** The states from the third on; the places follow one another in a circle. */
  ghost predicate Lap(a: State) {
    && |a.slots| == MAX_COMMANDS && MemOk(a.table)
    && if a.place == 33 || a.place == 4101 then Shifted(a.slots, LongPair().second)
       else AllFree(a.slots) && (a.place == 4100 || a.place == 34 || a.place == 6)
  }

  function NextLap(p: nat): nat {
    if p == 4100 then 34 else if p == 34 then 6 else if p == 6 then 4101 else if p == 4101 then 33 else 4100
  }

  lemma LapInFirst(slots: seq<Slot>, p: nat, past: byte)
    requires |slots| == MAX_COMMANDS && !slots[0].exist && (p == 6 || p == 33)
    ensures var w := LongPair();
            && |w.second| == 49 && p < |Message(w)|
            && Decode(slots, Message(w)[p..], past)
               == (if p == 6 then WithCommands(slots, 2, w.second[..48]) else WithCommands(slots, 0, w.second), NextLap(p))
  {
    var w := LongPair();
    LongPairOk();
    LongPairIs();
    hide PairOk, LongPair, Frame, WithCommands, End, Room, Skipped, Decode, Short;
    FirstPassed(w, slots, p, past);
    InMessage(w, p);
    assert w.second[..49] == w.second;
  }

  lemma LapInSecond(slots: seq<Slot>, p: nat, past: byte)
    requires |slots| == MAX_COMMANDS && !slots[0].exist && (p == 34 || p == 4100 || p == 4101)
    ensures var w := LongPair(); p < |Message(w)| && Decode(slots, Message(w)[p..], past) == (slots, NextLap(p))
  {
    hide LongPair, Decode, Short, PairOk, Message, End, Room, Skipped, Len1, Len2, PrintCommands, Repeated, WithCommands;
    LongPairOk();
    LongPairIs();
    SecondIs(LongPair(), p);
    SecondPassed(LongPair(), slots, p, past);
  }

  lemma ShiftedBy(slots: seq<Slot>, ds: seq<Command>)
    requires |slots| == MAX_COMMANDS && |ds| == MAX_COMMANDS - 1 && AllFree(slots)
    ensures Shifted(WithCommands(slots, 2, ds[..48]), ds)
  {}

  lemma ShiftedHeld(slots: seq<Slot>, ds: seq<Command>)
    requires Shifted(slots, ds)
    ensures Held(WithCommands(slots, 0, ds)) == ds + [ds[47]] && AllFree(Drained(WithCommands(slots, 0, ds)))
  {
    var t := WithCommands(slots, 0, ds);
    assert forall j :: 0 <= j < MAX_COMMANDS ==> t[j] == Filled(if j < 49 then ds[j] else ds[47]);
    assert FirstFree(t) == MAX_COMMANDS;
    forall j | 0 <= j < MAX_COMMANDS ensures Held(t)[j] == (ds + [ds[47]])[j] {
      assert CommandOf(Filled(ds[47])) == ds[47] && (j < 49 ==> CommandOf(Filled(ds[j])) == ds[j]);
    }
  }

  /** Only the turn at 33 changes the table: there the last slot still has the last command but one, and it is saved last. */
  lemma LapTurn(a: State, past: byte) returns (b: State)
    requires Lap(a)
    ensures TurnFrom(Message(LongPair()), past, a, b) && Lap(b) && b.place == NextLap(a.place)
    ensures b.table == if a.place == 33 then a.table.(info1 := Ones(79), info2 := Ones(18)) else a.table
  {
    var w, p := LongPair(), a.place;
    LongPairOk();
    hide MemOk, SavedAll, Saveable, Short, Decode, Message, LongPair, Drained, Held, PairOk, WithCommands;
    if p == 6 || p == 33 { LapInFirst(a.slots, p, past); } else { LapInSecond(a.slots, p, past); }
    var t := Decode(a.slots, Message(w)[p..], past).0;
    if p == 33 {
      ShiftedHeld(a.slots, w.second);
      LongSaved(a.table);
      b := State(Drained(t), a.table.(info1 := Ones(79), info2 := Ones(18)), NextLap(p));
    } else {
      if p == 6 { ShiftedBy(a.slots, w.second); }
      hide Shifted;
      NothingHeld(t);
      NothingSaved(a.table);
      b := State(t, a.table, NextLap(p));
    }
  }

  /** How many turns it is until the one at 33 is over. */
  function ToGo(p: nat): nat { if p == 4100 then 5 else if p == 34 then 4 else if p == 6 then 3 else if p == 4101 then 2 else 1 }

  lemma {:induction false} LapTurns(a: State, past: byte, turns: nat) returns (c: seq<State>)
    requires Lap(a)
    ensures Course(Message(LongPair()), past, c) && |c| == turns + 1 && c[0] == a
    ensures turns >= ToGo(a.place) || a.table == a.table.(info1 := Ones(79), info2 := Ones(18))
            ==> c[turns].table == a.table.(info1 := Ones(79), info2 := Ones(18))
    decreases turns
  {
    hide Course, TurnFrom, Message, LongPair, Ones, MemOk, AllFree, Shifted;
    if turns == 0 {
      c := [a];
      LastState(Message(LongPair()), past, a);
    } else {
      var b := LapTurn(a, past);
      var d := LapTurns(b, past, turns - 1);
      CourseGrows(Message(LongPair()), past, a, d);
      c := [a] + d;
    }
  }

  /**
   With a second frame of 0x1004 bytes it can go wrong without any DLE: every fifth turn finds the last but one of its
   commands still in the last slot, and saves it after the last.
   */
  lemma LongFrameLost(slots: seq<Slot>, s: Mem, past: byte) returns (c: seq<State>)
    requires |slots| == MAX_COMMANDS && AllFree(slots) && MemOk(s)
    ensures var m := Message(LongPair());
            Course(m, past, c) && Over(m, c) && c[0] == State(slots, s, 0) && c[|c| - 1].table == s.(info1 := Ones(79), info2 := Ones(18))
    ensures var cs := LongPair().first + LongPair().second;
            Saveable(s, cs) && SavedAll(s, cs) == s.(info1 := Ones(79), info2 := Twos(19))
  {
    hide MemOk, SavedAll, Saveable, Course, TurnFrom, LongPair, Message, Lap, AllFree, Ones, Twos;
    BothSaved(s);
    var e := LongStart(slots, s, past);
    var d := LapTurns(e[2], past, MAXDECODINGLOOPS - 2);
    JoinCourses(Message(LongPair()), past, e, d);
    c := [e[0]] + ([e[1]] + d);
  }

  /** These frames meet all that TwoFramesServed asks for, but for the length; together they have one command more than there are slots. */
  lemma LongAllowed(s: Mem)
    requires MemOk(s)
    ensures var w := LongPair();
            && PairOk(w) && IsAct(w.act) && Takeable(s, w.first) && Takeable(s, w.second)
            && Len1(w) < Len2(w) == 0x1004 && |w.first| + |w.second| == MAX_COMMANDS + 1
  {
    LongPairOk();
    LongPairIs();
    LongSaved(s);
  }

  lemma LongStart(slots: seq<Slot>, s: Mem, past: byte) returns (c: seq<State>)
    requires |slots| == MAX_COMMANDS && AllFree(slots) && MemOk(s)
    ensures Course(Message(LongPair()), past, c) && |c| == 3 && c[0] == State(slots, s, 0) && Lap(c[2]) && c[2].place == 4100
    ensures c[2].table == s.(info1 := Ones(79), info2 := Twos(19))
  {
    var w := LongPair();
    LongPairIs();
    hide MemOk, SavedAll, Saveable, Takeable, Course, TurnFrom, LongPair, Frame, Skipped, Room, End, Shifted, AllFree;
    LongSaved(s);
    BothSaved(s);
    assert Frame(w.act, w.second) + [] == Frame(w.act, w.second);
    c := TwoFramesTurns(slots, s, w.act, w.first, w.second, [], past);
  }

  lemma BothSaved(s: Mem)
    requires MemOk(s)
    ensures var w := LongPair();
            Saveable(s, w.first + w.second) && SavedAll(s, w.first + w.second) == s.(info1 := Ones(79), info2 := Twos(19))
  {
    hide MemOk, SavedAll, Saveable, LongPair, Short;
    LongSaved(s);
    var w := LongPair();
    SavedConcat(s, w.first, w.second);
    LongSaved(SavedAll(s, w.first));
  }
}
