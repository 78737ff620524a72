/** What the server's loop does with whole frames, and replication from the client's table to the server's. */
module ServerProofs {
  import opened Bytes
  import opened Table
  import opened Mttp
  import opened MttpProofs
  import opened Replication
  import opened Server
  import opened TracerClient
  import opened SentEntries

  // ----- saving commands again changes nothing -----

  /** From s to s' and from t to t' the same was done to a field: nothing, or it was set to the same. */
  predicate Alike<T(==)>(s: T, s': T, t: T, t': T) { (s' == s && t' == t) || s' == t' }

  ghost predicate RegAlike(s: Reg, s': Reg, t: Reg, t': Reg) {
    && s' == s.(value := s'.value, haveAlternate := s'.haveAlternate, alternate := s'.alternate, haveHeader := s'.haveHeader, header := s'.header)
    && t' == t.(value := t'.value, haveAlternate := t'.haveAlternate, alternate := t'.alternate, haveHeader := t'.haveHeader, header := t'.header)
    && Alike(s.value, s'.value, t.value, t'.value)
    && Alike((s.haveAlternate, s.alternate), (s'.haveAlternate, s'.alternate), (t.haveAlternate, t.alternate), (t'.haveAlternate, t'.alternate))
    && Alike((s.haveHeader, s.header), (s'.haveHeader, s'.header), (t.haveHeader, t.header), (t'.haveHeader, t'.header))
  }

  ghost predicate CellAlike(s: Cell, s': Cell, t: Cell, t': Cell) {
    s' == s.(value := s'.value) && t' == t.(value := t'.value) && Alike(s.value, s'.value, t.value, t'.value)
  }

  ghost predicate UserRegAlike(s: UserReg, s': UserReg, t: UserReg, t': UserReg) {
    s' == s.(value := s'.value) && t' == t.(value := t'.value) && Alike(s.value, s'.value, t.value, t'.value)
  }

  ghost predicate UserCoilAlike(s: UserCoil, s': UserCoil, t: UserCoil, t': UserCoil) {
    s' == s.(value := s'.value) && t' == t.(value := t'.value) && Alike(s.value, s'.value, t.value, t'.value)
  }

  ghost predicate RegsAlike4(s: seq<Reg>, s': seq<Reg>, t: seq<Reg>, t': seq<Reg>) {
    |s| == |s'| == |t| == |t'| && forall j :: 0 <= j < |s| ==> RegAlike(s[j], s'[j], t[j], t'[j])
  }

  ghost predicate CellsAlike4(s: seq<Cell>, s': seq<Cell>, t: seq<Cell>, t': seq<Cell>) {
    |s| == |s'| == |t| == |t'| && forall j :: 0 <= j < |s| ==> CellAlike(s[j], s'[j], t[j], t'[j])
  }

  ghost predicate UsersAlike4(s: Mem, s': Mem, t: Mem, t': Mem) {
    && |s.userRegs| == |s'.userRegs| == |t.userRegs| == |t'.userRegs|
    && (forall j :: 0 <= j < |s.userRegs| ==> UserRegAlike(s.userRegs[j], s'.userRegs[j], t.userRegs[j], t'.userRegs[j]))
    && |s.userCoils| == |s'.userCoils| == |t.userCoils| == |t'.userCoils|
    && forall j :: 0 <= j < |s.userCoils| ==> UserCoilAlike(s.userCoils[j], s'.userCoils[j], t.userCoils[j], t'.userCoils[j])
  }

  /** The same was done to every field of two tables. */
  ghost predicate TablesAlike(s: Mem, s': Mem, t: Mem, t': Mem) {
    && RegsAlike4(s.regs, s'.regs, t.regs, t'.regs)
    && CellsAlike4(s.coils, s'.coils, t.coils, t'.coils) && CellsAlike4(s.discs, s'.discs, t.discs, t'.discs)
    && UsersAlike4(s, s', t, t')
    && Alike(s.info1, s'.info1, t.info1, t'.info1) && Alike(s.info2, s'.info2, t.info2, t'.info2)
  }

  lemma NothingAlike(s: Mem, t: Mem)
    requires SameShape(s, t)
    ensures TablesAlike(s, s, t, t)
  {}

  lemma AlikeTwice(s: Mem, s': Mem, s'': Mem, t: Mem, t': Mem, t'': Mem)
    requires TablesAlike(s, s', t, t') && TablesAlike(s', s'', t', t'')
    ensures TablesAlike(s, s'', t, t'')
  {
    RegsTwice(s.regs, s'.regs, s''.regs, t.regs, t'.regs, t''.regs);
    hide RegsAlike4, RegAlike;
  }

  lemma RegsTwice(s: seq<Reg>, s': seq<Reg>, s'': seq<Reg>, t: seq<Reg>, t': seq<Reg>, t'': seq<Reg>)
    requires RegsAlike4(s, s', t, t') && RegsAlike4(s', s'', t', t'')
    ensures RegsAlike4(s, s'', t, t'')
  {}

  /** One command does the same to any two tables with the same addresses. */
  lemma OneAlike(s: Mem, t: Mem, c: Command)
    requires Twins(s, t) && CanSave(s, c) && CanSave(t, c)
    ensures TablesAlike(s, SavedOne(s, c), t, SavedOne(t, c))
  {
    NothingAlike(s, t);
    hide Twins, SavedOne, RegsAlike4, CellsAlike4, UsersAlike4, Alike;
    if |c.payload| == 0 {
      SavedEmpty(s, c);
      SavedEmpty(t, c);
    } else {
      OneRegsAlike(s, t, c);
      OneCellsAlike(s, t, c);
      OneUsersAlike(s, t, c);
    }
  }

  lemma SavedEmpty(s: Mem, c: Command)
    requires CanSave(s, c) && |c.payload| == 0
    ensures SavedOne(s, c) == s
  {}

  lemma OneRegsAlike(s: Mem, t: Mem, c: Command)
    requires Twins(s, t) && CanSave(s, c) && CanSave(t, c)
    ensures RegsAlike4(s.regs, SavedOne(s, c).regs, t.regs, SavedOne(t, c).regs)
  {
    hide RegsOk, CellsOk, UserRegsOk, UserCoilsOk, StartIndex, Find, Words, Unpack, RegAdresses, CellAdresses, UserAdresses, UserCoilAdresses;
    var s', t' := SavedOne(s, c).regs, SavedOne(t, c).regs;
    if c.kind != E_REG && c.kind != E_USER && c.kind != E_HEADER {
      assert s' == s.regs && t' == t.regs;
    }
  }

  lemma OneCellsAlike(s: Mem, t: Mem, c: Command)
    requires Twins(s, t) && CanSave(s, c) && CanSave(t, c)
    ensures CellsAlike4(s.coils, SavedOne(s, c).coils, t.coils, SavedOne(t, c).coils)
    ensures CellsAlike4(s.discs, SavedOne(s, c).discs, t.discs, SavedOne(t, c).discs)
  {
    hide RegsOk, CellsOk, UserRegsOk, UserCoilsOk, StartIndex, Find, Words, Unpack, RegAdresses, CellAdresses, UserAdresses, UserCoilAdresses;
  }

  lemma OneUsersAlike(s: Mem, t: Mem, c: Command)
    requires Twins(s, t) && CanSave(s, c) && CanSave(t, c)
    ensures UsersAlike4(s, SavedOne(s, c), t, SavedOne(t, c))
    ensures Alike(s.info1, SavedOne(s, c).info1, t.info1, SavedOne(t, c).info1)
    ensures Alike(s.info2, SavedOne(s, c).info2, t.info2, SavedOne(t, c).info2)
  {
    hide RegsOk, CellsOk, UserRegsOk, UserCoilsOk, StartIndex, Find, Words, Unpack, RegAdresses, CellAdresses, UserAdresses, UserCoilAdresses;
  }

  lemma {:induction false} AllAlike(s: Mem, t: Mem, cs: seq<Command>)
    requires Twins(s, t) && Saveable(s, cs) && Saveable(t, cs)
    ensures TablesAlike(s, SavedAll(s, cs), t, SavedAll(t, cs))
    decreases |cs|
  {
    if |cs| == 0 {
      NothingAlike(s, t);
    } else {
      var past, c := cs[..|cs| - 1], cs[|cs| - 1];
      AllAlike(s, t, past);
      var s', t' := SavedAll(s, past), SavedAll(t, past);
      TwinsSaved(s, t, past);
      SaveableStays(s, s', cs);
      SaveableStays(t, t', cs);
      OneAlike(s', t', c);
      hide Twins, TablesAlike, SavedOne, CanSave, MemOk, SameConfig;
      AlikeTwice(s, s', SavedOne(s', c), t, t', SavedOne(t', c));
    }
  }

  lemma SameShapes(m: Mem, s: Mem)
    requires SameConfig(m, s)
    ensures SameShape(m, s)
  {
    assert |RegAdresses(m.regs)| == |RegAdresses(s.regs)| && |CellAdresses(m.coils)| == |CellAdresses(s.coils)|;
    assert |CellAdresses(m.discs)| == |CellAdresses(s.discs)| && |UserAdresses(m.userRegs)| == |UserAdresses(s.userRegs)|;
    assert |UserCoilAdresses(m.userCoils)| == |UserCoilAdresses(s.userCoils)|;
  }

  lemma TwinsSaved(s: Mem, t: Mem, cs: seq<Command>)
    requires Twins(s, t) && Saveable(s, cs) && Saveable(t, cs)
    ensures Twins(SavedAll(s, cs), SavedAll(t, cs))
  {
    SameShapes(s, SavedAll(s, cs));
    SameShapes(t, SavedAll(t, cs));
    hide MemOk, SavedAll, RegAdresses, CellAdresses, UserAdresses, UserCoilAdresses;
  }

  /** Saving the same commands once more leaves the table as it is. */
  lemma SavedTwice(s: Mem, cs: seq<Command>)
    requires MemOk(s) && Saveable(s, cs)
    ensures Saveable(SavedAll(s, cs), cs) && SavedAll(SavedAll(s, cs), cs) == SavedAll(s, cs)
  {
    var r := SavedAll(s, cs);
    SameShapes(s, r);
    SaveableStays(s, r, cs);
    AllAlike(s, r, cs);
    hide MemOk, SavedAll, Saveable, SameConfig;
    NoChange(s, r, SavedAll(r, cs));
  }

  lemma NoChange(s: Mem, r: Mem, q: Mem)
    requires TablesAlike(s, r, r, q)
    ensures q == r
  {
    forall j | 0 <= j < |r.regs| ensures q.regs[j] == r.regs[j] { assert RegAlike(s.regs[j], r.regs[j], r.regs[j], q.regs[j]); }
    forall j | 0 <= j < |r.coils| ensures q.coils[j] == r.coils[j] { assert CellAlike(s.coils[j], r.coils[j], r.coils[j], q.coils[j]); }
    forall j | 0 <= j < |r.discs| ensures q.discs[j] == r.discs[j] { assert CellAlike(s.discs[j], r.discs[j], r.discs[j], q.discs[j]); }
    forall j | 0 <= j < |r.userRegs| ensures q.userRegs[j] == r.userRegs[j] {
      assert UserRegAlike(s.userRegs[j], r.userRegs[j], r.userRegs[j], q.userRegs[j]);
    }
    forall j | 0 <= j < |r.userCoils| ensures q.userCoils[j] == r.userCoils[j] {
      assert UserCoilAlike(s.userCoils[j], r.userCoils[j], r.userCoils[j], q.userCoils[j]);
    }
    assert q.regs == r.regs && q.coils == r.coils && q.discs == r.discs && q.userRegs == r.userRegs && q.userCoils == r.userCoils;
  }

  // ----- turns of the loop -----

  /** Commands that make one frame the decoder and the table can take. */
  ghost predicate Takeable(s: Mem, cs: seq<Command>) {
    |cs| <= MAX_COMMANDS && AllData(cs) && Short(cs) && Saveable(s, cs)
  }

  /** A frame in an empty decoder: its commands are what the decoder holds, and taking them out empties it. */
  lemma FrameDecoded(slots: seq<Slot>, noise: seq<byte>, act: byte, cs: seq<Command>, rest: seq<byte>, past: byte)
    requires |slots| == MAX_COMMANDS && AllFree(slots) && |cs| <= MAX_COMMANDS && AllData(cs)
    requires forall i :: 0 <= i < |noise| ==> noise[i] != DLE
    ensures var (t, n) := Decode(slots, noise + Frame(act, cs) + rest, past);
            n == |noise| + |Frame(act, cs)| && Held(t) == cs && AllFree(Drained(t))
  {
    hide Frame, Decode;
    FirstFreeIs(slots, 0);
    RoundTrip(slots, noise, act, cs, rest, past);
    HeldBack(slots, cs);
  }

  lemma HeldBack(slots: seq<Slot>, cs: seq<Command>)
    requires |slots| == MAX_COMMANDS && AllFree(slots) && |cs| <= MAX_COMMANDS
    ensures var t := WithCommands(slots, 0, cs); Held(t) == cs && AllFree(Drained(t))
  {
    var t := WithCommands(slots, 0, cs);
    forall i | 0 <= i < |slots| ensures t[i] == if i < |cs| then Filled(cs[i]) else slots[i] { WithAt(slots, 0, cs, i); }
    if |cs| < MAX_COMMANDS { FirstFreeIs(t, |cs|); }
    assert FirstFree(t) == |cs|;
    forall i | 0 <= i < |cs| ensures Held(t)[i] == cs[i] { assert CommandOf(Filled(cs[i])) == cs[i]; }
  }

  /** What lies at a place of the message: a frame, after bytes without a DLE, and anything behind it. */
  ghost predicate FrameAt(m: seq<byte>, place: nat, noise: seq<byte>, act: byte, cs: seq<Command>, rest: seq<byte>) {
    place <= |m| && m[place..] == noise + Frame(act, cs) + rest && forall i :: 0 <= i < |noise| ==> noise[i] != DLE
  }

  /** A state before a turn: the decoder empty, the table well-formed. */
  ghost predicate Ready(a: State) { |a.slots| == MAX_COMMANDS && AllFree(a.slots) && MemOk(a.table) }

  /** From this place of the message, any empty decoder gets these commands and is empty again without them, and n is returned. */
  ghost predicate Gives(m: seq<byte>, past: byte, place: nat, n: nat, cs: seq<Command>) {
    && place < |m|
    && forall slots :: |slots| == MAX_COMMANDS && AllFree(slots) ==>
         var (t, k) := Decode(slots, m[place..], past);
         k == n && Held(t) == cs && AllFree(Drained(t))
  }

  lemma FrameGives(m: seq<byte>, past: byte, place: nat, noise: seq<byte>, act: byte, cs: seq<Command>, rest: seq<byte>)
    requires |cs| <= MAX_COMMANDS && AllData(cs) && FrameAt(m, place, noise, act, cs, rest)
    ensures Gives(m, past, place, |noise| + |Frame(act, cs)|, cs)
  {
    assert |Frame(act, cs)| >= 5;
    hide Frame, Decode, AllData, AllFree, Held, Drained;
    forall slots | |slots| == MAX_COMMANDS && AllFree(slots)
      ensures var (t, k) := Decode(slots, m[place..], past);
              k == |noise| + |Frame(act, cs)| && Held(t) == cs && AllFree(Drained(t))
    {
      FrameDecoded(slots, noise, act, cs, rest, past);
    }
  }

  lemma TurnGives(m: seq<byte>, past: byte, a: State, n: nat, cs: seq<Command>) returns (b: State)
    requires Ready(a) && Takeable(a.table, cs) && Gives(m, past, a.place, n, cs)
    ensures TurnFrom(m, past, a, b) && Ready(b) && b.place == n
    ensures Saveable(a.table, cs) && b.table == SavedAll(a.table, cs)
  {
    hide Decode, Held, Drained, MemOk, SavedAll, Saveable, Short, AllData, AllFree;
    var d := Decode(a.slots, m[a.place..], past);
    b := State(Drained(d.0), SavedAll(a.table, cs), d.1);
  }

  /** A turn that begins at a frame saves its commands, and goes on at the place that is as far from the front as the frame is long. */
  lemma TurnAtFrame(m: seq<byte>, past: byte, a: State, noise: seq<byte>, act: byte, cs: seq<Command>, rest: seq<byte>) returns (b: State)
    requires Ready(a) && Takeable(a.table, cs) && FrameAt(m, a.place, noise, act, cs, rest)
    ensures TurnFrom(m, past, a, b) && Ready(b) && b.place == |noise| + |Frame(act, cs)|
    ensures Saveable(a.table, cs) && b.table == SavedAll(a.table, cs)
  {
    hide Frame, FrameAt, Decode, Held, Drained, MemOk, SavedAll, Saveable, Short, AllData, AllFree, Gives;
    FrameGives(m, past, a.place, noise, act, cs, rest);
    b := TurnGives(m, past, a, |noise| + |Frame(act, cs)|, cs);
  }

  lemma CourseGrows(m: seq<byte>, past: byte, a: State, c: seq<State>)
    requires Course(m, past, c) && TurnFrom(m, past, a, c[0])
    ensures Course(m, past, [a] + c)
  {
    hide TurnFrom;
    forall k | 0 <= k < |c| ensures TurnAt(m, past, [a] + c, k) {
      if k > 0 { assert TurnAt(m, past, c, k - 1); }
    }
  }

  /** One frame in the buffer: the whole loop saves its commands, once, and leaves the decoder empty. */
  lemma OneFrameServed(slots: seq<Slot>, s: Mem, noise: seq<byte>, act: byte, cs: seq<Command>, past: byte) returns (c: seq<State>)
    requires |slots| == MAX_COMMANDS && AllFree(slots) && MemOk(s) && Takeable(s, cs)
    requires forall i :: 0 <= i < |noise| ==> noise[i] != DLE
    ensures var m := noise + Frame(act, cs);
            Course(m, past, c) && Over(m, c) && c[0] == State(slots, s, 0)
    ensures Saveable(s, cs) && AllFree(c[|c| - 1].slots) && c[|c| - 1].table == SavedAll(s, cs)
  {
    hide Frame, MemOk, SavedAll, AllData, Short, Saveable, TurnFrom, AllFree;
    var m := noise + Frame(act, cs);
    assert m[0..] == m + [];
    var a := State(slots, s, 0);
    var b := TurnAtFrame(m, past, a, noise, act, cs, []);
    CourseGrows(m, past, a, [b]);
    c := [a] + [b];
  }

  /** A place from which the loop returns to it: it stays there, and saves the same commands again and again. */
  lemma {:induction false} Stuck(m: seq<byte>, past: byte, a: State, turns: nat, cs: seq<Command>) returns (c: seq<State>)
    requires Ready(a) && Takeable(a.table, cs) && Gives(m, past, a.place, a.place, cs)
    ensures Course(m, past, c) && |c| == turns + 1 && c[0] == a && Saveable(a.table, cs)
    ensures forall k :: 0 <= k < |c| ==> AllFree(c[k].slots) && c[k].place == a.place
    ensures forall k :: 0 < k < |c| ==> c[k].table == SavedAll(a.table, cs)
    decreases turns
  {
    hide MemOk, SavedAll, Saveable, Gives, Short, AllData, AllFree, TurnFrom;
    if turns == 0 {
      c := [a];
    } else {
      var b := TurnGives(m, past, a, a.place, cs);
      SavedTwice(a.table, cs);
      var d := Stuck(m, past, b, turns - 1, cs);
      CourseGrows(m, past, a, d);
      c := [a] + d;
    }
  }

  // ----- several frames in one buffer -----

  /** Frames of one length, each of which decoder and table can take. */
  ghost predicate EqualFrames(s: Mem, act: byte, fs: seq<seq<Command>>, L: nat) {
    |fs| > 0 && forall j :: 0 <= j < |fs| ==> Takeable(s, fs[j]) && |Frame(act, fs[j])| == L
  }

  lemma FrontFrames(act: byte, fs: seq<seq<Command>>)
    requires |fs| > 0
    ensures var m := Frames(act, fs);
            && FrameAt(m, 0, [], act, fs[0], Frames(act, fs[1..]))
            && |m| == |Frame(act, fs[0])| + |Frames(act, fs[1..])|
            && (|fs| > 1 ==> FrameAt(m, |Frame(act, fs[0])|, [], act, fs[1], Frames(act, fs[2..])))
  {
    hide Frame;
    var m, a := Frames(act, fs), Frame(act, fs[0]);
    assert m[0..] == m && m == [] + a + Frames(act, fs[1..]);
    if |fs| > 1 {
      assert fs[1..][1..] == fs[2..];
      assert m[|a|..] == Frames(act, fs[1..]) == [] + Frame(act, fs[1]) + Frames(act, fs[2..]);
    }
  }

  /** The table after k turns over such frames: that with the first frame saved, or the first two. */
  ghost function AfterEqual(s: Mem, fs: seq<seq<Command>>, k: nat): Mem
    requires MemOk(s) && |fs| > 0 && Saveable(s, fs[0]) && (|fs| > 1 ==> Saveable(s, fs[0] + fs[1]))
  {
    if k == 0 then s else if k == 1 || |fs| == 1 then SavedAll(s, fs[0]) else SavedAll(s, fs[0] + fs[1])
  }

  /** The frames were served like this: at the places 0 and then L for ever, and the first two of them are saved. */
  ghost predicate ServedSo(s: Mem, fs: seq<seq<Command>>, L: nat, c: seq<State>) {
    && MemOk(s) && |fs| > 0 && Saveable(s, fs[0]) && (|fs| > 1 ==> Saveable(s, fs[0] + fs[1]))
    && forall k :: 0 <= k < |c| ==> c[k].place == (if k == 0 then 0 else L) && AllFree(c[k].slots) && c[k].table == AfterEqual(s, fs, k)
  }

  /** The whole loop over frames of one length. It ends after the first turn if there is just one, and takes all its turns otherwise. */
  lemma EqualFramesServed(slots: seq<Slot>, s: Mem, act: byte, fs: seq<seq<Command>>, L: nat, past: byte) returns (c: seq<State>)
    requires |slots| == MAX_COMMANDS && AllFree(slots) && MemOk(s) && EqualFrames(s, act, fs, L)
    ensures Course(Frames(act, fs), past, c) && Over(Frames(act, fs), c) && c[0] == State(slots, s, 0)
    ensures ServedSo(s, fs, L, c) && |c| == if |fs| == 1 then 2 else MAXDECODINGLOOPS + 1
  {
    hide Frame, Frames, FrameAt, MemOk, SavedAll, Saveable, Short, AllData, AllFree, TurnFrom, Course, Gives;
    var m := Frames(act, fs);
    FrontFrames(act, fs);
    assert Takeable(s, fs[0]);
    var a := State(slots, s, 0);
    var b := TurnAtFrame(m, past, a, [], act, fs[0], Frames(act, fs[1..]));
    if |fs| == 1 {
      NoFrames(act, fs[1..]);
      LastState(m, past, b);
      CourseGrows(m, past, a, [b]);
      c := [a] + [b];
    } else {
      assert Takeable(s, fs[1]);
      TakeableStays(s, fs[0], fs[1]);
      SavedConcat(s, fs[0], fs[1]);
      FrameGives(m, past, L, [], act, fs[1], Frames(act, fs[2..]));
      var d := Stuck(m, past, b, MAXDECODINGLOOPS - 1, fs[1]);
      CourseGrows(m, past, a, d);
      c := [a] + d;
    }
  }

  lemma LastState(m: seq<byte>, past: byte, a: State)
    ensures Course(m, past, [a])
  {}

  lemma NoFrames(act: byte, fs: seq<seq<Command>>)
    requires |fs| == 0
    ensures Frames(act, fs) == []
  {}

  lemma TakeableStays(s: Mem, cs: seq<Command>, ds: seq<Command>)
    requires MemOk(s) && Takeable(s, cs) && Takeable(s, ds)
    ensures Takeable(SavedAll(s, cs), ds)
  {
    hide SavedAll, MemOk, Short, AllData;
    SaveableStays(s, SavedAll(s, cs), ds);
  }

  /** The loop begins a turn at a place. */
  ghost predicate Begun(c: seq<State>, place: nat) { exists k :: 0 <= k < |c| - 1 && c[k].place == place }

  /** Of frames of one length every one is looked at if and only if there are at most two. */
  lemma EveryFrameBegunIff(s: Mem, act: byte, fs: seq<seq<Command>>, L: nat, past: byte, c: seq<State>)
    requires MemOk(s) && EqualFrames(s, act, fs, L)
    requires Course(Frames(act, fs), past, c) && Over(Frames(act, fs), c)
    requires c[0].table == s && c[0].place == 0 && |c[0].slots| == MAX_COMMANDS && AllFree(c[0].slots)
    ensures (forall j :: 0 <= j < |fs| ==> Begun(c, j * L)) <==> |fs| <= 2
  {
    hide Frame, Frames, EqualFrames, TurnFrom, MemOk, AllFree, Course, ServedSo, Begun;
    NotShort(s, act, fs, L);
    var d := EqualFramesServed(c[0].slots, s, act, fs, L, past);
    OneCourse(Frames(act, fs), past, c, d);
    PlacesBegun(s, fs, L, c);
    assert 0 * L == 0 && 1 * L == L;
    if |fs| <= 2 {
      forall j | 0 <= j < |fs| ensures Begun(c, j * L) { assert j == 0 || j == 1; }
    } else {
      assert !Begun(c, 2 * L);
    }
  }

  lemma NotShort(s: Mem, act: byte, fs: seq<seq<Command>>, L: nat)
    requires EqualFrames(s, act, fs, L)
    ensures L >= 5
  {
    hide Takeable;
    assert |Frame(act, fs[0])| == L;
  }

  lemma PlacesBegun(s: Mem, fs: seq<seq<Command>>, L: nat, c: seq<State>)
    requires ServedSo(s, fs, L, c) && |c| >= 2 && L > 0
    ensures Begun(c, 0) && (|c| > 2 ==> Begun(c, L)) && !Begun(c, 2 * L)
  {
    hide AfterEqual, MemOk, Saveable, AllFree, SavedAll;
    assert c[0].place == 0;
    if |c| > 2 { assert c[1].place == L; }
  }

  function FirstInfo(p: seq<byte>): Command { Command(E_DEVINFO1, 1, p) }

  function SecondInfo(p: seq<byte>): Command { Command(E_DEVINFO2, 2, p) }

  /** Three frames of one command each: the first and the third are the first device information, the second the other. */
  function ThreeFrames(): seq<seq<Command>> {
    [[FirstInfo([1])], [SecondInfo([2])], [FirstInfo([3])]]
  }

  /** The loop saves the first two; one after the other, the third would have had the last word. */
  lemma ThirdFrameLost(slots: seq<Slot>, s: Mem, past: byte) returns (c: seq<State>)
    requires |slots| == MAX_COMMANDS && AllFree(slots) && MemOk(s)
    ensures var m := Frames(E_PUT, ThreeFrames());
            Course(m, past, c) && Over(m, c) && c[0] == State(slots, s, 0) && c[|c| - 1].table == s.(info1 := [1], info2 := [2])
    ensures Saveable(s, Joined(ThreeFrames())) && SavedAll(s, Joined(ThreeFrames())) == s.(info1 := [3], info2 := [2])
  {
    hide MemOk, EqualFrames, Frames, Saveable, SavedAll, AllFree, TurnFrom, Course;
    var fs := ThreeFrames();
    ThreeAreEqual(s);
    c := EqualFramesServed(slots, s, E_PUT, fs, 15, past);
    InfosSaved(s, [1], [2], [3]);
    assert fs[0] + fs[1] == [FirstInfo([1]), SecondInfo([2])];
    JoinedThree();
  }

  lemma JoinedThree()
    ensures Joined(ThreeFrames()) == [FirstInfo([1]), SecondInfo([2])] + [FirstInfo([3])]
  {
    var fs := ThreeFrames();
    assert fs[1..][0] == fs[1] && fs[1..][1..] == fs[2..] && fs[2..][0] == fs[2] && fs[2..][1..] == [];
    assert Joined(fs[2..]) == fs[2] + Joined([]);
    assert Joined(fs) == fs[0] + (fs[1] + Joined(fs[2..]));
  }

  lemma InfosSaved(s: Mem, p: seq<byte>, q: seq<byte>, r: seq<byte>)
    requires MemOk(s) && 0 < |p| <= 100 && 0 < |q| <= 100 && 0 < |r| <= 100
    ensures Saveable(s, [FirstInfo(p), SecondInfo(q)]) && SavedAll(s, [FirstInfo(p), SecondInfo(q)]) == s.(info1 := p, info2 := q)
    ensures Saveable(s, [FirstInfo(p), SecondInfo(q)] + [FirstInfo(r)])
    ensures SavedAll(s, [FirstInfo(p), SecondInfo(q)] + [FirstInfo(r)]) == s.(info1 := r, info2 := q)
  {
    hide MemOk, SavedAll, SavedOne, Saveable;
    InfoSaved1(s, p);
    InfoSaved2(s, q);
    SavedConcat(s, [FirstInfo(p)], [SecondInfo(q)]);
    InfoSaved2(SavedAll(s, [FirstInfo(p)]), q);
    assert [FirstInfo(p)] + [SecondInfo(q)] == [FirstInfo(p), SecondInfo(q)];
    InfoSaved1(s, r);
    SavedConcat(s, [FirstInfo(p), SecondInfo(q)], [FirstInfo(r)]);
    InfoSaved1(SavedAll(s, [FirstInfo(p), SecondInfo(q)]), r);
  }

  lemma InfoSaved1(s: Mem, p: seq<byte>)
    requires MemOk(s) && 0 < |p| <= 100
    ensures Saveable(s, [FirstInfo(p)]) && SavedAll(s, [FirstInfo(p)]) == s.(info1 := p)
  {
    Sized(s);
    hide MemOk, SavedAll;
    SavedSingle(s, FirstInfo(p));
  }

  lemma InfoSaved2(s: Mem, p: seq<byte>)
    requires MemOk(s) && 0 < |p| <= 100
    ensures Saveable(s, [SecondInfo(p)]) && SavedAll(s, [SecondInfo(p)]) == s.(info2 := p)
  {
    Sized(s);
    hide MemOk, SavedAll;
    SavedSingle(s, SecondInfo(p));
  }

  lemma ThreeAreEqual(s: Mem)
    requires MemOk(s)
    ensures EqualFrames(s, E_PUT, ThreeFrames(), 15)
  {
    Sized(s);
    hide MemOk, Frame;
    OneSmallFrame(FirstInfo([1]));
    OneSmallFrame(SecondInfo([2]));
    OneSmallFrame(FirstInfo([3]));
  }

  lemma OneSmallFrame(c: Command)
    requires c.adress <= 2 && |c.payload| == 1 && c.payload[0] <= 3
    ensures |Frame(E_PUT, [c])| == 15
  {
    var a, b := c.adress, c.payload[0];
    assert Int16Bytes(c.adress) + c.payload == [0, a, b];
    assert [0, a, b][1..] == [a, b] && [a, b][1..] == [b] && [b][1..] == [];
    assert Escape([b]) == EscapeByte(b) + Escape([]);
    assert Escape([a, b]) == EscapeByte(a) + Escape([b]);
    assert Escape([0, a, b]) == EscapeByte(0) + Escape([a, b]);
    assert [c][1..] == [];
    assert PrintCommands([c]) == PrintCommand(c) + PrintCommands([]);
  }

  /**
   Two frames of any length: both are saved in the first two turns, but then the loop is not behind the
   second frame; it is as far from the front as that frame is long.
   */
  lemma TwoFramesTurns(slots: seq<Slot>, s: Mem, act: byte, cs: seq<Command>, ds: seq<Command>, rest: seq<byte>, past: byte)
    returns (c: seq<State>)
    requires |slots| == MAX_COMMANDS && AllFree(slots) && MemOk(s) && Takeable(s, cs) && Takeable(s, ds)
    ensures Course(Frame(act, cs) + (Frame(act, ds) + rest), past, c) && |c| == 3 && c[0] == State(slots, s, 0)
    ensures Saveable(s, cs + ds) && Ready(c[2]) && c[2].table == SavedAll(s, cs + ds)
    ensures c[1].place == |Frame(act, cs)| && c[2].place == |Frame(act, ds)| < |Frame(act, cs)| + |Frame(act, ds)|
  {
    hide Frame, FrameAt, MemOk, SavedAll, Saveable, Short, AllData, AllFree, TurnFrom;
    var m := Frame(act, cs) + (Frame(act, ds) + rest);
    TwoParts(act, cs, ds, rest);
    TakeableStays(s, cs, ds);
    SavedConcat(s, cs, ds);
    var a := State(slots, s, 0);
    var b := TurnAtFrame(m, past, a, [], act, cs, Frame(act, ds) + rest);
    var e := TurnAtFrame(m, past, b, [], act, ds, rest);
    CourseGrows(m, past, b, [e]);
    CourseGrows(m, past, a, [b] + [e]);
    c := [a] + ([b] + [e]);
  }

  lemma TwoParts(act: byte, cs: seq<Command>, ds: seq<Command>, rest: seq<byte>)
    ensures var a, b := Frame(act, cs), Frame(act, ds);
            |a| >= 5 && FrameAt(a + (b + rest), 0, [], act, cs, b + rest) && FrameAt(a + (b + rest), |a|, [], act, ds, rest)
  {
    var a, b := Frame(act, cs), Frame(act, ds);
    assert |a| >= 5;
    hide Frame;
    var m := a + (b + rest);
    assert m[0..] == [] + a + (b + rest) && m[|a|..] == [] + b + rest;
  }

  // ----- from table to table -----

  lemma PartFits(m: Mem, p: Part)
    requires MemOk(m) && |m.regs| > 0 && |m.coils| > 0 && |m.discs| > 0 && PartOk(m, p)
    ensures AllData(PartCommands(m, p)) && Short(PartCommands(m, p))
  {
    match p
    case AllHeaders => HeadersFit(m.regs, 0);
    case Users(from, to) => OverridesFit(m.regs, StartIndex(RegAdresses(m.regs), from), to);
    case UserRegs(from, to) => if !Crowded(m.userRegs, from, to, MAXREG) { UserRangeFits(m.userRegs, from, to); }
    case UserCoils(from, to) => if !CrowdedCoils(m.userCoils, from, to, MAXCOILS) { UserCoilRangeFits(m.userCoils, from, to); }
    case _ => RangesFit(m, p);
  }

  lemma RangesFit(m: Mem, p: Part)
    requires MemOk(m) && |m.regs| > 0 && |m.coils| > 0 && |m.discs| > 0 && PartOk(m, p)
    requires !p.AllHeaders? && !p.Users? && !p.UserRegs? && !p.UserCoils?
    ensures AllData(PartCommands(m, p)) && Short(PartCommands(m, p))
  {}

  lemma {:induction false} HeadersFit(t: seq<Reg>, k: nat)
    requires k <= |t| && forall j :: 0 <= j < |t| ==> |t[j].header| <= MAXHEADERSIZE
    ensures AllData(HeadersFrom(t, k)) && Short(HeadersFrom(t, k))
    decreases |t| - k
  {
    if k < |t| { HeadersFit(t, k + 1); }
  }

  lemma {:induction false} OverridesFit(t: seq<Reg>, k: nat, to: word)
    requires k <= |t|
    ensures AllData(OverridesFrom(t, k, to)) && Short(OverridesFrom(t, k, to))
    decreases |t| - k
  {
    if k < |t| { OverridesFit(t, k + 1, to); }
  }

  lemma UserRangeFits(t: seq<UserReg>, from: word, to: word)
    requires !Crowded(t, from, to, MAXREG)
    ensures |UserRange(t, from, to)| <= MAXREG
  {
    if |t| > 0 { FilteredNext(t, |t| - 1, RegBetween(from, to)); assert t[..|t|] == t; }
  }

  lemma UserCoilRangeFits(t: seq<UserCoil>, from: word, to: word)
    requires !CrowdedCoils(t, from, to, MAXCOILS)
    ensures |UserCoilRange(t, from, to)| <= MAXCOILS
  {
    if |t| > 0 { FilteredNext(t, |t| - 1, CoilBetween(from, to)); assert t[..|t|] == t; }
  }

  lemma {:induction false} AllFit(m: Mem, ps: seq<Part>)
    requires MemOk(m) && AllOk(m, ps)
    ensures AllData(AllCommands(m, ps)) && Short(AllCommands(m, ps))
    decreases |ps|
  {
    hide MemOk, PartOk, PartCommands;
    if |ps| > 0 {
      AllFit(m, ps[..|ps| - 1]);
      PartFits(m, ps[|ps| - 1]);
    }
  }

  /** The server's table with what a client sent in the parts ps taken over, and what makes it so. */
  lemma PartsTakeable(m: Mem, s: Mem, ps: seq<Part>)
    requires Twins(m, s) && AllOk(m, ps) && |AllCommands(m, ps)| <= MAX_COMMANDS
    ensures Takeable(s, AllCommands(m, ps)) && SavedAll(s, AllCommands(m, ps)) == Merged(m, s, AllEntries(m, ps))
  {
    hide MemOk, SameConfig, AllOk, AllCommands, AllEntries, Merged, SavedAll, Saveable;
    AllFit(m, ps);
    PartsReplicated(m, s, ps);
  }

  datatype Call = Call(memtype: byte, from: word, to: word)

  function CallParts(calls: seq<Call>): seq<Part> {
    if |calls| == 0 then [] else CallParts(calls[..|calls| - 1]) + PartsOf(calls[|calls| - 1].memtype, calls[|calls| - 1].from, calls[|calls| - 1].to)
  }

  /** The entry is named by one of the calls. */
  ghost predicate SentBy(m: Mem, calls: seq<Call>, e: Entry)
    requires |m.regs| > 0
  {
    exists k :: 0 <= k < |calls| && Named(m, calls[k].memtype, calls[k].from, calls[k].to, e)
  }

  lemma {:induction false} CallsSend(m: Mem, calls: seq<Call>, e: Entry)
    requires MemOk(m) && AllOk(m, CallParts(calls))
    ensures e in AllEntries(m, CallParts(calls)) <==> SentBy(m, calls, e)
  {
    Sized(m);
    hide MemOk, AllOk, AllEntries, Named, PartsOf, SentBy;
    if |calls| == 0 {
      EntrySent(m, CallParts(calls), e);
      assert !SentBy(m, calls, e) by { NoneSentBy(m, e); }
    } else {
      var last, before := calls[|calls| - 1], calls[..|calls| - 1];
      NextCall(m, calls, |before|);
      assert calls[..|before| + 1] == calls;
      CallsSend(m, before, e);
      SentIff(m, last.memtype, last.from, last.to, e);
      EntriesConcat(m, CallParts(before), PartsOf(last.memtype, last.from, last.to));
      SentByMore(m, calls, e);
    }
  }

  lemma NoneSentBy(m: Mem, e: Entry)
    requires |m.regs| > 0
    ensures !SentBy(m, [], e)
  {}

  lemma SentByMore(m: Mem, calls: seq<Call>, e: Entry)
    requires |m.regs| > 0 && |calls| > 0
    ensures var last := calls[|calls| - 1];
            SentBy(m, calls, e) <==> SentBy(m, calls[..|calls| - 1], e) || Named(m, last.memtype, last.from, last.to, e)
  {
    hide Named;
    var before := calls[..|calls| - 1];
    if k :| 0 <= k < |before| && Named(m, before[k].memtype, before[k].from, before[k].to, e) { assert before[k] == calls[k]; }
    if k :| 0 <= k < |calls| && Named(m, calls[k].memtype, calls[k].from, calls[k].to, e) { assert k < |before| ==> before[k] == calls[k]; }
  }

  lemma {:induction false} EntriesConcat(m: Mem, ps: seq<Part>, qs: seq<Part>)
    requires |m.regs| > 0 && |m.coils| > 0 && |m.discs| > 0
    ensures AllEntries(m, ps + qs) == AllEntries(m, ps) + AllEntries(m, qs)
    decreases |qs|
  {
    hide Entries;
    if |qs| == 0 {
      assert ps + qs == ps;
    } else {
      assert (ps + qs)[..|ps + qs| - 1] == ps + qs[..|qs| - 1];
      EntriesConcat(m, ps, qs[..|qs| - 1]);
    }
  }

  lemma NextCall(m: Mem, calls: seq<Call>, k: nat)
    requires k < |calls| && AllOk(m, CallParts(calls))
    ensures var call := calls[k];
            && AllOk(m, CallParts(calls[..k])) && AllOk(m, CallParts(calls[..k + 1])) && AllOk(m, PartsOf(call.memtype, call.from, call.to))
            && AllCommands(m, CallParts(calls[..k + 1])) == AllCommands(m, CallParts(calls[..k])) + AllCommands(m, PartsOf(call.memtype, call.from, call.to))
  {
    var call := calls[k];
    CallsFront(calls, k + 1);
    hide PartOk, PartsOf;
    assert calls[..k + 1][..k] == calls[..k];
    var ps, qs := CallParts(calls[..k]), PartsOf(call.memtype, call.from, call.to);
    assert CallParts(calls[..k + 1]) == ps + qs;
    OkFront(m, ps, qs, CallParts(calls));
    CommandsConcat(m, ps, qs);
  }

  lemma {:induction false} CallsFront(calls: seq<Call>, k: nat)
    requires k <= |calls|
    ensures CallParts(calls[..k]) <= CallParts(calls)
    decreases |calls| - k
  {
    hide PartsOf;
    if k < |calls| {
      CallsFront(calls, k + 1);
      assert calls[..k + 1][..k] == calls[..k];
    } else {
      assert calls[..k] == calls;
    }
  }

  lemma OkFront(m: Mem, ps: seq<Part>, qs: seq<Part>, all: seq<Part>)
    requires AllOk(m, all) && ps + qs <= all
    ensures AllOk(m, ps) && AllOk(m, qs) && AllOk(m, ps + qs)
  {
    forall k | 0 <= k < |ps + qs| ensures PartOk(m, (ps + qs)[k]) { assert (ps + qs)[k] == all[k]; }
    forall k | 0 <= k < |ps| ensures PartOk(m, ps[k]) { assert (ps + qs)[k] == ps[k]; }
    forall k | 0 <= k < |qs| ensures PartOk(m, qs[k]) { assert (ps + qs)[|ps| + k] == qs[k]; }
  }

  /** The client collects the parts of all calls in one frame, the last call sends it. */
  method Collect(client: TracerClient, calls: seq<Call>)
    requires client.Valid() && client.printer.added == [] && |calls| > 0
    requires AllOk(client.memory.View(), CallParts(calls))
    modifies client`sent, client.printer
    ensures client.Valid() && client.printer.added == []
    ensures var frame := Frame(E_PUT, AllCommands(client.memory.View(), CallParts(calls)));
            client.sent == old(client.sent) + if |frame| <= MAX_SEND_BUFFER then frame else []
  {
    ghost var m := client.memory.View();
    hide Memory.Memory.Valid, TracerClient.Open, AllOk, AllCommands, CallParts, PartsOf, Frame;
    NoCalls(m);
    assert calls[..0] == [];
    var k := 0;
    while k < |calls| - 1
      invariant 0 <= k < |calls| && client.Valid() && client.sent == old(client.sent) && client.memory.View() == m
      invariant AllOk(m, CallParts(calls[..k])) && client.printer.added == AllCommands(m, CallParts(calls[..k]))
    {
      NextCall(m, calls, k);
      var ret := client.SendMem(calls[k].memtype, calls[k].from, calls[k].to, false);
      k := k + 1;
    }
    NextCall(m, calls, k);
    assert calls[..k + 1] == calls;
    var ret := client.SendMem(calls[k].memtype, calls[k].from, calls[k].to, true);
  }

  lemma NoCalls(m: Mem)
    ensures |m.regs| > 0 && |m.coils| > 0 && |m.discs| > 0 ==> AllOk(m, CallParts([])) && AllCommands(m, CallParts([])) == []
  {}

  lemma SentTaken(m: Mem, s: Mem, calls: seq<Call>)
    requires Twins(m, s) && AllOk(m, CallParts(calls))
    ensures |m.regs| > 0 && MemOk(m) && MemOk(s) && SameShape(m, s)
    ensures TakenOver(m, s, Merged(m, s, AllEntries(m, CallParts(calls))), iset e: Entry | SentBy(m, calls, e))
  {
    forall e: Entry ensures e in AllEntries(m, CallParts(calls)) <==> SentBy(m, calls, e) { CallsSend(m, calls, e); }
    hide AllEntries, SentBy, TakenOver, MemOk, Merged, CallParts;
    assert AllEntries(m, CallParts(calls)) == iset e: Entry | SentBy(m, calls, e);
    MergedIs(m, s, AllEntries(m, CallParts(calls)));
  }

  /**
   From table to table: the client's calls of SendMem, the frame they make on the wire, and the server's loop
   over it. If there are at most fifty commands and the frame fits the send buffer, the server's table is
   then as it was, but for exactly the entries that one of the calls names, which are as in the client's table.
   */
  method Deliver(client: TracerClient, server: Server, calls: seq<Call>, past: byte)
    requires client.Valid() && client.printer.added == [] && client.sent == [] && |calls| > 0
    requires server.Valid() && AllFree(server.decoder.decoded_commands[..])
    requires client.memory != server.memory && client.printer != server.decoder
    requires client.memory.Register != server.memory.Register
    requires {client.memory.Coil, client.memory.DiscreteInput} !! {server.memory.Coil, server.memory.DiscreteInput}
    requires Twins(client.memory.View(), server.memory.View()) && AllOk(client.memory.View(), CallParts(calls))
    requires |AllCommands(client.memory.View(), CallParts(calls))| <= MAX_COMMANDS
    requires |Frame(E_PUT, AllCommands(client.memory.View(), CallParts(calls)))| <= MAX_SEND_BUFFER
    modifies client`sent, client.printer
    modifies server.memory, server.memory.Register, server.memory.Coil, server.memory.DiscreteInput, server.decoder.decoded_commands
    ensures client.memory.View() == old(client.memory.View()) && SameShape(client.memory.View(), old(server.memory.View()))
    ensures AllFree(server.decoder.decoded_commands[..])
    ensures server.memory.View() == Merged(client.memory.View(), old(server.memory.View()), AllEntries(client.memory.View(), CallParts(calls)))
    ensures |client.memory.View().regs| > 0
    ensures TakenOver(client.memory.View(), old(server.memory.View()), server.memory.View(), iset e: Entry | SentBy(client.memory.View(), calls, e))
  {
    hide Memory.Memory.Valid, TracerClient.Open, Twins, MemOk, AllOk, AllCommands, AllEntries, CallParts, Frame, Takeable, SavedAll, AllFree;
    hide SentBy, TakenOver, Merged, Saveable;
    ghost var m, s := client.memory.View(), server.memory.View();
    ghost var cs := AllCommands(m, CallParts(calls));
    SentTaken(m, s, calls);
    PartsTakeable(m, s, CallParts(calls));
    Collect(client, calls);
    assert [] + Frame(E_PUT, cs) == client.sent;
    ServeFrame(server, client.sent, past, [], E_PUT, cs);
  }

  /** A receive buffer with one frame, after bytes without a DLE or none: all its commands are saved, once, and the decoder is empty again. */
  method ServeFrame(server: Server, recvbuffer: seq<byte>, past: byte, ghost noise: seq<byte>, ghost act: byte, ghost cs: seq<Command>)
    requires server.Valid() && AllFree(server.decoder.decoded_commands[..]) && Takeable(server.memory.View(), cs)
    requires recvbuffer == noise + Frame(act, cs) && forall i :: 0 <= i < |noise| ==> noise[i] != DLE
    modifies server.memory, server.memory.Register, server.memory.Coil, server.memory.DiscreteInput, server.decoder.decoded_commands
    ensures server.Valid() && AllFree(server.decoder.decoded_commands[..])
    ensures MemOk(old(server.memory.View())) && Saveable(old(server.memory.View()), cs)
    ensures server.memory.View() == SavedAll(old(server.memory.View()), cs)
  {
    ghost var s, slots := server.memory.View(), server.decoder.decoded_commands[..];
    assert MemOk(s) && Saveable(s, cs) && |slots| == MAX_COMMANDS;
    hide Memory.Memory.Valid, MemOk, Saveable, Takeable, SavedAll, Frame, TurnFrom, Course, AllFree;
    ghost var c := OneFrameServed(slots, s, noise, act, cs, past);
    server.Action(recvbuffer, past, c);
  }
}
