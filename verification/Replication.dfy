/**
 From the client's register table to the server's: which commands SendMem prints for a part of the
 table (tracerclient.c, lines 933-1130), what saving them does to another table with the same addresses,
 and that the two then agree on exactly the entries that were sent.
 */
module Replication {
  import opened Bytes
  import opened Table
  import opened TableProofs
  import opened Mttp

  /** The cases of SendMem; everything (E_ALL) is nine of them in a row. */
  datatype Part =
    | DevInfo1 | DevInfo2
    | Regs(from: word, to: word)
    | Coils(from: word, to: word)
    | DiscInps(from: word, to: word)
    | OneHeader(from: word)
    | AllHeaders
    | Users(from: word, to: word)
    | UserRegs(from: word, to: word)
    | UserCoils(from: word, to: word)

  function PartsOf(memtype: byte, from: word, to: word): seq<Part> {
    if memtype == E_ALL then
      [DevInfo1, DevInfo2, Regs(from, to), Coils(from, to), DiscInps(from, to), AllHeaders, Users(from, to), UserRegs(from, to), UserCoils(from, to)]
    else if memtype == E_DEVINFO1 then [DevInfo1]
    else if memtype == E_DEVINFO2 then [DevInfo2]
    else if memtype == E_REG then [Regs(from, to)]
    else if memtype == E_COIL then [Coils(from, to)]
    else if memtype == E_DISCINP then [DiscInps(from, to)]
    else if memtype == E_HEADER then [OneHeader(from)]
    else if memtype == E_USER then [Users(from, to)]
    else if memtype == E_USERREG then [UserRegs(from, to)]
    else if memtype == E_USERCOIL then [UserCoils(from, to)]
    else []
  }

  // ----- the commands of a part -----

  /** A run of values is sent unless it is empty. */
  function Unless(c: Command): seq<Command> { if |c.payload| > 0 then [c] else [] }

  predicate HasHeader(r: Reg) { !r.empty && r.haveHeader && |r.header| > 0 }

  function HeadersFrom(t: seq<Reg>, k: nat): seq<Command>
    requires k <= |t|
    decreases |t| - k
  {
    if k == |t| then []
    else if !HasHeader(t[k]) then HeadersFrom(t, k + 1)
    else if t[k].adress == 0 then []
    else [Command(E_HEADER, t[k].adress, t[k].header)] + HeadersFrom(t, k + 1)
  }

  function OverridesFrom(t: seq<Reg>, k: nat, to: word): seq<Command>
    requires k <= |t|
    decreases |t| - k
  {
    if k == |t| || t[k].adress > to then []
    else if t[k].haveAlternate then [Command(E_USER, t[k].adress, Int16Bytes(t[k].alternate))] + OverridesFrom(t, k + 1, to)
    else OverridesFrom(t, k + 1, to)
  }

  function UserRegsCommand(range: seq<UserReg>): seq<Command> {
    if |range| == 0 then [] else [Command(E_USERREG, range[0].adress, Pack(UserValues(range)))]
  }

  function UserCoilsCommand(range: seq<UserCoil>): seq<Command> {
    if |range| == 0 then [] else [Command(E_USERCOIL, range[0].adress, UserCoilValues(range))]
  }

  function PartCommands(m: Mem, p: Part): seq<Command>
    requires |m.regs| > 0 && |m.coils| > 0 && |m.discs| > 0 && PartOk(m, p)
  {
    match p
    case DevInfo1 => [Command(E_DEVINFO1, 1, m.info1)]
    case DevInfo2 => [Command(E_DEVINFO2, 2, m.info2)]
    case Regs(from, to) => Unless(Command(E_REG, from, Pack(ReadRegs(RegRange(m.regs, from, to), false))))
    case Coils(from, to) => Unless(Command(E_COIL, from, ReadCells(CoilRange(m.coils, from, to))))
    case DiscInps(from, to) => Unless(Command(E_DISCINP, from, ReadCells(DiscRange(m.discs, from, to))))
    case OneHeader(from) =>
      var i := if from < NO_ADRESS then StartIndex(RegAdresses(m.regs), from) else -1;
      if i >= 0 && m.regs[i].haveHeader then Unless(Command(E_HEADER, from, m.regs[i].header)) else []
    case AllHeaders => HeadersFrom(m.regs, 0)
    case Users(from, to) => OverridesFrom(m.regs, StartIndex(RegAdresses(m.regs), from), to)
    case UserRegs(from, to) => if Crowded(m.userRegs, from, to, MAXREG) then [] else UserRegsCommand(UserRange(m.userRegs, from, to))
    case UserCoils(from, to) => if CrowdedCoils(m.userCoils, from, to, MAXCOILS) then [] else UserCoilsCommand(UserCoilRange(m.userCoils, from, to))
  }

  /**
   What the source takes for granted: overrides are asked for from a known address on and there are none in
   the slots that are not in use, and a single header is asked of a table with a register in it.
   */
  predicate PartOk(m: Mem, p: Part)
    requires |m.regs| > 0
  {
    match p
    case Users(from, to) =>
      StartIndex(RegAdresses(m.regs), from) >= 0 && forall j :: 0 <= j < |m.regs| && m.regs[j].empty ==> !m.regs[j].haveAlternate
    case OneHeader(_) => !m.regs[0].empty
    case _ => true
  }

  ghost predicate AllOk(m: Mem, ps: seq<Part>) {
    |m.regs| > 0 && |m.coils| > 0 && |m.discs| > 0 && forall k :: 0 <= k < |ps| ==> PartOk(m, ps[k])
  }

  ghost function AllCommands(m: Mem, ps: seq<Part>): seq<Command>
    requires AllOk(m, ps)
  {
    if |ps| == 0 then [] else AllCommands(m, ps[..|ps| - 1]) + PartCommands(m, ps[|ps| - 1])
  }

  // ----- saving commands one after the other -----

  predicate CanSave(s: Mem, c: Command) {
    |s.regs| > 0 && |s.coils| > 0 && |s.discs| > 0 && SaveAllowed(s, c.kind, c.adress)
  }

  /** One command taken out of the decoder: an empty one is passed over; the byte behind the payload is 0. */
  function SavedOne(s: Mem, c: Command): Mem
    requires CanSave(s, c)
  {
    if |c.payload| == 0 then s else Saved(s, c.kind, c.adress, c.payload, 0).0
  }

  ghost predicate Saveable(s: Mem, cs: seq<Command>) {
    forall k :: 0 <= k < |cs| ==> CanSave(s, cs[k])
  }

  lemma SavedOneOk(s: Mem, c: Command)
    requires MemOk(s) && CanSave(s, c)
    ensures MemOk(SavedOne(s, c)) && SameConfig(s, SavedOne(s, c))
  {
    hide MemOk, Saved, SaveAllowed;
    SavedOk(s, c.kind, c.adress, c.payload, 0);
  }

  lemma SaveableStays(s: Mem, s': Mem, cs: seq<Command>)
    requires Saveable(s, cs) && SameConfig(s, s')
    ensures Saveable(s', cs)
  {}

  ghost function SavedAll(s: Mem, cs: seq<Command>): (r: Mem)
    requires MemOk(s) && Saveable(s, cs)
    ensures MemOk(r) && SameConfig(s, r)
    decreases |cs|
  {
    if |cs| == 0 then s
    else
      var r, c := SavedAll(s, cs[..|cs| - 1]), cs[|cs| - 1];
      SaveableStays(s, r, cs);
      SavedOneOk(r, c);
      SavedOne(r, c)
  }

  lemma {:induction false} SavedConcat(s: Mem, cs: seq<Command>, ds: seq<Command>)
    requires MemOk(s) && Saveable(s, cs) && Saveable(s, ds)
    ensures Saveable(s, cs + ds) && Saveable(SavedAll(s, cs), ds)
    ensures SavedAll(s, cs + ds) == SavedAll(SavedAll(s, cs), ds)
    decreases |ds|
  {
    hide MemOk, CanSave, SavedOne, SameConfig;
    SaveableStays(s, SavedAll(s, cs), ds);
    if |ds| == 0 {
      assert cs + ds == cs;
    } else {
      assert (cs + ds)[..|cs + ds| - 1] == cs + ds[..|ds| - 1];
      SavedConcat(s, cs, ds[..|ds| - 1]);
    }
  }

  lemma SavedSingle(s: Mem, c: Command)
    requires MemOk(s) && CanSave(s, c)
    ensures Saveable(s, [c]) && SavedAll(s, [c]) == SavedOne(s, c)
  {
    hide MemOk, CanSave, SavedOne, SameConfig;
    assert [c][..0] == [];
    assert SavedAll(s, []) == s;
  }

  // ----- a table with some of its entries taken from another -----

  /** What can be replicated, by address. */
  datatype Entry =
    | RegValue(adress: word) | RegOverride(adress: word) | RegHeader(adress: word)
    | CoilValue(adress: word) | DiscValue(adress: word) | UserRegValue(adress: word) | UserCoilValue(adress: word)
    | Info1 | Info2

  function MergeReg(theirs: Reg, ours: Reg, value: bool, override: bool, header: bool): Reg {
    var r := if value then WithValue(ours, theirs.value) else ours;
    var q := if override then WithAlternate(r, theirs.alternate) else r;
    if header then WithHeader(q, theirs.header) else q
  }

  ghost function MergeRegs(t: seq<Reg>, u: seq<Reg>, es: iset<Entry>): (r: seq<Reg>)
    requires |t| == |u|
    ensures |r| == |u|
    ensures forall j :: 0 <= j < |u| ==>
      r[j] == MergeReg(t[j], u[j], RegValue(u[j].adress) in es, RegOverride(u[j].adress) in es, RegHeader(u[j].adress) in es)
  {
    seq(|u|, j requires 0 <= j < |u| =>
      MergeReg(t[j], u[j], RegValue(u[j].adress) in es, RegOverride(u[j].adress) in es, RegHeader(u[j].adress) in es))
  }

  ghost function MergeCoils(t: seq<Cell>, u: seq<Cell>, es: iset<Entry>): (r: seq<Cell>)
    requires |t| == |u|
    ensures |r| == |u|
    ensures forall j :: 0 <= j < |u| ==> r[j] == if CoilValue(u[j].adress) in es then WithByte(u[j], t[j].value) else u[j]
  {
    seq(|u|, j requires 0 <= j < |u| => if CoilValue(u[j].adress) in es then WithByte(u[j], t[j].value) else u[j])
  }

  ghost function MergeDiscs(t: seq<Cell>, u: seq<Cell>, es: iset<Entry>): (r: seq<Cell>)
    requires |t| == |u|
    ensures |r| == |u|
    ensures forall j :: 0 <= j < |u| ==> r[j] == if DiscValue(u[j].adress) in es then WithByte(u[j], t[j].value) else u[j]
  {
    seq(|u|, j requires 0 <= j < |u| => if DiscValue(u[j].adress) in es then WithByte(u[j], t[j].value) else u[j])
  }

  ghost function MergeUserRegs(t: seq<UserReg>, u: seq<UserReg>, es: iset<Entry>): (r: seq<UserReg>)
    requires |t| == |u|
    ensures |r| == |u|
    ensures forall j :: 0 <= j < |u| ==> r[j] == if UserRegValue(u[j].adress) in es then WithUserValue(u[j], t[j].value) else u[j]
  {
    seq(|u|, j requires 0 <= j < |u| => if UserRegValue(u[j].adress) in es then WithUserValue(u[j], t[j].value) else u[j])
  }

  ghost function MergeUserCoils(t: seq<UserCoil>, u: seq<UserCoil>, es: iset<Entry>): (r: seq<UserCoil>)
    requires |t| == |u|
    ensures |r| == |u|
    ensures forall j :: 0 <= j < |u| ==> r[j] == if UserCoilValue(u[j].adress) in es then WithUserByte(u[j], t[j].value) else u[j]
  {
    seq(|u|, j requires 0 <= j < |u| => if UserCoilValue(u[j].adress) in es then WithUserByte(u[j], t[j].value) else u[j])
  }

  ghost predicate SameShape(m: Mem, s: Mem) {
    |m.regs| == |s.regs| && |m.coils| == |s.coils| && |m.discs| == |s.discs| && |m.userRegs| == |s.userRegs| && |m.userCoils| == |s.userCoils|
  }

  /** The table s, with the entries es as they are in m. */
  ghost function Merged(m: Mem, s: Mem, es: iset<Entry>): (r: Mem)
    requires SameShape(m, s)
  {
    Mem(MergeRegs(m.regs, s.regs, es), MergeCoils(m.coils, s.coils, es), MergeDiscs(m.discs, s.discs, es),
        MergeUserRegs(m.userRegs, s.userRegs, es), MergeUserCoils(m.userCoils, s.userCoils, es),
        if Info1 in es then m.info1 else s.info1, if Info2 in es then m.info2 else s.info2)
  }

  lemma MergedKeeps(m: Mem, s: Mem, es: iset<Entry>)
    requires SameShape(m, s)
    ensures SameConfig(s, Merged(m, s, es)) && SameShape(m, Merged(m, s, es))
  {
    var r := Merged(m, s, es);
    assert RegAdresses(r.regs) == RegAdresses(s.regs);
    assert CellAdresses(r.coils) == CellAdresses(s.coils);
    assert CellAdresses(r.discs) == CellAdresses(s.discs);
    assert UserAdresses(r.userRegs) == UserAdresses(s.userRegs);
    assert UserCoilAdresses(r.userCoils) == UserCoilAdresses(s.userCoils);
  }

  /** Merging twice is merging the union. */
  lemma MergedTwice(m: Mem, s: Mem, es: iset<Entry>, fs: iset<Entry>)
    requires SameShape(m, s)
    ensures SameShape(m, Merged(m, s, es)) && Merged(m, Merged(m, s, es), fs) == Merged(m, s, es + fs)
  {
    var r := Merged(m, s, es);
    assert MergeRegs(m.regs, r.regs, fs) == MergeRegs(m.regs, s.regs, es + fs);
    assert MergeCoils(m.coils, r.coils, fs) == MergeCoils(m.coils, s.coils, es + fs);
    assert MergeDiscs(m.discs, r.discs, fs) == MergeDiscs(m.discs, s.discs, es + fs);
    assert MergeUserRegs(m.userRegs, r.userRegs, fs) == MergeUserRegs(m.userRegs, s.userRegs, es + fs);
    assert MergeUserCoils(m.userCoils, r.userCoils, fs) == MergeUserCoils(m.userCoils, s.userCoils, es + fs);
  }

  // ----- the entries a part sends -----

  ghost function Entries(m: Mem, p: Part): iset<Entry>
    requires |m.regs| > 0 && |m.coils| > 0 && |m.discs| > 0
  {
    match p
    case DevInfo1 => if |m.info1| > 0 then iset{Info1} else iset{}
    case DevInfo2 => if |m.info2| > 0 then iset{Info2} else iset{}
    case Regs(from, to) => ValueEntries(m.regs, from, to)
    case Coils(from, to) => CoilEntries(m.coils, from, to)
    case DiscInps(from, to) => DiscEntries(m.discs, from, to)
    case OneHeader(from) =>
      var i := if from < NO_ADRESS then StartIndex(RegAdresses(m.regs), from) else -1;
      if i >= 0 && m.regs[i].haveHeader && |m.regs[i].header| > 0 then iset{RegHeader(m.regs[i].adress)} else iset{}
    case AllHeaders => if HasHeader(m.regs[0]) && m.regs[0].adress == 0 then iset{} else HeaderEntries(m.regs, 0)
    case Users(from, to) => OverrideEntries(m.regs, from, to)
    case UserRegs(from, to) =>
      if Crowded(m.userRegs, from, to, MAXREG) then iset{}
      else iset j | 0 <= j < |m.userRegs| && from <= m.userRegs[j].adress <= to :: UserRegValue(m.userRegs[j].adress)
    case UserCoils(from, to) =>
      if CrowdedCoils(m.userCoils, from, to, MAXCOILS) then iset{}
      else iset j | 0 <= j < |m.userCoils| && from <= m.userCoils[j].adress <= to :: UserCoilValue(m.userCoils[j].adress)
  }

  /** The registers in use with an address in the range, if the range begins at one. */
  ghost function ValueEntries(t: seq<Reg>, from: word, to: word): iset<Entry>
    requires |t| > 0
  {
    iset j | 0 <= j < |t| && StartIndex(RegAdresses(t), from) >= 0 && from <= t[j].adress <= to && t[j].adress != NO_ADRESS :: RegValue(t[j].adress)
  }

  ghost function CoilEntries(t: seq<Cell>, from: word, to: word): iset<Entry>
    requires |t| > 0
  {
    iset j | 0 <= j < |t| && StartIndex(CellAdresses(t), from) >= 0 && from <= t[j].adress <= to && t[j].adress != NO_ADRESS :: CoilValue(t[j].adress)
  }

  ghost function DiscEntries(t: seq<Cell>, from: word, to: word): iset<Entry>
    requires |t| > 0
  {
    iset k | 0 <= k < |DiscRange(t, from, to)| :: DiscValue(DiscRange(t, from, to)[k].adress)
  }

  ghost function HeaderEntries(t: seq<Reg>, k: nat): iset<Entry> {
    iset j | k <= j < |t| && HasHeader(t[j]) :: RegHeader(t[j].adress)
  }

  ghost function OverrideEntries(t: seq<Reg>, from: word, to: word): iset<Entry> {
    iset j | 0 <= j < |t| && from <= t[j].adress <= to && t[j].adress != NO_ADRESS && t[j].haveAlternate :: RegOverride(t[j].adress)
  }

  ghost function AllEntries(m: Mem, ps: seq<Part>): iset<Entry>
    requires |m.regs| > 0 && |m.coils| > 0 && |m.discs| > 0
  {
    if |ps| == 0 then iset{} else AllEntries(m, ps[..|ps| - 1]) + Entries(m, ps[|ps| - 1])
  }

  // ----- parts of the table that a set of entries does not touch -----

  ghost predicate NoRegs(es: iset<Entry>) { forall e :: e in es ==> !e.RegValue? && !e.RegOverride? && !e.RegHeader? }

  ghost predicate NoCoils(es: iset<Entry>) { forall e :: e in es ==> !e.CoilValue? }

  ghost predicate NoDiscs(es: iset<Entry>) { forall e :: e in es ==> !e.DiscValue? }

  ghost predicate NoUsers(es: iset<Entry>) { forall e :: e in es ==> !e.UserRegValue? && !e.UserCoilValue? }

  /** Only what the entries speak of is taken over. */
  lemma MergedOnly(m: Mem, s: Mem, es: iset<Entry>)
    requires SameShape(m, s)
    ensures NoRegs(es) ==> Merged(m, s, es).regs == s.regs
    ensures NoCoils(es) ==> Merged(m, s, es).coils == s.coils
    ensures NoDiscs(es) ==> Merged(m, s, es).discs == s.discs
    ensures NoUsers(es) ==> Merged(m, s, es).userRegs == s.userRegs && Merged(m, s, es).userCoils == s.userCoils
  {}

  // ----- one command at a time -----

  /** Two well-formed tables with the same addresses. */
  ghost predicate Twins(m: Mem, s: Mem) { MemOk(m) && MemOk(s) && SameConfig(m, s) && SameShape(m, s) }

  /** The commands make s agree with m on exactly these entries. */
  ghost predicate Replicates(m: Mem, s: Mem, cs: seq<Command>, es: iset<Entry>) {
    Twins(m, s) && Saveable(s, cs) && SavedAll(s, cs) == Merged(m, s, es)
  }

  lemma NothingSent(m: Mem, s: Mem)
    requires Twins(m, s)
    ensures Merged(m, s, iset{}) == s && Replicates(m, s, [], iset{})
  {
    MergedOnly(m, s, iset{});
    hide MemOk, SameConfig;
    Sized(s);
  }

  lemma Sized(m: Mem)
    requires MemOk(m)
    ensures |m.regs| == MAXREG && |m.coils| == MAXCOILS && |m.discs| == MAXDISCRETEINPUTS
  {}

  lemma TwinsSized(m: Mem, s: Mem)
    requires Twins(m, s)
    ensures |m.regs| == |s.regs| == MAXREG && |m.coils| == |s.coils| == MAXCOILS && |m.discs| == |s.discs| == MAXDISCRETEINPUTS
  {}

  /** How a part with at most one command is proved: the command's effect is the merge. */
  lemma OneSaved(m: Mem, s: Mem, c: Command, es: iset<Entry>)
    requires Twins(m, s)
    requires |c.payload| > 0 ==> CanSave(s, c) && SavedOne(s, c) == Merged(m, s, es)
    requires |c.payload| == 0 ==> es == iset{}
    ensures Replicates(m, s, Unless(c), es)
  {
    hide MemOk, SameConfig;
    NothingSent(m, s);
    if |c.payload| > 0 { SavedSingle(s, c); }
  }

  // registers

  lemma ValuesMerged(t: seq<Reg>, u: seq<Reg>, from: word, to: word)
    requires |t| == |u| > 0 && Ordered(RegAdresses(t)) && RegAdresses(u) == RegAdresses(t) && StartIndex(RegAdresses(t), from) >= 0
    ensures MergeRegs(t, u, ValueEntries(t, from, to))
         == WriteValues(u, StartIndex(RegAdresses(t), from), ReadRegs(RegRange(t, from, to), false))
  {
    var i := StartIndex(RegAdresses(t), from);
    var e := EndIndex(RegAdresses(t), i, to);
    var es := ValueEntries(t, from, to);
    hide StartIndex, EndIndex, Ordered, WriteValues, MergeRegs, ValueEntries, MergeReg, WithValue, ReadReg;
    forall j | 0 <= j < |t|
      ensures MergeRegs(t, u, es)[j] == if i <= j < e then WithValue(u[j], ReadReg(t[j], false)) else u[j]
    {
      RangePlaces(RegAdresses(t), from, to, j);
      ValueIn(t, from, to, j);
      MergedValue(t[j], u[j], i <= j < e);
      assert RegAdresses(u)[j] == RegAdresses(t)[j];
    }
    WrittenValues(t, u, i, e);
  }

  lemma WrittenValues(t: seq<Reg>, u: seq<Reg>, i: nat, e: nat)
    requires i <= e <= |t| == |u|
    ensures forall j :: 0 <= j < |u| ==>
      WriteValues(u, i, ReadRegs(t[i..e], false))[j] == if i <= j < e then WithValue(u[j], ReadReg(t[j], false)) else u[j]
  {
    hide WriteValues, WithValue, ReadReg;
  }

  lemma ValueIn(t: seq<Reg>, from: word, to: word, j: nat)
    requires j < |t| && StartIndex(RegAdresses(t), from) >= 0
    ensures RegValue(t[j].adress) in ValueEntries(t, from, to) <==> from <= t[j].adress <= to && t[j].adress != NO_ADRESS
    ensures RegOverride(t[j].adress) !in ValueEntries(t, from, to) && RegHeader(t[j].adress) !in ValueEntries(t, from, to)
  {}

  lemma MergedValue(theirs: Reg, ours: Reg, value: bool)
    ensures MergeReg(theirs, ours, value, false, false) == if value then WithValue(ours, ReadReg(theirs, false)) else ours
  {}

  lemma NoValues(t: seq<Reg>, from: word, to: word)
    requires |t| > 0 && Ordered(RegAdresses(t)) && RegRange(t, from, to) == []
    ensures ValueEntries(t, from, to) == iset{}
  {
    forall j | 0 <= j < |t| && StartIndex(RegAdresses(t), from) >= 0
      ensures !(from <= t[j].adress <= to && t[j].adress != NO_ADRESS)
    {
      RangePlaces(RegAdresses(t), from, to, j);
    }
  }

  lemma SavedValues(s: Mem, from: word, ws: seq<word>)
    requires |s.regs| > 0 && |s.coils| > 0 && |s.discs| > 0 && StartIndex(RegAdresses(s.regs), from) >= 0
    ensures CanSave(s, Command(E_REG, from, Pack(ws)))
    ensures |ws| > 0 ==>
      SavedOne(s, Command(E_REG, from, Pack(ws))) == s.(regs := WriteValues(s.regs, StartIndex(RegAdresses(s.regs), from), ws))
  {
    hide StartIndex, Pack, Unpack, Words, RegAdresses, CellAdresses, WriteValues, Saved, SaveAllowed;
    PackedWords(ws);
    SavedRegKind(s, from, Pack(ws));
  }

  lemma SavedRegKind(s: Mem, from: word, payload: seq<byte>)
    requires |s.regs| > 0 && |s.coils| > 0 && |s.discs| > 0 && StartIndex(RegAdresses(s.regs), from) >= 0
    ensures SaveAllowed(s, E_REG, from)
    ensures Saved(s, E_REG, from, payload, 0).0 == s.(regs := WriteValues(s.regs, StartIndex(RegAdresses(s.regs), from), Words(payload, 0)))
  {
    hide StartIndex, Unpack, Words, RegAdresses, CellAdresses, WriteValues;
  }

  lemma PackedWords(ws: seq<word>)
    ensures Words(Pack(ws), 0) == ws
  {
    UnpackPack(ws);
  }

  lemma RegsSaved(m: Mem, s: Mem, from: word, to: word)
    requires Twins(m, s)
    ensures Replicates(m, s, PartCommands(m, Regs(from, to)), Entries(m, Regs(from, to)))
  {
    TwinsSized(m, s);
    TwinsAlike(m, s);
    hide Twins, StartIndex, RegAdresses, RegRange, ReadRegs, MergeRegs, WriteValues, Pack, CanSave, SavedOne, Merged, ValueEntries;
    var es, ws := ValueEntries(m.regs, from, to), ReadRegs(RegRange(m.regs, from, to), false);
    MergedValues(m, s, from, to);
    if |ws| == 0 {
      NoValues(m.regs, from, to);
    } else {
      RangeStarts(m.regs, from, to);
      SavedValues(s, from, ws);
      ValuesMerged(m.regs, s.regs, from, to);
    }
    OneSaved(m, s, Command(E_REG, from, Pack(ws)), es);
  }

  lemma MergedValues(m: Mem, s: Mem, from: word, to: word)
    requires SameShape(m, s) && |m.regs| > 0
    ensures var es := ValueEntries(m.regs, from, to); Merged(m, s, es) == s.(regs := MergeRegs(m.regs, s.regs, es))
  {
    hide StartIndex, RegAdresses;
    MergedOnly(m, s, ValueEntries(m.regs, from, to));
  }

  lemma RangeStarts(t: seq<Reg>, from: word, to: word)
    requires |t| > 0 && RegRange(t, from, to) != []
    ensures StartIndex(RegAdresses(t), from) >= 0
  {}

  /** What two such tables have in common. */
  lemma TwinsAlike(m: Mem, s: Mem)
    requires Twins(m, s)
    ensures SameShape(m, s) && Ordered(RegAdresses(m.regs)) && Ordered(CellAdresses(m.coils)) && CellsOk(m.discs, MAXDISCRETEINPUTS)
    ensures RegAdresses(s.regs) == RegAdresses(m.regs) && CellAdresses(s.coils) == CellAdresses(m.coils)
    ensures CellAdresses(s.discs) == CellAdresses(m.discs)
  {}

  // coils and discrete inputs

  lemma CoilsMerged(t: seq<Cell>, u: seq<Cell>, from: word, to: word)
    requires |t| == |u| > 0 && Ordered(CellAdresses(t)) && CellAdresses(u) == CellAdresses(t) && StartIndex(CellAdresses(t), from) >= 0
    ensures MergeCoils(t, u, CoilEntries(t, from, to))
         == WriteCells(u, StartIndex(CellAdresses(t), from), ReadCells(CoilRange(t, from, to)))
  {
    var a := CellAdresses(t);
    var i := StartIndex(a, from);
    var e := EndIndex(a, i, to);
    var x, y := MergeCoils(t, u, CoilEntries(t, from, to)), WriteCells(u, i, ReadCells(t[i..e]));
    hide StartIndex, EndIndex, Ordered, ReadCells, WriteCells, MergeCoils, CoilEntries;
    forall j | 0 <= j < |t| ensures x[j] == y[j] {
      RangePlaces(a, from, to, j);
      CoilIn(t, from, to, j);
      assert a[j] == t[j].adress && CellAdresses(u)[j] == u[j].adress;
    }
  }

  lemma CoilIn(t: seq<Cell>, from: word, to: word, j: nat)
    requires j < |t| && StartIndex(CellAdresses(t), from) >= 0
    ensures CoilValue(t[j].adress) in CoilEntries(t, from, to) <==> from <= t[j].adress <= to && t[j].adress != NO_ADRESS
  {}

  lemma NoCoilValues(t: seq<Cell>, from: word, to: word)
    requires |t| > 0 && Ordered(CellAdresses(t)) && CoilRange(t, from, to) == []
    ensures CoilEntries(t, from, to) == iset{}
  {
    forall j | 0 <= j < |t| && StartIndex(CellAdresses(t), from) >= 0
      ensures !(from <= t[j].adress <= to && t[j].adress != NO_ADRESS)
    {
      RangePlaces(CellAdresses(t), from, to, j);
    }
  }

  lemma SavedCoils(s: Mem, from: word, bs: seq<byte>)
    requires |s.regs| > 0 && |s.coils| > 0 && |s.discs| > 0 && StartIndex(CellAdresses(s.coils), from) >= 0
    ensures CanSave(s, Command(E_COIL, from, bs))
    ensures |bs| > 0 ==> SavedOne(s, Command(E_COIL, from, bs)) == s.(coils := WriteCells(s.coils, StartIndex(CellAdresses(s.coils), from), bs))
  {
    hide StartIndex, RegAdresses, CellAdresses;
  }

  lemma CoilsSaved(m: Mem, s: Mem, from: word, to: word)
    requires Twins(m, s)
    ensures Replicates(m, s, PartCommands(m, Coils(from, to)), Entries(m, Coils(from, to)))
  {
    TwinsSized(m, s);
    TwinsAlike(m, s);
    hide Twins, StartIndex, CellAdresses, CoilRange, ReadCells, MergeCoils, WriteCells, CanSave, SavedOne, Merged, CoilEntries;
    var es, bs := CoilEntries(m.coils, from, to), ReadCells(CoilRange(m.coils, from, to));
    MergedCoils(m, s, from, to);
    if |bs| == 0 {
      NoCoilValues(m.coils, from, to);
    } else {
      CoilRangeStarts(m.coils, from, to);
      SavedCoils(s, from, bs);
      CoilsMerged(m.coils, s.coils, from, to);
    }
    OneSaved(m, s, Command(E_COIL, from, bs), es);
  }

  lemma MergedCoils(m: Mem, s: Mem, from: word, to: word)
    requires SameShape(m, s) && |m.coils| > 0
    ensures var es := CoilEntries(m.coils, from, to); Merged(m, s, es) == s.(coils := MergeCoils(m.coils, s.coils, es))
  {
    hide StartIndex, CellAdresses;
    MergedOnly(m, s, CoilEntries(m.coils, from, to));
  }

  lemma CoilRangeStarts(t: seq<Cell>, from: word, to: word)
    requires |t| > 0 && CoilRange(t, from, to) != []
    ensures StartIndex(CellAdresses(t), from) >= 0
  {}

  lemma DiscsMerged(m: Mem, s: Mem, from: word, to: word)
    requires Twins(m, s) && StartIndex(CellAdresses(m.discs), from) >= 0
    ensures MergeDiscs(m.discs, s.discs, DiscEntries(m.discs, from, to))
         == WriteCells(s.discs, StartIndex(CellAdresses(m.discs), from), ReadCells(DiscRange(m.discs, from, to)))
  {
    var t := m.discs;
    var es := DiscEntries(t, from, to);
    var i := StartIndex(CellAdresses(t), from);
    var e := DiscEnd(t, i, to);
    DiscsInUse(t, i, to);
    forall j | 0 <= j < |t|
      ensures DiscValue(s.discs[j].adress) in es <==> i <= j < e
    {
      assert CellAdresses(s.discs)[j] == t[j].adress;
      if i <= j < e { assert DiscRange(t, from, to)[j - i] == t[j]; }
      if k :| 0 <= k < e - i && DiscRange(t, from, to)[k].adress == t[j].adress {
        assert !t[i + k].empty;
        assert CellAdresses(t)[i + k] == CellAdresses(t)[j];
      }
      hide StartIndex, DiscEnd;
    }
  }

  lemma {:induction false} DiscsInUse(t: seq<Cell>, i: nat, to: word)
    requires i <= |t|
    ensures forall k :: i <= k < DiscEnd(t, i, to) ==> !t[k].empty
    decreases |t| - i
  {
    if i < |t| { DiscsInUse(t, i + 1, to); }
  }

  lemma DiscInpsSaved(m: Mem, s: Mem, from: word, to: word)
    requires Twins(m, s)
    ensures Replicates(m, s, PartCommands(m, DiscInps(from, to)), Entries(m, DiscInps(from, to)))
  {
    var es := Entries(m, DiscInps(from, to));
    var bs := ReadCells(DiscRange(m.discs, from, to));
    if StartIndex(CellAdresses(m.discs), from) >= 0 {
      DiscsMerged(m, s, from, to);
      Sized(s);
    }
    MergedOnly(m, s, es);
    hide MemOk, StartIndex, CellAdresses, DiscRange, ReadCells, MergeDiscs, WriteCells, Merged;
    OneSaved(m, s, Command(E_DISCINP, from, bs), es);
  }

  // device information

  lemma InfoSaved(m: Mem, s: Mem, p: Part)
    requires Twins(m, s) && (p.DevInfo1? || p.DevInfo2?)
    ensures Replicates(m, s, PartCommands(m, p), Entries(m, p))
  {
    var es := Entries(m, p);
    var cs := PartCommands(m, p);
    MergedOnly(m, s, es);
    NothingSent(m, s);
    SavedSingle(s, cs[0]);
    hide RegsOk, CellsOk, UserRegsOk, UserCoilsOk, SameConfig;
    assert SavedAll(s, cs) == Merged(m, s, es);
  }

  // user registers and coils

  lemma UserRegsSaved(m: Mem, s: Mem, from: word, to: word)
    requires Twins(m, s)
    ensures Replicates(m, s, PartCommands(m, UserRegs(from, to)), Entries(m, UserRegs(from, to)))
  {
    Sized(m);
    NothingSent(m, s);
    if !Crowded(m.userRegs, from, to, MAXREG) {
      var es := Entries(m, UserRegs(from, to));
      MergedOnly(m, s, es);
      MergedUserRegs(m, s, from, to);
      if UserRange(m.userRegs, from, to) != [] {
        UserRangeSavedBack(m, s, from, to, 0);
        SavedSingle(s, UserRegsCommand(UserRange(m.userRegs, from, to))[0]);
      } else {
        FilteredNone(m.userRegs, RegBetween(from, to));
      }
      hide MemOk, SameConfig, UserRange, Saved, Entries, MergeUserRegs, MergeUserCoils, SaveAllowed;
    }
  }

  /** Which user registers the entries of a range change. */
  lemma MergedUserRegs(m: Mem, s: Mem, from: word, to: word)
    requires Twins(m, s) && |m.regs| > 0 && |m.coils| > 0 && |m.discs| > 0 && !Crowded(m.userRegs, from, to, MAXREG)
    ensures var es, t := Entries(m, UserRegs(from, to)), m.userRegs;
            && NoRegs(es) && NoCoils(es) && NoDiscs(es)
            && Merged(m, s, es) == s.(userRegs := MergeUserRegs(m.userRegs, s.userRegs, es))
            && forall j :: 0 <= j < |t| ==>
                 MergeUserRegs(t, s.userRegs, es)[j] == if from <= t[j].adress <= to then WithUserValue(s.userRegs[j], t[j].value) else s.userRegs[j]
  {
    var es := Entries(m, UserRegs(from, to));
    MergedOnly(m, s, es);
    forall j | 0 <= j < |s.userRegs| ensures s.userRegs[j].adress == m.userRegs[j].adress {
      assert UserAdresses(s.userRegs)[j] == UserAdresses(m.userRegs)[j];
    }
    hide MemOk, SameConfig, Crowded;
    assert MergeUserCoils(m.userCoils, s.userCoils, es) == s.userCoils;
  }

  lemma UserCoilsSaved(m: Mem, s: Mem, from: word, to: word)
    requires Twins(m, s)
    ensures Replicates(m, s, PartCommands(m, UserCoils(from, to)), Entries(m, UserCoils(from, to)))
  {
    Sized(m);
    NothingSent(m, s);
    if !CrowdedCoils(m.userCoils, from, to, MAXCOILS) {
      var es := Entries(m, UserCoils(from, to));
      MergedOnly(m, s, es);
      MergedUserCoils(m, s, from, to);
      if UserCoilRange(m.userCoils, from, to) != [] {
        UserCoilRangeSavedBack(m, s, from, to, 0);
        SavedSingle(s, UserCoilsCommand(UserCoilRange(m.userCoils, from, to))[0]);
      } else {
        FilteredNone(m.userCoils, CoilBetween(from, to));
      }
      hide MemOk, SameConfig, UserCoilRange, Saved, Entries, MergeUserRegs, MergeUserCoils, SaveAllowed;
    }
  }

  lemma MergedUserCoils(m: Mem, s: Mem, from: word, to: word)
    requires Twins(m, s) && |m.regs| > 0 && |m.coils| > 0 && |m.discs| > 0 && !CrowdedCoils(m.userCoils, from, to, MAXCOILS)
    ensures var es, t := Entries(m, UserCoils(from, to)), m.userCoils;
            && NoRegs(es) && NoCoils(es) && NoDiscs(es)
            && Merged(m, s, es) == s.(userCoils := MergeUserCoils(m.userCoils, s.userCoils, es))
            && forall j :: 0 <= j < |t| ==>
                 MergeUserCoils(t, s.userCoils, es)[j] == if from <= t[j].adress <= to then WithUserByte(s.userCoils[j], t[j].value) else s.userCoils[j]
  {
    var es := Entries(m, UserCoils(from, to));
    MergedOnly(m, s, es);
    forall j | 0 <= j < |s.userCoils| ensures s.userCoils[j].adress == m.userCoils[j].adress {
      assert UserCoilAdresses(s.userCoils)[j] == UserCoilAdresses(m.userCoils)[j];
    }
    hide MemOk, SameConfig, CrowdedCoils;
    assert MergeUserRegs(m.userRegs, s.userRegs, es) == s.userRegs;
  }

  // headers and overrides, one command for each register

  /** Commands one after the other add up. */
  lemma ReplicatesConcat(m: Mem, s: Mem, cs: seq<Command>, es: iset<Entry>, ds: seq<Command>, fs: iset<Entry>)
    requires Replicates(m, s, cs, es) && Replicates(m, Merged(m, s, es), ds, fs)
    ensures Replicates(m, s, cs + ds, es + fs)
  {
    MergedKeeps(m, s, es);
    SaveableStays(Merged(m, s, es), s, ds);
    SavedConcat(s, cs, ds);
    MergedTwice(m, s, es, fs);
    hide MemOk, SameConfig, Merged, SavedAll, Saveable;
  }

  lemma TwinsStay(m: Mem, s: Mem, cs: seq<Command>, es: iset<Entry>)
    requires Replicates(m, s, cs, es)
    ensures Twins(m, Merged(m, s, es))
  {
    MergedKeeps(m, s, es);
    hide MemOk, Merged, SavedAll, Saveable, RegAdresses, CellAdresses, UserAdresses, UserCoilAdresses;
  }

  lemma OneHeaderSaved(m: Mem, s: Mem, adress: word, k: nat)
    requires Twins(m, s) && StartIndex(RegAdresses(m.regs), adress) == k && m.regs[k].haveHeader && |m.regs[k].header| > 0
    requires !m.regs[k].empty
    ensures Replicates(m, s, [Command(E_HEADER, adress, m.regs[k].header)], iset{RegHeader(m.regs[k].adress)})
  {
    var c, es := Command(E_HEADER, adress, m.regs[k].header), iset{RegHeader(m.regs[k].adress)};
    OnlyPlace(m, s, k);
    Sized(s);
    MergedOnly(m, s, es);
    assert |c.payload| <= MAXHEADERSIZE;
    hide MemOk, StartIndex, RegAdresses, CellAdresses;
    assert MergeRegs(m.regs, s.regs, es) == s.regs[k := WithHeader(s.regs[k], m.regs[k].header)];
    OneSaved(m, s, c, es);
  }

  /** In tables with the same addresses, the address of a register in use is at one place only. */
  lemma OnlyPlace(m: Mem, s: Mem, k: nat)
    requires Twins(m, s) && k < MAXREG && !m.regs[k].empty
    ensures forall j :: 0 <= j < MAXREG ==> s.regs[j].adress == m.regs[j].adress && (s.regs[j].adress == m.regs[k].adress <==> j == k)
  {
    forall j | 0 <= j < MAXREG ensures s.regs[j].adress == m.regs[j].adress && (s.regs[j].adress == m.regs[k].adress <==> j == k) {
      assert RegAdresses(s.regs)[j] == RegAdresses(m.regs)[j];
      assert RegAdresses(m.regs)[k] == m.regs[k].adress;
    }
  }

  lemma HeaderStep(t: seq<Reg>, k: nat)
    requires k < |t|
    ensures HasHeader(t[k]) ==> HeaderEntries(t, k) == iset{RegHeader(t[k].adress)} + HeaderEntries(t, k + 1)
    ensures !HasHeader(t[k]) ==> HeaderEntries(t, k) == HeaderEntries(t, k + 1)
  {}

  lemma {:induction false} HeadersSaved(m: Mem, s: Mem, k: nat)
    requires Twins(m, s) && k <= MAXREG && (k == 0 ==> !(HasHeader(m.regs[0]) && m.regs[0].adress == 0))
    ensures Replicates(m, s, HeadersFrom(m.regs, k), HeaderEntries(m.regs, k))
    decreases MAXREG - k
  {
    TwinsSized(m, s);
    TwinsAlike(m, s);
    if k == MAXREG {
      NothingSent(m, s);
      assert HeaderEntries(m.regs, k) == iset{};
    } else {
      HeaderStep(m.regs, k);
      hide Twins, Merged, Replicates, StartIndex, SameShape, Ordered, CellsOk, RegAdresses, CellAdresses, HeaderEntries;
      if !HasHeader(m.regs[k]) {
        HeadersSaved(m, s, k + 1);
      } else {
        var c, es := Command(E_HEADER, m.regs[k].adress, m.regs[k].header), iset{RegHeader(m.regs[k].adress)};
        InUse(m, s, k);
        OneHeaderSaved(m, s, m.regs[k].adress, k);
        TwinsStay(m, s, [c], es);
        HeadersSaved(m, Merged(m, s, es), k + 1);
        ReplicatesConcat(m, s, [c], es, HeadersFrom(m.regs, k + 1), HeaderEntries(m.regs, k + 1));
      }
    }
  }

  lemma InUse(m: Mem, s: Mem, k: nat)
    requires Twins(m, s) && k < MAXREG && !m.regs[k].empty
    ensures k > 0 ==> m.regs[k].adress != 0
    ensures m.regs[k].adress != NO_ADRESS && StartIndex(RegAdresses(m.regs), m.regs[k].adress) == k
  {
    var a := RegAdresses(m.regs);
    assert a[k] == m.regs[k].adress;
    assert k > 0 ==> a[0] < a[k];
  }

  lemma HeaderPartSaved(m: Mem, s: Mem, from: word)
    requires Twins(m, s) && |m.regs| > 0 && PartOk(m, OneHeader(from))
    ensures Replicates(m, s, PartCommands(m, OneHeader(from)), Entries(m, OneHeader(from)))
  {
    NothingSent(m, s);
    Sized(m);
    var i := if from < NO_ADRESS then StartIndex(RegAdresses(m.regs), from) else -1;
    if i >= 0 && m.regs[i].haveHeader && |m.regs[i].header| > 0 {
      assert RegAdresses(m.regs)[i] == m.regs[i].adress;
      OneHeaderSaved(m, s, from, i);
    }
    hide Twins, StartIndex, RegAdresses, Replicates;
  }

  ghost function OverrideEntriesFrom(t: seq<Reg>, k: nat, to: word): iset<Entry> {
    iset j | k <= j < |t| && t[j].adress <= to && t[j].adress != NO_ADRESS && t[j].haveAlternate :: RegOverride(t[j].adress)
  }

  lemma OneOverrideSaved(m: Mem, s: Mem, k: nat)
    requires Twins(m, s) && k < MAXREG && !m.regs[k].empty && m.regs[k].haveAlternate
    ensures Replicates(m, s, [Command(E_USER, m.regs[k].adress, Int16Bytes(m.regs[k].alternate))], iset{RegOverride(m.regs[k].adress)})
  {
    var w := m.regs[k].alternate;
    var c, es := Command(E_USER, m.regs[k].adress, Int16Bytes(w)), iset{RegOverride(m.regs[k].adress)};
    OnlyPlace(m, s, k);
    InUse(m, s, k);
    Sized(s);
    MergedOnly(m, s, es);
    OneWord(w);
    hide MemOk, StartIndex, RegAdresses, CellAdresses, Words;
    assert MergeRegs(m.regs, s.regs, es) == WriteAlternates(s.regs, k, [w]);
    OneSaved(m, s, c, es);
  }

  lemma OneWord(w: word)
    ensures Words(Int16Bytes(w), 0) == [w]
  {
    JoinParts(w);
    assert Int16Bytes(w)[2..] == [];
  }

  lemma OverrideStep(t: seq<Reg>, k: nat, to: word)
    requires k < |t| && (t[k].haveAlternate ==> t[k].adress <= to && t[k].adress != NO_ADRESS)
    ensures t[k].haveAlternate ==> OverrideEntriesFrom(t, k, to) == iset{RegOverride(t[k].adress)} + OverrideEntriesFrom(t, k + 1, to)
    ensures !t[k].haveAlternate ==> OverrideEntriesFrom(t, k, to) == OverrideEntriesFrom(t, k + 1, to)
  {}

  lemma {:induction false} OverridesSaved(m: Mem, s: Mem, k: nat, to: word)
    requires Twins(m, s) && k <= MAXREG && forall j :: 0 <= j < |m.regs| && m.regs[j].empty ==> !m.regs[j].haveAlternate
    ensures Replicates(m, s, OverridesFrom(m.regs, k, to), OverrideEntriesFrom(m.regs, k, to))
    decreases MAXREG - k
  {
    TwinsSized(m, s);
    TwinsAlike(m, s);
    hide Twins, Merged, Replicates, StartIndex, OverrideEntriesFrom, SameShape, Ordered, CellsOk, RegAdresses, CellAdresses;
    if k == MAXREG || m.regs[k].adress > to {
      NothingSent(m, s);
      NoneFurther(m, s, k, to);
    } else if !m.regs[k].haveAlternate {
      OverridesSaved(m, s, k + 1, to);
      OverrideStep(m.regs, k, to);
    } else {
      var c, es := Command(E_USER, m.regs[k].adress, Int16Bytes(m.regs[k].alternate)), iset{RegOverride(m.regs[k].adress)};
      OneOverrideSaved(m, s, k);
      TwinsStay(m, s, [c], es);
      OverridesSaved(m, Merged(m, s, es), k + 1, to);
      ReplicatesConcat(m, s, [c], es, OverridesFrom(m.regs, k + 1, to), OverrideEntriesFrom(m.regs, k + 1, to));
      InUse(m, s, k);
      OverrideStep(m.regs, k, to);
    }
  }

  lemma NoneFurther(m: Mem, s: Mem, k: nat, to: word)
    requires Twins(m, s) && k <= MAXREG && (k < MAXREG ==> m.regs[k].adress > to)
    ensures OverrideEntriesFrom(m.regs, k, to) == iset{}
  {
    forall j | k <= j < MAXREG ensures m.regs[j].adress > to {
      assert RegAdresses(m.regs)[k] <= RegAdresses(m.regs)[j];
    }
  }

  lemma UsersSaved(m: Mem, s: Mem, from: word, to: word)
    requires Twins(m, s) && |m.regs| > 0 && PartOk(m, Users(from, to))
    ensures Replicates(m, s, PartCommands(m, Users(from, to)), Entries(m, Users(from, to)))
  {
    var i := StartIndex(RegAdresses(m.regs), from);
    FromPlace(m, s, from);
    TwinsSized(m, s);
    hide Twins, StartIndex, Replicates;
    OverridesSaved(m, s, i, to);
    assert OverrideEntries(m.regs, from, to) == OverrideEntriesFrom(m.regs, i, to);
  }

  lemma FromPlace(m: Mem, s: Mem, from: word)
    requires Twins(m, s) && |m.regs| == MAXREG && StartIndex(RegAdresses(m.regs), from) >= 0
    ensures forall j :: 0 <= j < MAXREG && m.regs[j].adress != NO_ADRESS ==>
      (from <= m.regs[j].adress <==> StartIndex(RegAdresses(m.regs), from) <= j)
  {
    forall j | 0 <= j < MAXREG && m.regs[j].adress != NO_ADRESS
      ensures from <= m.regs[j].adress <==> StartIndex(RegAdresses(m.regs), from) <= j
    {
      RangePlaces(RegAdresses(m.regs), from, 0xFFFE, j);
    }
  }

  // ----- whole runs of SendMem -----

  lemma PartSaved(m: Mem, s: Mem, p: Part)
    requires Twins(m, s) && |m.regs| > 0 && PartOk(m, p)
    ensures Replicates(m, s, PartCommands(m, p), Entries(m, p))
  {
    match p
    case DevInfo1 => InfoSaved(m, s, p);
    case DevInfo2 => InfoSaved(m, s, p);
    case Regs(from, to) => RegsSaved(m, s, from, to);
    case Coils(from, to) => CoilsSaved(m, s, from, to);
    case DiscInps(from, to) => DiscInpsSaved(m, s, from, to);
    case OneHeader(from) => HeaderPartSaved(m, s, from);
    case AllHeaders =>
      Sized(m);
      if HasHeader(m.regs[0]) && m.regs[0].adress == 0 { NothingSent(m, s); } else { HeadersSaved(m, s, 0); }
    case Users(from, to) => UsersSaved(m, s, from, to);
    case UserRegs(from, to) => UserRegsSaved(m, s, from, to);
    case UserCoils(from, to) => UserCoilsSaved(m, s, from, to);
  }

  /**
   Replication. Whatever parts of its table a client sends, one after the other: a server with the same
   addresses that saves the commands ends up with the client's values in exactly the entries sent, and
   with its own everywhere else.
   */
  lemma {:induction false} PartsReplicated(m: Mem, s: Mem, ps: seq<Part>)
    requires Twins(m, s) && AllOk(m, ps)
    ensures Replicates(m, s, AllCommands(m, ps), AllEntries(m, ps))
    decreases |ps|
  {
    if |ps| == 0 {
      NothingSent(m, s);
    } else {
      var qs, p := ps[..|ps| - 1], ps[|ps| - 1];
      PartsReplicated(m, s, qs);
      TwinsStay(m, s, AllCommands(m, qs), AllEntries(m, qs));
      PartSaved(m, Merged(m, s, AllEntries(m, qs)), p);
      hide Twins, Replicates, PartOk;
      ReplicatesConcat(m, s, AllCommands(m, qs), AllEntries(m, qs), PartCommands(m, p), Entries(m, p));
    }
  }

  /** The entries of a run are those of its parts. */
  lemma {:induction false} EntrySent(m: Mem, ps: seq<Part>, e: Entry)
    requires |m.regs| > 0 && |m.coils| > 0 && |m.discs| > 0
    ensures e in AllEntries(m, ps) <==> exists k :: 0 <= k < |ps| && e in Entries(m, ps[k])
  {
    hide Entries;
    if |ps| > 0 {
      var qs := ps[..|ps| - 1];
      EntrySent(m, qs, e);
      if k :| 0 <= k < |qs| && e in Entries(m, qs[k]) { assert qs[k] == ps[k]; }
      if k :| 0 <= k < |ps| && e in Entries(m, ps[k]) { assert k < |qs| ==> qs[k] == ps[k]; }
    }
  }

  lemma {:induction false} CommandsConcat(m: Mem, ps: seq<Part>, qs: seq<Part>)
    requires AllOk(m, ps) && AllOk(m, qs)
    ensures AllOk(m, ps + qs) && AllCommands(m, ps + qs) == AllCommands(m, ps) + AllCommands(m, qs)
    decreases |qs|
  {
    hide PartOk, PartCommands;
    assert forall k :: 0 <= k < |ps + qs| ==> PartOk(m, (ps + qs)[k]);
    if |qs| == 0 {
      assert ps + qs == ps;
    } else {
      assert (ps + qs)[..|ps + qs| - 1] == ps + qs[..|qs| - 1];
      CommandsConcat(m, ps, qs[..|qs| - 1]);
    }
  }
}
