/** Which entries of the table a call of SendMem sends, read off its arguments and the table, and what taking them over means field by field. */
module SentEntries {
  import opened Bytes
  import opened Table
  import opened TableProofs
  import opened Replication

  ghost predicate RegAt(t: seq<Reg>, x: word, j: nat) { j < |t| && !t[j].empty && t[j].adress == x }

  ghost predicate CellAt(t: seq<Cell>, x: word, j: nat) { j < |t| && !t[j].empty && t[j].adress == x }

  /** A start that is known: an address of the table, or 0 for its beginning. */
  ghost predicate Start(a: seq<word>, from: word) { from == 0 || from in a }

  /**
   The entry is sent by a call with this memtype and range: 0x30 is everything, 0x31 to 0x39 one kind each. Discrete inputs are
   read until a value, not an address, exceeds the end; a header of everything is not sent if the first stands at address 0,
   one header is that of the first register for address 0; user lists are left out if the buffer is full before their last entry.
   */
  ghost predicate Named(m: Mem, memtype: byte, from: word, to: word, e: Entry)
    requires |m.regs| > 0
  {
    match e
    case Info1 => (memtype == 0x30 || memtype == 0x31) && |m.info1| > 0
    case Info2 => (memtype == 0x30 || memtype == 0x32) && |m.info2| > 0
    case RegValue(x) =>
      (memtype == 0x30 || memtype == 0x33) && Start(RegAdresses(m.regs), from) && from <= x <= to && exists j: nat :: RegAt(m.regs, x, j)
    case CoilValue(x) =>
      (memtype == 0x30 || memtype == 0x34) && Start(CellAdresses(m.coils), from) && from <= x <= to && exists j: nat :: CellAt(m.coils, x, j)
    case DiscValue(x) =>
      && (memtype == 0x30 || memtype == 0x35) && Start(CellAdresses(m.discs), from) && from <= x
      && exists j: nat :: CellAt(m.discs, x, j) && ReadTo(m.discs, from, to, j)
    case RegHeader(x) =>
      && (memtype == 0x30 || (memtype == 0x36 && from < 0xFFFF && x == if from == 0 then m.regs[0].adress else from))
      && (memtype == 0x30 ==> !(m.regs[0].adress == 0 && m.regs[0].haveHeader && |m.regs[0].header| > 0))
      && exists j: nat :: RegAt(m.regs, x, j) && m.regs[j].haveHeader && |m.regs[j].header| > 0
    case RegOverride(x) =>
      (memtype == 0x30 || memtype == 0x37) && from <= x <= to && exists j: nat :: RegAt(m.regs, x, j) && m.regs[j].haveAlternate
    case UserRegValue(x) =>
      (memtype == 0x30 || memtype == 0x38) && from <= x <= to && x in UserAdresses(m.userRegs) && !Crowded(m.userRegs, from, to, 180)
    case UserCoilValue(x) =>
      (memtype == 0x30 || memtype == 0x39) && from <= x <= to && x in UserCoilAdresses(m.userCoils) && !CrowdedCoils(m.userCoils, from, to, 29)
  }

  // ----- part by part -----

  lemma ValuesNamed(m: Mem, from: word, to: word, e: Entry)
    requires MemOk(m)
    ensures e in Entries(m, Regs(from, to)) <==> e.RegValue? && Named(m, 0x33, from, to, e)
  {
    StartIs(RegAdresses(m.regs), from);
    hide StartIndex, Start, RegAdresses, CellsOk, UserRegsOk, UserCoilsOk, Ordered;
    if e.RegValue? {
      if j: nat :| RegAt(m.regs, e.adress, j) && e in Entries(m, Regs(from, to)) { assert m.regs[j].adress == e.adress; }
      if j :| 0 <= j < |m.regs| && m.regs[j].adress == e.adress && !m.regs[j].empty { assert RegAt(m.regs, e.adress, j); }
    }
  }

  lemma StartIs(a: seq<word>, from: word)
    requires |a| > 0
    ensures StartIndex(a, from) >= 0 <==> Start(a, from)
  {}

  lemma CoilsNamed(m: Mem, from: word, to: word, e: Entry)
    requires MemOk(m)
    ensures e in Entries(m, Coils(from, to)) <==> e.CoilValue? && Named(m, 0x34, from, to, e)
  {
    StartIs(CellAdresses(m.coils), from);
    hide StartIndex, Start, CellAdresses, RegsOk, UserRegsOk, UserCoilsOk, Ordered;
    if e.CoilValue? {
      if j :| 0 <= j < |m.coils| && m.coils[j].adress == e.adress && !m.coils[j].empty { assert CellAt(m.coils, e.adress, j); }
    }
  }

  /** The input in slot j is read: no value up to it, from the start on, exceeds the end. */
  ghost predicate ReadTo(t: seq<Cell>, from: word, to: word, j: nat)
    requires j < |t|
  {
    forall k :: 0 <= k <= j && from <= t[k].adress ==> t[k].value <= to
  }

  lemma DiscPlaces(t: seq<Cell>, from: word, to: word, j: nat)
    requires CellsOk(t, |t|) && j < |t| && StartIndex(CellAdresses(t), from) >= 0
    ensures var i := StartIndex(CellAdresses(t), from);
            i <= j < DiscEnd(t, i, to) <==> !t[j].empty && from <= t[j].adress && ReadTo(t, from, to, j)
  {
    var a, i := CellAdresses(t), StartIndex(CellAdresses(t), from);
    StopsThere(t, from, to);
    if !t[j].empty {
      forall k | 0 <= k < j ensures !t[k].empty { assert a[k] < a[j]; }
    }
    hide DiscEnd, StartIndex, EndIndex, CellAdresses;
    var d := DiscEnd(t, i, to);
    if i <= d <= j && !t[j].empty { assert From(t[d], from) && t[d].value > to; }
    if i <= j < d { assert From(t[j], from); }
    forall k | 0 <= k < |t| ensures From(t[k], from) <==> i <= k && !t[k].empty {}
  }

  lemma DiscsNamed(m: Mem, from: word, to: word, e: Entry)
    requires MemOk(m)
    ensures e in Entries(m, DiscInps(from, to)) <==> e.DiscValue? && Named(m, 0x35, from, to, e)
  {
    var t, a := m.discs, CellAdresses(m.discs);
    StartIs(a, from);
    if e.DiscValue? && StartIndex(a, from) >= 0 {
      forall j: nat | j < |t|
        ensures var i := StartIndex(a, from); i <= j < DiscEnd(t, i, to) <==> !t[j].empty && from <= t[j].adress && ReadTo(t, from, to, j)
      {
        DiscPlaces(t, from, to, j);
      }
      ReadPlaces(t, from, to, e.adress);
    }
    hide DiscEnd, StartIndex, DiscRange, CellAdresses, RegsOk, CellsOk, UserRegsOk, UserCoilsOk;
  }

  lemma ReadPlaces(t: seq<Cell>, from: word, to: word, x: word)
    requires |t| > 0 && StartIndex(CellAdresses(t), from) >= 0
    requires forall j: nat :: j < |t| ==>
      var i := StartIndex(CellAdresses(t), from); i <= j < DiscEnd(t, i, to) <==> !t[j].empty && from <= t[j].adress && ReadTo(t, from, to, j)
    ensures (exists k :: 0 <= k < |DiscRange(t, from, to)| && DiscRange(t, from, to)[k].adress == x)
            <==> from <= x && exists j: nat :: CellAt(t, x, j) && ReadTo(t, from, to, j)
  {
    var i := StartIndex(CellAdresses(t), from);
    hide DiscEnd, StartIndex, CellAdresses, ReadTo;
    var range := DiscRange(t, from, to);
    if k :| 0 <= k < |range| && range[k].adress == x { assert CellAt(t, x, i + k); }
    if j: nat :| from <= x && CellAt(t, x, j) && ReadTo(t, from, to, j) { assert range[j - i] == t[j]; }
  }

  lemma HeaderNamed(m: Mem, from: word, to: word, e: Entry)
    requires MemOk(m) && PartOk(m, OneHeader(from))
    ensures e in Entries(m, OneHeader(from)) <==> e.RegHeader? && Named(m, 0x36, from, to, e)
  {
    var a := RegAdresses(m.regs);
    StartIs(a, from);
    hide CellsOk, UserRegsOk, UserCoilsOk;
    if e.RegHeader? {
      if j: nat :| RegAt(m.regs, e.adress, j) { assert a[j] == e.adress; }
      if from < NO_ADRESS && StartIndex(a, from) >= 0 { assert RegAt(m.regs, m.regs[StartIndex(a, from)].adress, StartIndex(a, from)); }
    }
  }

  lemma HeadersNamed(m: Mem, from: word, to: word, e: Entry)
    requires MemOk(m)
    ensures e in Entries(m, AllHeaders) <==> e.RegHeader? && Named(m, 0x30, from, to, e)
  {
    hide CellsOk, UserRegsOk, UserCoilsOk, Ordered;
    if e.RegHeader? {
      if j :| 0 <= j < |m.regs| && m.regs[j].adress == e.adress && HasHeader(m.regs[j]) { assert RegAt(m.regs, e.adress, j); }
    }
  }

  lemma OverridesNamed(m: Mem, from: word, to: word, e: Entry)
    requires MemOk(m)
    ensures e in Entries(m, Users(from, to)) <==> e.RegOverride? && Named(m, 0x37, from, to, e)
  {
    hide CellsOk, UserRegsOk, UserCoilsOk, Ordered;
    if e.RegOverride? {
      if j :| 0 <= j < |m.regs| && m.regs[j].adress == e.adress && !m.regs[j].empty && m.regs[j].haveAlternate { assert RegAt(m.regs, e.adress, j); }
    }
  }

  lemma UsersNamed(m: Mem, from: word, to: word, e: Entry)
    requires MemOk(m)
    ensures e in Entries(m, UserRegs(from, to)) <==> e.UserRegValue? && Named(m, 0x38, from, to, e)
    ensures e in Entries(m, UserCoils(from, to)) <==> e.UserCoilValue? && Named(m, 0x39, from, to, e)
  {
    hide RegsOk, CellsOk, UserRegsOk, UserCoilsOk, Crowded, CrowdedCoils;
    if e.UserRegValue? && e.adress in UserAdresses(m.userRegs) {
      var j :| 0 <= j < |m.userRegs| && UserAdresses(m.userRegs)[j] == e.adress;
      assert m.userRegs[j].adress == e.adress;
    }
    if e.UserCoilValue? && e.adress in UserCoilAdresses(m.userCoils) {
      var j :| 0 <= j < |m.userCoils| && UserCoilAdresses(m.userCoils)[j] == e.adress;
      assert m.userCoils[j].adress == e.adress;
    }
  }

  lemma InfosNamed(m: Mem, from: word, to: word, e: Entry)
    requires MemOk(m)
    ensures e in Entries(m, DevInfo1) <==> e.Info1? && Named(m, 0x31, from, to, e)
    ensures e in Entries(m, DevInfo2) <==> e.Info2? && Named(m, 0x32, from, to, e)
  {}

  /** The part of the table one of the kinds names sends what the kind says. */
  lemma OnePartNamed(m: Mem, memtype: byte, from: word, to: word, e: Entry)
    requires MemOk(m) && 0x31 <= memtype <= 0x39 && AllOk(m, PartsOf(memtype, from, to))
    ensures |PartsOf(memtype, from, to)| == 1 && (e in Entries(m, PartsOf(memtype, from, to)[0]) <==> Named(m, memtype, from, to, e))
  {
    InfosNamed(m, from, to, e);
    ValuesNamed(m, from, to, e);
    CoilsNamed(m, from, to, e);
    DiscsNamed(m, from, to, e);
    if memtype == 0x36 {
      assert PartOk(m, PartsOf(memtype, from, to)[0]);
      HeaderNamed(m, from, to, e);
    }
    OverridesNamed(m, from, to, e);
    UsersNamed(m, from, to, e);
    hide Entries, MemOk, Named, PartOk;
    OtherKinds(m, memtype, from, to, e);
  }

  /** A kind names entries of its own kind only. */
  lemma OtherKinds(m: Mem, memtype: byte, from: word, to: word, e: Entry)
    requires |m.regs| > 0 && 0x31 <= memtype <= 0x39
    ensures Named(m, memtype, from, to, e) ==>
      match e
      case Info1 => memtype == 0x31
      case Info2 => memtype == 0x32
      case RegValue(_) => memtype == 0x33
      case CoilValue(_) => memtype == 0x34
      case DiscValue(_) => memtype == 0x35
      case RegHeader(_) => memtype == 0x36
      case RegOverride(_) => memtype == 0x37
      case UserRegValue(_) => memtype == 0x38
      case UserCoilValue(_) => memtype == 0x39
  {}

  /** Everything is what the nine kinds say, with all headers. */
  lemma AllNamed(m: Mem, from: word, to: word, e: Entry)
    requires MemOk(m)
    ensures var ps := PartsOf(0x30, from, to); (exists k :: 0 <= k < |ps| && e in Entries(m, ps[k])) <==> Named(m, 0x30, from, to, e)
  {
    InfosNamed(m, from, to, e);
    ValuesNamed(m, from, to, e);
    CoilsNamed(m, from, to, e);
    DiscsNamed(m, from, to, e);
    HeadersNamed(m, from, to, e);
    OverridesNamed(m, from, to, e);
    UsersNamed(m, from, to, e);
    AnyKind(m, from, to, e);
    hide Entries, MemOk, Named;
    var ps := PartsOf(0x30, from, to);
    assert ps[0] == DevInfo1 && ps[1] == DevInfo2 && ps[2] == Regs(from, to) && ps[3] == Coils(from, to) && ps[4] == DiscInps(from, to);
    assert ps[5] == AllHeaders && ps[6] == Users(from, to) && ps[7] == UserRegs(from, to) && ps[8] == UserCoils(from, to);
  }

  lemma AnyKind(m: Mem, from: word, to: word, e: Entry)
    requires |m.regs| > 0
    ensures Named(m, 0x30, from, to, e) <==>
      match e
      case Info1 => Named(m, 0x31, from, to, e)
      case Info2 => Named(m, 0x32, from, to, e)
      case RegValue(_) => Named(m, 0x33, from, to, e)
      case CoilValue(_) => Named(m, 0x34, from, to, e)
      case DiscValue(_) => Named(m, 0x35, from, to, e)
      case RegHeader(_) => Named(m, 0x30, from, to, e)
      case RegOverride(_) => Named(m, 0x37, from, to, e)
      case UserRegValue(_) => Named(m, 0x38, from, to, e)
      case UserCoilValue(_) => Named(m, 0x39, from, to, e)
  {}

  /** For every memtype: a call sends exactly the entries it names. */
  lemma SentIff(m: Mem, memtype: byte, from: word, to: word, e: Entry)
    requires MemOk(m) && AllOk(m, PartsOf(memtype, from, to))
    ensures e in AllEntries(m, PartsOf(memtype, from, to)) <==> Named(m, memtype, from, to, e)
  {
    EntrySent(m, PartsOf(memtype, from, to), e);
    hide Entries, MemOk, AllOk;
    if memtype == 0x30 {
      AllNamed(m, from, to, e);
    } else if 0x31 <= memtype <= 0x39 {
      OnePartNamed(m, memtype, from, to, e);
    } else {
      assert !Named(m, memtype, from, to, e);
    }
  }

  // ----- taken over, field by field -----

  /** The table r is s but for the entries es, which are as in m. */
  ghost predicate TakenOver(m: Mem, s: Mem, r: Mem, es: iset<Entry>) {
    && |r.regs| == |s.regs| == |m.regs| && |r.coils| == |s.coils| == |m.coils| && |r.discs| == |s.discs| == |m.discs|
    && |r.userRegs| == |s.userRegs| == |m.userRegs| && |r.userCoils| == |s.userCoils| == |m.userCoils|
    && r.info1 == (if Info1 in es then m.info1 else s.info1) && r.info2 == (if Info2 in es then m.info2 else s.info2)
    && (forall j :: 0 <= j < |r.regs| ==> RegTaken(m.regs[j], s.regs[j], r.regs[j], es))
    && (forall j :: 0 <= j < |r.coils| ==>
          r.coils[j] == s.coils[j].(value := if CoilValue(s.coils[j].adress) in es then m.coils[j].value else s.coils[j].value))
    && (forall j :: 0 <= j < |r.discs| ==>
          r.discs[j] == s.discs[j].(value := if DiscValue(s.discs[j].adress) in es then m.discs[j].value else s.discs[j].value))
    && (forall j :: 0 <= j < |r.userRegs| ==>
          r.userRegs[j] == s.userRegs[j].(value := if UserRegValue(s.userRegs[j].adress) in es then m.userRegs[j].value else s.userRegs[j].value))
    && (forall j :: 0 <= j < |r.userCoils| ==>
          r.userCoils[j] == s.userCoils[j].(value := if UserCoilValue(s.userCoils[j].adress) in es then m.userCoils[j].value else s.userCoils[j].value))
  }

  ghost predicate RegTaken(m: Reg, s: Reg, r: Reg, es: iset<Entry>) {
    && r.adress == s.adress && r.empty == s.empty && r.issigned == s.issigned
    && r.value == (if RegValue(s.adress) in es then m.value else s.value)
    && (r.haveAlternate, r.alternate) == (if RegOverride(s.adress) in es then (true, m.alternate) else (s.haveAlternate, s.alternate))
    && (r.haveHeader, r.header) == (if RegHeader(s.adress) in es then (true, m.header) else (s.haveHeader, s.header))
  }

  lemma MergedIs(m: Mem, s: Mem, es: iset<Entry>)
    requires SameShape(m, s)
    ensures TakenOver(m, s, Merged(m, s, es), es)
  {}
}
