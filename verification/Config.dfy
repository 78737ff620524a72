/**
 Reading memory.conf (memory.c, lines 2318-2840): which user registers and coils a configuration
 adds. A line is given by what the program makes of it; a line without '=' that is no mark counts as
 the field of the last line that had one.
 */
module Config {
  import opened Bytes
  import opened Table

  datatype Section = NoSection | InRegister | InCoil | InSwitch

  datatype Text = Description | SwitchName | RegName | CoilName | OnCommand | OffCommand

  datatype Line =
    | OpenRegister | OpenCoil | OpenSwitch
    | CloseRegister | CloseCoil | CloseSwitch
    | Address(hex: Parsed)
    | TextField(name: Text, value: string)
    | IsSigned(value: string)
    | Other

  /** The local variables of the loop. */
  datatype Pending = Pending(section: Section, address: word, issigned: nat, description: string, oncommand: string,
                             offcommand: string, switchname: string, regname: string, coilname: string)

  const NOTHING_PENDING: Pending := Pending(NoSection, 0, 0, "", "", "", "", "", "")

  function TrimLeft(s: string): string { if |s| > 0 && s[0] == ' ' then TrimLeft(s[1..]) else s }

  function TextOf(p: Pending, name: Text): string {
    match name
    case Description => p.description
    case SwitchName => p.switchname
    case RegName => p.regname
    case CoilName => p.coilname
    case OnCommand => p.oncommand
    case OffCommand => p.offcommand
  }

  function WithText(p: Pending, name: Text, s: string): Pending {
    match name
    case Description => p.(description := s)
    case SwitchName => p.(switchname := s)
    case RegName => p.(regname := s)
    case CoilName => p.(coilname := s)
    case OnCommand => p.(oncommand := s)
    case OffCommand => p.(offcommand := s)
  }

  /** A field inside a section: only the first value of each counts, and an empty text does not count at all. */
  function TakeField(p: Pending, line: Line): Pending {
    if p.section == NoSection then p
    else
      match line
      case Address(hex) => if p.address > 0 then p else p.(address := if hex.Number? then Wrap16(hex.v) else 0)
      case TextField(name, value) => if TextOf(p, name) != "" || value == "" then p else WithText(p, name, TrimLeft(value))
      case IsSigned(value) => if p.issigned != 0 || value == "" then p else p.(issigned := if value == "true" then 2 else 1)
      case _ => p
  }

  function OpenSection(p: Pending, line: Line): Pending {
    if p.section != NoSection then p
    else
      match line
      case OpenRegister => p.(section := InRegister, address := 0, issigned := 0, description := "", regname := "")
      case OpenCoil => p.(section := InCoil, address := 0, issigned := 0, description := "", coilname := "")
      case OpenSwitch =>
        p.(section := InSwitch, address := 0, issigned := 0, description := "", oncommand := "", offcommand := "", switchname := "")
      case _ => p
  }

  /** The section that ends has everything it needs. */
  predicate Finished(p: Pending, line: Line) {
    match line
    case CloseRegister => p.section == InRegister && p.address > 0 && p.description != "" && p.regname != ""
    case CloseCoil => p.section == InCoil && p.address > 0 && p.description != "" && p.coilname != ""
    case CloseSwitch => p.section == InSwitch && p.switchname != "" && p.oncommand != "" && p.offcommand != "" && p.description != ""
    case _ => false
  }

  predicate Closes(p: Pending, line: Line) {
    (line.CloseRegister? && p.section == InRegister) || (line.CloseCoil? && p.section == InCoil) || (line.CloseSwitch? && p.section == InSwitch)
  }

  function NextPending(p: Pending, line: Line): Pending {
    if Finished(p, line) then NOTHING_PENDING
    else if Closes(p, line) then p.(section := NoSection)
    else if line.OpenRegister? || line.OpenCoil? || line.OpenSwitch? then OpenSection(p, line)
    else TakeField(p, line)
  }

  /** The user registers after a line: one more when a finished section names a new address in the allowed range. */
  function NextRegs(t: seq<UserReg>, p: Pending, line: Line): seq<UserReg> {
    if line.CloseRegister? && Finished(p, line) && MINUSERREG <= p.address <= MAXUSERREG && Find(UserAdresses(t), p.address) < 0
    then t + [UserReg(p.address, 0xFFFF, p.issigned == 2)] else t
  }

  function NextCoils(t: seq<UserCoil>, p: Pending, line: Line): seq<UserCoil> {
    if line.CloseCoil? && Finished(p, line) && MINUSERCOIL <= p.address <= MAXUSERCOIL && Find(UserCoilAdresses(t), p.address) < 0
    then t + [UserCoil(p.address, 0xFF)] else t
  }

  datatype Reading = Reading(pending: Pending, regs: seq<UserReg>, coils: seq<UserCoil>)

  function ReadLines(r: Reading, lines: seq<Line>): Reading
    decreases |lines|
  {
    if |lines| == 0 then r
    else
      var l := lines[0];
      ReadLines(Reading(NextPending(r.pending, l), NextRegs(r.regs, r.pending, l), NextCoils(r.coils, r.pending, l)), lines[1..])
  }

  // ----- std::sort by address, which is unique, so that there is only one sorted order -----

  function Insert<T>(t: seq<T>, u: T, key: T -> word): (r: seq<T>)
    ensures multiset(r) == multiset(t) + multiset{u}
  {
    if |t| == 0 || key(u) < key(t[0]) then [u] + t
    else
      assert t == [t[0]] + t[1..];
      [t[0]] + Insert(t[1..], u, key)
  }

  function Sort<T>(t: seq<T>, key: T -> word): (r: seq<T>)
    ensures multiset(r) == multiset(t)
  {
    if |t| == 0 then []
    else
      assert t == t[..|t| - 1] + [t[|t| - 1]];
      Insert(Sort(t[..|t| - 1], key), t[|t| - 1], key)
  }

  function RegKey(u: UserReg): word { u.adress }

  function CoilKey(u: UserCoil): word { u.adress }

  ghost predicate Increasing<T>(t: seq<T>, key: T -> word) { forall i, j :: 0 <= i < j < |t| ==> key(t[i]) < key(t[j]) }

  ghost predicate Distinct<T>(t: seq<T>, key: T -> word) { forall i, j :: 0 <= i < j < |t| ==> key(t[i]) != key(t[j]) }

  ghost predicate InRange<T>(t: seq<T>, key: T -> word, lo: word, hi: word) { forall i :: 0 <= i < |t| ==> lo <= key(t[i]) <= hi }

  lemma {:induction false} InsertIncreasing<T>(t: seq<T>, u: T, key: T -> word)
    requires Increasing(t, key) && forall i :: 0 <= i < |t| ==> key(t[i]) != key(u)
    ensures Increasing(Insert(t, u, key), key)
  {
    if |t| > 0 && key(u) > key(t[0]) {
      InsertIncreasing(t[1..], u, key);
      var r := Insert(t[1..], u, key);
      forall i | 0 <= i < |r| ensures key(t[0]) < key(r[i]) {
        assert r[i] in multiset(r);
        assert r[i] in multiset(t[1..]) || r[i] == u;
      }
    }
  }

  lemma {:induction false} SortIncreasing<T>(t: seq<T>, key: T -> word)
    requires Distinct(t, key)
    ensures Increasing(Sort(t, key), key)
  {
    if |t| > 0 {
      var s, u := t[..|t| - 1], t[|t| - 1];
      SortIncreasing(s, key);
      forall i | 0 <= i < |Sort(s, key)| ensures key(Sort(s, key)[i]) != key(u) {
        assert Sort(s, key)[i] in multiset(Sort(s, key));
        assert Sort(s, key)[i] in multiset(s);
      }
      InsertIncreasing(Sort(s, key), u, key);
    }
  }

  /** Sorting keeps exactly the same entries. */
  lemma SortKeeps<T>(t: seq<T>, key: T -> word, u: T)
    ensures u in Sort(t, key) <==> u in t
  {
    assert u in Sort(t, key) <==> u in multiset(Sort(t, key));
    assert u in t <==> u in multiset(t);
  }

  ghost predicate ReadingOk(r: Reading) {
    && Distinct(r.regs, RegKey) && InRange(r.regs, RegKey, MINUSERREG, MAXUSERREG)
    && Distinct(r.coils, CoilKey) && InRange(r.coils, CoilKey, MINUSERCOIL, MAXUSERCOIL)
  }

  /** While lines are read, addresses stay unique and in range, and nothing that was there is lost or changed. */
  lemma {:induction false} ReadLinesKeeps(r: Reading, lines: seq<Line>)
    requires ReadingOk(r)
    ensures ReadingOk(ReadLines(r, lines))
    ensures r.regs <= ReadLines(r, lines).regs && r.coils <= ReadLines(r, lines).coils
    decreases |lines|
  {
    if |lines| > 0 {
      var l := lines[0];
      hide Finished, NextPending;
      ReadLinesKeeps(Reading(NextPending(r.pending, l), NextRegs(r.regs, r.pending, l), NextCoils(r.coils, r.pending, l)), lines[1..]);
    }
  }

  /** The two lists after a whole file was read. */
  function Configured(regs: seq<UserReg>, coils: seq<UserCoil>, lines: seq<Line>): (seq<UserReg>, seq<UserCoil>) {
    var r := ReadLines(Reading(NOTHING_PENDING, regs, coils), lines);
    (Sort(r.regs, RegKey), Sort(r.coils, CoilKey))
  }

  /**
   Whatever a configuration file says, and however often one is read: the user registers and coils
   are strictly increasing by address and inside their ranges, and every entry from before is still
   there with its value.
   */
  lemma ConfiguredOk(regs: seq<UserReg>, coils: seq<UserCoil>, lines: seq<Line>)
    requires UserRegsOk(regs) && UserCoilsOk(coils)
    ensures UserRegsOk(Configured(regs, coils, lines).0) && UserCoilsOk(Configured(regs, coils, lines).1)
    ensures forall u :: u in regs ==> u in Configured(regs, coils, lines).0
    ensures forall u :: u in coils ==> u in Configured(regs, coils, lines).1
  {
    var start := Reading(NOTHING_PENDING, regs, coils);
    assert ReadingOk(start);
    hide ReadLines, Sort;
    var r := ReadLines(start, lines);
    ReadLinesKeeps(start, lines);
    SortIncreasing(r.regs, RegKey);
    SortIncreasing(r.coils, CoilKey);
    forall u ensures u in Sort(r.regs, RegKey) <==> u in r.regs { SortKeeps(r.regs, RegKey, u); }
    forall u ensures u in Sort(r.coils, CoilKey) <==> u in r.coils { SortKeeps(r.coils, CoilKey, u); }
    AsUserRegs(r.regs, Sort(r.regs, RegKey));
    AsUserCoils(r.coils, Sort(r.coils, CoilKey));
  }

  lemma AsUserRegs(t: seq<UserReg>, s: seq<UserReg>)
    requires InRange(t, RegKey, MINUSERREG, MAXUSERREG) && Increasing(s, RegKey) && forall u :: u in s ==> u in t
    ensures UserRegsOk(s)
  {
    forall i, j | 0 <= i < j < |s| ensures s[i].adress < s[j].adress { assert RegKey(s[i]) < RegKey(s[j]); }
    forall i | 0 <= i < |s| ensures MINUSERREG <= s[i].adress <= MAXUSERREG {
      assert s[i] in t;
      var k :| 0 <= k < |t| && t[k] == s[i];
      assert MINUSERREG <= RegKey(t[k]) <= MAXUSERREG;
    }
  }

  lemma AsUserCoils(t: seq<UserCoil>, s: seq<UserCoil>)
    requires InRange(t, CoilKey, MINUSERCOIL, MAXUSERCOIL) && Increasing(s, CoilKey) && forall u :: u in s ==> u in t
    ensures UserCoilsOk(s)
  {
    forall i, j | 0 <= i < j < |s| ensures s[i].adress < s[j].adress { assert CoilKey(s[i]) < CoilKey(s[j]); }
    forall i | 0 <= i < |s| ensures MINUSERCOIL <= s[i].adress <= MAXUSERCOIL {
      assert s[i] in t;
      var k :| 0 <= k < |t| && t[k] == s[i];
      assert MINUSERCOIL <= CoilKey(t[k]) <= MAXUSERCOIL;
    }
  }

  // ----- the tables clean() fills in -----

  /** count addresses in a row. */
  function Span(first: word, count: nat): (a: seq<word>)
    requires first + count <= NO_ADRESS
    ensures |a| == count && forall i :: 0 <= i < count ==> a[i] == first + i
  {
    seq(count, i requires 0 <= i < count => (first + i) as word)
  }

  /** memory.c, line 30, without the end mark. */
  function RegList(): seq<word> {
    Span(0x3000, 9) + Span(0x300E, 1) + Span(0x3100, 20) + Span(0x311A, 2) + Span(0x311D, 1) + Span(0x3200, 3)
    + Span(0x3300, 31) + Span(0x3330, 8) + Span(0x9000, 15) + Span(0x9013, 15) + Span(0x903D, 3) + Span(0x9042, 12)
    + Span(0x9063, 1) + Span(0x9065, 3) + Span(0x906A, 7)
  }

  const COIL_LIST: seq<word> := [0x0000, 0x0001, 0x0002, 0x0003, 0x0005, 0x0006, 0x0013, 0x0014]

  const DISCRETE_INPUT_LIST: seq<word> := [0x2000, 0x200C]

  predicate SignedList(adress: word) {
    adress == 0x3110 || adress == 0x3111 || adress == 0x3112 || adress == 0x311B || adress == 0x331B
    || adress == 0x331C || adress == 0x331D || adress == 0x331E || adress == 0x9018
  }

  ghost predicate StrictlyIncreasing(a: seq<word>) { forall i, j :: 0 <= i < j < |a| ==> a[i] < a[j] }

  lemma Appended(a: seq<word>, first: word, count: nat)
    requires StrictlyIncreasing(a) && first + count <= NO_ADRESS && (|a| > 0 ==> a[|a| - 1] < first)
    ensures StrictlyIncreasing(a + Span(first, count))
  {
    var s := a + Span(first, count);
    forall i, j | 0 <= i < j < |s| ensures s[i] < s[j] {
      assert i < |a| ==> a[i] <= a[|a| - 1];
    }
  }

  /** The address list of the controller is strictly increasing, and so are the two short ones. */
  lemma ListsIncreasing()
    ensures StrictlyIncreasing(RegList()) && |RegList()| == 131 && StrictlyIncreasing(COIL_LIST) && StrictlyIncreasing(DISCRETE_INPUT_LIST)
    ensures RegList()[130] == 0x9070
  {
    var a := Span(0x3000, 9);
    Appended(a, 0x300E, 1); a := a + Span(0x300E, 1);
    Appended(a, 0x3100, 20); a := a + Span(0x3100, 20);
    Appended(a, 0x311A, 2); a := a + Span(0x311A, 2);
    Appended(a, 0x311D, 1); a := a + Span(0x311D, 1);
    Appended(a, 0x3200, 3); a := a + Span(0x3200, 3);
    Appended(a, 0x3300, 31); a := a + Span(0x3300, 31);
    Appended(a, 0x3330, 8); a := a + Span(0x3330, 8);
    Appended(a, 0x9000, 15); a := a + Span(0x9000, 15);
    Appended(a, 0x9013, 15); a := a + Span(0x9013, 15);
    Appended(a, 0x903D, 3); a := a + Span(0x903D, 3);
    Appended(a, 0x9042, 12); a := a + Span(0x9042, 12);
    Appended(a, 0x9063, 1); a := a + Span(0x9063, 1);
    Appended(a, 0x9065, 3); a := a + Span(0x9065, 3);
    Appended(a, 0x906A, 7); a := a + Span(0x906A, 7);
    assert a == RegList();
  }
}
