/**
 The contents of the register table (memory.c, memory.h) as values, and what each operation of the
 table does to them. The class in Memory.dfy is proved against these functions.
 */
module Table {
  import opened Bytes

  const MAXREG: nat := 180
  const MAXCOILS: nat := 29
  const MAXDISCRETEINPUTS: nat := 3
  const MAXHEADERSIZE: nat := 30
  const MAX_DEV_INFO_LENGHT: nat := 100
  const MINUSERREG: word := 0x3400
  const MAXUSERREG: word := 0x8FFF
  const MINUSERCOIL: word := 0x0020
  const MAXUSERCOIL: word := 0x00FF

  /** The address of a slot that is not in use. */
  const NO_ADRESS: word := 0xFFFF

  datatype Reg = Reg(empty: bool, adress: word, issigned: bool, value: word,
                     haveAlternate: bool, alternate: word, haveHeader: bool, header: seq<byte>)
  datatype Cell = Cell(empty: bool, adress: word, value: byte)
  datatype UserReg = UserReg(adress: word, value: word, issigned: bool)
  datatype UserCoil = UserCoil(adress: word, value: byte)

  datatype Mem = Mem(regs: seq<Reg>, coils: seq<Cell>, discs: seq<Cell>,
                     userRegs: seq<UserReg>, userCoils: seq<UserCoil>, info1: seq<byte>, info2: seq<byte>)

  // ----- well-formed tables -----

  function RegAdresses(t: seq<Reg>): (a: seq<word>)
    ensures |a| == |t| && forall i :: 0 <= i < |t| ==> a[i] == t[i].adress
  {
    seq(|t|, i requires 0 <= i < |t| => t[i].adress)
  }

  function CellAdresses(t: seq<Cell>): (a: seq<word>)
    ensures |a| == |t| && forall i :: 0 <= i < |t| ==> a[i] == t[i].adress
  {
    seq(|t|, i requires 0 <= i < |t| => t[i].adress)
  }

  /** Strictly increasing, but for the unused slots at the end. */
  ghost predicate Ordered(a: seq<word>) {
    forall i, j :: 0 <= i < j < |a| ==> a[i] < a[j] || a[i] == a[j] == NO_ADRESS
  }

  ghost predicate RegsOk(t: seq<Reg>) {
    && |t| == MAXREG && Ordered(RegAdresses(t))
    && forall i :: 0 <= i < |t| ==> t[i].empty == (t[i].adress == NO_ADRESS) && |t[i].header| <= MAXHEADERSIZE
  }

  ghost predicate CellsOk(t: seq<Cell>, n: nat) {
    && |t| == n && Ordered(CellAdresses(t))
    && forall i :: 0 <= i < |t| ==> t[i].empty == (t[i].adress == NO_ADRESS)
  }

  ghost predicate UserRegsOk(t: seq<UserReg>) {
    && (forall i, j :: 0 <= i < j < |t| ==> t[i].adress < t[j].adress)
    && forall i :: 0 <= i < |t| ==> MINUSERREG <= t[i].adress <= MAXUSERREG
  }

  ghost predicate UserCoilsOk(t: seq<UserCoil>) {
    && (forall i, j :: 0 <= i < j < |t| ==> t[i].adress < t[j].adress)
    && forall i :: 0 <= i < |t| ==> MINUSERCOIL <= t[i].adress <= MAXUSERCOIL
  }

  ghost predicate MemOk(m: Mem) {
    && RegsOk(m.regs) && CellsOk(m.coils, MAXCOILS) && CellsOk(m.discs, MAXDISCRETEINPUTS)
    && UserRegsOk(m.userRegs) && UserCoilsOk(m.userCoils)
    && |m.info1| <= MAX_DEV_INFO_LENGHT && |m.info2| <= MAX_DEV_INFO_LENGHT
  }

  // ----- finding addresses -----

  /** The first place of an address, or -1. */
  function Find(a: seq<word>, adress: word): (i: int)
    ensures -1 <= i < |a|
    ensures i >= 0 ==> a[i] == adress && forall k :: 0 <= k < i ==> a[k] != adress
    ensures i < 0 ==> forall k :: 0 <= k < |a| ==> a[k] != adress
  {
    if |a| == 0 then -1 else if a[0] == adress then 0
    else var i := Find(a[1..], adress); if i < 0 then -1 else i + 1
  }

  /** GetRegStartIndex, GetCoilStartIndex and GetDiscStartIndex: address 0 stands for the first slot. */
  function StartIndex(a: seq<word>, adress: word): (i: int)
    requires |a| > 0
    ensures -1 <= i < |a|
  {
    if adress == 0 then 0 else Find(a, adress)
  }

  /** The first slot from i on that is not in use or lies beyond the address end. */
  function EndIndex(a: seq<word>, i: nat, end: word): (e: nat)
    requires i <= |a|
    ensures i <= e <= |a|
    ensures forall k :: i <= k < e ==> a[k] <= end && a[k] != NO_ADRESS
    ensures e < |a| ==> a[e] > end || a[e] == NO_ADRESS
    decreases |a| - i
  {
    if i == |a| || a[i] > end || a[i] == NO_ADRESS then i else EndIndex(a, i + 1, end)
  }

  lemma {:induction false} EndIndexIs(a: seq<word>, i: nat, end: word, e: nat)
    requires i <= e <= |a|
    requires forall k :: i <= k < e ==> a[k] <= end && a[k] != NO_ADRESS
    requires e < |a| ==> a[e] > end || a[e] == NO_ADRESS
    ensures EndIndex(a, i, end) == e
    decreases e - i
  {
    if i < e { EndIndexIs(a, i + 1, end, e); }
  }

  // ----- reading -----

  /** The value of a register, or the override when one is asked for and there. */
  function ReadReg(r: Reg, alternate: bool): word {
    if alternate && r.haveAlternate then r.alternate else r.value
  }

  function ReadRegs(t: seq<Reg>, alternate: bool): (ws: seq<word>)
    ensures |ws| == |t| && forall i :: 0 <= i < |t| ==> ws[i] == ReadReg(t[i], alternate)
  {
    seq(|t|, i requires 0 <= i < |t| => ReadReg(t[i], alternate))
  }

  function ReadCells(t: seq<Cell>): (bs: seq<byte>)
    ensures |bs| == |t| && forall i :: 0 <= i < |t| ==> bs[i] == t[i].value
  {
    seq(|t|, i requires 0 <= i < |t| => t[i].value)
  }

  /** What a range read copies out: the slots from the start address to the last one up to end; nothing if the start is unknown. */
  function RegRange(t: seq<Reg>, start: word, end: word): seq<Reg>
    requires |t| > 0
  {
    var a := RegAdresses(t);
    var i := StartIndex(a, start);
    if i < 0 then [] else t[i..EndIndex(a, i, end)]
  }

  function CoilRange(t: seq<Cell>, start: word, end: word): seq<Cell>
    requires |t| > 0
  {
    var a := CellAdresses(t);
    var i := StartIndex(a, start);
    if i < 0 then [] else t[i..EndIndex(a, i, end)]
  }

  /** GetDiscInp goes on while the values, not the addresses, are at most end. */
  function DiscEnd(t: seq<Cell>, i: nat, end: word): (e: nat)
    requires i <= |t|
    ensures i <= e <= |t|
    decreases |t| - i
  {
    if i == |t| || t[i].value > end || t[i].empty then i else DiscEnd(t, i + 1, end)
  }

  /** What GetDiscInp copies out. */
  function DiscRange(t: seq<Cell>, start: word, end: word): seq<Cell>
    requires |t| > 0
  {
    var i := StartIndex(CellAdresses(t), start);
    if i < 0 then [] else t[i..DiscEnd(t, i, end)]
  }

  /** The entries of a list that are to be kept, in order. */
  function Filtered<T>(t: seq<T>, keep: T -> bool): seq<T> {
    if |t| == 0 then [] else (if keep(t[0]) then [t[0]] else []) + Filtered(t[1..], keep)
  }

  function RegBetween(start: word, end: word): UserReg -> bool { (u: UserReg) => start <= u.adress <= end }

  function CoilBetween(start: word, end: word): UserCoil -> bool { (u: UserCoil) => start <= u.adress <= end }

  /** The user registers with an address in the range, in order. */
  function UserRange(t: seq<UserReg>, start: word, end: word): seq<UserReg> { Filtered(t, RegBetween(start, end)) }

  function UserCoilRange(t: seq<UserCoil>, start: word, end: word): seq<UserCoil> { Filtered(t, CoilBetween(start, end)) }

  lemma {:induction false} FilteredAppend<T>(s: seq<T>, u: T, keep: T -> bool)
    ensures Filtered(s + [u], keep) == Filtered(s, keep) + if keep(u) then [u] else []
  {
    if |s| == 0 {
      assert s + [u] == [u] && [u][1..] == [];
    } else {
      assert (s + [u])[1..] == s[1..] + [u];
      FilteredAppend(s[1..], u, keep);
    }
  }

  lemma FilteredNext<T>(t: seq<T>, k: nat, keep: T -> bool)
    requires k < |t|
    ensures Filtered(t[..k + 1], keep) == Filtered(t[..k], keep) + if keep(t[k]) then [t[k]] else []
  {
    assert t[..k + 1] == t[..k] + [t[k]];
    FilteredAppend(t[..k], t[k], keep);
  }

  lemma {:induction false} FilteredGrows<T>(t: seq<T>, i: nat, j: nat, keep: T -> bool)
    requires i <= j <= |t|
    ensures |Filtered(t[..i], keep)| <= |Filtered(t[..j], keep)|
    decreases j - i
  {
    if i < j {
      FilteredNext(t, i, keep);
      FilteredGrows(t, i + 1, j, keep);
    }
  }

  lemma {:induction false} FilteredNone<T>(t: seq<T>, keep: T -> bool)
    requires Filtered(t, keep) == []
    ensures forall j :: 0 <= j < |t| ==> !keep(t[j])
  {
    if |t| > 0 { FilteredNone(t[1..], keep); }
  }

  /** Entries to be kept that stand one behind the other are a slice. */
  lemma {:induction false} FilteredIsSlice<T>(t: seq<T>, keep: T -> bool, i: nat, e: nat)
    requires i <= e <= |t| && forall j :: 0 <= j < |t| ==> (i <= j < e <==> keep(t[j]))
    ensures Filtered(t, keep) == t[i..e]
  {
    if |t| > 0 {
      FilteredIsSlice(t[1..], keep, if i > 0 then i - 1 else 0, if e > 0 then e - 1 else 0);
      if i == 0 < e { assert t[0..e] == [t[0]] + t[1..][..e - 1]; }
    }
  }

  /** A buffer with room for so many is full before the end of the list is reached. */
  predicate Crowded(t: seq<UserReg>, start: word, end: word, room: nat) {
    |t| > 0 && |UserRange(t[..|t| - 1], start, end)| >= room
  }

  predicate CrowdedCoils(t: seq<UserCoil>, start: word, end: word, room: nat) {
    |t| > 0 && |UserCoilRange(t[..|t| - 1], start, end)| >= room
  }

  function UserValues(t: seq<UserReg>): (ws: seq<word>)
    ensures |ws| == |t| && forall i :: 0 <= i < |t| ==> ws[i] == t[i].value
  {
    seq(|t|, i requires 0 <= i < |t| => t[i].value)
  }

  function UserCoilValues(t: seq<UserCoil>): (bs: seq<byte>)
    ensures |bs| == |t| && forall i :: 0 <= i < |t| ==> bs[i] == t[i].value
  {
    seq(|t|, i requires 0 <= i < |t| => t[i].value)
  }

  // ----- writing -----

  function WithValue(r: Reg, w: word): Reg { r.(value := w) }

  function WithAlternate(r: Reg, w: word): Reg { r.(haveAlternate := true, alternate := w) }

  function WithHeader(r: Reg, h: seq<byte>): Reg { r.(haveHeader := true, header := h) }

  function WithoutAlternate(r: Reg): Reg { r.(haveAlternate := false, alternate := NO_ADRESS) }

  /** Values written to consecutive slots from i on; what would go past the end is not written. */
  function WriteValues(t: seq<Reg>, i: nat, ws: seq<word>): (r: seq<Reg>)
    ensures |r| == |t|
    ensures forall j :: 0 <= j < |t| ==> r[j] == if i <= j < i + |ws| then WithValue(t[j], ws[j - i]) else t[j]
  {
    seq(|t|, j requires 0 <= j < |t| => if i <= j < i + |ws| then WithValue(t[j], ws[j - i]) else t[j])
  }

  function WriteAlternates(t: seq<Reg>, i: nat, ws: seq<word>): (r: seq<Reg>)
    ensures |r| == |t|
    ensures forall j :: 0 <= j < |t| ==> r[j] == if i <= j < i + |ws| then WithAlternate(t[j], ws[j - i]) else t[j]
  {
    seq(|t|, j requires 0 <= j < |t| => if i <= j < i + |ws| then WithAlternate(t[j], ws[j - i]) else t[j])
  }

  function WithByte(c: Cell, b: byte): Cell { c.(value := b) }

  function WriteCells(t: seq<Cell>, i: nat, bs: seq<byte>): (r: seq<Cell>)
    ensures |r| == |t|
    ensures forall j :: 0 <= j < |t| ==> r[j] == if i <= j < i + |bs| then WithByte(t[j], bs[j - i]) else t[j]
  {
    seq(|t|, j requires 0 <= j < |t| => if i <= j < i + |bs| then WithByte(t[j], bs[j - i]) else t[j])
  }

  function WithUserValue(u: UserReg, w: word): UserReg { u.(value := w) }

  function WriteUserRegs(t: seq<UserReg>, i: nat, ws: seq<word>): (r: seq<UserReg>)
    ensures |r| == |t|
    ensures forall j :: 0 <= j < |t| ==> r[j] == if i <= j < i + |ws| then WithUserValue(t[j], ws[j - i]) else t[j]
  {
    seq(|t|, j requires 0 <= j < |t| => if i <= j < i + |ws| then WithUserValue(t[j], ws[j - i]) else t[j])
  }

  function WithUserByte(u: UserCoil, b: byte): UserCoil { u.(value := b) }

  function WriteUserCoils(t: seq<UserCoil>, i: nat, bs: seq<byte>): (r: seq<UserCoil>)
    ensures |r| == |t|
    ensures forall j :: 0 <= j < |t| ==> r[j] == if i <= j < i + |bs| then WithUserByte(t[j], bs[j - i]) else t[j]
  {
    seq(|t|, j requires 0 <= j < |t| => if i <= j < i + |bs| then WithUserByte(t[j], bs[j - i]) else t[j])
  }

  function ClearAlternates(t: seq<Reg>): (r: seq<Reg>)
    ensures |r| == |t| && forall j :: 0 <= j < |t| ==> r[j] == WithoutAlternate(t[j])
  {
    seq(|t|, j requires 0 <= j < |t| => WithoutAlternate(t[j]))
  }

  function UserAdresses(t: seq<UserReg>): (a: seq<word>)
    ensures |a| == |t| && forall i :: 0 <= i < |t| ==> a[i] == t[i].adress
  {
    seq(|t|, i requires 0 <= i < |t| => t[i].adress)
  }

  function UserCoilAdresses(t: seq<UserCoil>): (a: seq<word>)
    ensures |a| == |t| && forall i :: 0 <= i < |t| ==> a[i] == t[i].adress
  {
    seq(|t|, i requires 0 <= i < |t| => t[i].adress)
  }

  // ----- saving what came over the network (memory.c, lines 168-348) -----

  const E_DEVINFO1: byte := 0x31
  const E_DEVINFO2: byte := 0x32
  const E_REG: byte := 0x33
  const E_COIL: byte := 0x34
  const E_DISCINP: byte := 0x35
  const E_HEADER: byte := 0x36
  const E_USER: byte := 0x37
  const E_USERREG: byte := 0x38
  const E_USERCOIL: byte := 0x39
  const E_ALL: byte := 0x30

  /**
   The source writes below the arrays when the start address of these kinds is not in the table, so
   its callers must not pass one.
   */
  predicate SaveAllowed(m: Mem, kind: byte, adress: word)
    requires |m.regs| > 0 && |m.coils| > 0 && |m.discs| > 0
  {
    && (kind == E_REG || kind == E_USER || kind == E_HEADER ==> StartIndex(RegAdresses(m.regs), adress) >= 0)
    && (kind == E_COIL ==> StartIndex(CellAdresses(m.coils), adress) >= 0)
    && (kind == E_DISCINP ==> StartIndex(CellAdresses(m.discs), adress) >= 0)
  }

  /** The words of a register payload; the last one is completed with the byte behind it when the length is odd. */
  function Words(payload: seq<byte>, past: byte): seq<word> {
    if |payload| % 2 == 0 then Unpack(payload) else Unpack(payload + [past])
  }

  /** The table after a command was saved, and the number Save returns. */
  function Saved(m: Mem, kind: byte, adress: word, payload: seq<byte>, past: byte): (Mem, int)
    requires |m.regs| > 0 && |m.coils| > 0 && |m.discs| > 0 && SaveAllowed(m, kind, adress)
  {
    var n := |payload|;
    if kind == E_DEVINFO1 then
      if n > MAX_DEV_INFO_LENGHT then (m, -1) else (m.(info1 := payload), n)
    else if kind == E_DEVINFO2 then
      if n > MAX_DEV_INFO_LENGHT then (m, -1) else (m.(info2 := payload), n)
    else if kind == E_REG then
      var i, ws := StartIndex(RegAdresses(m.regs), adress), Words(payload, past);
      (m.(regs := WriteValues(m.regs, i, ws)), if i + |ws| > |m.regs| then -1 else |ws|)
    else if kind == E_USERREG then
      var i := Find(UserAdresses(m.userRegs), adress);
      if i < 0 then (m, 0)
      else if n / 2 > |m.userRegs| - i then (m, -1)
      else (m.(userRegs := WriteUserRegs(m.userRegs, i, Unpack(payload))), n / 2)
    else if kind == E_COIL then
      var i := StartIndex(CellAdresses(m.coils), adress);
      (m.(coils := WriteCells(m.coils, i, payload)), if i + n > |m.coils| then -1 else n)
    else if kind == E_USERCOIL then
      var i := Find(UserCoilAdresses(m.userCoils), adress);
      if i < 0 then (m, 0)
      else if n > |m.userCoils| - i then (m, -1)
      else (m.(userCoils := WriteUserCoils(m.userCoils, i, payload)), n)
    else if kind == E_DISCINP then
      var i := StartIndex(CellAdresses(m.discs), adress);
      (m.(discs := WriteCells(m.discs, i, payload)), if i + n > |m.discs| then -1 else n)
    else if kind == E_HEADER then
      if n > MAXHEADERSIZE then (m, -1)
      else
        var i := StartIndex(RegAdresses(m.regs), adress);
        (m.(regs := m.regs[i := WithHeader(m.regs[i], payload)]), 1)
    else if kind == E_USER then
      var i, ws := StartIndex(RegAdresses(m.regs), adress), Words(payload, past);
      (m.(regs := WriteAlternates(m.regs, i, ws)), if i + |ws| > |m.regs| then -1 else |ws|)
    else (m, 0)
  }

  lemma RegsAlike(t: seq<Reg>, r: seq<Reg>)
    requires RegsOk(t) && |r| == |t|
    requires forall i :: 0 <= i < |t| ==> r[i].adress == t[i].adress && r[i].empty == t[i].empty && |r[i].header| <= MAXHEADERSIZE
    ensures RegsOk(r) && RegAdresses(r) == RegAdresses(t)
  {
    assert RegAdresses(r) == RegAdresses(t);
  }

  lemma CellsAlike(t: seq<Cell>, r: seq<Cell>, n: nat)
    requires CellsOk(t, n) && |r| == |t|
    requires forall i :: 0 <= i < |t| ==> r[i].adress == t[i].adress && r[i].empty == t[i].empty
    ensures CellsOk(r, n) && CellAdresses(r) == CellAdresses(t)
  {
    assert CellAdresses(r) == CellAdresses(t);
  }

  lemma UserRegsAlike(t: seq<UserReg>, r: seq<UserReg>)
    requires UserRegsOk(t) && |r| == |t| && forall i :: 0 <= i < |t| ==> r[i].adress == t[i].adress
    ensures UserRegsOk(r) && UserAdresses(r) == UserAdresses(t)
  {}

  lemma UserCoilsAlike(t: seq<UserCoil>, r: seq<UserCoil>)
    requires UserCoilsOk(t) && |r| == |t| && forall i :: 0 <= i < |t| ==> r[i].adress == t[i].adress
    ensures UserCoilsOk(r) && UserCoilAdresses(r) == UserCoilAdresses(t)
  {}

  lemma SavedRegs(m: Mem, kind: byte, adress: word, payload: seq<byte>, past: byte)
    requires MemOk(m) && SaveAllowed(m, kind, adress)
    ensures var r := Saved(m, kind, adress, payload, past).0; RegsOk(r.regs) && RegAdresses(r.regs) == RegAdresses(m.regs)
  {
    var r := Saved(m, kind, adress, payload, past).0;
    hide Words, Unpack, StartIndex, Find, RegsOk, CellsOk, UserRegsOk, UserCoilsOk;
    if kind == E_REG || kind == E_HEADER || kind == E_USER {
      RegsAlike(m.regs, r.regs);
    } else {
      assert r.regs == m.regs;
    }
  }

  lemma SavedCells(m: Mem, kind: byte, adress: word, payload: seq<byte>, past: byte)
    requires MemOk(m) && SaveAllowed(m, kind, adress)
    ensures var r := Saved(m, kind, adress, payload, past).0;
            && CellsOk(r.coils, MAXCOILS) && CellAdresses(r.coils) == CellAdresses(m.coils)
            && CellsOk(r.discs, MAXDISCRETEINPUTS) && CellAdresses(r.discs) == CellAdresses(m.discs)
  {
    var r := Saved(m, kind, adress, payload, past).0;
    hide Words, Unpack, StartIndex, Find, CellsOk, RegsOk;
    CellsAlike(m.coils, r.coils, MAXCOILS);
    CellsAlike(m.discs, r.discs, MAXDISCRETEINPUTS);
  }

  lemma SavedUsers(m: Mem, kind: byte, adress: word, payload: seq<byte>, past: byte)
    requires MemOk(m) && SaveAllowed(m, kind, adress)
    ensures var r := Saved(m, kind, adress, payload, past).0;
            && UserRegsOk(r.userRegs) && UserAdresses(r.userRegs) == UserAdresses(m.userRegs)
            && UserCoilsOk(r.userCoils) && UserCoilAdresses(r.userCoils) == UserCoilAdresses(m.userCoils)
            && |r.info1| <= MAX_DEV_INFO_LENGHT && |r.info2| <= MAX_DEV_INFO_LENGHT
  {
    var r := Saved(m, kind, adress, payload, past).0;
    hide Words, Unpack, StartIndex, Find, RegsOk, CellsOk, UserRegsOk, UserCoilsOk;
    UserRegsAlike(m.userRegs, r.userRegs);
    UserCoilsAlike(m.userCoils, r.userCoils);
  }

  /** Saving keeps the table well-formed and no address changes. */
  lemma SavedOk(m: Mem, kind: byte, adress: word, payload: seq<byte>, past: byte)
    requires MemOk(m) && SaveAllowed(m, kind, adress)
    ensures MemOk(Saved(m, kind, adress, payload, past).0)
    ensures SameConfig(m, Saved(m, kind, adress, payload, past).0)
  {
    hide Saved, RegsOk, CellsOk, UserRegsOk, UserCoilsOk;
    SavedRegs(m, kind, adress, payload, past);
    SavedCells(m, kind, adress, payload, past);
    SavedUsers(m, kind, adress, payload, past);
  }

  // ----- responses of the charge controller (memory.c, lines 68-166) -----

  /** Slots from the start index on take one item each; the source does not look where they end. */
  predicate Fits(i: int, count: int, size: nat) { 0 <= i && (count > 0 ==> i + count <= size) }

  /** What the source demands of its callers: known start addresses, and data that fits the arrays. */
  predicate ResponseAllowed(m: Mem, resp: seq<byte>, lenght: nat, headerlenght: nat, req: seq<byte>)
    requires |m.regs| > 0 && |m.coils| > 0 && |m.discs| > 0
  {
    && |req| >= 4 && 4 <= lenght <= |resp| && headerlenght + 1 < |resp|
    && var adress := GetInt16(req, 2);
       var data := lenght - 2 - headerlenght;
       && (resp[1] == 0x2B ==> lenght - 2 <= MAX_DEV_INFO_LENGHT)
       && (resp[1] == 0x43 ==> headerlenght <= MAXHEADERSIZE && Fits(StartIndex(RegAdresses(m.regs), adress), (data + 1) / 2, |m.regs|))
       && (resp[1] == 0x02 ==> Fits(StartIndex(CellAdresses(m.discs), adress), data, |m.discs|))
       && (resp[1] == 0x01 ==> Fits(StartIndex(CellAdresses(m.coils), adress), data, |m.coils|))
       && (resp[1] == 0x03 || resp[1] == 0x04 ==> StartIndex(RegAdresses(m.regs), adress) >= 0)
  }

  /** The data of a response: behind the header, without the check value. */
  function DataOf(resp: seq<byte>, lenght: nat, headerlenght: nat): seq<byte>
    requires 2 <= lenght <= |resp|
  {
    if headerlenght <= lenght - 2 then resp[headerlenght..lenght - 2] else []
  }

  function SavedResponse(m: Mem, resp: seq<byte>, lenght: nat, headerlenght: nat, req: seq<byte>): (Mem, int)
    requires |m.regs| > 0 && |m.coils| > 0 && |m.discs| > 0 && ResponseAllowed(m, resp, lenght, headerlenght, req)
  {
    var adress := GetInt16(req, 2);
    var data := DataOf(resp, lenght, headerlenght);
    if resp[1] == 0x2B then
      if resp[3] == 1 then (m.(info1 := resp[..lenght - 2]), lenght - 1)
      else if resp[3] == 2 then (m.(info2 := resp[..lenght - 2]), lenght - 1)
      else (m, lenght - 1)
    else if resp[1] == 0x43 then
      var i := StartIndex(RegAdresses(m.regs), adress);
      var ws := Words(data, resp[lenght - 2]);
      var t := m.regs[i := WithHeader(m.regs[i], resp[..headerlenght])];
      (m.(regs := WriteValues(t, i, ws)), |ws| + 1)
    else if resp[1] == 0x02 then
      (m.(discs := WriteCells(m.discs, StartIndex(CellAdresses(m.discs), adress), data)), |data| + 1)
    else if resp[1] == 0x01 then
      (m.(coils := WriteCells(m.coils, StartIndex(CellAdresses(m.coils), adress), data)), |data| + 1)
    else if resp[1] == 0x03 || resp[1] == 0x04 then
      var i := StartIndex(RegAdresses(m.regs), adress);
      (m.(regs := m.regs[i := WithValue(m.regs[i], GetInt16(resp, headerlenght))]), 1)
    else (m, 0)
  }

  lemma SavedResponseOk(m: Mem, resp: seq<byte>, lenght: nat, headerlenght: nat, req: seq<byte>)
    requires MemOk(m) && ResponseAllowed(m, resp, lenght, headerlenght, req)
    ensures MemOk(SavedResponse(m, resp, lenght, headerlenght, req).0)
    ensures SameConfig(m, SavedResponse(m, resp, lenght, headerlenght, req).0)
  {
    var r := SavedResponse(m, resp, lenght, headerlenght, req).0;
    hide Words, Unpack, StartIndex, RegsOk, CellsOk, UserRegsOk, UserCoilsOk, GetInt16;
    if resp[1] == 0x43 || resp[1] == 0x03 || resp[1] == 0x04 {
      RegsAlike(m.regs, r.regs);
    } else if resp[1] == 0x01 {
      CellsAlike(m.coils, r.coils, MAXCOILS);
    } else if resp[1] == 0x02 {
      CellsAlike(m.discs, r.discs, MAXDISCRETEINPUTS);
    }
  }

  // ----- answering the display (memory.c, lines 350-480) -----

  datatype Range = Range(start: word, end: word) | Unknown

  /** The requests answered with a header and a run of registers. */
  function KnownRange(req: seq<byte>): Range
    requires |req| >= 6
  {
    if req[0] != 0x01 || req[1] != 0x43 || req[4] != 0x00 then Unknown
    else if req[2] == 0x30 && req[3] == 0x00 && req[5] == 0x0F then Range(0x3000, 0x300E)
    else if req[2] == 0x33 && req[3] == 0x02 && req[5] == 0x1B then Range(0x3302, 0x331E)
    else if req[2] == 0x31 && req[3] == 0x00 && req[5] == 0x76 then Range(0x3100, 0x311D)
    else if req[2] == 0x32 && req[3] == 0x00 && req[5] == 0x04 then Range(0x3200, 0x3202)
    else if req[2] == 0x90 && req[3] == 0x00 && req[5] == 0x76 then Range(0x9000, 0x9070)
    else if req[2] == 0x90 && req[3] == 0x13 && req[5] == 0x03 then Range(0x9013, 0x9015)
    else Unknown
  }

  /** Asking for one of the two device information blocks. */
  predicate AsksInfo(req: seq<byte>, kind: byte)
    requires |req| >= 5
  {
    req[0] == 0x01 && req[1] == 0x2B && req[2] == 0x0E && req[3] == kind && req[4] == 0x00
  }

  predicate AsksDiscrete(req: seq<byte>)
    requires |req| >= 6
  {
    req[0] == 0x01 && req[1] == 0x02 && req[2] == 0x20 && req[3] == 0x00 && req[4] == 0x00 && req[5] == 0x01
  }

  /** Switching the output off as with the button of the display is not passed on. */
  predicate SwitchesOff(req: seq<byte>)
    requires |req| >= 8
  {
    req[0] == 0x01 && req[1] == 0x0F && req[2] == 0x00 && req[3] == 0x02 && req[4] == 0x00 && req[5] == 0x01 && req[6] == 0x01 && req[7] == 0x00
  }

  /** The requests that are not left to the charge controller. */
  predicate Known(req: seq<byte>)
    requires |req| >= 8
  {
    AsksInfo(req, 1) || AsksInfo(req, 2) || KnownRange(req).Range? || AsksDiscrete(req) || SwitchesOff(req)
  }

  /** The answer to a request for the first discrete input; what -1 added to the three bytes leaves when it cannot be read. */
  function DiscreteAnswer(t: seq<Cell>, room: int): seq<byte>
    requires |t| > 0
  {
    if StartIndex(CellAdresses(t), 0x2000) < 0 || |DiscRange(t, 0x2000, 0x2000)| > room - 3 then [0x01, 0x02]
    else [0x01, 0x02, 0x01] + ReadCells(DiscRange(t, 0x2000, 0x2000))
  }

  predicate HasReply(m: Mem, r: Range) {
    && |m.regs| > 0 && r.Range? && StartIndex(RegAdresses(m.regs), r.start) >= 0
    && var reg := m.regs[StartIndex(RegAdresses(m.regs), r.start)];
       reg.haveHeader && |reg.header| > 0
  }

  /** Stored header and current registers of a range; nothing when the start address is not in the table or has no header. */
  function Reply(m: Mem, r: Range): seq<byte> {
    if !HasReply(m, r) then []
    else m.regs[StartIndex(RegAdresses(m.regs), r.start)].header + Pack(ReadRegs(RegRange(m.regs, r.start, r.end), true))
  }

  /** Two bytes are written as soon as there is room for one. */
  function RoundUp(n: nat): nat { n + n % 2 }

  /** What GenerateResponse returns for a range: -1 for an unknown start or a header that does not fit; a -1 from the registers takes one off. */
  function ReplyResult(m: Mem, r: Range, room: nat): int
    requires |m.regs| > 0 && r.Range?
  {
    var i := StartIndex(RegAdresses(m.regs), r.start);
    if i < 0 then -1
    else if !HasReply(m, r) then 0
    else if |m.regs[i].header| > room then -1
    else if 2 * |RegRange(m.regs, r.start, r.end)| > RoundUp(room - |m.regs[i].header|) then |m.regs[i].header| - 1
    else |Reply(m, r)|
  }

  /** Strictly increasing addresses need room: there are no more of them in a range than the range is wide. */
  lemma {:induction false} Pigeonhole(a: seq<word>, i: nat, e: nat)
    requires Ordered(a) && i < e <= |a| && forall k :: i <= k < e ==> a[k] != NO_ADRESS
    ensures a[i] + (e - i - 1) <= a[e - 1]
    decreases e - i
  {
    if i + 1 < e {
      Pigeonhole(a, i, e - 1);
      assert a[e - 2] < a[e - 1];
    }
  }

  lemma RangeCount(t: seq<Reg>, start: word, end: word)
    requires RegsOk(t) && start != 0 && start <= end
    ensures |RegRange(t, start, end)| <= end - start + 1
  {
    var a := RegAdresses(t);
    var i := StartIndex(a, start);
    if i >= 0 {
      var e := EndIndex(a, i, end);
      if i < e { Pigeonhole(a, i, e); }
    }
  }

  // ----- values from the text port: stoi either yields a 32-bit number or throws -----

  type int32 = x: int | -0x8000_0000 <= x < 0x8000_0000

  datatype Parsed = Number(v: int32) | NotANumber

  datatype Answer = Answer(v: int) | Nothing

  predicate IsUserReg(adress: word) { MINUSERREG <= adress <= MAXUSERREG }

  /** GetRegStartIndex for the text port, where address 0 is never found. */
  function RegIndex(t: seq<Reg>, adress: word): (i: int)
    requires |t| > 0
    ensures -1 <= i < |t|
  {
    if adress == 0 then -1 else StartIndex(RegAdresses(t), adress)
  }

  /** memory.c, lines 1986-2036. */
  function Put(m: Mem, value: Parsed, adress: word): (Mem, int)
    requires |m.regs| > 0
  {
    if IsUserReg(adress) then
      var i := Find(UserAdresses(m.userRegs), adress);
      if i < 0 || value.NotANumber? then (m, -1)
      else (m.(userRegs := m.userRegs[i := WithUserValue(m.userRegs[i], Wrap16(value.v))]), 1)
    else
      var n := RegIndex(m.regs, adress);
      if n < 0 || value.NotANumber? then (m, -1)
      else (m.(regs := m.regs[n := WithAlternate(m.regs[n], Wrap16(value.v))]), 1)
  }

  /** memory.c, lines 1748-1835, without the conversion to text. */
  function Get(m: Mem, adress: word, orig: bool): Answer
    requires |m.regs| > 0
  {
    if IsUserReg(adress) then
      var i := Find(UserAdresses(m.userRegs), adress);
      if i < 0 then Nothing
      else Answer(if m.userRegs[i].issigned then Signed16(m.userRegs[i].value) else m.userRegs[i].value)
    else
      var n := RegIndex(m.regs, adress);
      if n < 0 then Nothing
      else
        var w := ReadReg(m.regs[n], !orig);
        Answer(if m.regs[n].issigned then Signed16(w) else w)
  }

  /** A 16-bit pattern read as a signed number. */
  function Signed16(w: word): int { if w < 0x8000 then w as int else w as int - 0x1_0000 }

  /** MODBUS_SET_INT32_TO_INT16 on the 32-bit pattern of v. */
  function HighWord(v: int): word { Wrap32(v) / 0x1_0000 }

  function LowWord(v: int): word { Wrap16(v) }

  function Wrap32(v: int): (r: int)
    ensures 0 <= r < 0x1_0000_0000
  {
    v % 0x1_0000_0000
  }

  /** The 32-bit pattern u read as a signed number. */
  function Signed32(u: int): int { if u < 0x8000_0000 then u else u - 0x1_0000_0000 }

  /** memory.c, lines 2038-2108: the low word goes to adress, the high word to the slot after it. */
  function Put32(m: Mem, value: Parsed, adress: word): (Mem, int)
    requires |m.regs| > 0
  {
    if IsUserReg(adress) then
      var i := Find(UserAdresses(m.userRegs), adress);
      if i < 0 || i + 1 >= |m.userRegs| || value.NotANumber? then (m, -1)
      else
        var t := m.userRegs[i := WithUserValue(m.userRegs[i], LowWord(value.v))];
        (m.(userRegs := t[i + 1 := WithUserValue(t[i + 1], HighWord(value.v))]), 1)
    else
      var n := RegIndex(m.regs, adress);
      if n < 0 || StartIndex(RegAdresses(m.regs), Wrap16(adress + 1)) < 0 || n + 1 >= |m.regs| || value.NotANumber? then (m, -1)
      else
        var t := m.regs[n := WithAlternate(m.regs[n], LowWord(value.v))];
        (m.(regs := t[n + 1 := WithAlternate(t[n + 1], HighWord(value.v))]), 1)
  }

  /** memory.c, lines 1872-1983, without the conversion to text. */
  function Get32(m: Mem, adress: word, orig: bool): Answer
    requires |m.regs| > 0
  {
    if IsUserReg(adress) then
      var lo, hi := Find(UserAdresses(m.userRegs), adress), Find(UserAdresses(m.userRegs), adress + 1);
      if lo < 0 || hi < 0 then Nothing
      else
        var u := m.userRegs[hi].value * 0x1_0000 + m.userRegs[lo].value;
        Answer(if m.userRegs[hi].issigned then Signed32(u) else u)
    else
      var lo := RegIndex(m.regs, adress);
      var hi := if adress == 0 then -1 else StartIndex(RegAdresses(m.regs), Wrap16(adress + 1));
      if lo < 0 || hi < 0 then Nothing
      else
        var l, h := m.regs[lo], m.regs[hi];
        var alternate := l.haveAlternate && h.haveAlternate && !orig;
        var u := ReadReg(h, alternate) * 0x1_0000 + ReadReg(l, alternate);
        Answer(if l.issigned || h.issigned then Signed32(u) else u)
  }

  lemma PutOk(m: Mem, value: Parsed, adress: word)
    requires MemOk(m)
    ensures MemOk(Put(m, value, adress).0) && SameConfig(m, Put(m, value, adress).0)
  {
    var r := Put(m, value, adress).0;
    hide StartIndex, Find, RegsOk, CellsOk, UserRegsOk;
    RegsAlike(m.regs, r.regs);
    UserRegsAlike(m.userRegs, r.userRegs);
  }

  lemma Put32Ok(m: Mem, value: Parsed, adress: word)
    requires MemOk(m)
    ensures MemOk(Put32(m, value, adress).0) && SameConfig(m, Put32(m, value, adress).0)
  {
    var r := Put32(m, value, adress).0;
    hide StartIndex, Find, RegsOk, CellsOk, UserRegsOk, UserCoilsOk, Wrap16, HighWord, LowWord;
    if IsUserReg(adress) {
      UserRegsAlike(m.userRegs, r.userRegs);
    } else {
      RegsAlike(m.regs, r.regs);
    }
  }

  /** Two tables with the same addresses everywhere. */
  ghost predicate SameConfig(m: Mem, m': Mem) {
    && RegAdresses(m.regs) == RegAdresses(m'.regs)
    && CellAdresses(m.coils) == CellAdresses(m'.coils)
    && CellAdresses(m.discs) == CellAdresses(m'.discs)
    && UserAdresses(m.userRegs) == UserAdresses(m'.userRegs)
    && UserCoilAdresses(m.userCoils) == UserCoilAdresses(m'.userCoils)
  }
}
