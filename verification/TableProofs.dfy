/** What the register table promises its users: lemmas over the functions of Table.dfy. */
module TableProofs {
  import opened Bytes
  import opened Table

  // ----- range reads are filters -----

  function UsedBetween(lo: word, hi: word): Reg -> bool { (r: Reg) => lo <= r.adress <= hi && !r.empty }

  function CellBetween(lo: word, hi: word): Cell -> bool { (c: Cell) => lo <= c.adress <= hi && !c.empty }

  /** The registers in use with an address in the range, in table order. */
  function Within(t: seq<Reg>, lo: word, hi: word): seq<Reg> { Filtered(t, UsedBetween(lo, hi)) }

  /** The coils or inputs in use with an address in the range, in table order. */
  function WithinCells(t: seq<Cell>, lo: word, hi: word): seq<Cell> { Filtered(t, CellBetween(lo, hi)) }

  /** The copied slots are exactly the used ones with an address in the range. */
  lemma RangePlaces(a: seq<word>, start: word, end: word, j: nat)
    requires Ordered(a) && j < |a| && StartIndex(a, start) >= 0
    ensures var i := StartIndex(a, start); i <= j < EndIndex(a, i, end) <==> start <= a[j] <= end && a[j] != NO_ADRESS
  {
    var i := StartIndex(a, start);
    var e := EndIndex(a, i, end);
    if e < |a| && e <= j { assert a[e] <= a[j]; }
    if j < i { assert a[j] < a[i] || a[j] == NO_ADRESS; }
    if i < j { assert a[i] <= a[j]; }
  }

  /**
   For every start address in the table, or 0, and every end: GetRegister copies the registers with an
   address in the range, in address order, and no others; for any other start it copies nothing.
   */
  lemma RangeIsFilter(t: seq<Reg>, start: word, end: word)
    requires RegsOk(t)
    ensures RegRange(t, start, end) == if StartIndex(RegAdresses(t), start) >= 0 then Within(t, start, end) else []
  {
    var a := RegAdresses(t);
    var i := StartIndex(a, start);
    if i >= 0 {
      var e := EndIndex(a, i, end);
      forall j | 0 <= j < |t| ensures i <= j < e <==> start <= t[j].adress <= end && !t[j].empty {
        RangePlaces(a, start, end, j);
      }
      FilteredIsSlice(t, UsedBetween(start, end), i, e);
    }
  }

  /** A range read of coils is a filter as well. */
  lemma CoilRangeIsFilter(t: seq<Cell>, start: word, end: word)
    requires CellsOk(t, |t|) && |t| > 0
    ensures CoilRange(t, start, end) == if StartIndex(CellAdresses(t), start) >= 0 then WithinCells(t, start, end) else []
  {
    var a := CellAdresses(t);
    var i := StartIndex(a, start);
    if i >= 0 {
      var e := EndIndex(a, i, end);
      forall j | 0 <= j < |t| ensures i <= j < e <==> start <= t[j].adress <= end && !t[j].empty {
        RangePlaces(a, start, end, j);
      }
      FilteredIsSlice(t, CellBetween(start, end), i, e);
    }
  }

  // ----- discrete inputs, whose range read compares the end with the values -----

  lemma {:induction false} DiscEndIs(t: seq<Cell>, i: nat, end: word)
    requires i <= |t|
    ensures var d := DiscEnd(t, i, end);
            && (forall k :: i <= k < d ==> !t[k].empty && t[k].value <= end)
            && (d < |t| ==> t[d].empty || t[d].value > end)
    decreases |t| - i
  {
    if i < |t| { DiscEndIs(t, i + 1, end); }
  }

  /** An input in use from the start address on. */
  predicate From(c: Cell, start: word) { !c.empty && start <= c.adress }

  predicate Beyond(c: Cell, start: word, end: word) { From(c, start) && c.adress > end }

  /** The first input behind a range. */
  ghost predicate NextBehind(t: seq<Cell>, start: word, end: word, j: nat)
    requires j < |t|
  {
    Beyond(t[j], start, end) && forall k :: 0 <= k < |t| && Beyond(t[k], start, end) ==> t[j].adress <= t[k].adress
  }

  /**
   No input in the range has a value beyond the end address, and the first input behind the range, if there
   is one, has.
   */
  ghost predicate ValuesSuit(t: seq<Cell>, start: word, end: word) {
    && (forall j :: 0 <= j < |t| && From(t[j], start) && t[j].adress <= end ==> t[j].value <= end)
    && forall j :: 0 <= j < |t| && NextBehind(t, start, end, j) ==> t[j].value > end
  }

  /** A range read of discrete inputs gives the inputs with an address in the range if and only if the values suit. */
  lemma DiscRangeIsFilterIff(t: seq<Cell>, start: word, end: word)
    requires CellsOk(t, |t|) && |t| > 0 && StartIndex(CellAdresses(t), start) >= 0
    ensures DiscRange(t, start, end) == WithinCells(t, start, end) <==> ValuesSuit(t, start, end)
  {
    var i := StartIndex(CellAdresses(t), start);
    var d, e := DiscEnd(t, i, end), EndIndex(CellAdresses(t), i, end);
    CoilRangeIsFilter(t, start, end);
    StopsThere(t, start, end);
    hide StartIndex, DiscEnd, EndIndex, WithinCells, CellAdresses, CellsOk, ValuesSuit, Stops;
    SuitsIff(t, start, end, i, d, e);
    if t[i..d] == t[i..e] { assert |t[i..d]| == |t[i..e]|; }
  }

  lemma StopsThere(t: seq<Cell>, start: word, end: word)
    requires CellsOk(t, |t|) && |t| > 0 && StartIndex(CellAdresses(t), start) >= 0
    ensures var i := StartIndex(CellAdresses(t), start); Stops(t, start, end, i, DiscEnd(t, i, end), EndIndex(CellAdresses(t), i, end))
  {
    DiscEndIs(t, StartIndex(CellAdresses(t), start), end);
    PlacesFrom(t, start, end);
    hide StartIndex, DiscEnd, EndIndex, CellAdresses, CellsOk, From;
  }

  /** From slot i on, slots below e are in the range and slots from e on are not; d is where values stop the read. */
  ghost predicate Stops(t: seq<Cell>, start: word, end: word, i: nat, d: nat, e: nat) {
    && i <= d <= |t| && i <= e <= |t|
    && (forall j :: 0 <= j < |t| ==> (From(t[j], start) <==> i <= j && !t[j].empty))
    && (forall j :: i <= j < |t| && !t[j].empty ==> (t[j].adress <= end <==> j < e))
    && (forall j, k :: i <= j < k < |t| && !t[k].empty ==> !t[j].empty && t[j].adress < t[k].adress)
    && (forall j :: i <= j < e ==> !t[j].empty)
    && (forall k :: i <= k < d ==> !t[k].empty && t[k].value <= end)
    && (d < |t| ==> t[d].empty || t[d].value > end)
  }

  lemma SuitsIff(t: seq<Cell>, start: word, end: word, i: nat, d: nat, e: nat)
    requires Stops(t, start, end, i, d, e)
    ensures d == e <==> ValuesSuit(t, start, end)
  {
    FirstBehind(t, start, end, i, d, e);
    hide NextBehind;
    if e < |t| { assert NextBehind(t, start, end, e) <==> !t[e].empty; }
    if d < e { assert From(t[d], start) && t[d].adress <= end; }
  }

  /** The first input behind the range is the one in slot e. */
  lemma FirstBehind(t: seq<Cell>, start: word, end: word, i: nat, d: nat, e: nat)
    requires Stops(t, start, end, i, d, e)
    ensures forall j :: 0 <= j < |t| ==> (NextBehind(t, start, end, j) <==> j == e && !t[j].empty)
  {
    forall j | 0 <= j < |t| ensures NextBehind(t, start, end, j) <==> j == e && !t[j].empty {
      if Beyond(t[j], start, end) && j != e {
        assert e < j && !t[e].empty;
        assert Beyond(t[e], start, end);
      }
    }
  }

  /** The slots from the first one of a range on, in and behind it. */
  lemma PlacesFrom(t: seq<Cell>, start: word, end: word)
    requires CellsOk(t, |t|) && |t| > 0 && StartIndex(CellAdresses(t), start) >= 0
    ensures var i := StartIndex(CellAdresses(t), start);
            var e := EndIndex(CellAdresses(t), i, end);
            && (forall j :: 0 <= j < |t| ==> (From(t[j], start) <==> i <= j && !t[j].empty))
            && (forall j :: i <= j < |t| && !t[j].empty ==> (t[j].adress <= end <==> j < e))
            && (forall j, k :: i <= j < k < |t| && !t[k].empty ==> !t[j].empty && t[j].adress < t[k].adress)
            && (forall j :: i <= j < e ==> !t[j].empty)
  {
    var a := CellAdresses(t);
    forall j | 0 <= j < |t|
      ensures From(t[j], start) <==> StartIndex(a, start) <= j && !t[j].empty
      ensures StartIndex(a, start) <= j && !t[j].empty ==> (t[j].adress <= end <==> j < EndIndex(a, StartIndex(a, start), end))
    {
      RangePlaces(a, start, end, j);
      RangePlaces(a, start, 0xFFFE, j);
    }
    forall j, k | 0 <= j < k < |t| && !t[k].empty ensures !t[j].empty && t[j].adress < t[k].adress {
      assert a[j] < a[k];
    }
  }

  /** As every value is a byte: from an end of 0xFF on, if and only if no input in use lies beyond the end. */
  lemma DiscRangeToTheLast(t: seq<Cell>, start: word, end: word)
    requires CellsOk(t, |t|) && |t| > 0 && StartIndex(CellAdresses(t), start) >= 0 && end >= 0xFF
    ensures DiscRange(t, start, end) == WithinCells(t, start, end) <==> forall j :: 0 <= j < |t| && From(t[j], start) ==> t[j].adress <= end
  {
    DiscRangeIsFilterIff(t, start, end);
    hide DiscRange, WithinCells, StartIndex;
    var j := FirstBeyond(t, start, end, |t|);
    if j >= 0 { assert NextBehind(t, start, end, j) && t[j].value <= end; }
  }

  /**
   The request for the input at 0x2000 alone: the answer always says one byte follows, and one does if and
   only if no input in use has a greater address.
   */
  lemma DiscreteCountIff(t: seq<Cell>, room: int)
    requires CellsOk(t, |t|) && |t| > 0 && StartIndex(CellAdresses(t), 0x2000) >= 0 && room >= 3 + |t|
    ensures var answer := DiscreteAnswer(t, room);
            |answer| >= 4 && answer[2] == 1 && (|answer| == 3 + answer[2] <==> forall j :: 0 <= j < |t| && !t[j].empty ==> t[j].adress <= 0x2000)
  {
    var i := StartIndex(CellAdresses(t), 0x2000);
    var d, e := DiscEnd(t, i, 0x2000), EndIndex(CellAdresses(t), i, 0x2000);
    StopsThere(t, 0x2000, 0x2000);
    assert CellAdresses(t)[i] == 0x2000;
    hide StartIndex, DiscEnd, EndIndex, CellAdresses;
    assert From(t[i], 0x2000);
    assert e == i + 1 && d > i;
  }

  /** Of the first n inputs, the one with the least address beyond the end, or -1. */
  lemma {:induction false} FirstBeyond(t: seq<Cell>, start: word, end: word, n: nat) returns (j: int)
    requires n <= |t|
    ensures -1 <= j < n
    ensures j < 0 ==> forall k :: 0 <= k < n ==> !Beyond(t[k], start, end)
    ensures j >= 0 ==> Beyond(t[j], start, end) && forall k :: 0 <= k < n && Beyond(t[k], start, end) ==> t[j].adress <= t[k].adress
  {
    if n == 0 {
      return -1;
    }
    j := FirstBeyond(t, start, end, n - 1);
    if Beyond(t[n - 1], start, end) && (j < 0 || t[n - 1].adress < t[j].adress) {
      j := n - 1;
    }
  }

  /** The place of the first address of at least x. */
  function FirstFrom(a: seq<word>, x: int): (i: nat)
    ensures i <= |a|
    ensures forall j :: 0 <= j < i ==> a[j] < x
    ensures i < |a| ==> a[i] >= x
  {
    if |a| == 0 || a[0] >= x then 0 else FirstFrom(a[1..], x) + 1
  }

  /** Where the addresses from start to end begin and stop in a list. */
  function RunOf(a: seq<word>, start: word, end: word): (r: (nat, nat))
    ensures r.0 <= r.1 <= |a|
  {
    var i, e := FirstFrom(a, start), FirstFrom(a, end + 1);
    (i, if i <= e then e else i)
  }

  lemma RunPlaces(a: seq<word>, start: word, end: word, j: nat)
    requires (forall i, j :: 0 <= i < j < |a| ==> a[i] < a[j]) && j < |a|
    ensures RunOf(a, start, end).0 <= j < RunOf(a, start, end).1 <==> start <= a[j] <= end
  {
    hide FirstFrom;
  }

  /** The user registers in a range are one run of the list, with no gap between them. */
  lemma UserRangeIsRun(t: seq<UserReg>, start: word, end: word)
    requires UserRegsOk(t)
    ensures var (i, e) := RunOf(UserAdresses(t), start, end);
            && UserRange(t, start, end) == t[i..e]
            && forall j :: 0 <= j < |t| ==> (i <= j < e <==> start <= t[j].adress <= end)
  {
    var (i, e) := RunOf(UserAdresses(t), start, end);
    hide RunOf;
    forall j | 0 <= j < |t| ensures i <= j < e <==> start <= t[j].adress <= end { RunPlaces(UserAdresses(t), start, end, j); }
    FilteredIsSlice(t, RegBetween(start, end), i, e);
  }

  lemma UserCoilRangeIsRun(t: seq<UserCoil>, start: word, end: word)
    requires UserCoilsOk(t)
    ensures var (i, e) := RunOf(UserCoilAdresses(t), start, end);
            && UserCoilRange(t, start, end) == t[i..e]
            && forall j :: 0 <= j < |t| ==> (i <= j < e <==> start <= t[j].adress <= end)
  {
    var (i, e) := RunOf(UserCoilAdresses(t), start, end);
    hide RunOf;
    forall j | 0 <= j < |t| ensures i <= j < e <==> start <= t[j].adress <= end { RunPlaces(UserCoilAdresses(t), start, end, j); }
    FilteredIsSlice(t, CoilBetween(start, end), i, e);
  }

  /** What GetUserRegister read from one table, saved under the first address, puts exactly those values into another with the same user registers. */
  lemma UserRangeSavedBack(m: Mem, other: Mem, start: word, end: word, past: byte)
    requires MemOk(m) && MemOk(other) && UserAdresses(other.userRegs) == UserAdresses(m.userRegs)
    requires UserRange(m.userRegs, start, end) != []
    ensures var range := UserRange(m.userRegs, start, end);
            var (r, n) := Saved(other, E_USERREG, range[0].adress, Pack(UserValues(range)), past);
            && n == |range| && r == other.(userRegs := r.userRegs) && |r.userRegs| == |m.userRegs|
            && forall j :: 0 <= j < |m.userRegs| ==>
                 r.userRegs[j] == if start <= m.userRegs[j].adress <= end then WithUserValue(other.userRegs[j], m.userRegs[j].value)
                                  else other.userRegs[j]
  {
    var t := m.userRegs;
    UserRangeIsRun(t, start, end);
    var (i, e) := RunOf(UserAdresses(t), start, end);
    assert UserAdresses(other.userRegs)[i] == t[i].adress;
    UserPlace(other.userRegs, i);
    OtherSizes(m, other);
    hide UserRange, RunOf, MemOk, Find, Pack, Saved, UserAdresses;
    SavedUserRun(other, t[i].adress, i, UserValues(t[i..e]), past);
    WrittenUserValues(t, other.userRegs, i, e);
    hide WriteUserRegs, UserValues, WithUserValue;
  }

  lemma WrittenUserValues(t: seq<UserReg>, u: seq<UserReg>, i: nat, e: nat)
    requires i <= e <= |t| == |u|
    ensures forall j :: 0 <= j < |u| ==>
      WriteUserRegs(u, i, UserValues(t[i..e]))[j] == if i <= j < e then WithUserValue(u[j], t[j].value) else u[j]
  {}

  lemma OtherSizes(m: Mem, other: Mem)
    requires MemOk(m) && MemOk(other) && UserAdresses(other.userRegs) == UserAdresses(m.userRegs)
    ensures |other.regs| > 0 && |other.coils| > 0 && |other.discs| > 0 && |other.userRegs| == |m.userRegs|
  {
    assert |UserAdresses(other.userRegs)| == |UserAdresses(m.userRegs)|;
  }

  lemma SavedUserRun(s: Mem, adress: word, i: nat, ws: seq<word>, past: byte)
    requires |s.regs| > 0 && |s.coils| > 0 && |s.discs| > 0
    requires Find(UserAdresses(s.userRegs), adress) == i && i + |ws| <= |s.userRegs|
    ensures Saved(s, E_USERREG, adress, Pack(ws), past) == (s.(userRegs := WriteUserRegs(s.userRegs, i, ws)), |ws|)
  {
    UnpackPack(ws);
    hide Find, Pack, Unpack, WriteUserRegs;
  }

  /** The same for user coils. */
  lemma UserCoilRangeSavedBack(m: Mem, other: Mem, start: word, end: word, past: byte)
    requires MemOk(m) && MemOk(other) && UserCoilAdresses(other.userCoils) == UserCoilAdresses(m.userCoils)
    requires UserCoilRange(m.userCoils, start, end) != []
    ensures var range := UserCoilRange(m.userCoils, start, end);
            var (r, n) := Saved(other, E_USERCOIL, range[0].adress, UserCoilValues(range), past);
            && n == |range| && r == other.(userCoils := r.userCoils) && |r.userCoils| == |m.userCoils|
            && forall j :: 0 <= j < |m.userCoils| ==>
                 r.userCoils[j] == if start <= m.userCoils[j].adress <= end then WithUserByte(other.userCoils[j], m.userCoils[j].value)
                                   else other.userCoils[j]
  {
    var t := m.userCoils;
    UserCoilRangeIsRun(t, start, end);
    var (i, e) := RunOf(UserCoilAdresses(t), start, end);
    assert UserCoilAdresses(other.userCoils)[i] == t[i].adress;
    UserCoilPlace(other.userCoils, i);
    OtherCoilSizes(m, other);
    hide UserCoilRange, RunOf, MemOk, Find, Saved, UserCoilAdresses;
    SavedUserCoilRun(other, t[i].adress, i, UserCoilValues(t[i..e]), past);
    WrittenCoils(t, other.userCoils, i, e);
  }

  lemma WrittenCoils(t: seq<UserCoil>, u: seq<UserCoil>, i: nat, e: nat)
    requires i <= e <= |t| == |u|
    ensures forall j :: 0 <= j < |u| ==>
      WriteUserCoils(u, i, UserCoilValues(t[i..e]))[j] == if i <= j < e then WithUserByte(u[j], t[j].value) else u[j]
  {}

  lemma OtherCoilSizes(m: Mem, other: Mem)
    requires MemOk(m) && MemOk(other) && UserCoilAdresses(other.userCoils) == UserCoilAdresses(m.userCoils)
    ensures |other.regs| > 0 && |other.coils| > 0 && |other.discs| > 0 && |other.userCoils| == |m.userCoils|
  {
    assert |UserCoilAdresses(other.userCoils)| == |UserCoilAdresses(m.userCoils)|;
  }

  lemma SavedUserCoilRun(s: Mem, adress: word, i: nat, bs: seq<byte>, past: byte)
    requires |s.regs| > 0 && |s.coils| > 0 && |s.discs| > 0
    requires Find(UserCoilAdresses(s.userCoils), adress) == i && i + |bs| <= |s.userCoils|
    ensures Saved(s, E_USERCOIL, adress, bs, past) == (s.(userCoils := WriteUserCoils(s.userCoils, i, bs)), |bs|)
  {
    hide Find, WriteUserCoils;
  }

  lemma UserCoilPlace(t: seq<UserCoil>, i: nat)
    requires UserCoilsOk(t) && i < |t|
    ensures Find(UserCoilAdresses(t), t[i].adress) == i
  {
    assert UserCoilAdresses(t)[i] == t[i].adress;
  }

  /** User registers have different addresses. */
  lemma UserPlace(t: seq<UserReg>, i: nat)
    requires UserRegsOk(t) && i < |t|
    ensures Find(UserAdresses(t), t[i].adress) == i
  {
    assert UserAdresses(t)[i] == t[i].adress;
  }

  // ----- pairs of registers -----

  /** Strict order: if an address and the one after it are both in the table, they are neighbours. */
  lemma NextPlace(a: seq<word>, x: word)
    requires Ordered(a) && x + 1 < NO_ADRESS && Find(a, x) >= 0 && Find(a, x + 1) >= 0
    ensures Find(a, x + 1) == Find(a, x) + 1
  {
    var i, j := Find(a, x), Find(a, x + 1);
    var k := if i + 1 < |a| then i + 1 else i;
    assert a[k] >= x;
  }

  lemma HalvesOf(v: int32)
    ensures (HighWord(v) as int) * 0x1_0000 + LowWord(v) == Wrap32(v) && Signed32(Wrap32(v)) == v
  {
    assert v % 0x1_0000_0000 == if v < 0 then v + 0x1_0000_0000 else v;
    assert v % 0x1_0000 == Wrap32(v) % 0x1_0000;
  }

  /** Put32 on two neighbouring controller registers only sets their overrides. */
  lemma Put32Places(m: Mem, v: int32, adress: word)
    requires MemOk(m) && !IsUserReg(adress) && 0 < adress && adress + 1 < NO_ADRESS
    requires Find(RegAdresses(m.regs), adress) >= 0 && Find(RegAdresses(m.regs), adress + 1) >= 0
    ensures var (r, ok) := Put32(m, Number(v), adress);
            var i := Find(RegAdresses(m.regs), adress);
            && ok == 1 && i + 1 < MAXREG && Find(RegAdresses(m.regs), adress + 1) == i + 1
            && r.regs == m.regs[i := WithAlternate(m.regs[i], LowWord(v))][i + 1 := WithAlternate(m.regs[i + 1], HighWord(v))]
            && r == m.(regs := r.regs) && RegAdresses(r.regs) == RegAdresses(m.regs)
  {
    NextPlace(RegAdresses(m.regs), adress);
    var i := Find(RegAdresses(m.regs), adress);
    hide RegsOk, CellsOk, UserRegsOk, UserCoilsOk, HighWord, LowWord;
    var r := Put32(m, Number(v), adress).0;
    assert RegAdresses(r.regs) == RegAdresses(m.regs);
  }

  /** Two overrides set on neighbours, as every read of one register sees them. */
  lemma PairSeen(m: Mem, r: Mem, low: word, high: word, adress: word)
    requires MemOk(m) && !IsUserReg(adress) && 0 < adress && adress + 1 < NO_ADRESS
    requires var i := Find(RegAdresses(m.regs), adress);
             && 0 <= i && i + 1 < MAXREG && Find(RegAdresses(m.regs), adress + 1) == i + 1
             && r.regs == m.regs[i := WithAlternate(m.regs[i], low)][i + 1 := WithAlternate(m.regs[i + 1], high)]
             && r == m.(regs := r.regs) && RegAdresses(r.regs) == RegAdresses(m.regs)
    ensures forall x: word :: Get(r, x, true) == Get(m, x, true)
    ensures forall x: word :: x != adress && x != adress + 1 ==> Get(r, x, false) == Get(m, x, false)
  {
    hide MemOk, RegAdresses, Signed16;
  }

  /**
   A 32-bit number written to two neighbouring controller registers is read back: as it is when one of
   them is signed, modulo 2^32 otherwise. What the controller said before can still be read, and no
   third register is changed.
   */
  lemma Put32Get32(m: Mem, v: int32, adress: word)
    requires MemOk(m) && !IsUserReg(adress) && 0 < adress && adress + 1 < NO_ADRESS
    requires Find(RegAdresses(m.regs), adress) >= 0 && Find(RegAdresses(m.regs), adress + 1) >= 0
    ensures var (r, ok) := Put32(m, Number(v), adress);
            var i := Find(RegAdresses(m.regs), adress);
            && ok == 1 && i + 1 < MAXREG
            && Get32(r, adress, false) == Answer(if m.regs[i].issigned || m.regs[i + 1].issigned then v else Wrap32(v))
            && Get32(r, adress, true) == Get32(m, adress, true)
            && (forall x: word :: Get(r, x, true) == Get(m, x, true))
            && (forall x: word :: x != adress && x != adress + 1 ==> Get(r, x, false) == Get(m, x, false))
  {
    Put32Places(m, v, adress);
    HalvesOf(v);
    var r := Put32(m, Number(v), adress).0;
    PairSeen(m, r, LowWord(v), HighWord(v), adress);
    hide Put32, Get, HighWord, LowWord, Wrap32, Signed32, MemOk, RegAdresses;
  }

  /** Put32 on user registers writes two entries that lie side by side, whatever their addresses. */
  lemma PutUser32Places(m: Mem, v: int32, adress: word)
    requires MemOk(m) && IsUserReg(adress)
    requires Find(UserAdresses(m.userRegs), adress) >= 0 && Find(UserAdresses(m.userRegs), adress) + 1 < |m.userRegs|
    ensures var (r, ok) := Put32(m, Number(v), adress);
            var t, i := m.userRegs, Find(UserAdresses(m.userRegs), adress);
            && ok == 1 && UserAdresses(r.userRegs) == UserAdresses(t) && r == m.(userRegs := r.userRegs)
            && r.userRegs == t[i := WithUserValue(t[i], LowWord(v))][i + 1 := WithUserValue(t[i + 1], HighWord(v))]
            && Find(UserAdresses(t), t[i + 1].adress) == i + 1
  {
    var t, i := m.userRegs, Find(UserAdresses(m.userRegs), adress);
    UserPlace(t, i + 1);
    var r := Put32(m, Number(v), adress).0;
    assert UserAdresses(r.userRegs) == UserAdresses(m.userRegs);
    hide HighWord, LowWord, RegsOk, CellsOk, UserCoilsOk;
  }

  /**
   A pair of user registers: the high word goes into the next entry, whatever its address. The number
   can be read back if and only if the next address is configured; if it is not, that entry has lost
   its value all the same.
   */
  lemma PutUser32Get32(m: Mem, v: int32, adress: word)
    requires MemOk(m) && IsUserReg(adress)
    requires Find(UserAdresses(m.userRegs), adress) >= 0 && Find(UserAdresses(m.userRegs), adress) + 1 < |m.userRegs|
    ensures var (r, ok) := Put32(m, Number(v), adress);
            var next := m.userRegs[Find(UserAdresses(m.userRegs), adress) + 1];
            && ok == 1
            && Get32(r, adress, false) == (if next.adress == adress + 1 then Answer(if next.issigned then v else Wrap32(v)) else Nothing)
            && (next.adress == adress + 1 <==> Find(UserAdresses(m.userRegs), adress + 1) >= 0)
            && Get(r, next.adress, false) == Answer(if next.issigned then Signed16(HighWord(v)) else HighWord(v))
            && forall x: word, orig: bool :: x != adress && x != next.adress ==> Get(r, x, orig) == Get(m, x, orig)
  {
    UserNextPlace(m.userRegs, adress);
    PutUser32Places(m, v, adress);
    HalvesOf(v);
    var next := m.userRegs[Find(UserAdresses(m.userRegs), adress) + 1];
    assert IsUserReg(next.adress);
    var r := Put32(m, Number(v), adress).0;
    hide Put32, HighWord, LowWord, Wrap32, Signed32, Signed16, MemOk, UserAdresses, RegIndex;
  }

  /** With user registers at 0x4000 and 0x4002 a 32-bit number put at 0x4000 is lost, and its high word is now the value of 0x4002. */
  lemma PutUser32Lost(m: Mem, v: int32)
    requires MemOk(m) && |m.userRegs| == 2 && m.userRegs[0].adress == 0x4000 && m.userRegs[1].adress == 0x4002
    ensures var (r, ok) := Put32(m, Number(v), 0x4000);
            ok == 1 && Get32(r, 0x4000, false) == Nothing && r.userRegs[1].value == HighWord(v)
  {
    UserPlace(m.userRegs, 0);
    PutUser32Get32(m, v, 0x4000);
    PutUser32Places(m, v, 0x4000);
    hide Put32, Get32, Get, MemOk, UserRegsOk, UserAdresses, Find, HighWord;
  }

  lemma UserNextPlace(t: seq<UserReg>, x: word)
    requires UserRegsOk(t) && Find(UserAdresses(t), x) >= 0 && Find(UserAdresses(t), x) + 1 < |t| && x < NO_ADRESS
    ensures var i := Find(UserAdresses(t), x);
            && t[i + 1].adress > x
            && Find(UserAdresses(t), x + 1) == if t[i + 1].adress == x + 1 then i + 1 else -1
  {
    var i, j := Find(UserAdresses(t), x), Find(UserAdresses(t), x + 1);
    assert t[i].adress < t[i + 1].adress;
  }

  // ----- the stored answer of the charge controller -----

  /** A response to a known request with exactly the registers the table has in its range. */
  predicate Covers(m: Mem, resp: seq<byte>, lenght: nat, headerlenght: nat, req: seq<byte>) {
    && |m.regs| > 0 && |m.coils| > 0 && |m.discs| > 0
    && ResponseAllowed(m, resp, lenght, headerlenght, req) && resp[1] == 0x43
    && |req| >= 6 && KnownRange(req).Range? && headerlenght <= lenght - 2
    && lenght - 2 - headerlenght == 2 * |RegRange(m.regs, KnownRange(req).start, KnownRange(req).end)|
  }

  /** Values, but for the registers with an override. */
  function Overlaid(t: seq<Reg>, ws: seq<word>): (r: seq<word>)
    requires |ws| == |t|
    ensures |r| == |t| && forall k :: 0 <= k < |t| ==> r[k] == if t[k].haveAlternate then t[k].alternate else ws[k]
  {
    seq(|t|, k requires 0 <= k < |t| => if t[k].haveAlternate then t[k].alternate else ws[k])
  }

  lemma SavedHeaderAndValues(m: Mem, resp: seq<byte>, lenght: nat, headerlenght: nat, req: seq<byte>)
    requires MemOk(m) && Covers(m, resp, lenght, headerlenght, req)
    ensures var i := StartIndex(RegAdresses(m.regs), KnownRange(req).start);
            && 0 <= i < |m.regs|
            && SavedResponse(m, resp, lenght, headerlenght, req).0
                 == m.(regs := WriteValues(m.regs[i := WithHeader(m.regs[i], resp[..headerlenght])], i, Unpack(resp[headerlenght..lenght - 2])))
  {
    KnownStart(req);
    EvenWords(resp[headerlenght..lenght - 2], resp[lenght - 2]);
    hide StartIndex, RegRange, RegAdresses, WriteValues, Words, Unpack, KnownRange, MemOk, GetInt16, CellAdresses;
  }

  lemma KnownStart(req: seq<byte>)
    requires |req| >= 6 && KnownRange(req).Range?
    ensures KnownRange(req).start == GetInt16(req, 2) && 0 < KnownRange(req).start <= KnownRange(req).end < NO_ADRESS
  {}

  lemma EvenWords(payload: seq<byte>, past: byte)
    requires |payload| % 2 == 0
    ensures Words(payload, past) == Unpack(payload)
  {}

  lemma ReadAfterWrite(t: seq<Reg>, i: nat, h: seq<byte>, e: nat, ws: seq<word>)
    requires i < |t| && i <= e <= |t| && |ws| == e - i
    ensures var s := WriteValues(t[i := WithHeader(t[i], h)], i, ws);
            && s[i].header == h && RegAdresses(s) == RegAdresses(t)
            && ReadRegs(s[i..e], true) == Overlaid(t[i..e], ws)
  {
    var s := WriteValues(t[i := WithHeader(t[i], h)], i, ws);
    assert RegAdresses(s) == RegAdresses(t);
    assert ReadRegs(s[i..e], true) == Overlaid(t[i..e], ws);
  }

  lemma ReplyAfterSave(m: Mem, resp: seq<byte>, lenght: nat, headerlenght: nat, req: seq<byte>)
    requires MemOk(m) && Covers(m, resp, lenght, headerlenght, req)
    ensures var r := KnownRange(req);
            Reply(SavedResponse(m, resp, lenght, headerlenght, req).0, r)
              == if headerlenght == 0 then []
                 else resp[..headerlenght] + Pack(Overlaid(RegRange(m.regs, r.start, r.end), Unpack(resp[headerlenght..lenght - 2])))
  {
    var r := KnownRange(req);
    SavedHeaderAndValues(m, resp, lenght, headerlenght, req);
    var i := StartIndex(RegAdresses(m.regs), r.start);
    ReadAfterWrite(m.regs, i, resp[..headerlenght], EndIndex(RegAdresses(m.regs), i, r.end), Unpack(resp[headerlenght..lenght - 2]));
    hide SavedResponse, StartIndex, EndIndex, RegAdresses, WriteValues, Unpack, KnownRange, MemOk, Pack, Overlaid, ReadRegs, ResponseAllowed;
  }

  /** An answer, and the same header with the overrides put into the data. */
  lemma HeaderAndWords(answer: seq<byte>, h: nat, range: seq<Reg>)
    requires h <= |answer| && |answer| - h == 2 * |range|
    ensures ShowsOverrides(answer[..h] + Pack(Overlaid(range, Unpack(answer[h..]))), answer, h, range)
  {
    var ws := Overlaid(range, Unpack(answer[h..]));
    var reply := answer[..h] + Pack(ws);
    hide Pack, Unpack, GetInt16, OverridesRepeat, Overlaid;
    RepeatIff(answer, h, range);
    forall k | 0 <= k < |range|
      ensures GetInt16(reply, h + 2 * k) == if range[k].haveAlternate then range[k].alternate else GetInt16(answer, h + 2 * k)
    {
      ReplyWord(answer, h, ws, k);
    }
  }

  lemma RepeatIff(answer: seq<byte>, h: nat, range: seq<Reg>)
    requires h <= |answer| && |answer| - h == 2 * |range|
    ensures answer[..h] + Pack(Overlaid(range, Unpack(answer[h..]))) == answer <==> OverridesRepeat(answer, h, range)
  {
    var data := answer[h..];
    var ws := Overlaid(range, Unpack(data));
    var reply := answer[..h] + Pack(ws);
    PackUnpack(data);
    hide Pack, Unpack, GetInt16, Overlaid;
    if reply == answer {
      forall k | 0 <= k < |range| && range[k].haveAlternate ensures range[k].alternate == GetInt16(answer, h + 2 * k) {
        ReplyWord(answer, h, ws, k);
      }
    }
    if OverridesRepeat(answer, h, range) {
      forall k | 0 <= k < |range| ensures ws[k] == Unpack(data)[k] { ReplyWord(answer, h, ws, k); }
      assert ws == Unpack(data);
      assert reply == answer[..h] + data;
    }
  }

  lemma ReplyWord(answer: seq<byte>, h: nat, ws: seq<word>, k: nat)
    requires h <= |answer| && |answer| - h == 2 * |ws| && k < |ws|
    ensures GetInt16(answer[..h] + Pack(ws), h + 2 * k) == ws[k] && Unpack(answer[h..])[k] == GetInt16(answer, h + 2 * k)
  {
    hide Pack, Unpack, GetInt16;
    PackedWord(ws, k);
    Behind(answer[..h], Pack(ws), 2 * k);
    UnpackAt(answer[h..], k);
    Behind(answer[..h], answer[h..], 2 * k);
    assert answer[..h] + answer[h..] == answer;
  }

  lemma PackedWord(ws: seq<word>, k: nat)
    requires k < |ws|
    ensures GetInt16(Pack(ws), 2 * k) == ws[k]
  {
    PackAt(ws, k);
    JoinParts(ws[k]);
    hide Pack, Join, High, Low;
  }

  lemma Behind(a: seq<byte>, b: seq<byte>, i: nat)
    requires i + 1 < |b|
    ensures GetInt16(a + b, |a| + i) == GetInt16(b, i)
  {
    hide Join;
    assert (a + b)[|a| + i] == b[i] && (a + b)[|a| + i + 1] == b[i + 1];
  }

  /**
   The reply has the answer's length and header; its words are the overrides where there are any and
   the answer's words elsewhere; and it is the answer if and only if every override repeats it.
   */
  ghost predicate ShowsOverrides(reply: seq<byte>, answer: seq<byte>, h: nat, range: seq<Reg>)
    requires h <= |answer| && |answer| - h == 2 * |range|
  {
    && |reply| == |answer| && reply[..h] == answer[..h]
    && (forall k :: 0 <= k < |range| ==>
          GetInt16(reply, h + 2 * k) == if range[k].haveAlternate then range[k].alternate else GetInt16(answer, h + 2 * k))
    && (reply == answer <==> OverridesRepeat(answer, h, range))
  }

  /** Every override in the range has the answer's own value; so too if there is none. */
  ghost predicate OverridesRepeat(answer: seq<byte>, h: nat, range: seq<Reg>)
    requires h <= |answer| && |answer| - h == 2 * |range|
  {
    forall k :: 0 <= k < |range| && range[k].haveAlternate ==> range[k].alternate == GetInt16(answer, h + 2 * k)
  }

  /**
   After a response to a known request that covers its registers was saved, the stored answer is that
   response without its check value if and only if every override in the range repeats the
   controller's value, so whenever there is none. Otherwise it differs exactly at those registers. A
   response saved without a header is not answered at all.
   */
  lemma CachedReply(m: Mem, resp: seq<byte>, lenght: nat, headerlenght: nat, req: seq<byte>)
    requires MemOk(m) && Covers(m, resp, lenght, headerlenght, req)
    ensures var r := KnownRange(req);
            var reply := Reply(SavedResponse(m, resp, lenght, headerlenght, req).0, r);
            if headerlenght == 0 then reply == []
            else ShowsOverrides(reply, resp[..lenght - 2], headerlenght, RegRange(m.regs, r.start, r.end))
  {
    ReplyAfterSave(m, resp, lenght, headerlenght, req);
    var answer := resp[..lenght - 2];
    HeaderAndWords(answer, headerlenght, RegRange(m.regs, KnownRange(req).start, KnownRange(req).end));
    assert answer[..headerlenght] == resp[..headerlenght] && answer[headerlenght..] == resp[headerlenght..lenght - 2];
    hide SavedResponse, Reply, RegRange, KnownRange, MemOk, Overlaid, Pack, Unpack, ResponseAllowed, ShowsOverrides;
  }
}
