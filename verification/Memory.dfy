/** The register table of memory.c: arrays and vectors changed in place, proved against Table.dfy. */
module Memory {
  import opened Bytes
  import opened Table
  import opened Config

  /** The byte behind the payload in its buffer. */
  function PastOf(buffer: seq<byte>, lenght: nat): byte { if lenght < |buffer| then buffer[lenght] else 0 }

  lemma WordsAt(buffer: seq<byte>, lenght: nat, k: nat)
    requires 2 * k < lenght && lenght + lenght % 2 <= |buffer|
    ensures var ws := Words(buffer[..lenght], PastOf(buffer, lenght)); k < |ws| && ws[k] == GetInt16(buffer, 2 * k)
  {
    var p := if lenght % 2 == 0 then buffer[..lenght] else buffer[..lenght] + [buffer[lenght]];
    UnpackAt(p, k);
  }

  lemma WordCount(buffer: seq<byte>, lenght: nat)
    requires lenght <= |buffer|
    ensures |Words(buffer[..lenght], PastOf(buffer, lenght))| == (lenght + 1) / 2
  {}

  class Memory {
    const Register: array<Reg>
    const Coil: array<Cell>
    const DiscreteInput: array<Cell>
    var UserRegister: seq<UserReg>
    var UserCoil: seq<UserCoil>
    var DeviceInfo1: seq<byte>
    var DeviceInfo2: seq<byte>

    ghost function View(): Mem
      reads this, Register, Coil, DiscreteInput
    {
      Mem(Register[..], Coil[..], DiscreteInput[..], UserRegister, UserCoil, DeviceInfo1, DeviceInfo2)
    }

    ghost predicate Valid()
      reads this, Register, Coil, DiscreteInput
    {
      Coil != DiscreteInput && MemOk(View())
    }

    // ----- setting up -----

    constructor ()
      ensures fresh(Register) && fresh(Coil) && fresh(DiscreteInput) && Shaped()
    {
      Register := new Reg[MAXREG](i => Reg(false, 0, false, 0, false, 0, false, []));
      Coil := new Cell[MAXCOILS](i => Cell(false, 0, 0));
      DiscreteInput := new Cell[MAXDISCRETEINPUTS](i => Cell(false, 0, 0));
      UserRegister, UserCoil, DeviceInfo1, DeviceInfo2 := [], [], [], [];
    }

    ghost predicate Shaped()
      reads this
    {
      && Register.Length == MAXREG && Coil.Length == MAXCOILS && DiscreteInput.Length == MAXDISCRETEINPUTS && Coil != DiscreteInput
      && |DeviceInfo1| <= MAX_DEV_INFO_LENGHT && |DeviceInfo2| <= MAX_DEV_INFO_LENGHT
    }

    /** memory.c, lines 494-593, with the lines of the configuration file, none if there is no file. */
    method Clean(lines: seq<Line>)
      requires Shaped()
      modifies this, Register, Coil, DiscreteInput
      ensures Valid()
      ensures View() == Cleaned(old(View()), lines)
    {
      ghost var m := View();
      CleanedOk(m, lines);
      ListsIncreasing();
      hide MemOk, RegList, Configured, CleanRegs, FreshCells;
      CleanRegister(RegList());
      CleanCells(DiscreteInput, DISCRETE_INPUT_LIST);
      CleanCells(Coil, COIL_LIST);
      DeviceInfo1 := seq(|DeviceInfo1|, i => 0xFF);
      DeviceInfo2 := seq(|DeviceInfo2|, i => 0xFF);
      UserRegister := [];
      UserCoil := [];
      ReadConfig(lines);
      assert View() == Cleaned(m, lines);
    }

    /** The loops of lines 500-528. */
    method CleanRegister(list: seq<word>)
      requires Register.Length == MAXREG && |list| <= MAXREG && forall k :: 0 <= k < |list| ==> list[k] != NO_ADRESS
      modifies Register
      ensures Register[..] == CleanRegs(old(Register[..]), list)
    {
      ghost var t := Register[..];
      var n := 0;
      while n < MAXREG
        invariant 0 <= n <= MAXREG
        invariant forall j :: 0 <= j < MAXREG ==> Register[j] == if j < n then CleanReg(t[j], NO_ADRESS) else t[j]
      {
        Register[n] := Reg(true, NO_ADRESS, Register[n].issigned, 0xFFFF, false, 0xFFFF, false, []);
        n := n + 1;
      }
      n := 0;
      while n < |list|
        invariant 0 <= n <= |list|
        invariant forall j :: 0 <= j < MAXREG ==> Register[j] == CleanReg(t[j], if j < n then list[j] else NO_ADRESS)
      {
        Register[n] := Register[n].(adress := list[n], empty := false, issigned := SignedList(list[n]));
        n := n + 1;
      }
    }

    /** The loops of lines 532-546 and 550-564. */
    static method CleanCells(cells: array<Cell>, list: seq<word>)
      requires |list| <= cells.Length
      modifies cells
      ensures cells[..] == FreshCells(list, cells.Length)
    {
      var n := 0;
      while n < cells.Length
        invariant 0 <= n <= cells.Length
        invariant forall j :: 0 <= j < n ==> cells[j] == Cell(true, NO_ADRESS, 0xFF)
      {
        cells[n] := Cell(true, NO_ADRESS, 0xFF);
        n := n + 1;
      }
      n := 0;
      while n < |list|
        invariant 0 <= n <= |list|
        invariant forall j :: 0 <= j < cells.Length ==> cells[j] == if j < n then Cell(false, list[j], 0xFF) else Cell(true, NO_ADRESS, 0xFF)
      {
        cells[n] := Cell(false, list[n], 0xFF);
        n := n + 1;
      }
    }

    /** memory.c, lines 2318-2840. */
    method ReadConfig(lines: seq<Line>)
      modifies this`UserRegister, this`UserCoil
      ensures (UserRegister, UserCoil) == Configured(old(UserRegister), old(UserCoil), lines)
    {
      hide Finished, NextPending;
      var p := NOTHING_PENDING;
      ghost var end := ReadLines(Reading(p, UserRegister, UserCoil), lines);
      var n := 0;
      assert lines[0..] == lines;
      while n < |lines|
        invariant 0 <= n <= |lines|
        invariant ReadLines(Reading(p, UserRegister, UserCoil), lines[n..]) == end
      {
        var line := lines[n];
        assert lines[n..][1..] == lines[n + 1..];
        if line.CloseRegister? && Finished(p, line) {
          if MINUSERREG <= p.address <= MAXUSERREG {
            var present := FindUserReg(p.address);
            if present < 0 {
              UserRegister := UserRegister + [UserReg(p.address, 0xFFFF, p.issigned == 2)];
            }
          }
        } else if line.CloseCoil? && Finished(p, line) {
          if MINUSERCOIL <= p.address <= MAXUSERCOIL {
            var present := Find(UserCoilAdresses(UserCoil), p.address);
            if present < 0 {
              UserCoil := UserCoil + [Table.UserCoil.UserCoil(p.address, 0xFF)];
            }
          }
        }
        p := NextPending(p, line);
        n := n + 1;
      }
      assert lines[n..] == [];
      UserRegister := Sort(UserRegister, RegKey);
      UserCoil := Sort(UserCoil, CoilKey);
    }

    // ----- finding -----

    method GetRegStartIndex(registeradress: word) returns (index: int)
      requires Valid()
      ensures index == StartIndex(RegAdresses(Register[..]), registeradress)
    {
      ghost var a := RegAdresses(Register[..]);
      if registeradress == 0 {
        return 0;
      }
      var n := 0;
      while n < MAXREG
        invariant 0 <= n <= MAXREG
        invariant forall k :: 0 <= k < n ==> a[k] != registeradress
      {
        if Register[n].adress == registeradress {
          return n;
        } else if Register[n].empty {
          assert forall k :: n <= k < MAXREG ==> a[k] == NO_ADRESS;
          break;
        }
        n := n + 1;
      }
      return -1;
    }

    method GetCoilStartIndex(coiladress: word) returns (index: int)
      requires Valid()
      ensures index == StartIndex(CellAdresses(Coil[..]), coiladress)
    {
      index := CellStartIndex(Coil, coiladress, MAXCOILS);
    }

    method GetDiscStartIndex(discadress: word) returns (index: int)
      requires Valid()
      ensures index == StartIndex(CellAdresses(DiscreteInput[..]), discadress)
    {
      index := CellStartIndex(DiscreteInput, discadress, MAXDISCRETEINPUTS);
    }

    /** The loop the two share, lines 637-651 and 658-672. */
    method CellStartIndex(cells: array<Cell>, adress: word, size: nat) returns (index: int)
      requires size > 0 && CellsOk(cells[..], size)
      ensures index == StartIndex(CellAdresses(cells[..]), adress)
    {
      ghost var a := CellAdresses(cells[..]);
      if adress == 0 {
        return 0;
      }
      var n := 0;
      while n < size
        invariant 0 <= n <= size
        invariant forall k :: 0 <= k < n ==> a[k] != adress
      {
        if cells[n].adress == adress {
          return n;
        } else if cells[n].empty {
          assert forall k :: n <= k < size ==> a[k] == NO_ADRESS;
          break;
        }
        n := n + 1;
      }
      return -1;
    }

    // ----- reading -----

    /** memory.c, lines 1446-1481. */
    method GetRegister(startadress: word, endadress: word, reg: array<word>, reglenght: nat, alternate: bool) returns (n: int)
      requires Valid() && reglenght <= reg.Length
      modifies reg
      ensures var range := RegRange(Register[..], startadress, endadress);
              if StartIndex(RegAdresses(Register[..]), startadress) < 0 || |range| > reglenght then n == -1
              else n == |range| && reg[..n] == ReadRegs(range, alternate)
    {
      var startindex := GetRegStartIndex(startadress);
      hide MemOk, RegsOk, StartIndex, RegAdresses, ReadRegs, EndIndex;
      if startindex < 0 {
        return -1;
      }
      n := CopyWords(startindex, endadress, reg, reglenght, alternate);
    }

    /** The loop of the word form. */
    method CopyWords(startindex: nat, endadress: word, reg: array<word>, reglenght: nat, alternate: bool) returns (n: int)
      requires RegsOk(Register[..]) && startindex <= Register.Length && reglenght <= reg.Length
      modifies reg
      ensures var range := Register[startindex..EndIndex(RegAdresses(Register[..]), startindex, endadress)];
              if |range| > reglenght then n == -1 else n == |range| && reg[..n] == ReadRegs(range, alternate)
    {
      hide Ordered, EndIndex;
      ghost var t := Register[..];
      ghost var e := EndIndex(RegAdresses(t), startindex, endadress);
      var index := startindex;
      n := 0;
      while index < MAXREG
        invariant startindex <= index <= e && n == index - startindex <= reglenght
        invariant forall k :: 0 <= k < n ==> reg[k] == ReadReg(t[startindex + k], alternate)
        invariant Register[..] == t
      {
        if Register[index].adress > endadress || Register[index].empty {
          EndIndexIs(RegAdresses(t), startindex, endadress, index);
          break;
        } else if n >= reglenght {
          return -1;
        }
        reg[n] := if alternate && Register[index].haveAlternate then Register[index].alternate else Register[index].value;
        n := n + 1;
        index := index + 1;
      }
      assert index == e;
      assert reg[..n] == ReadRegs(t[startindex..e], alternate);
    }

    /** memory.c, lines 1483-1518: the same as bytes, high byte first, from position offset of the buffer on. */
    method GetRegisterBytes(startadress: word, endadress: word, reg: array<byte>, offset: nat, reglenght: nat, alternate: bool)
      returns (n: int)
      requires Valid() && offset + reglenght <= reg.Length
      requires offset + 2 * |RegRange(Register[..], startadress, endadress)| <= reg.Length || offset + RoundUp(reglenght) <= reg.Length
      modifies reg
      ensures var range := RegRange(Register[..], startadress, endadress);
              if StartIndex(RegAdresses(Register[..]), startadress) < 0 || 2 * |range| > RoundUp(reglenght) then n == -1
              else n == 2 * |range| && reg[offset..offset + n] == Pack(ReadRegs(range, alternate))
      ensures reg[..offset] == old(reg[..offset])
    {
      var startindex := GetRegStartIndex(startadress);
      Sizes(View());
      ghost var range := RegRange(Register[..], startadress, endadress);
      hide MemOk, RegsOk, StartIndex, RegAdresses, ReadRegs, EndIndex, Pack, RegRange, RoundUp;
      if startindex < 0 {
        return -1;
      }
      RangeFrom(Register[..], startadress, endadress);
      n := CopyBytes(startindex, endadress, reg, offset, reglenght, alternate, range);
    }

    /** The loop of the byte form. */
    method CopyBytes(startindex: nat, endadress: word, reg: array<byte>, offset: nat, reglenght: nat, alternate: bool, ghost range: seq<Reg>)
      returns (n: int)
      requires RegsOk(Register[..]) && startindex <= Register.Length && offset + reglenght <= reg.Length
      requires range == Register[..][startindex..EndIndex(RegAdresses(Register[..]), startindex, endadress)]
      requires offset + 2 * |range| <= reg.Length || offset + RoundUp(reglenght) <= reg.Length
      modifies reg
      ensures if 2 * |range| > RoundUp(reglenght) then n == -1 else n == 2 * |range| && reg[offset..offset + n] == Pack(ReadRegs(range, alternate))
      ensures reg[..offset] == old(reg[..offset])
    {
      hide Ordered, EndIndex, Pack, ReadRegs, Int16Bytes;
      ghost var t := Register[..];
      ghost var e := EndIndex(RegAdresses(t), startindex, endadress);
      ghost var before := reg[..offset];
      PackNothing();
      var index := startindex;
      n := 0;
      while index < MAXREG
        invariant startindex <= index <= e && n == 2 * (index - startindex) <= RoundUp(reglenght)
        invariant reg[..offset + n] == before + Pack(ReadRegs(t[startindex..index], alternate))
        invariant Register[..] == t
      {
        if Register[index].adress > endadress || Register[index].empty {
          EndIndexIs(RegAdresses(t), startindex, endadress, index);
          break;
        } else if n >= reglenght {
          return -1;
        }
        var w := if alternate && Register[index].haveAlternate then Register[index].alternate else Register[index].value;
        OneMoreRead(t, startindex, index, alternate, before);
        SetInt16(reg, offset + n, w);
        n := n + 2;
        index := index + 1;
      }
    }

    /** memory.c, lines 1550-1578. */
    method GetCoil(startadress: word, endadress: word, coil: array<byte>, coillenght: nat) returns (n: int)
      requires Valid() && coillenght <= coil.Length
      modifies coil
      ensures var range := CoilRange(Coil[..], startadress, endadress);
              if StartIndex(CellAdresses(Coil[..]), startadress) < 0 || |range| > coillenght then n == -1
              else n == |range| && coil[..n] == ReadCells(range)
    {
      hide RegsOk, StartIndex, CellAdresses, ReadCells, EndIndex;
      var startindex := GetCoilStartIndex(startadress);
      if startindex < 0 {
        return -1;
      }
      n := CopyCells(startindex, endadress, coil, coillenght);
    }

    method CopyCells(startindex: nat, endadress: word, coil: array<byte>, coillenght: nat) returns (n: int)
      requires CellsOk(Coil[..], MAXCOILS) && startindex <= Coil.Length && coillenght <= coil.Length
      modifies coil
      ensures var range := Coil[startindex..EndIndex(CellAdresses(Coil[..]), startindex, endadress)];
              if |range| > coillenght then n == -1 else n == |range| && coil[..n] == ReadCells(range)
    {
      hide Ordered, EndIndex;
      ghost var t := Coil[..];
      ghost var e := EndIndex(CellAdresses(t), startindex, endadress);
      var index := startindex;
      n := 0;
      while index < MAXCOILS
        invariant startindex <= index <= e && n == index - startindex <= coillenght
        invariant forall k :: 0 <= k < n ==> coil[k] == t[startindex + k].value
        invariant Coil[..] == t
      {
        if Coil[index].adress > endadress || Coil[index].empty {
          EndIndexIs(CellAdresses(t), startindex, endadress, index);
          break;
        } else if n >= coillenght {
          return -1;
        }
        coil[n] := Coil[index].value;
        n := n + 1;
        index := index + 1;
      }
      assert index == e;
      assert coil[..n] == ReadCells(t[startindex..e]);
    }

    /** memory.c, lines 1615-1644: the end is compared with the values. */
    method GetDiscInp(startadress: word, endadress: word, discinp: array<byte>, discinplenght: nat) returns (n: int)
      requires Valid() && discinplenght <= discinp.Length
      modifies discinp
      ensures var range := DiscRange(DiscreteInput[..], startadress, endadress);
              if StartIndex(CellAdresses(DiscreteInput[..]), startadress) < 0 || |range| > discinplenght then n == -1
              else n == |range| && discinp[..n] == ReadCells(range)
    {
      hide RegsOk, StartIndex, CellAdresses, DiscEnd, ReadCells;
      var startindex := GetDiscStartIndex(startadress);
      if startindex < 0 {
        return -1;
      }
      n := CopyDiscInp(startindex, endadress, discinp, discinplenght);
    }

    method CopyDiscInp(startindex: nat, endadress: word, discinp: array<byte>, discinplenght: nat) returns (n: int)
      requires CellsOk(DiscreteInput[..], MAXDISCRETEINPUTS) && startindex <= DiscreteInput.Length && discinplenght <= discinp.Length
      modifies discinp
      ensures var range := DiscreteInput[..][startindex..DiscEnd(DiscreteInput[..], startindex, endadress)];
              if |range| > discinplenght then n == -1 else n == |range| && discinp[..n] == ReadCells(range)
    {
      hide Ordered;
      ghost var t := DiscreteInput[..];
      var index := startindex;
      n := 0;
      while index < MAXDISCRETEINPUTS
        invariant startindex <= index <= MAXDISCRETEINPUTS && n == index - startindex <= discinplenght
        invariant forall k :: 0 <= k < n ==> discinp[k] == t[startindex + k].value
        invariant DiscEnd(t, startindex, endadress) == DiscEnd(t, index, endadress)
        invariant DiscreteInput[..] == t
      {
        if DiscreteInput[index].value > endadress || DiscreteInput[index].empty {
          break;
        } else if n >= discinplenght {
          assert DiscEnd(t, index, endadress) > index;
          return -1;
        }
        discinp[n] := DiscreteInput[index].value;
        n := n + 1;
        index := index + 1;
      }
      assert DiscEnd(t, startindex, endadress) == index;
      assert discinp[..n] == ReadCells(t[startindex..index]);
    }

    /** memory.c, lines 1520-1548. The room is checked before it is known whether a register is in the range. */
    method GetUserRegister(startadress: word, endadress: word, reg: array<word>, reglenght: nat)
      returns (n: int, firstadress: word)
      requires reglenght <= reg.Length
      modifies reg
      ensures var range := UserRange(UserRegister, startadress, endadress);
              && n == (if Crowded(UserRegister, startadress, endadress, reglenght) then -1 else |range|)
              && (n >= 0 ==> n <= reglenght && reg[..n] == UserValues(range))
              && (n > 0 ==> firstadress == range[0].adress)
    {
      var beginningfound := false;
      n, firstadress := 0, 0;
      var index := 0;
      while index < |UserRegister|
        invariant 0 <= index <= |UserRegister| && n == |UserRange(UserRegister[..index], startadress, endadress)| <= index && n <= reglenght
        invariant reg[..n] == UserValues(UserRange(UserRegister[..index], startadress, endadress))
        invariant beginningfound == (n > 0)
        invariant n > 0 ==> firstadress == UserRange(UserRegister[..index], startadress, endadress)[0].adress
        invariant index == |UserRegister| ==> !Crowded(UserRegister, startadress, endadress, reglenght)
      {
        FilteredNext(UserRegister, index, RegBetween(startadress, endadress));
        FilteredGrows(UserRegister, index, |UserRegister| - 1, RegBetween(startadress, endadress));
        if n >= reglenght {
          return -1, firstadress;
        }
        if startadress <= UserRegister[index].adress <= endadress {
          if !beginningfound {
            firstadress := UserRegister[index].adress;
            beginningfound := true;
          }
          reg[n] := UserRegister[index].value;
          n := n + 1;
        }
        index := index + 1;
      }
      assert UserRegister[..index] == UserRegister;
    }

    /** memory.c, lines 1580-1611. */
    method GetUserCoil(startadress: word, endadress: word, coil: array<byte>, coillenght: nat)
      returns (n: int, firstadress: word)
      requires coillenght <= coil.Length
      modifies coil
      ensures var range := UserCoilRange(UserCoil, startadress, endadress);
              && n == (if CrowdedCoils(UserCoil, startadress, endadress, coillenght) then -1 else |range|)
              && (n >= 0 ==> n <= coillenght && coil[..n] == UserCoilValues(range))
              && (n > 0 ==> firstadress == range[0].adress)
    {
      var beginningfound := false;
      n, firstadress := 0, 0;
      var index := 0;
      while index < |UserCoil|
        invariant 0 <= index <= |UserCoil| && n == |UserCoilRange(UserCoil[..index], startadress, endadress)| <= index && n <= coillenght
        invariant coil[..n] == UserCoilValues(UserCoilRange(UserCoil[..index], startadress, endadress))
        invariant beginningfound == (n > 0)
        invariant n > 0 ==> firstadress == UserCoilRange(UserCoil[..index], startadress, endadress)[0].adress
        invariant index == |UserCoil| ==> !CrowdedCoils(UserCoil, startadress, endadress, coillenght)
      {
        FilteredNext(UserCoil, index, CoilBetween(startadress, endadress));
        FilteredGrows(UserCoil, index, |UserCoil| - 1, CoilBetween(startadress, endadress));
        if n >= coillenght {
          return -1, firstadress;
        }
        if startadress <= UserCoil[index].adress <= endadress {
          if !beginningfound {
            firstadress := UserCoil[index].adress;
            beginningfound := true;
          }
          coil[n] := UserCoil[index].value;
          n := n + 1;
        }
        index := index + 1;
      }
      assert UserCoil[..index] == UserCoil;
    }

    /**
     memory.c, lines 1646-1706: the header stored at an index, or, for index -1, at an address. Given
     an index, the source lets the copy run one byte past headerlenght.
     */
    method GetHeader(adress: word, index: int, header: array<byte>, headerlenght: nat) returns (n: int)
      requires Valid() && headerlenght <= header.Length
      requires index >= 0 ==> headerlenght >= MAXHEADERSIZE || headerlenght < header.Length
      modifies header
      ensures var i := if index > -1 then index else if adress < NO_ADRESS then StartIndex(RegAdresses(Register[..]), adress) else -1;
              if i < 0 || i >= MAXREG then n == -1
              else if (index > -1 && Register[i].empty) || !Register[i].haveHeader then n == 0
              else if |Register[i].header| > headerlenght + (if index > -1 then 1 else 0) then n == -1
              else n == |Register[i].header| && header[..n] == Register[i].header
    {
      hide StartIndex, RegAdresses, CellsOk;
      var i := index;
      if index > -1 {
        if index >= MAXREG {
          return -1;
        } else if Register[index].empty || !Register[index].haveHeader {
          return 0;
        }
      } else if adress < NO_ADRESS {
        i := GetRegStartIndex(adress);
        if i < 0 {
          return -1;
        } else if !Register[i].haveHeader {
          return 0;
        }
      } else {
        return -1;
      }
      ghost var reg := Register[i];
      var lenght := |Register[i].header|;
      n := 0;
      while n < lenght
        invariant 0 <= n <= lenght && n <= headerlenght + (if index > -1 then 1 else 0)
        invariant header[..n] == reg.header[..n] && Register[i] == reg
      {
        if if index > -1 then n > headerlenght else n >= headerlenght {
          return -1;
        }
        header[n] := Register[i].header[n];
        n := n + 1;
      }
    }

    /** memory.c, lines 1708-1745. */
    method GetDeviceInfo(kind: int, deviceinfo: array<byte>, deviceinfolenght: nat) returns (n: int)
      requires deviceinfolenght <= deviceinfo.Length
      modifies deviceinfo
      ensures kind != 1 && kind != 2 ==> n == -1
      ensures kind == 1 || kind == 2 ==>
        var info := if kind == 1 then DeviceInfo1 else DeviceInfo2;
        if |info| > deviceinfolenght then n == -1 else n == |info| && deviceinfo[..n] == info
    {
      if kind != 1 && kind != 2 {
        return -1;
      }
      var info := if kind == 1 then DeviceInfo1 else DeviceInfo2;
      n := 0;
      while n < |info|
        invariant 0 <= n <= |info| && n <= deviceinfolenght
        invariant deviceinfo[..n] == info[..n]
      {
        if n >= deviceinfolenght {
          return -1;
        }
        deviceinfo[n] := info[n];
        n := n + 1;
      }
    }

    /** memory.c, lines 595-608: the address in a slot, 0 for one that is not there. */
    method GetRegisterAdress(index: nat) returns (adress: word)
      requires Shaped()
      ensures adress == if index >= MAXREG then 0 else Register[index].adress
    {
      adress := if index >= MAXREG then 0 else Register[index].adress;
    }

    /** memory.c, lines 2297-2305. */
    method RegisterHaveAlternateValue(adress: word) returns (have: bool)
      requires Valid()
      ensures var i := StartIndex(RegAdresses(Register[..]), adress);
              have == (i >= 0 && Register[i].haveAlternate)
    {
      var idx := GetRegStartIndex(adress);
      have := idx >= 0 && Register[idx].haveAlternate;
    }

    // ----- saving -----

    /** memory.c, lines 168-348. */
    method Save(kind: byte, startadress: word, payloadlenght: nat, payload: seq<byte>) returns (result: int)
      requires Valid() && SaveAllowed(View(), kind, startadress)
      requires payloadlenght + payloadlenght % 2 <= |payload|
      modifies this, Register, Coil, DiscreteInput
      ensures Valid()
      ensures (View(), result) == Saved(old(View()), kind, startadress, payload[..payloadlenght], PastOf(payload, payloadlenght))
    {
      ghost var m := View();
      SavedOk(m, kind, startadress, payload[..payloadlenght], PastOf(payload, payloadlenght));
      Sizes(m);
      hide MemOk, RegAdresses, CellAdresses, UserAdresses, UserCoilAdresses, StartIndex, Find, Words, Unpack;
      hide WriteValues, WriteAlternates, WriteCells, WriteUserRegs, WriteUserCoils;
      result := 0;
      if kind == E_DEVINFO1 {
        if payloadlenght > MAX_DEV_INFO_LENGHT {
          return -1;
        }
        DeviceInfo1 := payload[..payloadlenght];
        return payloadlenght;
      } else if kind == E_DEVINFO2 {
        if payloadlenght > MAX_DEV_INFO_LENGHT {
          return -1;
        }
        DeviceInfo2 := payload[..payloadlenght];
        return payloadlenght;
      } else if kind == E_REG {
        var startindex := GetRegStartIndex(startadress);
        result := SaveWords(startindex, payloadlenght, payload, false);
      } else if kind == E_USERREG {
        result := SaveUserRegs(startadress, payloadlenght, payload);
      } else if kind == E_COIL {
        var coilindex := GetCoilStartIndex(startadress);
        result := SaveCells(Coil, coilindex, payloadlenght, payload);
      } else if kind == E_USERCOIL {
        result := SaveUserCoils(startadress, payloadlenght, payload);
      } else if kind == E_DISCINP {
        var discindex := GetDiscStartIndex(startadress);
        result := SaveCells(DiscreteInput, discindex, payloadlenght, payload);
      } else if kind == E_HEADER {
        if payloadlenght > MAXHEADERSIZE {
          return -1;
        }
        var startindex := GetRegStartIndex(startadress);
        Register[startindex] := WithHeader(Register[startindex], payload[..payloadlenght]);
        return 1;
      } else if kind == E_USER {
        var startindex := GetRegStartIndex(startadress);
        result := SaveWords(startindex, payloadlenght, payload, true);
      }
    }

    /** The loops of lines 209-217 and 333-342. */
    method SaveWords(startindex: nat, payloadlenght: nat, payload: seq<byte>, override: bool) returns (result: int)
      requires Register.Length == MAXREG && startindex < MAXREG
      requires payloadlenght + payloadlenght % 2 <= |payload|
      modifies Register
      ensures var ws := Words(payload[..payloadlenght], PastOf(payload, payloadlenght));
              && Register[..] == (if override then WriteAlternates(old(Register[..]), startindex, ws)
                                  else WriteValues(old(Register[..]), startindex, ws))
              && result == if startindex + |ws| > MAXREG then -1 else |ws|
    {
      hide Words;
      ghost var t := Register[..];
      ghost var ws := Words(payload[..payloadlenght], PastOf(payload, payloadlenght));
      ghost var want := if override then WriteAlternates(t, startindex, ws) else WriteValues(t, startindex, ws);
      WordCount(payload, payloadlenght);
      var n, m := 0, startindex;
      while n < payloadlenght
        invariant n == 2 * (m - startindex) <= payloadlenght + 1 && startindex <= m <= MAXREG
        invariant forall j :: 0 <= j < MAXREG ==> Register[j] == if j < m then want[j] else t[j]
      {
        if m >= MAXREG {
          return -1;
        }
        WordsAt(payload, payloadlenght, m - startindex);
        var w := GetInt16(payload, n);
        Register[m] := if override then WithAlternate(Register[m], w) else WithValue(Register[m], w);
        n := n + 2;
        m := m + 1;
      }
      return m - startindex;
    }

    /** The loops of lines 255-264 and 301-310. */
    static method SaveCells(cells: array<Cell>, startindex: nat, payloadlenght: nat, payload: seq<byte>) returns (result: int)
      requires startindex < cells.Length && payloadlenght <= |payload|
      modifies cells
      ensures cells[..] == WriteCells(old(cells[..]), startindex, payload[..payloadlenght])
      ensures result == if startindex + payloadlenght > cells.Length then -1 else payloadlenght
    {
      ghost var t := cells[..];
      var n, m := 0, startindex;
      while n < payloadlenght
        invariant n == m - startindex <= payloadlenght && startindex <= m <= cells.Length
        invariant forall j :: 0 <= j < cells.Length ==> cells[j] == if startindex <= j < m then WithByte(t[j], payload[j - startindex]) else t[j]
      {
        if m >= cells.Length {
          return -1;
        }
        cells[m] := WithByte(cells[m], payload[n]);
        n := n + 1;
        m := m + 1;
      }
      return m - startindex;
    }

    /** memory.c, lines 221-250: from the start address on, every later register takes the next word. */
    method SaveUserRegs(startadress: word, payloadlenght: nat, payload: seq<byte>) returns (result: int)
      requires UserRegsOk(UserRegister) && payloadlenght <= |payload|
      modifies this`UserRegister
      ensures var i := Find(UserAdresses(old(UserRegister)), startadress);
              if i < 0 then UserRegister == old(UserRegister) && result == 0
              else if payloadlenght / 2 > |UserRegister| - i then UserRegister == old(UserRegister) && result == -1
              else UserRegister == WriteUserRegs(old(UserRegister), i, Unpack(payload[..payloadlenght])) && result == payloadlenght / 2
    {
      ghost var t := UserRegister;
      ghost var at := Find(UserAdresses(t), startadress);
      ghost var ws := Unpack(payload[..payloadlenght]);
      ghost var want := Want(t, at, ws);
      NothingWritten(t, want);
      WantEnds(t, at, ws);
      hide Unpack, Want, WriteUserRegs, UserAdresses, PartWritten;
      var numuserreg, startidx := |UserRegister|, -1;
      var n, idx := 0, 0;
      while idx < numuserreg
        invariant 0 <= idx <= numuserreg == |UserRegister| == |t|
        invariant startidx == if 0 <= at < idx then at else -1
        invariant if startidx < 0 then n == 0 else n == 2 * (idx - at) <= payloadlenght && |ws| <= numuserreg - at
        invariant PartWritten(UserRegister, t, want, idx)
      {
        if n + 1 >= payloadlenght {
          break;
        }
        NextWritten(UserRegister, t, want, idx);
        WantAt(t, at, ws, idx);
        if UserRegister[idx].adress == startadress {
          assert idx == at;
          startidx := idx;
          if payloadlenght / 2 > numuserreg - startidx {
            StillUnwritten(UserRegister, t, at, ws, idx);
            return -1;
          }
          n := TakeUserReg(idx, n, payloadlenght, payload);
        } else if UserRegister[idx].adress > startadress && startidx >= 0 {
          n := TakeUserReg(idx, n, payloadlenght, payload);
        }
        idx := idx + 1;
      }
      AllWritten(UserRegister, t, at, ws, idx);
      return n / 2;
    }

    /** The assignment both branches make. */
    method TakeUserReg(idx: nat, n: nat, payloadlenght: nat, payload: seq<byte>) returns (n': nat)
      requires idx < |UserRegister| && n + 1 < payloadlenght <= |payload| && n % 2 == 0
      modifies this`UserRegister
      ensures n / 2 < |Unpack(payload[..payloadlenght])| && n' == n + 2
      ensures UserRegister == old(UserRegister)[idx := WithUserValue(old(UserRegister)[idx], Unpack(payload[..payloadlenght])[n / 2])]
    {
      UnpackAt(payload[..payloadlenght], n / 2);
      UserRegister := UserRegister[idx := WithUserValue(UserRegister[idx], GetInt16(payload, n))];
      n' := n + 2;
    }

    /** memory.c, lines 267-296. */
    method SaveUserCoils(startadress: word, payloadlenght: nat, payload: seq<byte>) returns (result: int)
      requires UserCoilsOk(UserCoil) && payloadlenght <= |payload|
      modifies this`UserCoil
      ensures var i := Find(UserCoilAdresses(old(UserCoil)), startadress);
              if i < 0 then UserCoil == old(UserCoil) && result == 0
              else if payloadlenght > |UserCoil| - i then UserCoil == old(UserCoil) && result == -1
              else UserCoil == WriteUserCoils(old(UserCoil), i, payload[..payloadlenght]) && result == payloadlenght
    {
      ghost var t := UserCoil;
      ghost var at := Find(UserCoilAdresses(t), startadress);
      var numusercoil, startidx := |UserCoil|, -1;
      var n, idx := 0, 0;
      while idx < numusercoil
        invariant 0 <= idx <= numusercoil == |UserCoil| == |t|
        invariant startidx == if 0 <= at < idx then at else -1
        invariant startidx < 0 ==> n == 0 && UserCoil == t
        invariant startidx >= 0 ==> n == idx - at <= payloadlenght <= numusercoil - at
        invariant startidx >= 0 ==> forall j :: 0 <= j < |t| ==>
          UserCoil[j] == if at <= j < idx then WithUserByte(t[j], payload[j - at]) else t[j]
      {
        if n >= payloadlenght {
          break;
        }
        if UserCoil[idx].adress == startadress {
          assert idx == at;
          startidx := idx;
          if payloadlenght > numusercoil - startidx {
            return -1;
          }
          UserCoil := UserCoil[idx := WithUserByte(UserCoil[idx], payload[n])];
          n := n + 1;
        } else if UserCoil[idx].adress > startadress && startidx >= 0 {
          UserCoil := UserCoil[idx := WithUserByte(UserCoil[idx], payload[n])];
          n := n + 1;
        }
        idx := idx + 1;
      }
      return n;
    }

    /** memory.c, lines 68-166. */
    method SaveResponse(resp: seq<byte>, lenght: nat, headerlenght: nat, req: seq<byte>) returns (result: int)
      requires Valid() && ResponseAllowed(View(), resp, lenght, headerlenght, req)
      modifies this, Register, Coil, DiscreteInput
      ensures Valid()
      ensures (View(), result) == SavedResponse(old(View()), resp, lenght, headerlenght, req)
    {
      SavedResponseOk(View(), resp, lenght, headerlenght, req);
      hide MemOk, SavedResponse;
      if resp[1] == 0x2B {
        result := SaveDeviceInfo(resp, lenght, headerlenght, req);
      } else if resp[1] == 0x43 {
        result := SaveRegisters(resp, lenght, headerlenght, req);
      } else if resp[1] == 0x01 || resp[1] == 0x02 {
        result := SaveBits(resp, lenght, headerlenght, req);
      } else {
        result := SaveOneRegister(resp, lenght, headerlenght, req);
      }
    }

    method SaveDeviceInfo(resp: seq<byte>, lenght: nat, headerlenght: nat, req: seq<byte>) returns (result: int)
      requires Shaped() && ResponseAllowed(View(), resp, lenght, headerlenght, req) && resp[1] == 0x2B
      modifies this`DeviceInfo1, this`DeviceInfo2
      ensures (View(), result) == SavedResponse(old(View()), resp, lenght, headerlenght, req)
    {
      if resp[3] == 0x01 {
        DeviceInfo1 := resp[..lenght - 2];
      }
      if resp[3] == 0x02 {
        DeviceInfo2 := resp[..lenght - 2];
      }
      return lenght - 1;
    }

    method SaveRegisters(resp: seq<byte>, lenght: nat, headerlenght: nat, req: seq<byte>) returns (result: int)
      requires Valid() && ResponseAllowed(View(), resp, lenght, headerlenght, req) && resp[1] == 0x43
      modifies Register
      ensures (View(), result) == SavedResponse(old(View()), resp, lenght, headerlenght, req)
    {
      Sizes(View());
      WordsOfData(resp, lenght, headerlenght);
      var startindex := GetRegStartIndex(GetInt16(req, 2));
      hide MemOk, RegAdresses, CellAdresses, StartIndex, Words, DataOf, WriteValues, WriteCells;
      var k := SaveWithHeader(startindex, resp, lenght, headerlenght);
      return k + 1;
    }

    method SaveBits(resp: seq<byte>, lenght: nat, headerlenght: nat, req: seq<byte>) returns (result: int)
      requires Valid() && ResponseAllowed(View(), resp, lenght, headerlenght, req) && (resp[1] == 0x01 || resp[1] == 0x02)
      modifies Coil, DiscreteInput
      ensures (View(), result) == SavedResponse(old(View()), resp, lenght, headerlenght, req)
    {
      Sizes(View());
      var data := DataOf(resp, lenght, headerlenght);
      assert data[..|data|] == data;
      hide MemOk, RegAdresses, CellAdresses, StartIndex, WriteCells;
      if resp[1] == 0x02 {
        var discindex := GetDiscStartIndex(GetInt16(req, 2));
        result := SaveCells(DiscreteInput, discindex, |data|, data);
      } else {
        var coilindex := GetCoilStartIndex(GetInt16(req, 2));
        result := SaveCells(Coil, coilindex, |data|, data);
      }
      result := result + 1;
    }

    /** One register with function 3 or 4, and nothing for any other function code. */
    method SaveOneRegister(resp: seq<byte>, lenght: nat, headerlenght: nat, req: seq<byte>) returns (result: int)
      requires Valid() && ResponseAllowed(View(), resp, lenght, headerlenght, req)
      requires resp[1] != 0x2B && resp[1] != 0x43 && resp[1] != 0x01 && resp[1] != 0x02
      modifies Register
      ensures (View(), result) == SavedResponse(old(View()), resp, lenght, headerlenght, req)
    {
      Sizes(View());
      hide MemOk, RegAdresses, CellAdresses, StartIndex, Words, DataOf, WriteValues, WriteCells;
      if resp[1] != 0x03 && resp[1] != 0x04 {
        return 0;
      }
      var registerindex := GetRegStartIndex(GetInt16(req, 2));
      Register[registerindex] := WithValue(Register[registerindex], GetInt16(resp, headerlenght));
      return 1;
    }

    /** Lines 105-118: the header into the first slot, the data into the slots from there on. */
    method SaveWithHeader(startindex: nat, resp: seq<byte>, lenght: nat, headerlenght: nat) returns (count: nat)
      requires Register.Length == MAXREG && 2 <= lenght <= |resp| && headerlenght <= |resp|
      requires startindex < MAXREG && startindex + |Words(DataOf(resp, lenght, headerlenght), resp[lenght - 2])| <= MAXREG
      modifies Register
      ensures var ws := Words(DataOf(resp, lenght, headerlenght), resp[lenght - 2]);
              var t := old(Register[..])[startindex := WithHeader(old(Register[startindex]), resp[..headerlenght])];
              count == |ws| && Register[..] == WriteValues(t, startindex, ws)
    {
      WordsOfData(resp, lenght, headerlenght);
      hide Words, DataOf;
      ghost var ws := Words(DataOf(resp, lenght, headerlenght), resp[lenght - 2]);
      Register[startindex] := WithHeader(Register[startindex], resp[..headerlenght]);
      ghost var t := Register[..];
      var n, m := headerlenght, startindex;
      while n < lenght - 2
        invariant n == headerlenght + 2 * (m - startindex) && startindex <= m && m - startindex <= |ws|
        invariant forall j :: 0 <= j < MAXREG ==> Register[j] == if startindex <= j < m then WithValue(t[j], ws[j - startindex]) else t[j]
      {
        DataAt(resp, lenght, headerlenght, m - startindex);
        Register[m] := WithValue(Register[m], GetInt16(resp, n));
        n := n + 2;
        m := m + 1;
      }
      return m - startindex;
    }

    // ----- answering the display -----

    /**
     memory.c, lines 350-480. The three bytes before discrete inputs are written without a look at resultsize,
     and registers may take one byte more than it says.
     */
    method GenerateResponse(req: seq<byte>, result: array<byte>, resultsize: nat) returns (ret: int)
      requires Valid() && |req| >= 8 && 3 <= resultsize <= result.Length && (resultsize < 256 ==> resultsize < result.Length)
      modifies result
      ensures ret <= result.Length
      ensures var r := KnownRange(req);
              r.Range? ==> ret == ReplyResult(View(), r, resultsize) && (ret == |Reply(View(), r)| ==> result[..ret] == Reply(View(), r))
      ensures AsksInfo(req, 1) ==> if |DeviceInfo1| > resultsize then ret == -1 else ret == |DeviceInfo1| && result[..ret] == DeviceInfo1
      ensures AsksInfo(req, 2) ==> if |DeviceInfo2| > resultsize then ret == -1 else ret == |DeviceInfo2| && result[..ret] == DeviceInfo2
      ensures AsksDiscrete(req) ==>
        ret == |DiscreteAnswer(DiscreteInput[..], resultsize)| && result[..ret] == DiscreteAnswer(DiscreteInput[..], resultsize)
      ensures SwitchesOff(req) ==> ret == 0
      ensures ret == -2 <==> !Known(req)
    {
      Sizes(View());
      hide MemOk, KnownRange, Reply, ReplyResult, DiscreteAnswer;
      if AsksInfo(req, 1) {
        ret := GetDeviceInfo(1, result, resultsize);
      } else if AsksInfo(req, 2) {
        ret := GetDeviceInfo(2, result, resultsize);
      } else if KnownRange(req).Range? {
        KnownBounds(req);
        ret := RangeResponse(KnownRange(req), result, resultsize);
      } else if AsksDiscrete(req) {
        ret := DiscreteResponse(result, resultsize);
      } else if SwitchesOff(req) {
        ret := 0;
      } else {
        ret := -2;
      }
      KnownExclusive(req);
    }

    /** Lines 441-454. */
    method DiscreteResponse(result: array<byte>, resultsize: nat) returns (ret: int)
      requires Valid() && 3 <= resultsize <= result.Length
      modifies result
      ensures 2 <= ret <= result.Length
      ensures ret == |DiscreteAnswer(DiscreteInput[..], resultsize)| && result[..ret] == DiscreteAnswer(DiscreteInput[..], resultsize)
    {
      ghost var t := DiscreteInput[..];
      hide StartIndex, CellAdresses, ReadCells, DiscRange, RegsOk, CellsOk, UserRegsOk, UserCoilsOk;
      result[0] := 0x01;
      result[1] := 0x02;
      result[2] := 0x01;
      var discinp := new byte[resultsize - 3];
      var ret2 := GetDiscInp(0x2000, 0x2000, discinp, resultsize - 3);
      forall k | 0 <= k < ret2 { result[3 + k] := discinp[k]; }
      ret := 3 + ret2;
      assert DiscreteInput[..] == t;
      assert result[..3] == [0x01, 0x02, 0x01] && result[..2] == [0x01, 0x02] && (ret2 >= 0 ==> result[3..ret] == discinp[..ret2]);
    }

    /** The branch for a run of registers, the same for every known range, as in lines 363-374. */
    method RangeResponse(r: Range, result: array<byte>, resultsize: nat) returns (ret: int)
      requires Valid() && resultsize <= result.Length && (resultsize < 256 ==> resultsize < result.Length)
      requires r.Range? && 0 < r.start <= r.end < NO_ADRESS && r.end - r.start <= 0x70
      modifies result
      ensures -1 <= ret <= result.Length
      ensures ret == ReplyResult(View(), r, resultsize) && (ret == |Reply(View(), r)| ==> result[..ret] == Reply(View(), r))
    {
      ghost var m := View();
      RangeCount(m.regs, r.start, r.end);
      Sizes(m);
      ReplyParts(m, r, resultsize);
      hide MemOk, RegsOk, CellsOk, StartIndex, RegAdresses, RegRange, ReadRegs, Pack, KnownRange, Reply, ReplyResult, HasReply;
      ret := GetHeader(r.start, -1, result, resultsize);
      if ret > 0 {
        ghost var header := result[..ret];
        var n := GetRegisterBytes(r.start, r.end, result, ret, resultsize - ret, true);
        Joined(result[..], header, ret, n);
        ret := ret + n;
      }
      assert View() == m;
    }

    // ----- the text port -----

    /** memory.c, lines 483-492. */
    method CleanAlternate()
      requires Valid()
      modifies Register
      ensures Valid() && View() == old(View()).(regs := ClearAlternates(old(Register[..])))
    {
      ghost var t := Register[..];
      RegsAlike(t, ClearAlternates(t));
      var n := 0;
      while n < MAXREG
        invariant 0 <= n <= MAXREG
        invariant forall j :: 0 <= j < MAXREG ==> Register[j] == if j < n then WithoutAlternate(t[j]) else t[j]
      {
        Register[n] := WithoutAlternate(Register[n]);
        n := n + 1;
      }
      assert Register[..] == ClearAlternates(t);
    }

    /** The search loops over the user registers. */
    method FindUserReg(adress: word) returns (i: int)
      ensures i == Find(UserAdresses(UserRegister), adress)
    {
      var n := 0;
      while n < |UserRegister|
        invariant 0 <= n <= |UserRegister| && forall k :: 0 <= k < n ==> UserRegister[k].adress != adress
      {
        if UserRegister[n].adress == adress {
          return n;
        }
        n := n + 1;
      }
      return -1;
    }

    /** memory.c, lines 1986-2036. */
    method PutRegStr(value: Parsed, adress: word) returns (result: int)
      requires Valid()
      modifies this, Register
      ensures Valid() && (View(), result) == Put(old(View()), value, adress)
    {
      PutOk(View(), value, adress);
      hide MemOk, StartIndex, Find, RegAdresses, UserAdresses;
      Sizes(View());
      if IsUserReg(adress) {
        var i := FindUserReg(adress);
        if i < 0 || value.NotANumber? {
          return -1;
        }
        UserRegister := UserRegister[i := WithUserValue(UserRegister[i], Wrap16(value.v))];
        return 1;
      } else {
        var n := -1;
        if adress > 0 {
          n := GetRegStartIndex(adress);
        }
        if n < 0 || value.NotANumber? {
          return -1;
        }
        Register[n] := WithAlternate(Register[n], Wrap16(value.v));
        return 1;
      }
    }

    /** memory.c, lines 2038-2108. The slot after the address must exist; the source does not look. */
    method PutRegStr32(value: Parsed, adress: word) returns (result: int)
      requires Valid() && (!IsUserReg(adress) ==> RegIndex(Register[..], adress) + 1 < MAXREG)
      modifies this, Register
      ensures Valid() && (View(), result) == Put32(old(View()), value, adress)
    {
      Put32Ok(View(), value, adress);
      hide MemOk, Put32;
      if IsUserReg(adress) {
        result := PutUserReg32(value, adress);
      } else {
        result := PutRegister32(value, adress);
      }
    }

    method PutUserReg32(value: Parsed, adress: word) returns (result: int)
      requires Valid() && IsUserReg(adress)
      modifies this`UserRegister
      ensures (View(), result) == Put32(old(View()), value, adress)
    {
      Sizes(View());
      hide MemOk, Find, UserAdresses;
      var idx := FindUserReg(adress);
      if idx < 0 || idx + 1 >= |UserRegister| || value.NotANumber? {
        return -1;
      }
      UserRegister := UserRegister[idx := WithUserValue(UserRegister[idx], LowWord(value.v))];
      idx := idx + 1;
      UserRegister := UserRegister[idx := WithUserValue(UserRegister[idx], HighWord(value.v))];
      return 1;
    }

    method PutRegister32(value: Parsed, adress: word) returns (result: int)
      requires Valid() && !IsUserReg(adress) && RegIndex(Register[..], adress) + 1 < MAXREG
      modifies Register
      ensures (View(), result) == Put32(old(View()), value, adress)
    {
      Sizes(View());
      hide MemOk, StartIndex, RegAdresses;
      var n := -1;
      if adress > 0 {
        n := GetRegStartIndex(adress);
      }
      if n >= 0 {
        var next := GetRegStartIndex(Wrap16(adress + 1));
        if next >= 0 && value.Number? {
          Register[n] := WithAlternate(Register[n], LowWord(value.v));
          n := n + 1;
          Register[n] := WithAlternate(Register[n], HighWord(value.v));
          return 1;
        }
      }
      return -1;
    }

    /** memory.c, lines 1748-1835. */
    method GetRegStr(adress: word, orig: bool) returns (value: Answer)
      requires Valid()
      ensures value == Get(View(), adress, orig)
    {
      hide MemOk, StartIndex, Find, RegAdresses, UserAdresses;
      Sizes(View());
      value := Nothing;
      if IsUserReg(adress) {
        var n := FindUserReg(adress);
        if n >= 0 {
          var w := UserRegister[n].value;
          value := Answer(if UserRegister[n].issigned then Signed16(w) else w);
        }
      } else {
        var n := -1;
        if adress > 0 {
          n := GetRegStartIndex(adress);
        }
        if n >= 0 {
          var w := if Register[n].haveAlternate && !orig then Register[n].alternate else Register[n].value;
          value := Answer(if Register[n].issigned then Signed16(w) else w);
        }
      }
    }

    /** memory.c, lines 1872-1983; the two user registers are searched one after the other. */
    method GetRegStr32(adress: word, orig: bool) returns (value: Answer)
      requires Valid()
      ensures value == Get32(View(), adress, orig)
    {
      hide MemOk, StartIndex, Find, RegAdresses, UserAdresses;
      Sizes(View());
      value := Nothing;
      if IsUserReg(adress) {
        var lo := FindUserReg(adress);
        var hi := FindUserReg(adress + 1);
        if lo >= 0 && hi >= 0 {
          var tmp32 := UserRegister[hi].value * 0x1_0000 + UserRegister[lo].value;
          value := Answer(if UserRegister[hi].issigned then Signed32(tmp32) else tmp32);
        }
      } else if adress > 0 {
        var lo := GetRegStartIndex(adress);
        var hi := GetRegStartIndex(Wrap16(adress + 1));
        if lo >= 0 && hi >= 0 {
          var both := Register[lo].haveAlternate && Register[hi].haveAlternate && !orig;
          var l, h := if both then Register[lo].alternate else Register[lo].value, if both then Register[hi].alternate else Register[hi].value;
          var tmp32 := h * 0x1_0000 + l;
          value := Answer(if Register[lo].issigned || Register[hi].issigned then Signed32(tmp32) else tmp32);
        }
      }
    }

    /** MODBUS_SET_INT16_TO_INT8. */
    static method SetInt16(tab_int8: array<byte>, index: nat, value: word)
      requires index + 1 < tab_int8.Length
      modifies tab_int8
      ensures tab_int8[..] == old(tab_int8[..])[index := High(value)][index + 1 := Low(value)]
      ensures tab_int8[..index] == old(tab_int8[..index])
      ensures tab_int8[..index + 2] == old(tab_int8[..index]) + Int16Bytes(value)
    {
      tab_int8[index] := High(value);
      tab_int8[index + 1] := Low(value);
    }
  }

  lemma DataAt(resp: seq<byte>, lenght: nat, headerlenght: nat, k: nat)
    requires 2 <= lenght <= |resp| && headerlenght + 2 * k < lenght - 2
    ensures var ws := Words(DataOf(resp, lenght, headerlenght), resp[lenght - 2]);
            k < |ws| && ws[k] == GetInt16(resp, headerlenght + 2 * k)
  {
    var data := DataOf(resp, lenght, headerlenght);
    WordsAt(resp[headerlenght..], |data|, k);
    assert resp[headerlenght..][..|data|] == data;
  }

  lemma WordsOfData(resp: seq<byte>, lenght: nat, headerlenght: nat)
    requires 2 <= lenght <= |resp|
    ensures var data := DataOf(resp, lenght, headerlenght);
            && |data| == (if headerlenght <= lenght - 2 then lenght - 2 - headerlenght else 0)
            && |Words(data, resp[lenght - 2])| == (|data| + 1) / 2
  {}

  // ----- the clean table -----

  function CleanReg(r: Reg, adress: word): Reg {
    Reg(adress == NO_ADRESS, adress, if adress == NO_ADRESS then r.issigned else SignedList(adress), 0xFFFF, false, 0xFFFF, false, [])
  }

  function FreshCells(list: seq<word>, size: nat): (r: seq<Cell>)
    requires |list| <= size
    ensures |r| == size
    ensures forall j :: 0 <= j < size ==> r[j] == if j < |list| then Cell(false, list[j], 0xFF) else Cell(true, NO_ADRESS, 0xFF)
  {
    seq(size, j requires 0 <= j < size => if j < |list| then Cell(false, list[j], 0xFF) else Cell(true, NO_ADRESS, 0xFF))
  }

  function CleanRegs(t: seq<Reg>, list: seq<word>): (r: seq<Reg>)
    ensures |r| == |t|
    ensures forall j :: 0 <= j < |t| ==> r[j] == CleanReg(t[j], if j < |list| then list[j] else NO_ADRESS)
  {
    seq(|t|, j requires 0 <= j < |t| => CleanReg(t[j], if j < |list| then list[j] else NO_ADRESS))
  }

  function Cleaned(m: Mem, lines: seq<Line>): Mem {
    var (userRegs, userCoils) := Configured([], [], lines);
    Mem(CleanRegs(m.regs, RegList()), FreshCells(COIL_LIST, MAXCOILS), FreshCells(DISCRETE_INPUT_LIST, MAXDISCRETEINPUTS),
        userRegs, userCoils, seq(|m.info1|, i => 0xFF), seq(|m.info2|, i => 0xFF))
  }

  /** Cleaning sets up a well-formed table, whatever was there before. */
  lemma CleanedOk(m: Mem, lines: seq<Line>)
    requires |m.regs| == MAXREG && |m.info1| <= MAX_DEV_INFO_LENGHT && |m.info2| <= MAX_DEV_INFO_LENGHT
    ensures MemOk(Cleaned(m, lines))
  {
    ListsIncreasing();
    hide RegList, Configured;
    ConfiguredOk([], [], lines);
    CleanRegsOk(m.regs, RegList());
    FreshCellsOk(COIL_LIST, MAXCOILS);
    FreshCellsOk(DISCRETE_INPUT_LIST, MAXDISCRETEINPUTS);
  }

  /** The two inputs of the program: two bytes follow. */
  lemma TwoInputsForOne(t: seq<Cell>, room: int)
    requires |t| == 3 && t[0].adress == 0x2000 && !t[0].empty && t[1].adress == 0x200C && !t[1].empty && t[2].empty && room >= 5
    ensures DiscreteAnswer(t, room) == [0x01, 0x02, 0x01, t[0].value, t[1].value]
  {
    assert CellAdresses(t)[0] == 0x2000;
    assert DiscEnd(t, 2, 0x2000) == 2;
    assert DiscEnd(t, 1, 0x2000) == 2;
  }

  /** The request for one discrete input of a freshly set up table is answered with two. */
  lemma CleanedInputs(m: Mem, lines: seq<Line>)
    requires |m.regs| == MAXREG
    ensures DiscreteAnswer(Cleaned(m, lines).discs, 256) == [0x01, 0x02, 0x01, 0xFF, 0xFF]
  {
    hide RegList, Configured, CleanRegs;
    var t := Cleaned(m, lines).discs;
    TwoInputsForOne(t, 256);
  }

  lemma CleanRegsOk(t: seq<Reg>, list: seq<word>)
    requires |t| == MAXREG && |list| <= MAXREG && StrictlyIncreasing(list) && (|list| > 0 ==> list[|list| - 1] < NO_ADRESS)
    ensures RegsOk(CleanRegs(t, list))
  {
    assert forall i :: 0 <= i < |list| ==> list[i] <= list[|list| - 1];
  }

  lemma FreshCellsOk(list: seq<word>, size: nat)
    requires |list| <= size && StrictlyIncreasing(list) && (|list| > 0 ==> list[|list| - 1] < NO_ADRESS)
    ensures CellsOk(FreshCells(list, size), size)
  {
    assert forall i :: 0 <= i < |list| ==> list[i] <= list[|list| - 1];
  }

  lemma Sizes(m: Mem)
    requires MemOk(m)
    ensures |m.regs| == MAXREG && |m.coils| == MAXCOILS && |m.discs| == MAXDISCRETEINPUTS
    ensures RegsOk(m.regs) && UserRegsOk(m.userRegs) && UserCoilsOk(m.userCoils)
    ensures forall i :: 0 <= i < |m.regs| ==> |m.regs[i].header| <= MAXHEADERSIZE
  {}

  lemma Joined(s: seq<byte>, header: seq<byte>, k: nat, n: int)
    requires k <= |s| && header == s[..k]
    ensures 0 <= n && k + n <= |s| ==> s[..k + n] == header + s[k..k + n]
  {}

  /** A list on its way from t to want, up to a place. */
  ghost predicate PartWritten(now: seq<UserReg>, t: seq<UserReg>, want: seq<UserReg>, idx: nat) {
    |now| == |t| == |want| && idx <= |t| && forall j :: 0 <= j < |t| ==> now[j] == if j < idx then want[j] else t[j]
  }

  lemma NothingWritten(t: seq<UserReg>, want: seq<UserReg>)
    requires |t| == |want|
    ensures PartWritten(t, t, want, 0)
  {}

  lemma NextWritten(now: seq<UserReg>, t: seq<UserReg>, want: seq<UserReg>, idx: nat)
    requires PartWritten(now, t, want, idx) && idx < |t|
    ensures idx < |now| == |want| && now[idx] == t[idx] && PartWritten(now[idx := want[idx]], t, want, idx + 1)
    ensures want[idx] == t[idx] ==> PartWritten(now, t, want, idx + 1)
  {}

  /** The list with values written from place at on, or as it is if there is no such place. */
  ghost function Want(t: seq<UserReg>, at: int, ws: seq<word>): (r: seq<UserReg>)
    ensures |r| == |t|
  {
    if at < 0 then t else WriteUserRegs(t, at, ws)
  }

  lemma WantAt(t: seq<UserReg>, at: int, ws: seq<word>, idx: nat)
    requires idx < |t|
    ensures Want(t, at, ws)[idx] == if 0 <= at <= idx < at + |ws| then WithUserValue(t[idx], ws[idx - at]) else t[idx]
  {}

  lemma WantEnds(t: seq<UserReg>, at: int, ws: seq<word>)
    ensures at < 0 ==> Want(t, at, ws) == t
    ensures at >= 0 ==> Want(t, at, ws) == WriteUserRegs(t, at, ws)
  {}

  lemma StillUnwritten(now: seq<UserReg>, t: seq<UserReg>, at: int, ws: seq<word>, idx: nat)
    requires PartWritten(now, t, Want(t, at, ws), idx) && idx <= at
    ensures now == t
  {}

  lemma AllWritten(now: seq<UserReg>, t: seq<UserReg>, at: int, ws: seq<word>, idx: nat)
    requires PartWritten(now, t, Want(t, at, ws), idx) && (idx == |t| || at < 0 || |ws| == 0 || idx >= at + |ws|)
    ensures now == Want(t, at, ws)
  {}

  /** The answer to a request for a range, in the two steps it is put together in. */
  lemma ReplyParts(m: Mem, r: Range, room: nat)
    requires |m.regs| > 0 && r.Range?
    ensures var i := StartIndex(RegAdresses(m.regs), r.start);
            var range := RegRange(m.regs, r.start, r.end);
            if i < 0 then ReplyResult(m, r, room) == -1
            else
              var h := m.regs[i].header;
              if !m.regs[i].haveHeader || |h| == 0 then ReplyResult(m, r, room) == 0 && Reply(m, r) == []
              else
                && Reply(m, r) == h + Pack(ReadRegs(range, true)) && |Reply(m, r)| == |h| + 2 * |range|
                && ReplyResult(m, r, room) == if |h| > room then -1 else if 2 * |range| > RoundUp(room - |h|) then |h| - 1 else |h| + 2 * |range|
  {
    hide RegAdresses, StartIndex, RegRange, RoundUp;
  }

  lemma KnownBounds(req: seq<byte>)
    requires |req| >= 6 && KnownRange(req).Range?
    ensures var r := KnownRange(req); 0 < r.start <= r.end < NO_ADRESS && r.end - r.start <= 0x70
  {}

  /** No request is of two kinds. */
  lemma KnownExclusive(req: seq<byte>)
    requires |req| >= 8
    ensures KnownRange(req).Range? ==> req[1] == 0x43 && !AsksInfo(req, 1) && !AsksInfo(req, 2) && !AsksDiscrete(req) && !SwitchesOff(req)
    ensures AsksInfo(req, 1) ==> !AsksInfo(req, 2)
    ensures SwitchesOff(req) ==> !AsksInfo(req, 1) && !AsksInfo(req, 2) && !AsksDiscrete(req)
  {}

  lemma RangeFrom(t: seq<Reg>, start: word, end: word)
    requires |t| > 0 && StartIndex(RegAdresses(t), start) >= 0
    ensures var i := StartIndex(RegAdresses(t), start); RegRange(t, start, end) == t[i..EndIndex(RegAdresses(t), i, end)]
  {}

  lemma PackNothing()
    ensures Pack([]) == []
  {}

  lemma OneMoreRead(t: seq<Reg>, i: nat, k: nat, alternate: bool, before: seq<byte>)
    requires i <= k < |t|
    ensures before + Pack(ReadRegs(t[i..k + 1], alternate))
         == before + Pack(ReadRegs(t[i..k], alternate)) + Int16Bytes(ReadReg(t[k], alternate))
  {
    PackAppend(ReadRegs(t[i..k], alternate), ReadReg(t[k], alternate));
    assert ReadRegs(t[i..k + 1], alternate) == ReadRegs(t[i..k], alternate) + [ReadReg(t[k], alternate)];
  }
}
