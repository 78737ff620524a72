/** The client's SendMem (tracerclient.c, lines 933-1164): parts of the register table into a frame, and the frame out. */
module TracerClient {
  import opened Bytes
  import opened Table
  import opened Mttp
  import opened Replication
  import Memory

  const MAX_SEND_BUFFER: nat := 8192

  class TracerClient {
    const memory: Memory.Memory
    const printer: Mttp
    /** What went to the server. */
    var sent: seq<byte>

    ghost predicate Valid()
      reads this, memory, memory.Register, memory.Coil, memory.DiscreteInput, printer
    {
      memory.Valid() && Open()
    }

    /** The printer takes commands. */
    ghost predicate Open()
      reads this, printer
    {
      printer.Started() && !printer.closed && printer.act == E_PUT
    }

    constructor (memory: Memory.Memory)
      requires memory.Valid()
      ensures Valid() && this.memory == memory && fresh(printer) && printer.added == [] && sent == []
    {
      this.memory := memory;
      printer := new Mttp(E_PUT);
      sent := [];
    }

    method SendInfo(kind: int)
      requires Valid() && (kind == 1 || kind == 2)
      modifies printer
      ensures Open() && printer.added == old(printer.added) + PartCommands(memory.View(), if kind == 1 then DevInfo1 else DevInfo2)
    {
      hide Open;
      var deviceinfo := new byte[MAX_DEV_INFO_LENGHT];
      var lenght := memory.GetDeviceInfo(kind, deviceinfo, MAX_DEV_INFO_LENGHT);
      Print(if kind == 1 then E_DEVINFO1 else E_DEVINFO2, deviceinfo[..lenght], kind);
    }

    /** The loop that packs words into bytes, as in lines 976-982. */
    static method PackWords(reg: array<word>, numreg: int) returns (reg8: seq<byte>)
      requires numreg <= reg.Length
      ensures numreg >= 0 ==> reg8 == Pack(reg[..numreg])
      ensures numreg < 0 ==> reg8 == []
    {
      var buffer := new byte[2 * reg.Length];
      var n, m := 0, 0;
      while n < numreg
        invariant 0 <= n && (numreg >= 0 ==> n <= numreg) && (numreg < 0 ==> n == 0) && m == 2 * n
        invariant buffer[..m] == Pack(reg[..n])
      {
        PackAppend(reg[..n], reg[n]);
        assert reg[..n + 1] == reg[..n] + [reg[n]];
        Memory.Memory.SetInt16(buffer, m, reg[n]);
        m := m + 2;
        n := n + 1;
      }
      reg8 := buffer[..m];
    }

    method SendRegs(from: word, to: word)
      requires Valid()
      modifies printer
      ensures Open() && printer.added == old(printer.added) + PartCommands(memory.View(), Regs(from, to))
    {
      RangeSizes(memory.View(), from, to);
      hide Memory.Memory.Valid, Open, StartIndex, RegAdresses, RegRange, ReadRegs, Pack;
      ghost var ws := ReadRegs(RegRange(memory.Register[..], from, to), false);
      var reg := new word[MAXREG];
      var numreg := memory.GetRegister(from, to, reg, MAXREG, false);
      var reg8 := PackWords(reg, numreg);
      assert if |ws| > 0 then numreg == |ws| && reg8 == Pack(ws) else numreg <= 0;
      if numreg > 0 {
        Print(E_REG, reg8, from);
      }
    }

    /** AddCommand of a whole payload into the open frame. */
    method Print(kind: byte, payload: seq<byte>, adress: word)
      requires Open()
      modifies printer
      ensures Open() && printer.added == old(printer.added) + [Command(kind, adress, payload)]
    {
      assert payload[..|payload|] == payload;
      var ret := printer.AddCommand(kind, payload, |payload|, adress);
    }

    method SendCoils(from: word, to: word)
      requires Valid()
      modifies printer
      ensures Open() && printer.added == old(printer.added) + PartCommands(memory.View(), Coils(from, to))
    {
      RangeSizes(memory.View(), from, to);
      hide Memory.Memory.Valid, Open, StartIndex, CellAdresses, CoilRange, ReadCells;
      var coil := new byte[MAXCOILS];
      var numcoils := memory.GetCoil(from, to, coil, MAXCOILS);
      if numcoils > 0 {
        Print(E_COIL, coil[..numcoils], from);
      }
    }

    method SendDiscInps(from: word, to: word)
      requires Valid()
      modifies printer
      ensures Open() && printer.added == old(printer.added) + PartCommands(memory.View(), DiscInps(from, to))
    {
      RangeSizes(memory.View(), from, to);
      hide Memory.Memory.Valid, Open, StartIndex, CellAdresses, ReadCells, DiscEnd;
      var discinp := new byte[MAXDISCRETEINPUTS];
      var numdiscinp := memory.GetDiscInp(from, to, discinp, MAXDISCRETEINPUTS);
      if numdiscinp > 0 {
        Print(E_DISCINP, discinp[..numdiscinp], from);
      }
    }

    /** Lines 1018-1045, for everything. */
    method SendAllHeaders()
      requires Valid()
      modifies printer
      ensures Open() && printer.added == old(printer.added) + PartCommands(memory.View(), AllHeaders)
    {
      ghost var t := memory.Register[..];
      SlotsInUse(memory.View());
      hide Memory.Memory.Valid, Open, HeadersFrom, HasHeader;
      ghost var all := printer.added + HeadersFrom(t, 0);
      var n := 0;
      while n < MAXREG
        invariant 0 <= n <= MAXREG && Valid()
        invariant printer.added + HeadersFrom(t, n) == all
      {
        NextHeader(t, n, printer.added);
        var stop := SendHeaderAt(n);
        if stop {
          break;
        }
        n := n + 1;
      }
      NextHeader(t, n, printer.added);
    }

    /** The body of the loop; stop is its break. */
    method SendHeaderAt(n: nat) returns (stop: bool)
      requires Valid() && n < MAXREG && memory.Register.Length == MAXREG && |memory.Register[n].header| <= MAXHEADERSIZE
      modifies printer
      ensures Valid() && stop == (HasHeader(memory.Register[n]) && memory.Register[n].adress == 0)
      ensures printer.added == old(printer.added) +
        if HasHeader(memory.Register[n]) && !stop then [Command(E_HEADER, memory.Register[n].adress, memory.Register[n].header)] else []
    {
      hide Open;
      stop := false;
      var header := new byte[MAXHEADERSIZE];
      var lenght := memory.GetHeader(NO_ADRESS, n, header, MAXHEADERSIZE);
      if lenght > 0 {
        var headeradress := memory.GetRegisterAdress(n);
        if headeradress == 0 {
          return true;
        }
        Print(E_HEADER, header[..lenght], headeradress);
      }
    }

    /** Lines 1046-1063. */
    method SendOneHeader(from: word)
      requires Valid() && PartOk(memory.View(), OneHeader(from))
      modifies printer
      ensures Open() && printer.added == old(printer.added) + PartCommands(memory.View(), OneHeader(from))
    {
      SlotsInUse(memory.View());
      hide Memory.Memory.Valid, Open, StartIndex, RegAdresses;
      var header := new byte[MAXHEADERSIZE];
      var lenght := memory.GetHeader(from, -1, header, MAXHEADERSIZE);
      if lenght > 0 {
        Print(E_HEADER, header[..lenght], from);
      }
    }

    /** Lines 1067-1083. */
    method SendUsers(from: word, to: word)
      requires Valid() && PartOk(memory.View(), Users(from, to))
      modifies printer
      ensures Open() && printer.added == old(printer.added) + PartCommands(memory.View(), Users(from, to))
    {
      ghost var t := memory.Register[..];
      SlotsInUse(memory.View());
      var startidx := memory.GetRegStartIndex(from);
      hide Memory.Memory.Valid, Open, OverridesFrom, StartIndex, RegAdresses;
      ghost var all := printer.added + OverridesFrom(t, startidx, to);
      var n := startidx;
      while n < MAXREG
        invariant startidx <= n <= MAXREG && Valid()
        invariant printer.added + OverridesFrom(t, n, to) == all
      {
        NextOverride(t, n, to, printer.added);
        var adress := memory.GetRegisterAdress(n);
        if adress > to {
          break;
        }
        SendOverride(adress, n);
        n := n + 1;
      }
      NextOverride(t, n, to, printer.added);
    }

    /** Lines 1078-1082: the override of one register, looked up by its address. */
    method SendOverride(adress: word, ghost n: nat)
      requires Valid() && n < MAXREG && memory.Register.Length == MAXREG && memory.Register[n].adress == adress
      requires forall j :: 0 <= j < MAXREG && memory.Register[j].empty ==> !memory.Register[j].haveAlternate
      modifies printer
      ensures Valid()
      ensures printer.added == old(printer.added) +
        if memory.Register[n].haveAlternate then [Command(E_USER, adress, Int16Bytes(memory.Register[n].alternate))] else []
    {
      FoundAgain(memory.View(), n);
      hide Memory.Memory.Valid, Open, StartIndex, RegAdresses, RegRange, ReadRegs;
      var have := memory.RegisterHaveAlternateValue(adress);
      if have {
        var reg := new byte[2];
        var ret := memory.GetRegisterBytes(adress, adress, reg, 0, 2, true);
        Print(E_USER, reg[..2], adress);
      }
    }

    method SendUserRegs(from: word, to: word)
      requires Valid()
      modifies printer
      ensures Open() && printer.added == old(printer.added) + PartCommands(memory.View(), UserRegs(from, to))
    {
      hide Memory.Memory.Valid, Open, UserRange, Pack, UserValues;
      ghost var range := UserRange(memory.UserRegister, from, to);
      var reg := new word[MAXREG];
      var numreg, firstadress := memory.GetUserRegister(from, to, reg, MAXREG);
      var reg8 := PackWords(reg, numreg);
      if numreg > 0 {
        assert reg8 == Pack(UserValues(range));
        Print(E_USERREG, reg8, firstadress);
      }
    }

    method SendUserCoils(from: word, to: word)
      requires Valid()
      modifies printer
      ensures Open() && printer.added == old(printer.added) + PartCommands(memory.View(), UserCoils(from, to))
    {
      hide Memory.Memory.Valid, Open, UserCoilRange, UserCoilValues;
      var coil := new byte[MAXCOILS];
      var numcoils, firstadress := memory.GetUserCoil(from, to, coil, MAXCOILS);
      if numcoils > 0 {
        Print(E_USERCOIL, coil[..numcoils], firstadress);
      }
    }

    /** One case of the switch, lines 938-1127. */
    method AddPart(p: Part)
      requires Valid() && |memory.View().regs| > 0 && PartOk(memory.View(), p)
      modifies printer
      ensures Valid() && |memory.View().coils| > 0 && |memory.View().discs| > 0
      ensures printer.added == old(printer.added) + PartCommands(memory.View(), p)
    {
      SlotsInUse(memory.View());
      hide Memory.Memory.Valid, Open, PartCommands;
      match p
      case DevInfo1 => SendInfo(1);
      case DevInfo2 => SendInfo(2);
      case Regs(from, to) => SendRegs(from, to);
      case Coils(from, to) => SendCoils(from, to);
      case DiscInps(from, to) => SendDiscInps(from, to);
      case OneHeader(from) => SendOneHeader(from);
      case AllHeaders => SendAllHeaders();
      case Users(from, to) => SendUsers(from, to);
      case UserRegs(from, to) => SendUserRegs(from, to);
      case UserCoils(from, to) => SendUserCoils(from, to);
    }

    /** The cases one after the other, from the one of memtype to the break. */
    method AddParts(parts: seq<Part>)
      requires Valid() && AllOk(memory.View(), parts)
      modifies printer
      ensures Valid() && printer.added == old(printer.added) + AllCommands(memory.View(), parts)
    {
      ghost var m, before := memory.View(), printer.added;
      NoPart(m, parts);
      hide Memory.Memory.Valid, Open, AllOk, AllCommands, PartCommands, PartOk;
      var k := 0;
      while k < |parts|
        invariant 0 <= k <= |parts| && Valid() && memory.View() == m
        invariant AllOk(m, parts[..k]) && printer.added == before + AllCommands(m, parts[..k])
      {
        NextPart(m, parts, k, before);
        AddPart(parts[k]);
        k := k + 1;
      }
      assert parts[..k] == parts;
    }

    /** The whole of SendMem. A frame that is too long for the send buffer is given up. */
    method SendMem(memtype: byte, from: word, to: word, send: bool) returns (result: int)
      requires Valid() && AllOk(memory.View(), PartsOf(memtype, from, to))
      modifies this`sent, printer
      ensures Valid()
      ensures var cs := old(printer.added) + AllCommands(memory.View(), PartsOf(memtype, from, to));
              if !send then printer.added == cs && sent == old(sent)
              else printer.added == [] && sent == old(sent) + if |Frame(E_PUT, cs)| <= MAX_SEND_BUFFER then Frame(E_PUT, cs) else []
    {
      AddParts(PartsOf(memtype, from, to));
      if send {
        SendFrame();
      }
      return 1;
    }

    /** Lines 1129-1161: the frame is closed, copied and sent, and a new one begun. */
    method SendFrame()
      requires Open()
      modifies this`sent, printer
      ensures Open() && printer.added == []
      ensures sent == old(sent) + if |Frame(E_PUT, old(printer.added))| <= MAX_SEND_BUFFER then Frame(E_PUT, old(printer.added)) else []
    {
      hide FrameSoFar;
      var sendbuffer := new byte[MAX_SEND_BUFFER];
      var sendbufferlen := printer.GetBuffer(sendbuffer, MAX_SEND_BUFFER);
      printer.InitBuffer(E_PUT);
      if sendbufferlen > 0 {
        sent := sent + sendbuffer[..sendbufferlen];
      }
    }
  }

  lemma SlotsInUse(m: Mem)
    requires MemOk(m)
    ensures |m.regs| == MAXREG && |m.coils| > 0 && |m.discs| > 0 && forall j :: 0 <= j < MAXREG ==> |m.regs[j].header| <= MAXHEADERSIZE
  {}

  lemma NoPart(m: Mem, parts: seq<Part>)
    requires AllOk(m, parts)
    ensures AllOk(m, parts[..0]) && AllCommands(m, parts[..0]) == []
  {}

  lemma NextPart(m: Mem, parts: seq<Part>, k: nat, before: seq<Command>)
    requires AllOk(m, parts) && k < |parts|
    ensures |m.regs| > 0 && |m.coils| > 0 && |m.discs| > 0 && PartOk(m, parts[k])
    ensures AllOk(m, parts[..k]) && AllOk(m, parts[..k + 1])
    ensures before + AllCommands(m, parts[..k + 1]) == before + AllCommands(m, parts[..k]) + PartCommands(m, parts[k])
  {
    hide PartOk, PartCommands;
    assert parts[..k + 1][..k] == parts[..k];
  }

  lemma NextHeader(t: seq<Reg>, n: nat, before: seq<Command>)
    requires n <= |t|
    ensures before + HeadersFrom(t, n) ==
      if n == |t| || (HasHeader(t[n]) && t[n].adress == 0) then before
      else before + (if HasHeader(t[n]) then [Command(E_HEADER, t[n].adress, t[n].header)] else []) + HeadersFrom(t, n + 1)
  {}

  lemma NextOverride(t: seq<Reg>, n: nat, to: word, before: seq<Command>)
    requires n <= |t|
    ensures before + OverridesFrom(t, n, to) ==
      if n == |t| || t[n].adress > to then before
      else before + (if t[n].haveAlternate then [Command(E_USER, t[n].adress, Int16Bytes(t[n].alternate))] else []) + OverridesFrom(t, n + 1, to)
  {}

  /** The override of a register is looked up again by its address. */
  lemma FoundAgain(m: Mem, n: nat)
    requires MemOk(m) && n < MAXREG && forall j :: 0 <= j < MAXREG && m.regs[j].empty ==> !m.regs[j].haveAlternate
    ensures var i := StartIndex(RegAdresses(m.regs), m.regs[n].adress);
            && i >= 0 && m.regs[i].haveAlternate == m.regs[n].haveAlternate
            && (m.regs[n].haveAlternate ==>
                  && RegRange(m.regs, m.regs[n].adress, m.regs[n].adress) == [m.regs[n]]
                  && Pack(ReadRegs([m.regs[n]], true)) == Int16Bytes(m.regs[n].alternate))
  {
    var a := RegAdresses(m.regs);
    var i := StartIndex(a, a[n]);
    assert a[n] == m.regs[n].adress;
    if i < n { assert a[i] < a[n] || a[n] == NO_ADRESS; }
    if m.regs[n].haveAlternate {
      assert i == n by { assert !m.regs[n].empty; assert a[0] <= a[n]; }
      if n + 1 < MAXREG { assert a[n] < a[n + 1]; }
      EndIndexIs(a, n, a[n], n + 1);
      var ws := ReadRegs([m.regs[n]], true);
      assert ws[1..] == [] && Pack(ws) == Int16Bytes(ws[0]) + Pack([]);
    }
  }

  lemma RangeSizes(m: Mem, from: word, to: word)
    requires MemOk(m)
    ensures |m.regs| == MAXREG && |m.coils| == MAXCOILS && |m.discs| == MAXDISCRETEINPUTS
    ensures |RegRange(m.regs, from, to)| <= MAXREG && |CoilRange(m.coils, from, to)| <= MAXCOILS
    ensures |DiscRange(m.discs, from, to)| <= MAXDISCRETEINPUTS
    ensures StartIndex(RegAdresses(m.regs), from) < 0 ==> RegRange(m.regs, from, to) == []
    ensures StartIndex(CellAdresses(m.coils), from) < 0 ==> CoilRange(m.coils, from, to) == []
  {}
}