/**
 The framed protocol between client and server (mttp.c): what a printed frame looks like, the scan
 of a received message, and the class that prints and decodes.
 */
module Mttp {
  import opened Bytes

  const DLE: byte := 0x10
  const STX: byte := 0x02
  const ETX: byte := 0x03
  const SCD: byte := 0x04
  const ECD: byte := 0x05

  const MAX_COMMANDS: nat := 50
  const COMMAND_SIZE: nat := 500

  const E_NONE: byte := 0x20
  const E_PUT: byte := 0x21
  const E_HEARTBEAT: byte := 0x29

  /** The values of the enumeration data of common.h. */
  predicate IsData(b: byte) { b == 0x00 || 0x30 <= b <= 0x39 }

  datatype Command = Command(kind: byte, adress: word, payload: seq<byte>)

  // ----- the printed form -----

  function EscapeByte(b: byte): seq<byte> { if b == DLE then [DLE, DLE] else [b] }

  /** Every DLE doubled. */
  function Escape(p: seq<byte>): seq<byte> {
    if |p| == 0 then [] else EscapeByte(p[0]) + Escape(p[1..])
  }

  function PrintCommand(c: Command): seq<byte> {
    [DLE, SCD, c.kind] + Escape(Int16Bytes(c.adress) + c.payload) + [DLE, ECD]
  }

  function PrintCommands(cs: seq<Command>): seq<byte> {
    if |cs| == 0 then [] else PrintCommand(cs[0]) + PrintCommands(cs[1..])
  }

  function Body(cs: seq<Command>, closed: bool): seq<byte> { PrintCommands(cs) + if closed then [DLE, ETX] else [] }

  function Header(act: byte, lenght: word): seq<byte> { [DLE, STX] + Int16Bytes(lenght) + [act] }

  /** A frame as far as it is printed: the two length bytes count everything, modulo 65536. */
  function FrameSoFar(act: byte, cs: seq<Command>, closed: bool): (f: seq<byte>)
    ensures |f| >= 5
  {
    var body := Body(cs, closed);
    Header(act, Wrap16(5 + |body|)) + body
  }

  function Frame(act: byte, cs: seq<Command>): seq<byte> { FrameSoFar(act, cs, true) }

  lemma {:induction false} EscapeConcat(a: seq<byte>, b: seq<byte>)
    ensures Escape(a + b) == Escape(a) + Escape(b)
  {
    if |a| == 0 {
      assert a + b == b;
    } else {
      assert (a + b)[1..] == a[1..] + b;
      EscapeConcat(a[1..], b);
      assert Escape(a + b) == EscapeByte(a[0]) + (Escape(a[1..]) + Escape(b));
    }
  }

  lemma EscapeAppend(a: seq<byte>, b: byte)
    ensures Escape(a + [b]) == Escape(a) + EscapeByte(b)
  {
    EscapeConcat(a, [b]);
    assert [b][1..] == [];
    assert Escape([b]) == EscapeByte(b) + Escape([]);
  }

  lemma {:induction false} PrintAppend(cs: seq<Command>, c: Command)
    ensures PrintCommands(cs + [c]) == PrintCommands(cs) + PrintCommand(c)
  {
    if |cs| == 0 {
      assert [c][1..] == [];
      assert PrintCommands([c]) == PrintCommand(c) + PrintCommands([]);
      assert cs + [c] == [c];
    } else {
      assert (cs + [c])[1..] == cs[1..] + [c];
      PrintAppend(cs[1..], c);
      assert PrintCommands(cs + [c]) == PrintCommand(cs[0]) + (PrintCommands(cs[1..]) + PrintCommand(c));
    }
  }

  /** Escaping at most doubles, so a command costs at most nine bytes and twice its payload. */
  lemma {:induction false} EscapeLength(p: seq<byte>)
    ensures |p| <= |Escape(p)| <= 2 * |p|
  {
    if |p| > 0 { EscapeLength(p[1..]); }
  }

  lemma CommandLength(c: Command)
    ensures 7 + |c.payload| <= |PrintCommand(c)| <= 9 + 2 * |c.payload|
  {
    EscapeLength(Int16Bytes(c.adress) + c.payload);
  }

  // ----- the scan of a message -----

  /** One decoded command: exist, datatype, startadress and the first payloadlenght bytes of payload. */
  datatype Slot = Slot(exist: bool, kind: byte, adress: word, payload: seq<byte>)

  /** The flags and counters of AddMessage; header is -1 until a start mark was seen. */
  datatype Scan = Scan(dle: bool, stx: bool, scd: bool, ecd: bool, index: nat, part: nat, header: int)

  datatype Progress = Go(scan: Scan, slots: seq<Slot>) | Stop(slots: seq<Slot>)

  ghost predicate ScanOk(s: Scan, slots: seq<Slot>) {
    |slots| == MAX_COMMANDS && s.index < MAX_COMMANDS
  }

  /** A byte that is not part of a mark. */
  function TakeByte(s: Scan, slots: seq<Slot>, b: byte, next: byte): Progress
    requires ScanOk(s, slots)
  {
    if s.stx && !s.scd then
      Go(if 0 <= s.header <= 2 then s.(header := s.header + 1) else s, slots)
    else if s.stx && s.scd then
      var slot := slots[s.index];
      if s.part == 0 then Go(s.(part := 1), slots[s.index := slot.(kind := b)])
      else if s.part == 1 then Go(s.(part := 2), slots[s.index := slot.(adress := Join(b, next))])
      else if s.part == 2 then Go(s.(part := 3), slots[s.index := slot.(exist := true, payload := [])])
      else Go(s, slots[s.index := slot.(payload := slot.payload + [b])])
    else Go(s, slots)
  }

  /** One turn of the loop; next is the byte after b in memory. */
  function Step(s: Scan, slots: seq<Slot>, b: byte, next: byte): (r: Progress)
    requires ScanOk(s, slots)
    ensures r.Go? ==> ScanOk(r.scan, r.slots)
    ensures |r.slots| == |slots|
  {
    if b == DLE then
      if 0 <= s.header <= 2 then TakeByte(s, slots, b, next)
      else if !s.dle then Go(s.(dle := true), slots)
      else TakeByte(s.(dle := false), slots, b, next)
    else if b == STX && s.dle then
      Go(s.(stx := true, dle := false, header := 0), slots)
    else if b == ETX && s.dle then
      if s.stx then Stop(slots) else TakeByte(s.(dle := false), slots, b, next)
    else if b == SCD && s.dle then
      if s.scd then Stop(slots)
      else if !s.ecd then Go(s.(scd := true, dle := false), slots)
      else if s.index + 1 >= MAX_COMMANDS then Stop(slots)
      else Go(s.(scd := true, dle := false, ecd := false, index := s.index + 1), slots)
    else if b == ECD && s.dle then
      Go(s.(scd := false, ecd := true, dle := false, part := 0), slots)
    else TakeByte(s, slots, b, next)
  }

  function Next(m: seq<byte>, past: byte): byte { if |m| > 1 then m[1] else past }

  /** The slots left behind by the rest m of a message, and the number AddMessage returns for it. */
  function Run(s: Scan, slots: seq<Slot>, m: seq<byte>, past: byte): (r: (seq<Slot>, nat))
    requires ScanOk(s, slots)
    ensures |r.0| == |slots|
    decreases |m|
  {
    if |m| == 0 then (slots, 1)
    else
      match Step(s, slots, m[0], Next(m, past))
      case Stop(t) => (t, 1)
      case Go(s', t) => var r := Run(s', t, m[1..], past); (r.0, r.1 + 1)
  }

  /** How the switch in the loop of AddMessage ends: with the byte below it, the next turn, or the method. */
  datatype Turn = FallThrough | Continue | Return

  const START: Scan := Scan(false, false, false, false, 0, 0, -1)

  function FirstFree(slots: seq<Slot>): (k: nat)
    ensures k <= |slots|
    ensures k < |slots| ==> !slots[k].exist
    ensures forall i :: 0 <= i < k ==> slots[i].exist
  {
    if |slots| == 0 || !slots[0].exist then 0 else 1 + FirstFree(slots[1..])
  }

  /** AddMessage as a function: new slots and returned number. */
  function Decode(slots: seq<Slot>, m: seq<byte>, past: byte): (r: (seq<Slot>, nat))
    requires |slots| == MAX_COMMANDS
    ensures |r.0| == MAX_COMMANDS
  {
    var k := FirstFree(slots);
    if k == MAX_COMMANDS then (slots, 0) else Run(START.(index := k), slots, m, past)
  }

  // ----- the class -----

  class Mttp {
    var buffer: seq<byte>
    var closed: bool
    var inited: bool
    const decoded_commands: array<Slot>
    ghost var act: byte
    ghost var added: seq<Command>

    ghost predicate Valid() reads this, decoded_commands { decoded_commands.Length == MAX_COMMANDS }

    /** The printer holds a started frame: exactly the commands added so far. */
    ghost predicate Started() reads this {
      inited && buffer == FrameSoFar(act, added, closed)
    }

    constructor (act: byte)
      ensures Valid() && fresh(decoded_commands)
      ensures forall i :: 0 <= i < MAX_COMMANDS ==> !decoded_commands[i].exist
      ensures act == E_NONE ==> !inited && buffer == []
      ensures act != E_NONE ==> Started() && this.act == act && added == [] && closed == (act == E_HEARTBEAT)
    {
      decoded_commands := new Slot[MAX_COMMANDS](i => Slot(false, 0, 0, []));
      inited := false;
      buffer := [];
      new;
      InitBuffer(act);
    }

    method InitBuffer(act: byte)
      modifies this
      ensures act == E_NONE ==> buffer == [] && inited == old(inited) && closed == old(closed)
      ensures act != E_NONE ==> Started() && this.act == act && added == [] && closed == (act == E_HEARTBEAT)
    {
      hide FrameSoFar;
      FreshFrames(act);
      if act == E_NONE {
        buffer := [];
      }
      if act == E_HEARTBEAT {
        buffer := [DLE, STX];
        buffer := buffer + [0x00];
        buffer := buffer + [0x07];
        buffer := buffer + [act];
        buffer := buffer + [DLE, ETX];
        closed := true;
        inited := true;
      } else if act != E_NONE {
        buffer := [DLE, STX];
        buffer := buffer + [0x00];
        buffer := buffer + [0x05];
        buffer := buffer + [act];
        closed := false;
        inited := true;
      }
      if act != E_NONE {
        this.act, added := act, [];
      }
    }

    /**
     A closed buffer stays as it is; any other gets exactly the printed command, and its third and fourth
     byte count on. So a started frame stays one.
     */
    method AddCommand(memtype: byte, command: seq<byte>, lenght: int, adress: word) returns (commandlenght: int)
      requires lenght <= |command|
      modifies this
      ensures inited == old(inited) && closed == old(closed) && act == old(act)
      ensures closed ==> commandlenght == -1 && buffer == old(buffer) && added == old(added)
      ensures !closed ==>
        var c := Command(memtype, adress, if lenght < 0 then [] else command[..lenght]);
        && added == old(added) + [c]
        && commandlenght == |PrintCommand(c)| <= 9 + 2 * |c.payload| && |old(buffer) + PrintCommand(c)| >= 4
        && buffer == Patched(old(buffer) + PrintCommand(c), |PrintCommand(c)|)
      ensures !closed && old(Started()) ==> Started()
    {
      if closed {
        return -1;
      }
      ghost var before, payload := buffer, if lenght < 0 then [] else command[..lenght];
      ghost var c := Command(memtype, adress, payload);
      CommandLength(c);
      hide Escape, PrintCommand, FrameSoFar, Patched, Int16Bytes;
      var startadress := Int16Bytes(adress);
      BothBytes(startadress, adress);
      buffer := buffer + [DLE, SCD, memtype];
      commandlenght := 3;
      var k := PushEscaped(startadress, 2);
      commandlenght := commandlenght + k;
      k := PushEscaped(command, lenght);
      commandlenght := commandlenght + k;
      buffer := buffer + [DLE, ECD];
      commandlenght := commandlenght + 2;
      PrintedCommand(c, before, buffer);
      PatchLenght(commandlenght);
      if before == FrameSoFar(act, added, false) {
        AddedCommand(act, added, c);
      }
      added := added + [c];
    }

    /** Appends the first lenght bytes, an escape byte before each DLE; used for the address and the payload. */
    method PushEscaped(command: seq<byte>, lenght: int) returns (pushed: nat)
      requires lenght <= |command|
      modifies this`buffer
      ensures buffer == old(buffer) + Escape(if lenght < 0 then [] else command[..lenght])
      ensures pushed == |buffer| - |old(buffer)|
    {
      var n := 0;
      pushed := 0;
      while n < lenght
        invariant 0 <= n && (n <= lenght || n == 0)
        invariant buffer == old(buffer) + Escape(command[..n])
        invariant pushed == |buffer| - |old(buffer)|
      {
        EscapeAppend(command[..n], command[n]);
        assert command[..n + 1] == command[..n] + [command[n]];
        if command[n] != DLE {
          buffer := buffer + [command[n]];
          pushed := pushed + 1;
        } else {
          buffer := buffer + [DLE, command[n]];
          pushed := pushed + 2;
        }
        n := n + 1;
      }
    }

    /** The two length bytes are read, increased modulo 65536 and written back. */
    method PatchLenght(commandlenght: nat)
      requires |buffer| >= 4
      modifies this`buffer
      ensures buffer == Patched(old(buffer), commandlenght)
    {
      var old_message_lenght: int := GetInt16(buffer, 2);
      var new_message_lenght := Wrap16(old_message_lenght + commandlenght);
      buffer := buffer[2 := High(new_message_lenght)][3 := Low(new_message_lenght)];
    }

    method CloseBuffer()
      requires inited && !closed ==> Started()
      modifies this
      ensures inited == old(inited) && act == old(act) && added == old(added)
      ensures old(inited && !closed) ==> closed && Started()
      ensures !old(inited && !closed) ==> buffer == old(buffer) && closed == old(closed)
    {
      if inited && !closed {
        hide Escape, PrintCommand, PrintCommands, Body, FrameSoFar;
        BodyClose(added);
        buffer := buffer + [DLE, ETX];
        PatchedLenght(act, added, false, [DLE, ETX], added, true);
        PatchLenght(2);
        closed := true;
      }
    }

    /** Closes an open frame and copies it out, unless it does not fit; asking again gives the same bytes. */
    method GetBuffer(sendbuffer: array<byte>, sendbufferlen: nat) returns (result: int)
      requires inited && !closed ==> Started()
      requires sendbufferlen <= sendbuffer.Length
      modifies this, sendbuffer
      ensures inited == old(inited) && act == old(act) && added == old(added)
      ensures !inited ==> result == -1 && buffer == old(buffer)
      ensures old(Started()) ==> Started() && closed
      ensures old(Started()) ==> result == if |Frame(act, added)| <= sendbufferlen then |Frame(act, added)| else -1
      ensures old(Started()) && result >= 0 ==> result <= sendbuffer.Length && sendbuffer[..result] == Frame(act, added)
      ensures old(inited && closed) ==> closed && buffer == old(buffer)
      ensures forall i :: 0 <= i < sendbuffer.Length && i >= result ==> sendbuffer[i] == old(sendbuffer[i])
    {
      if !inited {
        return -1;
      }
      if !closed {
        CloseBuffer();
      }
      var buffsize := |buffer|;
      if buffsize == 0 {
        return -1;
      } else if sendbufferlen < buffsize {
        return -1;
      } else {
        forall i | 0 <= i < buffsize { sendbuffer[i] := buffer[i]; }
      }
      return buffsize;
    }

    /** The switch in the loop of AddMessage, lines 282-386: marks are dealt with here, other bytes fall through. */
    method SwitchByte(b: byte, dle: bool, stx: bool, scd: bool, ecd: bool, index: nat, part: nat, lenght: nat, header: int,
                      ghost slots: seq<Slot>, ghost next: byte)
      returns (turn: Turn, dlefound: bool, stxfound: bool, scdfound: bool, ecdfound: bool,
               cmdindex: nat, cmdheaderindex: nat, payloadlenght: nat, headerindex: int)
      requires |slots| == MAX_COMMANDS && index < MAX_COMMANDS
      requires part <= 3 && (!scd ==> part == 0) && (part < 3 ==> lenght == 0)
      ensures turn != Return ==> cmdindex < MAX_COMMANDS
      ensures cmdheaderindex <= part && (!scdfound ==> cmdheaderindex == 0) && (cmdheaderindex < 3 ==> payloadlenght == 0)
      ensures cmdheaderindex == 3 ==> cmdindex == index && payloadlenght == lenght
      ensures var r := Step(Scan(dle, stx, scd, ecd, index, part, header), slots, b, next);
              var s := Scan(dlefound, stxfound, scdfound, ecdfound, cmdindex, cmdheaderindex, headerindex);
              match turn
              case Return => r == Stop(slots)
              case Continue => r == Go(s, slots)
              case FallThrough => cmdindex < MAX_COMMANDS && r == TakeByte(s, slots, b, next)
    {
      hide TakeByte;
      dlefound, stxfound, scdfound, ecdfound := dle, stx, scd, ecd;
      cmdindex, cmdheaderindex, payloadlenght, headerindex := index, part, lenght, header;
      turn := FallThrough;
      if b == DLE {
        if headerindex == 0 || headerindex == 1 || headerindex == 2 {
        } else if !dlefound {
          dlefound := true;
          turn := Continue;
        } else {
          dlefound := false;
        }
      } else if b == STX && dlefound {
        stxfound := true;
        dlefound := false;
        headerindex := 0;
        turn := Continue;
      } else if b == ETX && dlefound {
        dlefound := false;
        if stxfound {
          headerindex := 0;
          turn := Return;
        }
      } else if b == SCD && dlefound {
        turn := Continue;
        if !scdfound {
          scdfound := true;
          dlefound := false;
          if ecdfound {
            cmdindex := cmdindex + 1;
            ecdfound := false;
            if cmdindex >= MAX_COMMANDS {
              turn := Return;
            }
          }
        } else {
          turn := Return;
        }
      } else if b == ECD && dlefound {
        scdfound := false;
        ecdfound := true;
        dlefound := false;
        payloadlenght := 0;
        cmdheaderindex := 0;
        turn := Continue;
      }
    }

    /** The end of the loop body of AddMessage, lines 387-447: a byte that is not part of a mark. */
    method StoreByte(b: byte, next: byte, stxfound: bool, scdfound: bool, cmdindex: nat, part: nat, lenght: nat, header: int, ghost s: Scan)
      returns (cmdheaderindex: nat, payloadlenght: nat, headerindex: int)
      requires Valid() && cmdindex < MAX_COMMANDS && part <= 3
      requires s == Scan(s.dle, stxfound, scdfound, s.ecd, cmdindex, part, header)
      requires if part == 3 then lenght == |decoded_commands[cmdindex].payload| else lenght == 0
      requires !scdfound ==> part == 0
      modifies decoded_commands
      ensures cmdheaderindex <= 3 && (!scdfound ==> cmdheaderindex == 0)
      ensures if cmdheaderindex == 3 then payloadlenght == |decoded_commands[cmdindex].payload| else payloadlenght == 0
      ensures TakeByte(s, old(decoded_commands[..]), b, next)
           == Go(s.(part := cmdheaderindex, header := headerindex), decoded_commands[..])
    {
      cmdheaderindex, payloadlenght, headerindex := part, lenght, header;
      if stxfound && !scdfound {
        if headerindex == 0 {
          headerindex := headerindex + 1;
        } else if headerindex == 1 {
          headerindex := headerindex + 1;
        } else if headerindex == 2 {
          headerindex := headerindex + 1;
        }
      } else if stxfound && scdfound {
        var slot := decoded_commands[cmdindex];
        if cmdheaderindex == 0 {
          decoded_commands[cmdindex] := slot.(kind := b);
          cmdheaderindex := cmdheaderindex + 1;
        } else if cmdheaderindex == 1 {
          decoded_commands[cmdindex] := slot.(adress := Join(b, next));
          cmdheaderindex := cmdheaderindex + 1;
        } else if cmdheaderindex == 2 {
          decoded_commands[cmdindex] := slot.(exist := true, payload := []);
          cmdheaderindex := cmdheaderindex + 1;
        } else {
          assert slot.payload[..payloadlenght] == slot.payload;
          decoded_commands[cmdindex] := slot.(payload := slot.payload[..payloadlenght] + [b]);
          payloadlenght := payloadlenght + 1;
        }
      }
    }

    /** The first loop of AddMessage, lines 263-272. */
    method FirstFreeSlot() returns (cmdindex: int)
      requires Valid()
      ensures var k := FirstFree(decoded_commands[..]); cmdindex == if k == MAX_COMMANDS then -1 else k
    {
      cmdindex := -1;
      var n := 0;
      assert decoded_commands[0..] == decoded_commands[..];
      while n < MAX_COMMANDS
        invariant 0 <= n <= MAX_COMMANDS && cmdindex == -1
        invariant FirstFree(decoded_commands[..]) == n + FirstFree(decoded_commands[n..])
      {
        if !decoded_commands[n].exist {
          cmdindex := n;
          break;
        }
        assert decoded_commands[n..][1..] == decoded_commands[n + 1..];
        n := n + 1;
      }
    }

    /**
     mttp.c, lines 250-453. The message is given with the byte that follows it in memory, because an
     address whose high byte comes last is completed from there.
     */
    method AddMessage(message: seq<byte>, past: byte) returns (processed: int)
      requires Valid()
      modifies decoded_commands
      ensures (decoded_commands[..], processed) == Decode(old(decoded_commands[..]), message, past)
    {
      var n;
      var lenght := |message|;
      var dlefound, stxfound, scdfound, ecdfound := false, false, false, false;
      var cmdindex := -1;
      var cmdheaderindex := 0;
      var payloadlenght := 0;
      var headerindex := -1;
      cmdindex := FirstFreeSlot();
      if cmdindex == -1 {
        return 0;
      }
      n := 0;
      assert message[0..] == message;
      ghost var s := START.(index := cmdindex);
      ghost var end := Run(s, decoded_commands[..], message, past);
      hide TakeByte, Step, Next, FirstFree, RunsTo;
      while n < lenght
        invariant 0 <= n <= lenght
        invariant 0 <= cmdindex < MAX_COMMANDS && 0 <= cmdheaderindex <= 3
        invariant !scdfound ==> cmdheaderindex == 0
        invariant if cmdheaderindex == 3 then payloadlenght == |decoded_commands[cmdindex].payload| else payloadlenght == 0
        invariant s == Scan(dlefound, stxfound, scdfound, ecdfound, cmdindex, cmdheaderindex, headerindex)
        invariant RunsTo(s, decoded_commands[..], message, past, n, end)
      {
        var turn;
        ghost var slots, next := decoded_commands[..], Next(message[n..], past);
        RunOne(s, slots, message, past, n, end);
        turn, dlefound, stxfound, scdfound, ecdfound, cmdindex, cmdheaderindex, payloadlenght, headerindex :=
          SwitchByte(message[n], dlefound, stxfound, scdfound, ecdfound, cmdindex, cmdheaderindex, payloadlenght, headerindex, slots, next);
        if turn == Return {
          return n + 1;
        }
        s := Scan(dlefound, stxfound, scdfound, ecdfound, cmdindex, cmdheaderindex, headerindex);
        if turn == Continue {
          n := n + 1;
          continue;
        }
        cmdheaderindex, payloadlenght, headerindex := StoreByte(message[n], if n + 1 < lenght then message[n + 1] else past,
          stxfound, scdfound, cmdindex, cmdheaderindex, payloadlenght, headerindex, s);
        s := s.(part := cmdheaderindex, header := headerindex);
        n := n + 1;
      }
      RunOver(s, decoded_commands[..], message, past, n, end);
      return n + 1;
    }

    /** Takes the command out of a slot: its payload, or -1 when there is none or it does not fit. */
    method GetCommand(command: array<byte>, commandsize: nat, index: nat)
      returns (result: int, memtype: byte, startadress: word)
      requires Valid() && commandsize <= command.Length
      modifies decoded_commands, command
      ensures index >= MAX_COMMANDS || !old(decoded_commands[index].exist) || |old(decoded_commands[index].payload)| > commandsize
        ==> result == -1 && decoded_commands[..] == old(decoded_commands[..]) && command[..] == old(command[..])
      ensures index < MAX_COMMANDS && old(decoded_commands[index].exist) && |old(decoded_commands[index].payload)| <= commandsize
        ==> var slot := old(decoded_commands[index]);
            && result == |slot.payload| && memtype == slot.kind && startadress == slot.adress
            && command[..] == slot.payload + old(command[..])[|slot.payload|..]
            && decoded_commands[..] == old(decoded_commands[..])[index := slot.(exist := false)]
    {
      memtype, startadress := 0, 0;
      if index >= MAX_COMMANDS {
        return -1, memtype, startadress;
      }
      var slot := decoded_commands[index];
      if !slot.exist {
        return -1, memtype, startadress;
      }
      if |slot.payload| > commandsize {
        return -1, memtype, startadress;
      }
      memtype := slot.kind;
      startadress := slot.adress;
      forall i | 0 <= i < |slot.payload| { command[i] := slot.payload[i]; }
      decoded_commands[index] := slot.(exist := false);
      result := |slot.payload|;
    }
  }

  lemma PrintedCommand(c: Command, before: seq<byte>, after: seq<byte>)
    requires after == before + [DLE, SCD, c.kind] + Escape(Int16Bytes(c.adress)) + Escape(c.payload) + [DLE, ECD]
    ensures after == before + PrintCommand(c)
  {
    hide Escape;
    EscapeConcat(Int16Bytes(c.adress), c.payload);
  }

  lemma BothBytes(s: seq<byte>, adress: word)
    requires s == Int16Bytes(adress)
    ensures |s| == 2 && s[..2] == s
  {}

  lemma FreshFrames(act: byte)
    ensures FrameSoFar(act, [], false) == [DLE, STX] + [0x00] + [0x05] + [act]
    ensures FrameSoFar(act, [], true) == [DLE, STX] + [0x00] + [0x07] + [act] + [DLE, ETX]
  {}

  /** A frame with one more command and counted on is the frame of one more command. */
  lemma AddedCommand(act: byte, cs: seq<Command>, c: Command)
    ensures Patched(FrameSoFar(act, cs, false) + PrintCommand(c), |PrintCommand(c)|) == FrameSoFar(act, cs + [c], false)
  {
    hide Escape, FrameSoFar, Patched, Body;
    BodyAppend(cs, c);
    hide PrintCommand;
    PatchedLenght(act, cs, false, PrintCommand(c), cs + [c], false);
  }

  lemma BodyAppend(cs: seq<Command>, c: Command)
    ensures Body(cs + [c], false) == Body(cs, false) + PrintCommand(c)
  {
    hide PrintCommands, PrintCommand;
    PrintAppend(cs, c);
  }

  lemma BodyClose(cs: seq<Command>)
    ensures Body(cs, true) == Body(cs, false) + [DLE, ETX]
  {
    hide PrintCommands;
  }

  function Patched(b: seq<byte>, more: nat): (r: seq<byte>)
    requires |b| >= 4
    ensures |r| == |b|
  {
    var lenght := Wrap16(GetInt16(b, 2) as int + more);
    b[2 := High(lenght)][3 := Low(lenght)]
  }

  lemma PatchedHeader(act: byte, lenght: word, rest: seq<byte>, more: nat)
    ensures Patched(Header(act, lenght) + rest, more) == Header(act, Wrap16(lenght as int + more)) + rest
  {
    hide High, Low, Join, Wrap16;
    var b := Header(act, lenght) + rest;
    assert b[2] == High(lenght) && b[3] == Low(lenght);
    JoinParts(lenght);
  }

  /** Adding a tail and then its length, modulo 65536, to the two length bytes keeps them right. */
  lemma PatchedLenght(act: byte, cs: seq<Command>, closed: bool, tail: seq<byte>, cs': seq<Command>, closed': bool)
    requires Body(cs', closed') == Body(cs, closed) + tail
    ensures Patched(FrameSoFar(act, cs, closed) + tail, |tail|) == FrameSoFar(act, cs', closed')
  {
    hide Body, Patched, Wrap16;
    var body := Body(cs, closed);
    var lenght := Wrap16(5 + |body|);
    assert FrameSoFar(act, cs, closed) + tail == Header(act, lenght) + (body + tail);
    PatchedHeader(act, lenght, body + tail, |tail|);
    WrapAdd(5 + |body|, |tail|);
  }

  /** The rest of a message from byte n on runs to the end of all of it. */
  ghost predicate RunsTo(s: Scan, slots: seq<Slot>, m: seq<byte>, past: byte, n: nat, end: (seq<Slot>, nat)) {
    ScanOk(s, slots) && n <= |m| && Run(s, slots, m[n..], past) == (end.0, end.1 - n)
  }

  lemma RunOne(s: Scan, slots: seq<Slot>, m: seq<byte>, past: byte, n: nat, end: (seq<Slot>, nat))
    requires RunsTo(s, slots, m, past, n, end) && n < |m|
    ensures ScanOk(s, slots)
    ensures match Step(s, slots, m[n], Next(m[n..], past))
            case Stop(t) => end == (t, n + 1)
            case Go(s', t) => RunsTo(s', t, m, past, n + 1, end)
  {
    hide Step;
    assert m[n..][1..] == m[n + 1..];
  }

  lemma RunOver(s: Scan, slots: seq<Slot>, m: seq<byte>, past: byte, n: nat, end: (seq<Slot>, nat))
    requires RunsTo(s, slots, m, past, n, end) && n == |m|
    ensures end == (slots, n + 1)
  {
    assert m[n..] == [];
    RunOfNothing(s, slots, past);
  }

  lemma RunOfNothing(s: Scan, slots: seq<Slot>, past: byte)
    requires ScanOk(s, slots)
    ensures Run(s, slots, [], past) == (slots, 1)
  {}
}
