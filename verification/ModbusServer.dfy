/** Answering a Modbus TCP master from the register table (modbusserver.c). */
module ModbusServer {
  import opened Bytes
  import opened Table
  import opened TableProofs
  import opened Config
  import Memory

  const MAX_REG: nat := 100
  const MAX_BUFFER_SIZE: nat := 256

  /** A request as far as process() looks at it. */
  datatype Request = Request(id: word, proto: word, unitid: byte, fcode: byte, address: word, number: word)

  function RequestOf(buffer: seq<byte>): Request
    requires |buffer| >= 12
  {
    Request(GetInt16(buffer, 0), GetInt16(buffer, 2), buffer[6], buffer[7], GetInt16(buffer, 8), GetInt16(buffer, 10))
  }

  /** The last address asked for, in the 16 bits of GetRegister's parameter. */
  function LastAddress(q: Request): word { Wrap16(q.address + (q.number - 1)) }

  /** The registers answered, if any are. */
  function Answered(t: seq<Reg>, q: Request): seq<Reg>
    requires |t| > 0
  {
    RegRange(t, q.address, LastAddress(q))
  }

  predicate Served(t: seq<Reg>, q: Request)
    requires |t| > 0
  {
    q.fcode == 0x04 && q.number <= MAX_REG && StartIndex(RegAdresses(t), q.address) >= 0 && |Answered(t, q)| <= MAX_REG
  }

  /** A frame: transaction, protocol, length of what follows, unit, function, data. */
  function Adu(q: Request, fcode: byte, data: seq<byte>): seq<byte>
    requires |data| < 0xFFFE
  {
    Int16Bytes(q.id) + Int16Bytes(q.proto) + Int16Bytes((|data| + 2) as word) + [q.unitid, fcode] + data
  }

  function ErrorAdu(q: Request): seq<byte> { Adu(q, (q.fcode + 0x80) % 0x100, [0x02]) }

  function AnswerAdu(t: seq<Reg>, q: Request): seq<byte>
    requires |t| > 0 && Served(t, q)
  {
    Adu(q, q.fcode, [(2 * |Answered(t, q)|) as byte] + Pack(ReadRegs(Answered(t, q), true)))
  }

  class ModbusServer {
    const memory: Memory.Memory
    const buffer: array<byte>

    constructor (memory: Memory.Memory)
      ensures this.memory == memory && fresh(buffer) && buffer.Length == MAX_BUFFER_SIZE
    {
      this.memory := memory;
      buffer := new byte[MAX_BUFFER_SIZE];
    }

    /** modbusserver.c, lines 195-273. sent is what goes to the socket. */
    method Process(valread: int) returns (result: int, sent: seq<byte>)
      requires memory.Valid() && buffer.Length == MAX_BUFFER_SIZE && valread <= MAX_BUFFER_SIZE
      ensures valread < 12 ==> result == -1 && sent == []
      ensures valread >= 12 ==>
        var q := RequestOf(buffer[..12]);
        if Served(memory.Register[..], q) then result == 1 && sent == AnswerAdu(memory.Register[..], q)
        else result == -1 && sent == ErrorAdu(q)
      ensures valread >= 12 ==> RightAnswer(memory.Register[..], buffer[..12], sent)
    {
      ghost var t := memory.Register[..];
      BytesAnswered(t, buffer[..12]);
      if valread < 12 {
        return -1, [];
      }
      var q := RequestOf(buffer[..12]);
      var errorresp := ErrorResponse(q);
      hide Adu, StartIndex, RegAdresses, RegRange, ReadRegs, RightAnswer, RegsOk;
      if q.fcode == 0x04 && q.number <= MAX_REG {
        var registers := new word[MAX_REG];
        var count := memory.GetRegister(q.address, LastAddress(q), registers, MAX_REG, true);
        if count < 0 {
          return -1, errorresp[..];
        }
        sent := Respond(q, registers, count);
        return 1, sent;
      } else {
        return -1, errorresp[..];
      }
    }

    /** Lines 221-227. */
    method ErrorResponse(q: Request) returns (errorresp: array<byte>)
      ensures fresh(errorresp) && errorresp[..] == ErrorAdu(q)
    {
      errorresp := new byte[9];
      Memory.Memory.SetInt16(errorresp, 0, q.id);
      Memory.Memory.SetInt16(errorresp, 2, q.proto);
      Memory.Memory.SetInt16(errorresp, 4, 3);
      errorresp[6] := q.unitid;
      errorresp[7] := (q.fcode + 0x80) % 0x100;
      errorresp[8] := 0x02;
    }

    /** Lines 238-257: filling in the response. */
    method Respond(q: Request, registers: array<word>, count: nat) returns (sent: seq<byte>)
      requires count <= MAX_REG <= registers.Length
      ensures sent == Adu(q, q.fcode, [(2 * count) as byte] + Pack(registers[..count]))
    {
      var response := ResponseHead(q, count);
      ghost var head := response[..9];
      hide Pack;
      var resplenght := CopyRegisters(response, registers, count);
      ghost var filled := response[..9 + 2 * count];
      Memory.Memory.SetInt16(response, 4, resplenght);
      sent := response[..resplenght + 6];
      LengthPutIn(sent, filled, resplenght, head, Pack(registers[..count]));
    }

    /** Lines 238-247; the length is put in at the end. */
    method ResponseHead(q: Request, count: nat) returns (response: array<byte>)
      requires count <= MAX_REG
      ensures fresh(response) && response.Length == MAX_BUFFER_SIZE
      ensures response[..9][..4] == Int16Bytes(q.id) + Int16Bytes(q.proto) && response[..9][6..] == [q.unitid, q.fcode, (2 * count) as byte]
    {
      response := new byte[MAX_BUFFER_SIZE];
      Memory.Memory.SetInt16(response, 0, q.id);
      Memory.Memory.SetInt16(response, 2, q.proto);
      response[6] := q.unitid;
      response[7] := q.fcode;
      response[8] := (count * 2) as byte;
    }

    method CopyRegisters(response: array<byte>, registers: array<word>, count: nat) returns (resplenght: nat)
      requires count <= MAX_REG <= registers.Length && response.Length == MAX_BUFFER_SIZE
      modifies response
      ensures resplenght == 3 + 2 * count
      ensures response[..9 + 2 * count] == old(response[..9]) + Pack(registers[..count])
    {
      ghost var head := response[..9];
      resplenght := 3;
      var index, i := 9, 0;
      while i < count
        invariant 0 <= i <= count && index == 9 + 2 * i && resplenght == 3 + 2 * i
        invariant response[..index] == head + Pack(registers[..i])
      {
        PackAppend(registers[..i], registers[i]);
        assert registers[..i + 1] == registers[..i] + [registers[i]];
        Memory.Memory.SetInt16(response, index, registers[i]);
        index := index + 2;
        resplenght := resplenght + 2;
        i := i + 1;
      }
    }
  }

  lemma LengthPutIn(sent: seq<byte>, filled: seq<byte>, lenght: word, head: seq<byte>, data: seq<byte>)
    requires |head| == 9 && filled == head + data && |sent| == |filled|
    requires forall k :: 0 <= k < |sent| ==> sent[k] == if k == 4 then High(lenght) else if k == 5 then Low(lenght) else filled[k]
    ensures sent == head[..4] + Int16Bytes(lenght) + head[6..] + data
  {}

  // ----- what a master can rely on -----

  /**
   The range read has at most as many registers as were asked for, but for the one request that wraps
   around: no registers from address 0 on mean all there are.
   */
  lemma AtMostNumber(t: seq<Reg>, q: Request)
    requires RegsOk(t)
    ensures |Answered(t, q)| <= q.number <==> q.number > 0 || q.address > 0 || t[0].empty
    ensures q.number == 0 && q.address == 0 ==> Answered(t, q) == Within(t, 0, 0xFFFF)
  {
    if q.number == 0 && q.address == 0 {
      RangeIsFilter(t, 0, 0xFFFF);
      EndIndexOfAll(t);
    } else {
      AtMost(t, q);
    }
  }

  lemma EndIndexOfAll(t: seq<Reg>)
    requires RegsOk(t)
    ensures RegRange(t, 0, 0xFFFF) == [] <==> t[0].empty
  {
    var a := RegAdresses(t);
    RangePlaces(a, 0, 0xFFFF, 0);
  }

  lemma AtMost(t: seq<Reg>, q: Request)
    requires RegsOk(t) && (q.number > 0 || q.address > 0)
    ensures |Answered(t, q)| <= q.number
  {
    var a := RegAdresses(t);
    var i := StartIndex(a, q.address);
    var end := LastAddress(q);
    if i >= 0 {
      var e := EndIndex(a, i, end);
      if i < e {
        RangePlaces(a, q.address, end, i);
        Pigeonhole(a, i, e);
      }
    }
  }

  lemma {:induction false} Neighbours(a: seq<word>, address: word, k: nat)
    requires Ordered(a) && address + k < NO_ADRESS && forall x: word :: address <= x <= address + k ==> x in a
    ensures Find(a, address) >= 0 && Find(a, address + k) == Find(a, address) + k
  {
    assert address in a && Find(a, address) >= 0;
    if k > 0 {
      Neighbours(a, address, k - 1);
      assert address + k in a;
      NextPlace(a, (address + k - 1) as word);
    }
  }

  /** If every address of a stretch is in the table, all of them are answered. */
  lemma AllThere(a: seq<word>, address: word, last: word)
    requires Ordered(a) && |a| > 0 && address <= last < NO_ADRESS && forall x: word :: address <= x <= last ==> x in a
    ensures StartIndex(a, address) >= 0 && EndIndex(a, StartIndex(a, address), last) - StartIndex(a, address) > last - address
  {
    Neighbours(a, address, last - address);
    assert a[0] >= address || a[0] < a[Find(a, address)];
    RangePlaces(a, address, last, Find(a, last));
  }

  /** If as many are answered as a stretch is wide, none of its addresses is missing. */
  lemma NoneMissing(a: seq<word>, address: word, last: word, x: word)
    requires Ordered(a) && |a| > 0 && address <= x <= last < NO_ADRESS && StartIndex(a, address) >= 0
    requires EndIndex(a, StartIndex(a, address), last) - StartIndex(a, address) == last - address + 1
    ensures x in a
  {
    var i := StartIndex(a, address);
    var e := EndIndex(a, i, last);
    var j := i + (x - address);
    RangePlaces(a, address, last, i);
    Pigeonhole(a, i, j + 1);
    Pigeonhole(a, j, e);
    assert a[j] == x;
  }

  lemma ExactlyInside(t: seq<Reg>, q: Request)
    requires RegsOk(t) && q.number > 0 && q.address + q.number <= NO_ADRESS
    ensures |Answered(t, q)| == q.number <==> forall x: word :: q.address <= x < q.address + q.number ==> x in RegAdresses(t)
  {
    AtMost(t, q);
    hide RegsOk, Answered;
    if |Answered(t, q)| == q.number { AllAnswered(t, q); }
    if forall x: word :: q.address <= x < q.address + q.number ==> x in RegAdresses(t) { AllInTable(t, q); }
  }

  lemma AllAnswered(t: seq<Reg>, q: Request)
    requires RegsOk(t) && q.number > 0 && q.address + q.number <= NO_ADRESS && |Answered(t, q)| == q.number
    ensures forall x: word :: q.address <= x < q.address + q.number ==> x in RegAdresses(t)
  {
    var a, last := RegAdresses(t), LastAddress(q);
    assert last == q.address + q.number - 1 && StartIndex(a, q.address) >= 0;
    assert EndIndex(a, StartIndex(a, q.address), last) - StartIndex(a, q.address) == last - q.address + 1;
    hide StartIndex, EndIndex, RegAdresses;
    forall x: word | q.address <= x <= last ensures x in a { NoneMissing(a, q.address, last, x); }
  }

  lemma AllInTable(t: seq<Reg>, q: Request)
    requires RegsOk(t) && q.number > 0 && q.address + q.number <= NO_ADRESS
    requires forall x: word :: q.address <= x < q.address + q.number ==> x in RegAdresses(t)
    ensures |Answered(t, q)| >= q.number
  {
    AllThere(RegAdresses(t), q.address, LastAddress(q));
    hide StartIndex, EndIndex, RegAdresses, RegsOk;
  }

  /** A register in use has the address x. */
  ghost predicate InUse(t: seq<Reg>, x: int) { exists j :: 0 <= j < |t| && !t[j].empty && t[j].adress == x }

  /**
   Whatever is asked for: as many registers are answered if and only if every address asked for, those
   behind the last possible one included, has a register. The one exception is 0 registers from address 0.
   */
  lemma ExactlyNumber(t: seq<Reg>, q: Request)
    requires RegsOk(t) && (q.number > 0 || q.address > 0 || t[0].empty)
    ensures |Answered(t, q)| == q.number <==> forall x: int :: q.address <= x < q.address + q.number ==> InUse(t, x)
  {
    AtMostNumber(t, q);
    if q.number > 0 && q.address + q.number <= NO_ADRESS {
      ExactlyInside(t, q);
      forall x: word | x < NO_ADRESS ensures InUse(t, x) <==> x in RegAdresses(t) { UsedIsThere(t, x); }
      hide RegsOk, Answered, InUse;
      assert forall x: int :: q.address <= x < q.address + q.number ==> (InUse(t, x) <==> x in RegAdresses(t));
    } else if q.number > 0 {
      PastTheEnd(t, q);
      assert !InUse(t, NO_ADRESS);
      hide RegsOk, Answered, InUse;
      assert q.address <= NO_ADRESS as int < q.address + q.number;
    }
  }

  lemma UsedIsThere(t: seq<Reg>, x: word)
    requires RegsOk(t) && x < NO_ADRESS
    ensures InUse(t, x) <==> x in RegAdresses(t)
  {
    var a := RegAdresses(t);
    if x in a {
      var j :| 0 <= j < |a| && a[j] == x;
      assert !t[j].empty && t[j].adress == x;
    }
    if j :| 0 <= j < |t| && !t[j].empty && t[j].adress == x { assert a[j] == x; }
  }

  /** A stretch that runs past the last possible address is never answered in full. */
  lemma PastTheEnd(t: seq<Reg>, q: Request)
    requires RegsOk(t) && q.address + q.number > NO_ADRESS && q.number > 0
    ensures |Answered(t, q)| < q.number
  {
    var a := RegAdresses(t);
    var i := StartIndex(a, q.address);
    if i >= 0 {
      var e := EndIndex(a, i, LastAddress(q));
      if i < e {
        RangePlaces(a, q.address, LastAddress(q), i);
        Pigeonhole(a, i, e);
      }
    }
  }

  /** Two registers from address 0x3008 on, of the table as Clean sets it up: one is answered, as there is none at 0x3009. */
  lemma OneOfTwo(t: seq<Reg>, q: Request)
    requires |t| == MAXREG && q.address == 0x3008 && q.number == 2
    ensures |Answered(Memory.CleanRegs(t, RegList()), q)| == 1
  {
    var r := Memory.CleanRegs(t, RegList());
    ListsIncreasing();
    Memory.CleanRegsOk(t, RegList());
    assert RegList()[8] == 0x3008 && RegList()[9] == 0x300E;
    hide RegList;
    var a := RegAdresses(r);
    assert a[8] == 0x3008 && a[9] == 0x300E;
    assert 0x3009 !in a;
    ExactlyInside(r, q);
    AtMost(r, q);
    AllThere(a, 0x3008, 0x3008);
    RangePlaces(a, 0x3008, 0x3009, 8);
  }

  /** Requests with function 4 and a permitted number fail for one of two reasons only. */
  lemma NotServed(t: seq<Reg>, q: Request)
    requires RegsOk(t) && q.fcode == 0x04 && q.number <= MAX_REG
    ensures !Served(t, q) <==>
      StartIndex(RegAdresses(t), q.address) < 0 || (q.address == 0 && q.number == 0 && |Within(t, 0, 0xFFFF)| > MAX_REG)
  {
    AtMostNumber(t, q);
  }

  /** A frame whose length field counts the bytes behind it. */
  ghost predicate Consistent(q: Request, frame: seq<byte>) {
    && 9 <= |frame| <= 209
    && GetInt16(frame, 0) == q.id && GetInt16(frame, 2) == q.proto && GetInt16(frame, 4) == |frame| - 6 && frame[6] == q.unitid
  }

  /**
   Every answer fits the buffer, repeats the identification of the request and states its own length;
   a normal one has as many data bytes as its byte count says, two for each register of the range in
   address order; an error one has the function code with the high bit turned and code 2.
   */
  lemma AnswerConsistent(t: seq<Reg>, q: Request)
    requires RegsOk(t)
    ensures Consistent(q, ErrorAdu(q)) && |ErrorAdu(q)| == 9
    ensures ErrorAdu(q)[7] == (if q.fcode < 0x80 then q.fcode + 0x80 else q.fcode - 0x80) && ErrorAdu(q)[8] == 2
    ensures Served(t, q) ==>
      var frame := AnswerAdu(t, q);
      && Consistent(q, frame) && frame[7] == q.fcode && frame[8] == |frame| - 9 <= 200
      && Unpack(frame[9..]) == ReadRegs(Within(t, q.address, LastAddress(q)), true)
  {
    ErrorConsistent(q);
    hide ErrorAdu;
    if Served(t, q) {
      hide RegsOk, Within, StartIndex, RegAdresses, ReadRegs, Pack, Unpack, Adu, Consistent, LastAddress;
      RangeIsFilter(t, q.address, LastAddress(q));
      hide RegRange;
      DataConsistent(q, ReadRegs(Answered(t, q), true));
    }
  }

  lemma ErrorConsistent(q: Request)
    ensures Consistent(q, ErrorAdu(q)) && |ErrorAdu(q)| == 9
    ensures ErrorAdu(q)[7] == (if q.fcode < 0x80 then q.fcode + 0x80 else q.fcode - 0x80) && ErrorAdu(q)[8] == 2
  {
    hide Adu, Consistent;
    HighBitTurned(q.fcode);
    AduConsistent(q, (q.fcode + 0x80) % 0x100, [0x02]);
  }

  lemma HighBitTurned(b: byte)
    ensures (b + 0x80) % 0x100 == if b < 0x80 then b + 0x80 else b - 0x80
  {}

  lemma DataConsistent(q: Request, ws: seq<word>)
    requires |ws| <= MAX_REG
    ensures var frame := Adu(q, q.fcode, [(2 * |ws|) as byte] + Pack(ws));
            Consistent(q, frame) && frame[7] == q.fcode && frame[8] == |frame| - 9 <= 200 && Unpack(frame[9..]) == ws
  {
    hide Pack, Unpack, Adu, Consistent;
    UnpackPack(ws);
    AduConsistent(q, q.fcode, [(2 * |ws|) as byte] + Pack(ws));
  }

  lemma AduConsistent(q: Request, fcode: byte, data: seq<byte>)
    requires 1 <= |data| <= 201
    ensures var frame := Adu(q, fcode, data);
            && |frame| == 8 + |data| && Consistent(q, frame) && frame[7] == fcode && frame[8] == data[0] && frame[9..] == data[1..]
  {
    JoinParts(q.id);
    JoinParts(q.proto);
    JoinParts((|data| + 2) as word);
    hide High, Low, Join;
  }

  // ----- the answer read off the bytes of the request -----

  /** A frame that repeats the head of a request and has these registers, of each the override if it has one, or its value. */
  ghost predicate Carries(b: seq<byte>, range: seq<Reg>, frame: seq<byte>)
    requires |b| >= 12
  {
    && |frame| == 9 + 2 * |range| && frame[..4] == b[..4] && (frame[4] as int) * 0x100 + frame[5] == 3 + 2 * |range|
    && frame[6] == b[6] && frame[7] == 4 && frame[8] == 2 * |range|
    && forall k :: 0 <= k < |range| ==>
         (frame[9 + 2 * k] as int) * 0x100 + frame[10 + 2 * k] == if range[k].haveAlternate then range[k].alternate else range[k].value
  }

  /**
   Function 4 with a number of up to 100, from a start that is 0 or in the table: the registers in use from there on,
   so many addresses far, are answered. Anything else gets the error frame. (A stretch that runs past the last
   address wraps around, and is empty but for none from address 0 on.)
   */
  ghost predicate RightAnswer(t: seq<Reg>, b: seq<byte>, frame: seq<byte>)
    requires |b| >= 12
  {
    var address: word, number: word := (b[8] as int) * 0x100 + b[9], (b[10] as int) * 0x100 + b[11];
    var range := Within(t, address, (address + (number - 1)) % 0x1_0000);
    if b[7] == 4 && number <= 100 && (address == 0 || address in RegAdresses(t)) && |range| <= 100 then Carries(b, range, frame)
    else frame == b[..4] + [0, 3, b[6], if b[7] < 0x80 then b[7] + 0x80 else b[7] - 0x80, 2]
  }

  lemma BytesAnswered(t: seq<Reg>, b: seq<byte>)
    requires RegsOk(t) && |b| == 12
    ensures var q := RequestOf(b); RightAnswer(t, b, if Served(t, q) then AnswerAdu(t, q) else ErrorAdu(q))
  {
    assert |t| > 0;
    hide RegsOk, RightAnswer, Served, RequestOf;
    if Served(t, RequestOf(b)) { NormalBytes(t, b); } else { ErrorBytes(t, b); }
  }

  lemma NormalBytes(t: seq<Reg>, b: seq<byte>)
    requires RegsOk(t) && |b| == 12 && Served(t, RequestOf(b))
    ensures RightAnswer(t, b, AnswerAdu(t, RequestOf(b)))
  {
    HeadIs(b, RequestOf(b));
    NormalFrame(t, b, RequestOf(b));
    hide Within, RegsOk, Served, RequestOf, AnswerAdu, Answered, RegAdresses, Carries, LastAddress, Int16Bytes, ErrorAdu;
  }

  lemma NormalFrame(t: seq<Reg>, b: seq<byte>, q: Request)
    requires RegsOk(t) && |b| == 12 && Served(t, q) && q.unitid == b[6] && Int16Bytes(q.id) + Int16Bytes(q.proto) == b[..4]
    ensures q.fcode == 4 && q.number <= 100 && (q.address == 0 || q.address in RegAdresses(t))
    ensures var range := Within(t, q.address, LastAddress(q)); |range| <= 100 && Carries(b, range, AnswerAdu(t, q))
  {
    assert |t| > 0;
    hide Within, Pack, ReadRegs, RegRange, RegsOk, Adu, Served, Int16Bytes, LastAddress, Answered, RegAdresses, Carries;
    ServedIff(t, q);
    WordsIn(b, q, Answered(t, q));
  }

  lemma ErrorBytes(t: seq<Reg>, b: seq<byte>)
    requires RegsOk(t) && |b| == 12 && !Served(t, RequestOf(b))
    ensures RightAnswer(t, b, ErrorAdu(RequestOf(b)))
  {
    hide Within, RegsOk, ErrorAdu, Served, RequestOf, Int16Bytes, LastAddress, Answered, RegAdresses;
    ServedIff(t, RequestOf(b));
    HeadIs(b, RequestOf(b));
  }

  lemma ServedIff(t: seq<Reg>, q: Request)
    requires RegsOk(t)
    ensures var range := Within(t, q.address, LastAddress(q));
            && (Served(t, q) <==> q.fcode == 4 && q.number <= 100 && (q.address == 0 || q.address in RegAdresses(t)) && |range| <= 100)
            && (Served(t, q) ==> Answered(t, q) == range)
  {
    RangeIsFilter(t, q.address, LastAddress(q));
    hide Within, RegRange, RegsOk, LastAddress;
  }

  lemma HeadIs(b: seq<byte>, q: Request)
    requires |b| == 12 && q == RequestOf(b)
    ensures Int16Bytes(q.id) + Int16Bytes(q.proto) == b[..4] && q.unitid == b[6] && q.fcode == b[7]
    ensures q.address == (b[8] as int) * 0x100 + b[9] && q.number == (b[10] as int) * 0x100 + b[11]
    ensures LastAddress(q) == (q.address + (q.number - 1)) % 0x1_0000
    ensures ErrorAdu(q) == b[..4] + [0, 3, b[6], if b[7] < 0x80 then b[7] + 0x80 else b[7] - 0x80, 2]
  {
    BytesOf(b[0], b[1]);
    BytesOf(b[2], b[3]);
    BytesOf(0, 3);
    HighBitTurned(b[7]);
    hide Int16Bytes;
    assert b[..4] == [b[0], b[1]] + [b[2], b[3]];
  }

  lemma BytesOf(high: byte, low: byte)
    ensures Int16Bytes(Join(high, low)) == [high, low]
  {}

  lemma WordsIn(b: seq<byte>, q: Request, range: seq<Reg>)
    requires |range| <= MAX_REG && |b| == 12 && q.fcode == 4 && q.unitid == b[6] && Int16Bytes(q.id) + Int16Bytes(q.proto) == b[..4]
    ensures Carries(b, range, Adu(q, q.fcode, [(2 * |range|) as byte] + Pack(ReadRegs(range, true))))
  {
    var ws := ReadRegs(range, true);
    hide Pack;
    var frame := Adu(q, q.fcode, [(2 * |range|) as byte] + Pack(ws));
    assert frame[9..] == Pack(ws) && frame[..4] == b[..4];
    forall k | 0 <= k < |range| ensures (frame[9 + 2 * k] as int) * 0x100 + frame[10 + 2 * k] == ws[k] {
      PackedWord(ws, k);
      assert frame[9 + 2 * k] == Pack(ws)[2 * k] && frame[10 + 2 * k] == Pack(ws)[2 * k + 1];
    }
  }
}
