/**
 One request of the display (display.c, lines 93-180): answered from the stored registers when it is a
 known one, put through to the charge controller when it is not, directly or as text over the network.
 */
module Display {
  import opened Bytes
  import opened Table
  import opened TableProofs
  import opened Modbus
  import opened HexTunnel
  import opened MtcpServer
  import Memory

  /** The frame of an answer; an empty one is not sent, nor one that is too long. */
  function Sendable(answer: seq<byte>): seq<bv8> { if 0 < |answer| <= 254 then Framed(Narrow(answer)) else [] }

  /** What the table has to say to a request it knows. */
  function StoredAnswer(m: Mem, query: seq<byte>): seq<byte>
    requires |query| >= 8 && |m.discs| > 0
  {
    if SwitchesOff(query) then []
    else if AsksInfo(query, 1) then m.info1
    else if AsksInfo(query, 2) then m.info2
    else if AsksDiscrete(query) then DiscreteAnswer(m.discs, MODBUS_RTU_MAX_ADU_LENGTH)
    else Reply(m, KnownRange(query))
  }

  class Display {
    /** The line to the display. */
    const ctx: Modbus
    const memory: Memory.Memory
    /** The machine the charge controller hangs on: this one, or the other end of the network. */
    const client: MtcpClientHandle
    const isTracerConnected: bool

    ghost predicate Valid()
      reads memory, memory.Register, memory.Coil, memory.DiscreteInput
    {
      memory.Valid() && ctx != client.tracer
    }

    constructor (ctx: Modbus, memory: Memory.Memory, client: MtcpClientHandle, isTracerConnected: bool)
      requires memory.Valid() && ctx != client.tracer
      ensures Valid() && this.ctx == ctx && this.memory == memory && this.client == client && this.isTracerConnected == isTracerConnected
    {
      this.ctx, this.memory, this.client, this.isTracerConnected := ctx, memory, client, isTracerConnected;
    }

    /** Lines 115-123: the request without its check value. */
    static method RequestText(query: seq<byte>, rc: nat) returns (sendbuffer: string)
      requires 2 <= rc <= |query|
      ensures sendbuffer == Command() + HexText(query[..rc - 2])
    {
      sendbuffer := "";
      var n := 0;
      while n < rc - 2
        invariant 0 <= n <= rc - 2 && sendbuffer == HexText(query[..n])
      {
        HexTextMore(query[..n], query[n]);
        assert query[..n + 1] == query[..n] + [query[n]];
        sendbuffer := sendbuffer + Hex2(query[n]);
        n := n + 1;
      }
      sendbuffer := Command() + sendbuffer;
    }

    /** Lines 136-143. */
    static method RemoveAngles(recvmessage: string) returns (message: string)
      ensures message == WithoutAngles(recvmessage)
    {
      message := "";
      var n := 0;
      assert recvmessage[0..] == recvmessage;
      while n < |recvmessage|
        invariant 0 <= n <= |recvmessage|
        invariant message + WithoutAngles(recvmessage[n..]) == WithoutAngles(recvmessage)
      {
        assert recvmessage[n..][1..] == recvmessage[n + 1..];
        if recvmessage[n] != '<' && recvmessage[n] != '>' {
          message := message + [recvmessage[n]];
        }
        n := n + 1;
      }
    }

    /** Lines 144-166; unset is what the variable byte holds before its first assignment. An empty message is not handled. */
    static method ParseInto(message: string, reply: array<byte>, unset: byte) returns (replylenght: nat)
      requires 0 < |message| && |message| / 2 <= reply.Length
      modifies reply
      ensures replylenght == |message| / 2 && reply[..replylenght] == ParseReply(message, unset)
    {
      hide ParseReply, Stoi16;
      var last: byte, i: nat := unset, 0;
      ghost var read: seq<byte> := [];
      replylenght := 0;
      assert message[0..] == message;
      while i < |message| - 1
        invariant 0 <= i <= |message| && i == 2 * replylenght
        invariant reply[..replylenght] == read
        invariant read + ParseReply(message[i..], last) == ParseReply(message, unset)
      {
        var p := Stoi16(message[i..i + 2]);
        NextReplyByte(message, i, last);
        if p.Number? {
          last := p.v % 0x100;
        }
        reply[replylenght] := last;
        read := read + [last];
        replylenght := replylenght + 1;
        i := i + 2;
      }
      NoReplyByte(message[i..], last);
    }

    /** One recv() into a buffer of 1024 characters takes the text, or what fits of it. */
    static method Recv(text: string) returns (recvmessage: string)
      ensures recvmessage == if |text| > RECV_SIZE then text[..RECV_SIZE] else text
    {
      recvmessage := if |text| > RECV_SIZE then text[..RECV_SIZE] else text;
    }

    /** Lines 102-172: the request goes to the charge controller, its answer into reply. */
    method Forward(query: seq<byte>, rc: nat, reply: array<byte>, unset: byte) returns (replylenght: nat, ghost rsp: seq<bv8>)
      requires ctx != client.tracer && 4 <= rc <= 255 && rc <= |query| && reply.Length == MODBUS_RTU_MAX_ADU_LENGTH
      modifies reply, client.tracer`line, client.tracer`Mb_state, client.tracer`sent
      ensures client.tracer.sent == old(client.tracer.sent) + Framed(Narrow(query[..rc - 2]))
      ensures Received(old(client.tracer.line), true, client.tracer.Mb_slave, rsp)
              || (rsp == [] && NoFrame(old(client.tracer.line), true, client.tracer.Mb_slave))
      ensures replylenght == |rsp| <= 255 && reply[..replylenght] == Widen(rsp)
    {
      hide Received, NoFrame, Framed, Fields, Command, Modbussend;
      ghost var line, slave := client.tracer.line, client.tracer.Mb_slave;
      if isTracerConnected {
        var rc, resp := client.tracer.SendRequest(Narrow(query[..rc - 2]));
        ReceivedLength(line, slave, resp);
        forall k | 0 <= k < |resp| { reply[k] := resp[k] as int; }
        return rc, resp;
      }
      var sendbuffer := RequestText(query, rc);
      CommandAsks(query[..rc - 2]);
      var text, r := client.HandleCommand(sendbuffer);
      ReceivedLength(line, slave, r);
      AnswerRead(r, unset);
      var recvmessage := Recv(text);
      var message := RemoveAngles(recvmessage);
      replylenght := ParseInto(message, reply, unset);
      rsp := r;
    }

    /** Line 96, with room for every stored answer. */
    method FromTable(query: seq<byte>, reply: array<byte>) returns (replylenght: int)
      requires Valid() && |query| >= 8 && reply.Length == MODBUS_RTU_MAX_ADU_LENGTH
      modifies reply
      ensures replylenght <= reply.Length
      ensures if !Known(query) then replylenght == -2
              else if |StoredAnswer(memory.View(), query)| == 0 then -1 <= replylenght <= 0
              else replylenght == |StoredAnswer(memory.View(), query)| && reply[..replylenght] == StoredAnswer(memory.View(), query)
    {
      StoredFits(memory.View(), query);
      Memory.KnownExclusive(query);
      hide Memory.Memory.Valid, KnownRange, Reply, ReplyResult, DiscreteAnswer, AsksInfo, AsksDiscrete, SwitchesOff;
      replylenght := memory.GenerateResponse(query, reply, MODBUS_RTU_MAX_ADU_LENGTH);
    }

    /**
     The whole request. What is stored is answered from the table. What is unknown comes out
     byte for byte: the controller's line gets the very frame the display sent, and the display's line
     the very frame the controller sent, or nothing if none was received.
     */
    method Answer(query: seq<byte>, rc: nat, unset: byte)
      requires Valid() && |query| == MODBUS_RTU_MAX_ADU_LENGTH && 4 <= rc <= 255
      requires Acceptable(Narrow(query[..rc]), ctx.Mb_slave)
      modifies ctx`sent, client.tracer`line, client.tracer`Mb_state, client.tracer`sent
      ensures !Known(query) ==>
        && client.tracer.sent == old(client.tracer.sent) + Narrow(query[..rc])
        && (forall f :: Received(old(client.tracer.line), true, client.tracer.Mb_slave, f) ==> ctx.sent == old(ctx.sent) + f)
        && (NoFrame(old(client.tracer.line), true, client.tracer.Mb_slave) ==> ctx.sent == old(ctx.sent))
      ensures Known(query) ==>
        && client.tracer.sent == old(client.tracer.sent)
        && ctx.sent == old(ctx.sent) + Sendable(StoredAnswer(memory.View(), query))
    {
      hide Memory.Memory.Valid, Received, Framed, Acceptable, Known, StoredAnswer;
      var reply := new byte[MODBUS_RTU_MAX_ADU_LENGTH];
      var replylenght := FromTable(query, reply);
      if replylenght > 0 {
        var rc' := ctx.SendConfirmation(Narrow(reply[..replylenght]));
      } else if replylenght == -2 {
        var n, rsp := Forward(query, rc, reply, unset);
        RequestAgain(query, rc, ctx.Mb_slave);
        OneAnswer(old(client.tracer.line), client.tracer.Mb_slave, rsp);
        if n > 2 {
          assert reply[..n - 2] == Widen(rsp)[..n - 2] == Widen(rsp[..n - 2]);
          NarrowWiden(rsp[..n - 2]);
          var rc' := ctx.SendConfirmation(Narrow(reply[..n - 2]));
        }
      }
    }
  }

  lemma {:induction false} HexTextMore(bs: seq<byte>, b: byte)
    ensures HexText(bs + [b]) == HexText(bs) + Hex2(b)
  {
    if |bs| == 0 {
      assert [b][1..] == [];
    } else {
      assert (bs + [b])[1..] == bs[1..] + [b];
      HexTextMore(bs[1..], b);
    }
  }

  lemma NextReplyByte(s: string, i: nat, last: byte)
    requires i + 2 <= |s|
    ensures ParseReply(s[i..], last) == [ReplyByte(s[i..i + 2], last)] + ParseReply(s[i + 2..], ReplyByte(s[i..i + 2], last))
  {
    assert s[i..][..2] == s[i..i + 2] && s[i..][2..] == s[i + 2..];
  }

  lemma NoReplyByte(s: string, last: byte)
    requires |s| < 2
    ensures ParseReply(s, last) == []
  {}

  /** What Receive hands over has 4 to 255 bytes. */
  lemma ReceivedLength(line: seq<Arrival>, slave: bv8, f: seq<bv8>)
    requires Received(line, true, slave, f) || f == []
    ensures |f| <= 255 && (|f| == 0 || |f| >= 4)
  {
    hide Crc.CrcOk;
  }

  /** The printed answer fits the buffer of the display and is read back as it was. */
  lemma AnswerRead(f: seq<bv8>, unset: byte)
    requires |f| <= 255
    ensures var text := AngleText(Widen(f)) + "\n";
            && |text| == 4 * |f| + 1 <= 1021 <= RECV_SIZE
            && |WithoutAngles(text)| == 2 * |f| + 1
            && ParseReply(WithoutAngles(text), unset) == Widen(f)
  {
    AnglesConcat(AngleText(Widen(f)), "\n");
    AnglesOut(Widen(f));
    ReplyBack(Widen(f), "\n", unset);
    assert WithoutAngles("\n") == "\n";
  }

  /** A frame with a good check value is its message with the check value computed anew. */
  lemma FramedAgain(f: seq<bv8>)
    requires |f| >= 2 && Crc.CrcOk(f)
    ensures Framed(f[..|f| - 2]) == f
  {
    hide Crc.Crc16Of;
  }

  lemma RequestAgain(query: seq<byte>, rc: nat, slave: bv8)
    requires 4 <= rc <= |query| && Acceptable(Narrow(query[..rc]), slave)
    ensures Framed(Narrow(query[..rc - 2])) == Narrow(query[..rc])
  {
    hide Framed, Crc.CrcOk;
    FramedAgain(Narrow(query[..rc]));
    assert Narrow(query[..rc])[..rc - 2] == Narrow(query[..rc - 2]);
  }

  /** A trace gives one frame or none. */
  lemma OneAnswer(line: seq<Arrival>, slave: bv8, rsp: seq<bv8>)
    requires Received(line, true, slave, rsp) || (rsp == [] && NoFrame(line, true, slave))
    ensures forall f :: Received(line, true, slave, f) ==> f == rsp
    ensures if |rsp| > 2 then !NoFrame(line, true, slave) && Framed(rsp[..|rsp| - 2]) == rsp else NoFrame(line, true, slave)
  {
    hide Late, Whole, PassedOver, BurstAt, Framed, Crc.CrcOk;
    if i: nat :| Judged(line, true, i) && BurstAt(line, i) == rsp && Acceptable(rsp, slave) {
      JudgedAlone(line, true, i, slave);
      FramedAgain(rsp);
    }
  }

  /** In a buffer of 256 bytes there is room for every stored answer. */
  lemma StoredFits(m: Mem, req: seq<byte>)
    requires MemOk(m) && |req| >= 8
    ensures |m.regs| > 0 && |m.info1| <= MAX_DEV_INFO_LENGHT && |m.info2| <= MAX_DEV_INFO_LENGHT
    ensures KnownRange(req).Range? ==>
      var reply := Reply(m, KnownRange(req));
      |reply| <= 256 && (ReplyResult(m, KnownRange(req), 256) == |reply| || (ReplyResult(m, KnownRange(req), 256) == -1 && reply == []))
    ensures |m.discs| > 0 && 2 <= |DiscreteAnswer(m.discs, 256)| <= 6
    ensures Known(req) ==>
      AsksInfo(req, 1) || AsksInfo(req, 2) || KnownRange(req).Range? || AsksDiscrete(req) || SwitchesOff(req)
  {
    if KnownRange(req).Range? {
      Memory.KnownBounds(req);
      RangeReplyFits(m, KnownRange(req));
    }
  }

  lemma RangeReplyFits(m: Mem, r: Range)
    requires MemOk(m) && r.Range? && 0 < r.start <= r.end < NO_ADRESS && r.end - r.start <= 0x70
    ensures |m.regs| > 0 && |Reply(m, r)| <= 256
    ensures ReplyResult(m, r, 256) == |Reply(m, r)| || (ReplyResult(m, r, 256) == -1 && Reply(m, r) == [])
  {
    RangeCount(m.regs, r.start, r.end);
    Memory.ReplyParts(m, r, 256);
    hide Reply, ReplyResult, RegRange, StartIndex, RegAdresses, Ordered;
  }

  /**
   Polled once, answered many times: when a frame of the controller covers the registers of a known
   request, the answer put together from the table and framed anew is that frame, check value included,
   if and only if the overrides in the range repeat what the controller said, so whenever there are none.
   */
  lemma CachedFrame(m: Mem, f: seq<bv8>, headerlenght: nat, req: seq<byte>, slave: bv8)
    requires MemOk(m) && Acceptable(f, slave) && Covers(m, Widen(f), |f|, headerlenght, req) && headerlenght > 0
    ensures Framed(Narrow(Reply(SavedResponse(m, Widen(f), |f|, headerlenght, req).0, KnownRange(req)))) == f <==>
            OverridesRepeat(Widen(f)[..|f| - 2], headerlenght, RegRange(m.regs, KnownRange(req).start, KnownRange(req).end))
  {
    var reply := Reply(SavedResponse(m, Widen(f), |f|, headerlenght, req).0, KnownRange(req));
    CachedReply(m, Widen(f), |f|, headerlenght, req);
    assert Widen(f)[..|f| - 2] == Widen(f[..|f| - 2]);
    hide Reply, SavedResponse, KnownRange, RegRange, MemOk, Covers, OverridesRepeat;
    SameFrame(reply, f);
  }

  /** Framing tells messages apart. */
  lemma SameFrame(reply: seq<byte>, f: seq<bv8>)
    requires |f| >= 2 && Crc.CrcOk(f)
    ensures Framed(Narrow(reply)) == f <==> reply == Widen(f[..|f| - 2])
  {
    hide Crc.CrcOk, Crc.Crc16Of;
    if Framed(Narrow(reply)) == f {
      assert f[..|f| - 2] == Narrow(reply);
      WidenNarrow(reply);
    }
    NarrowWiden(f[..|f| - 2]);
    FramedAgain(f);
  }
}
