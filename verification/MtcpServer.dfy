/** The text port of mtcpserver.c: cutting a line into fields, and the command modbussend. */
module MtcpServer {
  import opened Bytes
  import opened Modbus
  import opened HexTunnel

  function Stripped(s: string): string
    requires |s| > 0
  {
    if s[|s| - 1] == '\n' || s[|s| - 1] == '\r' then s[..|s| - 1] else s
  }

  const WRONG_PARAMETERS: string := "Error wrong Parameterlist\n"
  const NOT_HEX: string := "Error can not convert Input to HEX\n"

  /** The request a line asks to send, if there is one. */
  function Asked(line: string): Parsing
    requires |line| > 0
  {
    var command := Fields(Stripped(line));
    if |command| < 2 then Bad else ParseRequest(command[1])
  }

  class MtcpClientHandle {
    /** The line to the charge controller. */
    const tracer: Modbus

    constructor (tracer: Modbus)
      ensures this.tracer == tracer
    {
      this.tracer := tracer;
    }

    /** find() of a blank from start on; the end of the string stands for npos. */
    static method FindBlank(input: string, start: nat) returns (position: nat)
      requires start <= |input|
      ensures start <= position <= |input| && (position < |input| ==> input[position] == ' ')
      ensures forall k :: start <= k < position ==> input[k] != ' '
    {
      position := start;
      while position < |input| && input[position] != ' '
        invariant start <= position <= |input|
        invariant forall k :: start <= k < position ==> input[k] != ' '
      {
        position := position + 1;
      }
    }

    /** mtcpserver.c, lines 1117-1130. */
    static method Split(input: string) returns (result: seq<string>)
      ensures result == Fields(input)
    {
      hide Fields;
      result := [];
      var start := 0;
      var position := FindBlank(input, start);
      assert input[0..] == input;
      while position < |input|
        invariant 0 <= start <= position <= |input| && (position < |input| ==> input[position] == ' ')
        invariant forall k :: start <= k < position ==> input[k] != ' '
        invariant result + Fields(input[start..]) == Fields(input)
        decreases |input| - start
      {
        FieldEnds(input, start, position);
        result := result + [input[start..position]];
        start := position + 1;
        position := FindBlank(input, start);
      }
      OneField(input[start..]);
      result := result + [input[start..]];
    }

    /** The loop of lines 781-800. */
    static method ParseHex(arg: string) returns (p: Parsing)
      ensures p == ParseRequest(arg)
    {
      var req: seq<byte> := [];
      var i := 0;
      assert arg[0..] == arg;
      while i < |arg|
        invariant 0 <= i <= |arg|
        invariant ParseRequest(arg) == Prepended(req, ParseRequest(arg[i..]))
      {
        var next := if i + 2 <= |arg| then i + 2 else |arg|;
        assert arg[i..][..next - i] == arg[i..next] && arg[i..][next - i..] == arg[next..];
        match Stoi16(arg[i..next])
        case NotANumber => return Bad;
        case Number(v) =>
          PrependedMore(req, v % 0x100, ParseRequest(arg[next..]));
          req := req + [v % 0x100];
          i := next;
      }
      return Good(req);
    }

    /** The loop of lines 819-824. */
    static method PrintHex(rsp: seq<byte>) returns (confirmation: string)
      ensures confirmation == AngleText(rsp) + "\n"
    {
      confirmation := "";
      var i := 0;
      while i < |rsp|
        invariant 0 <= i <= |rsp| && confirmation == AngleText(rsp[..i])
      {
        AngleTextMore(rsp[..i], rsp[i]);
        assert rsp[..i + 1] == rsp[..i] + [rsp[i]];
        confirmation := confirmation + Group(rsp[i]);
        i := i + 1;
      }
      assert rsp[..i] == rsp;
      confirmation := confirmation + "\n";
    }

    /** The command modbussend, lines 288-299 and 765-826, when the charge controller hangs on this machine. */
    method HandleCommand(req: string) returns (confirmation: string, ghost rsp: seq<bv8>)
      requires |req| > 0 && Fields(Stripped(req))[0] == Modbussend()
      modifies tracer`line, tracer`Mb_state, tracer`sent
      ensures Asked(req).Bad? ==>
        && confirmation == (if |Fields(Stripped(req))| < 2 then WRONG_PARAMETERS else NOT_HEX)
        && tracer.line == old(tracer.line) && tracer.sent == old(tracer.sent)
      ensures Asked(req).Good? ==>
        var m := Narrow(Asked(req).req);
        && confirmation == AngleText(Widen(rsp)) + "\n"
        && (1 <= |m| <= 254 ==>
              && tracer.sent == old(tracer.sent) + Framed(m)
              && (Received(old(tracer.line), true, tracer.Mb_slave, rsp) || (rsp == [] && NoFrame(old(tracer.line), true, tracer.Mb_slave))))
        && (!(1 <= |m| <= 254) ==> rsp == [] && tracer.sent == old(tracer.sent) && tracer.line == old(tracer.line))
    {
      hide Received, NoFrame, Framed, Fields;
      rsp := [];
      var recvstring := req;
      if recvstring[|recvstring| - 1] == '\n' || recvstring[|recvstring| - 1] == '\r' {
        recvstring := recvstring[..|recvstring| - 1];
      }
      var command := Split(recvstring);
      if |command| < 2 {
        return WRONG_PARAMETERS, [];
      }
      var parsed := ParseHex(command[1]);
      if parsed.Bad? {
        return NOT_HEX, [];
      }
      var rc, resp := tracer.SendRequest(Narrow(parsed.req));
      rsp := resp;
      confirmation := PrintHex(Widen(resp));
    }
  }

  function Prepended(bs: seq<byte>, rest: Parsing): Parsing {
    match rest
    case Good(req) => Good(bs + req)
    case Bad => Bad
  }

  lemma PrependedMore(bs: seq<byte>, b: byte, rest: Parsing)
    ensures Prepended(bs, Then(b, rest)) == Prepended(bs + [b], rest)
  {
    if rest.Good? { assert bs + ([b] + rest.req) == bs + [b] + rest.req; }
  }

  lemma {:induction false} AngleTextMore(bs: seq<byte>, b: byte)
    ensures AngleText(bs + [b]) == AngleText(bs) + Group(b)
  {
    if |bs| == 0 {
      assert [b][1..] == [];
    } else {
      assert (bs + [b])[1..] == bs[1..] + [b];
      AngleTextMore(bs[1..], b);
    }
  }

  lemma FieldEnds(input: string, start: nat, position: nat)
    requires start <= position < |input| && input[position] == ' ' && forall k :: start <= k < position ==> input[k] != ' '
    ensures Fields(input[start..]) == [input[start..position]] + Fields(input[position + 1..])
  {
    FirstField(input[start..position], input[position + 1..]);
    assert input[start..] == input[start..position] + " " + input[position + 1..];
  }

  function Modbussend(): string { "modbussend" }

  /** The command before the digits, with the blank. */
  function Command(): string { Modbussend() + " " }

  lemma {:induction false} CommandFields(text: string)
    requires forall i :: 0 <= i < |text| ==> Plain(text[i])
    ensures Stripped(Command() + text) == Command() + text && Fields(Command() + text) == [Modbussend(), text]
  {
    assert forall i :: 0 <= i < |Modbussend()| ==> Modbussend()[i] != ' ';
    hide Fields, Modbussend;
    var line := Command() + text;
    assert line[|line| - 1] == if |text| > 0 then text[|text| - 1] else ' ';
    OneField(text);
    FirstField(Modbussend(), text);
  }

  /** A request printed as hex digits is read back as it was. */
  lemma CommandAsks(bs: seq<byte>)
    ensures Fields(Stripped(Command() + HexText(bs)))[0] == Modbussend() && Asked(Command() + HexText(bs)) == Good(bs)
  {
    hide Fields, HexText, Command, Modbussend;
    HexTextPlain(bs);
    RequestBack(bs);
    CommandFields(HexText(bs));
  }

  /** One line end behind the digits changes nothing. */
  lemma LineEndAsks(bs: seq<byte>, end: char)
    requires end == '\n' || end == '\r'
    ensures Asked(Command() + HexText(bs) + [end]) == Good(bs)
  {
    CommandAsks(bs);
    HexTextPlain(bs);
    CommandFields(HexText(bs));
    hide Fields, HexText, Command, Modbussend, ParseRequest;
    var line := Command() + HexText(bs);
    assert (line + [end])[..|line|] == line;
  }
}
