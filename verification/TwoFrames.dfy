/** Two frames in one receive buffer, and what the server's loop makes of them in all its turns. */
module TwoFrames {
  import opened Bytes
  import opened Table
  import opened Mttp
  import opened MttpProofs
  import opened Replication
  import opened Server
  import opened ServerProofs

  // ----- a scan that has seen no start mark stores nothing -----

  /** Data commands with no DLE in address or payload. */
  predicate Plain(cs: seq<Command>) { AllData(cs) && forall i :: 0 <= i < |cs| ==> NoDle(Inner(cs[i])) }

  /** No start mark seen, and k commands closed. */
  function Quiet(k: nat): Scan { Before(if k == 0 then 0 else k - 1, k > 0) }

  lemma QuietClose(k: nat, scd: bool, slots: seq<Slot>, rest: seq<byte>, past: byte)
    requires |slots| == MAX_COMMANDS && k < MAX_COMMANDS
    ensures Run(Before(k, false).(scd := scd), slots, [DLE, ECD] + rest, past) == After(2, Run(Quiet(k + 1), slots, rest, past))
  {
    hide Run;
    var s := Before(k, false).(scd := scd);
    assert [DLE, ECD] + rest == [DLE] + ([ECD] + rest);
    OneTurn(s, slots, DLE, [ECD] + rest, past, s.(dle := true), slots);
    OneTurn(s.(dle := true), slots, ECD, rest, past, Quiet(k + 1), slots);
  }

  lemma QuietCommand(k: nat, slots: seq<Slot>, c: Command, rest: seq<byte>, past: byte)
    requires |slots| == MAX_COMMANDS && k < MAX_COMMANDS && NoDle(Inner(c))
    ensures Run(Quiet(k), slots, PrintCommand(c) + rest, past) == After(|PrintCommand(c)|, Run(Quiet(k + 1), slots, rest, past))
  {
    PlainPrint(c);
    hide Run, PrintCommand, Inner;
    var end := Inner(c) + ([DLE, ECD] + rest);
    assert PrintCommand(c) + rest == [DLE] + ([SCD] + end);
    var s := Before(k, false).(scd := true);
    OneTurn(Quiet(k), slots, DLE, [SCD] + end, past, Quiet(k).(dle := true), slots);
    OneTurn(Quiet(k).(dle := true), slots, SCD, end, past, s, slots);
    NoiseSkipped(s, slots, Inner(c), [DLE, ECD] + rest, past);
    QuietClose(k, true, slots, rest, past);
  }

  lemma {:induction false} QuietCommands(k: nat, slots: seq<Slot>, cs: seq<Command>, rest: seq<byte>, past: byte)
    requires |slots| == MAX_COMMANDS && k + |cs| <= MAX_COMMANDS && Plain(cs)
    ensures Run(Quiet(k), slots, PrintCommands(cs) + rest, past) == After(|PrintCommands(cs)|, Run(Quiet(k + |cs|), slots, rest, past))
    decreases |cs|
  {
    hide Run, PrintCommand, Inner;
    if |cs| == 0 {
      assert PrintCommands(cs) + rest == rest;
    } else {
      var more := PrintCommands(cs[1..]) + rest;
      assert PrintCommands(cs) + rest == PrintCommand(cs[0]) + more;
      QuietCommand(k, slots, cs[0], more, past);
      QuietCommands(k + 1, slots, cs[1..], rest, past);
    }
  }

  /** How many commands are closed in what is left of printed commands from byte q on. */
  function Closes(cs: seq<Command>, q: nat): (k: nat)
    ensures k <= |cs|
  {
    if |cs| == 0 then 0
    else
      var l := |PrintCommand(cs[0])|;
      if q + 2 <= l then |cs| else if q < l then |cs| - 1 else Closes(cs[1..], q - l)
  }

  /** Further back fewer are closed, but at most one fewer within three bytes. */
  lemma {:induction false} ClosesLess(cs: seq<Command>, q: nat, r: nat)
    requires q <= r
    ensures Closes(cs, r) <= Closes(cs, q)
    ensures r <= q + 3 ==> Closes(cs, q) <= Closes(cs, r) + 1
    decreases |cs|
  {
    hide PrintCommand;
    if |cs| > 0 {
      var l := |PrintCommand(cs[0])|;
      if q >= l {
        ClosesLess(cs[1..], q - l, r - l);
      } else if r >= l && |cs| > 1 {
        CommandLength(cs[1]);
      }
    }
  }

  lemma {:induction false} ClosesNone(cs: seq<Command>, q: nat)
    ensures Closes(cs, q) == 0 <==> |PrintCommands(cs)| <= q + 1 || |cs| == 0
    decreases |cs|
  {
    hide PrintCommand;
    if |cs| > 0 {
      CommandLength(cs[0]);
      var l := |PrintCommand(cs[0])|;
      if |cs| > 1 { CommandLength(cs[1]); }
      if q >= l { ClosesNone(cs[1..], q - l); }
    }
  }

  /** The rest of printed commands from byte q on. */
  lemma {:induction false} QuietTail(slots: seq<Slot>, cs: seq<Command>, q: nat, rest: seq<byte>, past: byte)
    requires |slots| == MAX_COMMANDS && |cs| <= MAX_COMMANDS && Plain(cs) && q <= |PrintCommands(cs)|
    ensures Run(Quiet(0), slots, PrintCommands(cs)[q..] + rest, past)
         == After(|PrintCommands(cs)| - q, Run(Quiet(Closes(cs, q)), slots, rest, past))
    decreases |cs|
  {
    hide Run, PrintCommand, Inner;
    if q == 0 {
      assert PrintCommands(cs)[0..] == PrintCommands(cs);
      if |cs| > 0 { CommandLength(cs[0]); }
      QuietCommands(0, slots, cs, rest, past);
    } else {
      var l, more := |PrintCommand(cs[0])|, PrintCommands(cs[1..]);
      if q >= l {
        assert PrintCommands(cs)[q..] == more[q - l..];
        QuietTail(slots, cs[1..], q - l, rest, past);
      } else {
        assert PrintCommands(cs)[q..] + rest == PrintCommand(cs[0])[q..] + (more + rest);
        CutCommand(slots, cs[0], q, more + rest, past);
        QuietCommands(if q + 2 <= l then 1 else 0, slots, cs[1..], rest, past);
      }
    }
  }

  lemma CutCommand(slots: seq<Slot>, c: Command, q: nat, rest: seq<byte>, past: byte)
    requires |slots| == MAX_COMMANDS && NoDle(Inner(c)) && 0 < q < |PrintCommand(c)|
    ensures Run(Quiet(0), slots, PrintCommand(c)[q..] + rest, past)
         == After(|PrintCommand(c)| - q, Run(Quiet(if q + 2 <= |PrintCommand(c)| then 1 else 0), slots, rest, past))
  {
    PlainPrint(c);
    hide Run, PrintCommand, Inner;
    var l := |PrintCommand(c)|;
    if q + 2 <= l {
      var x := PrintCommand(c)[q..l - 2];
      assert PrintCommand(c)[q..] + rest == x + ([DLE, ECD] + rest);
      NoiseSkipped(Quiet(0), slots, x, [DLE, ECD] + rest, past);
      QuietClose(0, false, slots, rest, past);
    } else {
      assert PrintCommand(c)[q..] == [ECD];
      NoiseSkipped(Quiet(0), slots, [ECD], rest, past);
    }
  }

  /** An end mark, or its second byte. */
  lemma QuietEnd(k: nat, slots: seq<Slot>, rest: seq<byte>, past: byte)
    requires |slots| == MAX_COMMANDS && k <= MAX_COMMANDS
    ensures Run(Quiet(k), slots, [DLE, ETX] + rest, past) == After(2, Run(Quiet(k), slots, rest, past))
    ensures Run(Quiet(k), slots, [ETX] + rest, past) == After(1, Run(Quiet(k), slots, rest, past))
  {
    hide Run;
    assert [DLE, ETX] + rest == [DLE] + ([ETX] + rest);
    OneTurn(Quiet(k), slots, DLE, [ETX] + rest, past, Quiet(k).(dle := true), slots);
    OneTurn(Quiet(k).(dle := true), slots, ETX, rest, past, Quiet(k), slots);
    OneTurn(Quiet(k), slots, ETX, rest, past, Quiet(k), slots);
  }

  lemma FrameIs(act: byte, cs: seq<Command>)
    ensures Frame(act, cs) == Header(act, Wrap16(5 + |Body(cs, true)|)) + (PrintCommands(cs) + [DLE, ETX])
    ensures |Frame(act, cs)| == 7 + |PrintCommands(cs)|
  {
    hide PrintCommands, Wrap16;
  }

  lemma CutTail(h: seq<byte>, x: seq<byte>, q: nat, rest: seq<byte>)
    requires |h| == 5 && q <= |x| + 2
    ensures (h + (x + [DLE, ETX]))[5 + q..] + rest
         == if q <= |x| then x[q..] + ([DLE, ETX] + rest) else if q == |x| + 1 then [ETX] + rest else rest
  {}

  /** The rest of a frame from byte p on, behind the header. */
  lemma FrameTail(slots: seq<Slot>, act: byte, cs: seq<Command>, p: nat, rest: seq<byte>, past: byte)
    requires |slots| == MAX_COMMANDS && |cs| <= MAX_COMMANDS && Plain(cs) && 5 <= p <= |Frame(act, cs)|
    ensures Run(Quiet(0), slots, Frame(act, cs)[p..] + rest, past)
         == After(|Frame(act, cs)| - p, Run(Quiet(Closes(cs, p - 5)), slots, rest, past))
  {
    hide Run, PrintCommands, Frame, Plain, Closes;
    FrameIs(act, cs);
    ClosesNone(cs, p - 5);
    var q := p - 5;
    CutTail(Header(act, Wrap16(5 + |Body(cs, true)|)), PrintCommands(cs), q, rest);
    hide Header;
    if q <= |PrintCommands(cs)| {
      QuietTail(slots, cs, q, [DLE, ETX] + rest, past);
      QuietEnd(Closes(cs, q), slots, rest, past);
    } else if q == |PrintCommands(cs)| + 1 {
      QuietEnd(0, slots, rest, past);
    }
  }

  // ----- two frames -----

  /** Two frames and the same action in both. */
  datatype Pair = Pair(act: byte, first: seq<Command>, second: seq<Command>)

  function Message(w: Pair): seq<byte> { Frame(w.act, w.first) + Frame(w.act, w.second) }

  function Len1(w: Pair): nat { |Frame(w.act, w.first)| }

  function Len2(w: Pair): nat { |Frame(w.act, w.second)| }

  ghost predicate PairOk(w: Pair) {
    |w.first| <= MAX_COMMANDS && |w.second| <= MAX_COMMANDS && Plain(w.first) && Plain(w.second)
  }

  /** A scan that begins at byte p of the first frame counts this many closed commands before the second, */
  function Skipped(w: Pair, p: nat): nat { if p < 5 then 0 else Closes(w.first, p - 5) }

  /** so many commands of the second find a slot behind them, */
  function Room(w: Pair, p: nat): nat {
    if Skipped(w, p) + |w.second| <= MAX_COMMANDS then |w.second| else if Skipped(w, p) <= MAX_COMMANDS then MAX_COMMANDS - Skipped(w, p) else 0
  }

  /** and it ends here. */
  function End(w: Pair, p: nat): nat { Len1(w) + 7 + |PrintCommands(w.second[..Room(w, p)])| }

  lemma SecondRead(k: nat, slots: seq<Slot>, act: byte, ds: seq<Command>, past: byte)
    requires |slots| == MAX_COMMANDS && k <= MAX_COMMANDS && AllData(ds)
    ensures var room := if k + |ds| <= MAX_COMMANDS then |ds| else MAX_COMMANDS - k;
            Run(Quiet(k), slots, Frame(act, ds), past) == (WithCommands(slots, k, ds[..room]), 7 + |PrintCommands(ds[..room])|)
  {
    hide Run, PrintCommands, Frame, WithCommands, Wrap16;
    assert Frame(act, ds) + [] == Frame(act, ds) && ds[..|ds|] == ds;
    if k + |ds| <= MAX_COMMANDS {
      FrameIs(act, ds);
      assert [DLE, ETX] + [] == [DLE, ETX];
      FrameRead(if k == 0 then 0 else k - 1, k > 0, slots, act, Wrap16(5 + |Body(ds, true)|), ds, [], past);
    } else {
      OverfullRead(if k == 0 then 0 else k - 1, k > 0, slots, act, ds, [], past);
    }
  }

  /** A turn that begins in the first frame, behind its header. */
  lemma FirstPassed(w: Pair, slots: seq<Slot>, p: nat, past: byte)
    requires PairOk(w) && |slots| == MAX_COMMANDS && !slots[0].exist && 5 <= p <= Len1(w)
    ensures p < End(w, p) && Skipped(w, p) + Room(w, p) <= MAX_COMMANDS
    ensures Decode(slots, Message(w)[p..], past) == (WithCommands(slots, Skipped(w, p), w.second[..Room(w, p)]), End(w, p) - p)
  {
    assert AllData(w.second);
    hide Run, Plain, PrintCommands, Frame, Closes, WithCommands;
    FirstFreeIs(slots, 0);
    assert Message(w)[p..] == Frame(w.act, w.first)[p..] + Frame(w.act, w.second);
    FrameTail(slots, w.act, w.first, p, Frame(w.act, w.second), past);
    SecondRead(Skipped(w, p), slots, w.act, w.second, past);
  }

  predicate IsAct(b: byte) { E_NONE <= b <= E_HEARTBEAT }

  /** The length bytes of a header spell a mark that such a scan heeds, if they are seen together. */
  predicate SpellsMark(lenght: int) { lenght == 0x1002 || lenght == 0x1004 || lenght == 0x1005 }

  /** The bytes of a header behind its first. */
  lemma QuietHeader(slots: seq<Slot>, act: byte, lenght: word, r: nat, rest: seq<byte>, past: byte)
    requires |slots| == MAX_COMMANDS && IsAct(act) && 1 <= r < 5 && (r <= 2 ==> !SpellsMark(lenght))
    ensures var h, body := Header(act, lenght)[r..], [DLE] + rest;
            || Run(Quiet(0), slots, h + body, past) == After(5 - r, Run(Quiet(0), slots, body, past))
            || Run(Quiet(0), slots, h + body, past) == After(6 - r, Run(Quiet(0), slots, rest, past))
  {
    hide Run;
    var s, hi, lo, body := Quiet(0), High(lenght), Low(lenght), [DLE] + rest;
    var d := s.(dle := true);
    OneTurn(s, slots, act, body, past, s, slots);
    OneTurn(d, slots, act, body, past, d, slots);
    OneTurn(d, slots, DLE, rest, past, s, slots);
    var fromLo := [lo] + ([act] + body);
    OneTurn(s, slots, lo, [act] + body, past, if lo == DLE then d else s, slots);
    var fromHi := [hi] + fromLo;
    OneTurn(s, slots, hi, fromLo, past, if hi == DLE then d else s, slots);
    OneTurn(s, slots, STX, fromHi, past, s, slots);
    var h := Header(act, lenght);
    assert h == [DLE, STX, hi, lo, act];
    if r <= 2 {
      if hi == DLE { OneTurn(d, slots, lo, [act] + body, past, if lo == DLE || lo == ETX then s else d, slots); }
      assert h[1..] + body == [STX] + fromHi && h[2..] + body == fromHi;
    } else {
      assert h[3..] + body == fromLo && h[4..] + body == [act] + body;
    }
  }

  // three lengths that spell a mark

  /** 0x1004: the length begins a command, and the next that begins stops the scan. */
  lemma FromBegin(slots: seq<Slot>, act: byte, rest: seq<byte>, past: byte)
    requires |slots| == MAX_COMMANDS && IsAct(act)
    ensures Run(Quiet(0), slots, [DLE] + ([SCD] + ([act] + ([DLE] + ([SCD] + rest)))), past) == (slots, 5)
  {
    hide Run;
    var s, o := Quiet(0), Quiet(0).(scd := true);
    OneTurn(s, slots, DLE, [SCD] + ([act] + ([DLE] + ([SCD] + rest))), past, s.(dle := true), slots);
    OneTurn(s.(dle := true), slots, SCD, [act] + ([DLE] + ([SCD] + rest)), past, o, slots);
    OneTurn(o, slots, act, [DLE] + ([SCD] + rest), past, o, slots);
    OneTurn(o, slots, DLE, [SCD] + rest, past, o.(dle := true), slots);
    StopAt(o.(dle := true), slots, SCD, rest, past);
  }

  /** 0x1005: the length closes a command, so the fiftieth after it stops the scan. */
  lemma FromClose(slots: seq<Slot>, act: byte, ds: seq<Command>, past: byte)
    requires |slots| == MAX_COMMANDS && IsAct(act) && |ds| <= MAX_COMMANDS && Plain(ds)
    ensures Run(Quiet(0), slots, [DLE, ECD] + ([act] + (PrintCommands(ds) + [DLE, ETX])), past)
         == (slots, if |ds| < MAX_COMMANDS then |PrintCommands(ds)| + 6 else |PrintCommands(ds[..|ds| - 1])| + 5)
  {
    var body := PrintCommands(ds) + [DLE, ETX];
    assert Plain(ds[..if |ds| == 0 then 0 else |ds| - 1]);
    hide Run, PrintCommands, PrintCommand, Plain;
    QuietClose(0, false, slots, [act] + body, past);
    OneTurn(Quiet(1), slots, act, body, past, Quiet(1), slots);
    if |ds| < MAX_COMMANDS {
      QuietCommands(1, slots, ds, [DLE, ETX], past);
      QuietEnd(1 + |ds|, slots, [], past);
      assert [DLE, ETX] + [] == [DLE, ETX];
      RunOfNothing(Quiet(1 + |ds|), slots, past);
    } else {
      var tail := LastPrinted(ds);
      var s := Quiet(MAX_COMMANDS);
      QuietCommands(1, slots, ds[..|ds| - 1], [DLE] + ([SCD] + tail), past);
      OneTurn(s, slots, DLE, [SCD] + tail, past, s.(dle := true), slots);
      StopAt(s.(dle := true), slots, SCD, tail, past);
    }
  }

  lemma LastPrinted(ds: seq<Command>) returns (tail: seq<byte>)
    requires |ds| > 0
    ensures PrintCommands(ds) + [DLE, ETX] == PrintCommands(ds[..|ds| - 1]) + ([DLE] + ([SCD] + tail))
  {
    var c := ds[|ds| - 1];
    assert ds == ds[..|ds| - 1] + [c];
    PrintAppend(ds[..|ds| - 1], c);
    tail := PrintCommand(c)[2..] + [DLE, ETX];
    assert PrintCommand(c) == [DLE] + ([SCD] + PrintCommand(c)[2..]);
    hide PrintCommands, PrintCommand;
  }

  /** 0x1002: the length is a start mark; the first command begins in its header, the others are taken, from slot 1 on. */
  lemma FromStart(slots: seq<Slot>, act: byte, ds: seq<Command>, past: byte)
    requires |slots| == MAX_COMMANDS && IsAct(act) && 0 < |ds| <= MAX_COMMANDS && Plain(ds)
    ensures Run(Quiet(0), slots, [DLE] + ([STX] + ([act] + (PrintCommands(ds) + [DLE, ETX]))), past)
         == (WithCommands(slots, 1, ds[1..]), |PrintCommands(ds)| + 5)
  {
    hide Run, PrintCommand, Inner, WithCommands;
    var c, more := ds[0], PrintCommands(ds[1..]) + [DLE, ETX];
    assert PrintCommands(ds) == PrintCommand(c) + PrintCommands(ds[1..]);
    assert PrintCommands(ds) + [DLE, ETX] == PrintCommand(c) + more;
    assert AllData(ds[1..]);
    hide PrintCommands;
    HeaderInCommand(slots, act, c, more, past);
    CommandsTaken(0, true, slots, ds[1..], [DLE, ETX], past);
    assert [DLE, ETX] + [] == [DLE, ETX];
    EndFound(|ds| - 1, true, WithCommands(slots, 1, ds[1..]), [], past);
  }

  lemma HeaderInCommand(slots: seq<Slot>, act: byte, c: Command, rest: seq<byte>, past: byte)
    requires |slots| == MAX_COMMANDS && IsAct(act) && NoDle(Inner(c))
    ensures Run(Quiet(0), slots, [DLE] + ([STX] + ([act] + (PrintCommand(c) + rest))), past)
         == After(3 + |PrintCommand(c)|, Run(Between(0, true), slots, rest, past))
  {
    PlainPrint(c);
    hide Run, PrintCommand, Inner;
    var s, end := Quiet(0), Inner(c) + ([DLE, ECD] + rest);
    assert PrintCommand(c) + rest == [DLE] + ([SCD] + end);
    var h := s.(stx := true, header := 0);
    OneTurn(s, slots, DLE, [STX] + ([act] + ([DLE] + ([SCD] + end))), past, s.(dle := true), slots);
    OneTurn(s.(dle := true), slots, STX, [act] + ([DLE] + ([SCD] + end)), past, h, slots);
    OneTurn(h, slots, act, [DLE] + ([SCD] + end), past, h.(header := 1), slots);
    OneTurn(h.(header := 1), slots, DLE, [SCD] + end, past, h.(header := 2), slots);
    OneTurn(h.(header := 2), slots, SCD, end, past, Between(0, false), slots);
    NoiseSkipped(Between(0, false), slots, Inner(c), [DLE, ECD] + rest, past);
    ClosedBetween(slots, rest, past);
  }

  lemma ClosedBetween(slots: seq<Slot>, rest: seq<byte>, past: byte)
    requires |slots| == MAX_COMMANDS
    ensures Run(Between(0, false), slots, [DLE, ECD] + rest, past) == After(2, Run(Between(0, true), slots, rest, past))
  {
    hide Run;
    var s := Between(0, false);
    assert [DLE, ECD] + rest == [DLE] + ([ECD] + rest);
    OneTurn(s, slots, DLE, [ECD] + rest, past, s.(dle := true), slots);
    OneTurn(s.(dle := true), slots, ECD, rest, past, Between(0, true), slots);
  }

  lemma SecondIs(w: Pair, p: nat)
    requires Len1(w) <= p <= Len1(w) + Len2(w)
    ensures Message(w)[p..] == Frame(w.act, w.second)[p - Len1(w)..] && |Message(w)| == Len1(w) + Len2(w)
  {
    hide Frame;
  }

  /** Where a turn ends that begins in the second frame, behind its first byte. */
  function SecondEnd(w: Pair, p: nat): nat
    requires Len1(w) < p < Len1(w) + Len2(w)
  {
    var r, left, lenght := p - Len1(w), Len1(w) + Len2(w) - p, Len2(w) % 0x1_0000;
    if r > 2 || !SpellsMark(lenght) then left + 1
    else if lenght == 0x1002 then left
    else if lenght == 0x1004 then 7 - r
    else if |w.second| < MAX_COMMANDS then left + 1
    else 7 - r + |PrintCommands(w.second[..|w.second| - 1])|
  }

  /** Only where its length reads as a start mark something is stored: all its commands but the first, from slot 1 on. */
  function Stores(w: Pair, p: nat): bool { Len1(w) < p <= Len1(w) + 2 && Len2(w) % 0x1_0000 == 0x1002 && 0 < |w.second| <= MAX_COMMANDS }

  lemma SecondPassed(w: Pair, slots: seq<Slot>, p: nat, past: byte)
    requires PairOk(w) && |slots| == MAX_COMMANDS && !slots[0].exist && Len1(w) < p < Len1(w) + Len2(w) && IsAct(w.act)
    ensures Decode(slots, Message(w)[p..], past)
         == (if Stores(w, p) then WithCommands(slots, 1, w.second[1..]) else slots, SecondEnd(w, p))
  {
    hide Run, Plain, PrintCommands, Frame, Closes, IsAct, WithCommands;
    FirstFreeIs(slots, 0);
    SecondIs(w, p);
    FrameIs(w.act, w.second);
    NoCommands();
    var r := p - Len1(w);
    if r > 2 || !SpellsMark(Len2(w) % 0x1_0000) {
      QuietSecond(w.act, w.second, slots, r, past);
    } else {
      MarkRead(w.act, w.second, slots, r, past);
    }
  }

  lemma NoCommands()
    ensures PrintCommands([]) == []
  {}

  lemma MarkRead(act: byte, ds: seq<Command>, slots: seq<Slot>, r: nat, past: byte)
    requires |slots| == MAX_COMMANDS && 0 < |ds| <= MAX_COMMANDS && Plain(ds) && IsAct(act) && 1 <= r <= 2
    requires SpellsMark(|Frame(act, ds)| % 0x1_0000)
    ensures Run(Quiet(0), slots, Frame(act, ds)[r..], past) ==
            match |Frame(act, ds)| % 0x1_0000
            case 0x1002 => (WithCommands(slots, 1, ds[1..]), |PrintCommands(ds)| + 7 - r)
            case 0x1004 => (slots, 7 - r)
            case _ => (slots, if |ds| < MAX_COMMANDS then |PrintCommands(ds)| + 8 - r else |PrintCommands(ds[..|ds| - 1])| + 7 - r)
  {
    hide Run, Plain, PrintCommands, Frame, IsAct, WithCommands;
    var f, body, lo := Frame(act, ds), PrintCommands(ds) + [DLE, ETX], Low(|Frame(act, ds)| % 0x1_0000);
    MarkAt(act, ds);
    OneTurn(Quiet(0), slots, STX, f[2..], past, Quiet(0), slots);
    if lo == STX {
      FromStart(slots, act, ds, past);
    } else if lo == SCD {
      BodyBegins(ds);
      FromBegin(slots, act, body[2..], past);
    } else {
      assert [DLE, ECD] + ([act] + body) == f[2..];
      FromClose(slots, act, ds, past);
    }
  }

  lemma MarkAt(act: byte, ds: seq<Command>)
    requires SpellsMark(|Frame(act, ds)| % 0x1_0000)
    ensures var f, body, lo := Frame(act, ds), PrintCommands(ds) + [DLE, ETX], Low(|Frame(act, ds)| % 0x1_0000);
            |f| == |body| + 5 && f[2..] == [DLE] + ([lo] + ([act] + body)) && f[1..] == [STX] + f[2..]
  {
    hide PrintCommands, Frame, Header, Body, Low;
    HeaderLeft(act, ds, 0);
    FrameIs(act, ds);
    MarkInHeader(act, |Frame(act, ds)| % 0x1_0000, PrintCommands(ds) + [DLE, ETX]);
  }

  lemma MarkInHeader(act: byte, lenght: word, body: seq<byte>)
    requires SpellsMark(lenght)
    ensures var f := Header(act, lenght) + body;
            |f| == |body| + 5 && f[2..] == [DLE] + ([Low(lenght)] + ([act] + body)) && f[1..] == [STX] + f[2..]
  {
    assert High(lenght) == DLE && Header(act, lenght) == [DLE, STX, DLE, Low(lenght), act];
    hide Low;
  }

  lemma BodyBegins(ds: seq<Command>)
    requires |ds| > 0
    ensures var x := PrintCommands(ds) + [DLE, ETX]; |x| >= 2 && x == [DLE] + ([SCD] + x[2..])
  {
    assert PrintCommands(ds)[0] == DLE && PrintCommands(ds)[1] == SCD;
    hide PrintCommands;
  }

  lemma HeaderLeft(act: byte, ds: seq<Command>, r: nat)
    requires r < 5
    ensures var f, lenght := Frame(act, ds), Wrap16(5 + |Body(ds, true)|);
            |f| >= 7 && f[5..] == [DLE] + f[6..] && f[r..] == Header(act, lenght)[r..] + ([DLE] + f[6..]) && lenght == |f| % 0x1_0000
  {
    FrameIs(act, ds);
    var x := PrintCommands(ds) + [DLE, ETX];
    assert x[0] == DLE;
    hide PrintCommands, Frame;
    assert x == [DLE] + x[1..];
  }

  lemma QuietSecond(act: byte, ds: seq<Command>, slots: seq<Slot>, r: nat, past: byte)
    requires |slots| == MAX_COMMANDS && |ds| <= MAX_COMMANDS && Plain(ds) && 1 <= r < |Frame(act, ds)|
    requires IsAct(act) && (r <= 2 ==> !SpellsMark(|Frame(act, ds)| % 0x1_0000))
    ensures Run(Quiet(0), slots, Frame(act, ds)[r..], past) == (slots, |Frame(act, ds)| - r + 1)
  {
    hide Run, Plain, Closes, PrintCommands, Frame, Header, IsAct;
    HeaderLeft(act, ds, if r < 5 then r else 1);
    var f := Frame(act, ds);
    if r >= 5 {
      QuietRest(act, ds, slots, r, past);
    } else {
      QuietRest(act, ds, slots, 5, past);
      QuietRest(act, ds, slots, 6, past);
      QuietHeader(slots, act, Wrap16(5 + |Body(ds, true)|), r, f[6..], past);
    }
  }

  lemma QuietRest(act: byte, ds: seq<Command>, slots: seq<Slot>, r: nat, past: byte)
    requires |slots| == MAX_COMMANDS && |ds| <= MAX_COMMANDS && Plain(ds) && 5 <= r <= |Frame(act, ds)|
    ensures Run(Quiet(0), slots, Frame(act, ds)[r..], past) == (slots, |Frame(act, ds)| - r + 1)
  {
    hide Run, Plain, Closes, Frame;
    assert Frame(act, ds)[r..] + [] == Frame(act, ds)[r..];
    FrameTail(slots, act, ds, r, [], past);
    RunOfNothing(Quiet(Closes(ds, r - 5)), slots, past);
  }

  // ----- saving pieces of a list again -----

  /** With the commands from a on, the table t becomes r. */
  ghost predicate Ends(t: Mem, r: Mem, ds: seq<Command>, a: nat) {
    && MemOk(t) && SameConfig(t, r) && Saveable(t, ds) && a <= |ds|
    && Saveable(t, ds[a..]) && SavedAll(t, ds[a..]) == r
  }

  lemma AlikeChain(t: Mem, p: Mem, r: Mem, q: Mem, z: Mem)
    requires TablesAlike(t, p, r, q) && TablesAlike(t, r, p, z) && TablesAlike(p, z, q, r)
    ensures z == r
  {
    forall j | 0 <= j < |z.regs| ensures z.regs[j] == r.regs[j] {
      assert RegAlike(t.regs[j], p.regs[j], r.regs[j], q.regs[j]) && RegAlike(t.regs[j], r.regs[j], p.regs[j], z.regs[j]);
      assert RegAlike(p.regs[j], z.regs[j], q.regs[j], r.regs[j]);
    }
    ChainCells(t.coils, p.coils, r.coils, q.coils, z.coils);
    ChainCells(t.discs, p.discs, r.discs, q.discs, z.discs);
    forall j | 0 <= j < |z.userRegs| ensures z.userRegs[j] == r.userRegs[j] {
      assert UserRegAlike(t.userRegs[j], p.userRegs[j], r.userRegs[j], q.userRegs[j]);
      assert UserRegAlike(t.userRegs[j], r.userRegs[j], p.userRegs[j], z.userRegs[j]);
      assert UserRegAlike(p.userRegs[j], z.userRegs[j], q.userRegs[j], r.userRegs[j]);
    }
    forall j | 0 <= j < |z.userCoils| ensures z.userCoils[j] == r.userCoils[j] {
      assert UserCoilAlike(t.userCoils[j], p.userCoils[j], r.userCoils[j], q.userCoils[j]);
      assert UserCoilAlike(t.userCoils[j], r.userCoils[j], p.userCoils[j], z.userCoils[j]);
      assert UserCoilAlike(p.userCoils[j], z.userCoils[j], q.userCoils[j], r.userCoils[j]);
    }
    assert z.regs == r.regs && z.userRegs == r.userRegs && z.userCoils == r.userCoils;
  }

  lemma ChainCells(t: seq<Cell>, p: seq<Cell>, r: seq<Cell>, q: seq<Cell>, z: seq<Cell>)
    requires CellsAlike4(t, p, r, q) && CellsAlike4(t, r, p, z) && CellsAlike4(p, z, q, r)
    ensures z == r
  {
    forall j | 0 <= j < |z| ensures z[j] == r[j] {
      assert CellAlike(t[j], p[j], r[j], q[j]) && CellAlike(t[j], r[j], p[j], z[j]) && CellAlike(p[j], z[j], q[j], r[j]);
    }
  }

  lemma TwinsOf(s: Mem, t: Mem)
    requires MemOk(s) && MemOk(t) && SameConfig(s, t)
    ensures Twins(s, t)
  {
    SameShapes(s, t);
  }

  /** If y makes r of t, and x and y leave r as it is, then x before y makes no difference to t either. */
  lemma SaveBefore(t: Mem, r: Mem, x: seq<Command>, y: seq<Command>)
    requires MemOk(t) && MemOk(r) && SameConfig(t, r) && Saveable(t, x) && Saveable(t, y) && SavedAll(t, y) == r
    requires Saveable(r, x + y) && SavedAll(r, x + y) == r
    ensures Saveable(t, x + y) && SavedAll(t, x + y) == r
  {
    SaveableStays(t, r, x);
    SaveableStays(t, r, y);
    SaveableStays(t, SavedAll(t, x), y);
    SavedConcat(t, x, y);
    SavedConcat(r, x, y);
    var p, q := SavedAll(t, x), SavedAll(r, x);
    TwinsOf(t, r);
    TwinsOf(t, p);
    TwinsSaved(t, r, x);
    hide MemOk, Saveable, SavedAll, SameConfig, Twins, TablesAlike;
    AllAlike(t, r, x);
    AllAlike(t, p, y);
    AllAlike(p, q, y);
    AlikeChain(t, p, r, q, SavedAll(p, y));
  }

  /** Saved commands leave the table as it is from whichever of them on they are saved again. */
  lemma SuffixFixes(u: Mem, ds: seq<Command>, a: nat)
    requires MemOk(u) && Saveable(u, ds) && a <= |ds|
    ensures Ends(SavedAll(u, ds), SavedAll(u, ds), ds, a)
  {
    var x, y, r := ds[..a], ds[a..], SavedAll(u, ds);
    assert Saveable(u, x) && Saveable(u, y);
    assert ds == x + y;
    SaveableStays(u, r, ds);
    hide MemOk, Saveable, SavedAll, CanSave;
    SavedConcat(u, x, y);
    SavedTwice(SavedAll(u, x), y);
  }

  lemma EndsEarlier(t: Mem, r: Mem, ds: seq<Command>, a: nat, b: nat)
    requires Ends(t, r, ds, a) && Ends(r, r, ds, b) && b <= a
    ensures Ends(t, r, ds, b)
  {
    hide CanSave, MemOk, SavedAll, SameConfig;
    assert ds[b..] == ds[b..a] + ds[a..];
    assert forall i :: 0 <= i < a - b ==> ds[b..a][i] == ds[b + i];
    assert Saveable(t, ds[b..a]);
    hide Saveable;
    SaveBefore(t, r, ds[b..a], ds[a..]);
  }

  lemma EndsLater(t: Mem, r: Mem, ds: seq<Command>, a: nat)
    requires Ends(t, r, ds, a) && a < |ds|
    ensures CanSave(t, ds[a]) && Ends(SavedOne(t, ds[a]), r, ds, a + 1)
  {
    assert CanSave(t, ds[a]) && Saveable(t, ds[a + 1..]);
    assert ds[a..] == [ds[a]] + ds[a + 1..];
    hide CanSave, MemOk, SavedAll;
    SavedSingle(t, ds[a]);
    SavedConcat(t, [ds[a]], ds[a + 1..]);
    SaveableStays(t, SavedOne(t, ds[a]), ds);
  }

  /** Steps through a list that go on at most to the next place, back as far as they like, and end at its end. */
  ghost predicate Walk(n: nat, xs: seq<int>) {
    && (forall i :: 0 <= i < |xs| ==> 0 <= xs[i] < n)
    && (forall i :: 0 <= i < |xs| - 1 ==> xs[i + 1] <= xs[i] + 1)
    && (|xs| > 0 ==> xs[|xs| - 1] == n - 1)
  }

  function Picked(ds: seq<Command>, xs: seq<int>): (cs: seq<Command>)
    requires forall i :: 0 <= i < |xs| ==> 0 <= xs[i] < |ds|
    ensures |cs| == |xs|
  {
    seq(|xs|, i requires 0 <= i < |xs| => ds[xs[i]])
  }

  /** What holds before step i: the commands from the next on make the table what it was. */
  ghost predicate WalkedTo(r: Mem, ds: seq<Command>, xs: seq<int>, i: nat)
    requires Walk(|ds|, xs) && i <= |xs|
  {
    var cs := Picked(ds, xs[..i]);
    MemOk(r) && Saveable(r, cs) && Ends(SavedAll(r, cs), r, ds, if i == 0 then 0 else xs[i - 1] + 1)
  }

  lemma {:induction false} WalkTo(u: Mem, ds: seq<Command>, xs: seq<int>, i: nat)
    requires MemOk(u) && Saveable(u, ds) && Walk(|ds|, xs) && i <= |xs|
    ensures WalkedTo(SavedAll(u, ds), ds, xs, i)
  {
    var r := SavedAll(u, ds);
    if i == 0 {
      SuffixFixes(u, ds, 0);
      assert SavedAll(r, []) == r;
    } else {
      hide MemOk, CanSave, SavedAll, Ends, WalkedTo, Saveable;
      WalkTo(u, ds, xs, i - 1);
      SuffixFixes(u, ds, xs[i - 1]);
      if i == 1 { SuffixFixes(u, ds, 0); }
      WalkOn(r, ds, xs, i);
    }
  }

  lemma WalkOn(r: Mem, ds: seq<Command>, xs: seq<int>, i: nat)
    requires Walk(|ds|, xs) && 0 < i <= |xs| && WalkedTo(r, ds, xs, i - 1) && Ends(r, r, ds, xs[i - 1])
    ensures WalkedTo(r, ds, xs, i)
  {
    hide MemOk, CanSave, Ends, SavedAll, Saveable, SameConfig, Picked;
    var x, before := xs[i - 1], Picked(ds, xs[..i - 1]);
    var t := SavedAll(r, before);
    if i == 1 {
      NothingPicked(r, ds, before);
    } else {
      EndsEarlier(t, r, ds, xs[i - 2] + 1, x);
    }
    EndsLater(t, r, ds, x);
    NextPicked(r, ds, xs, i, before);
  }

  lemma NothingPicked(r: Mem, ds: seq<Command>, before: seq<Command>)
    requires MemOk(r) && before == Picked(ds, [])
    ensures Saveable(r, before) && SavedAll(r, before) == r
  {
    hide MemOk;
    assert before == [];
  }

  lemma NextPicked(r: Mem, ds: seq<Command>, xs: seq<int>, i: nat, before: seq<Command>)
    requires Walk(|ds|, xs) && 0 < i <= |xs| && before == Picked(ds, xs[..i - 1]) && MemOk(r) && Saveable(r, before)
    requires CanSave(SavedAll(r, before), ds[xs[i - 1]])
    ensures var cs := Picked(ds, xs[..i]); Saveable(r, cs) && SavedAll(r, cs) == SavedOne(SavedAll(r, before), ds[xs[i - 1]])
  {
    hide MemOk, CanSave, SavedAll;
    var c := ds[xs[i - 1]];
    assert Picked(ds, xs[..i]) == before + [c];
    SavedSingle(SavedAll(r, before), c);
    SaveableStays(SavedAll(r, before), r, [c]);
    SavedConcat(r, before, [c]);
  }

  /** So stepped through, saved commands leave the table as it is. */
  lemma WalkSaved(u: Mem, ds: seq<Command>, xs: seq<int>)
    requires MemOk(u) && Saveable(u, ds) && Walk(|ds|, xs)
    ensures var r, cs := SavedAll(u, ds), Picked(ds, xs); Saveable(r, cs) && SavedAll(r, cs) == r
  {
    hide MemOk, CanSave;
    WalkTo(u, ds, xs, |xs|);
    assert xs[..|xs|] == xs;
    assert ds[|ds|..] == [];
  }

  // ----- the slots -----

  /**
   Every used slot holds a command of the second frame, slot j the one numbered ix[j], and if that is not the last
   one, the next slot holds one that is at most one further on.
   */
  ghost predicate Kept(slots: seq<Slot>, ds: seq<Command>, ix: seq<int>) {
    && |slots| == |ix| == MAX_COMMANDS
    && (forall j :: 0 <= j < |ix| ==> ix[j] < |ds| && slots[j].exist == (ix[j] >= 0) && (ix[j] >= 0 ==> slots[j] == Filled(ds[ix[j]])))
    && (forall j :: 0 <= j < |ix| - 1 && 0 <= ix[j] < |ds| - 1 ==> 0 <= ix[j + 1] <= ix[j] + 1)
  }

  /** The last slot is free, or has the last command. */
  predicate AtEnd(ds: seq<Command>, ix: seq<int>) { |ix| == MAX_COMMANDS && (ix[MAX_COMMANDS - 1] < 0 || ix[MAX_COMMANDS - 1] == |ds| - 1) }

  function Marked(ix: seq<int>, k: nat, room: nat): seq<int> {
    seq(|ix|, j requires 0 <= j < |ix| => if k <= j < k + room then j - k else ix[j])
  }

  function Unmarked(ix: seq<int>, k: nat): seq<int> {
    seq(|ix|, j requires 0 <= j < |ix| => if j < k then -1 else ix[j])
  }

  lemma KeptWritten(slots: seq<Slot>, ds: seq<Command>, ix: seq<int>, k: nat, room: nat)
    requires Kept(slots, ds, ix) && k + room <= MAX_COMMANDS && room <= |ds| && (room == |ds| || k + room == MAX_COMMANDS)
    ensures Kept(WithCommands(slots, k, ds[..room]), ds, Marked(ix, k, room))
    ensures room == |ds| && (AtEnd(ds, ix) || (k + room == MAX_COMMANDS && room > 0)) ==> AtEnd(ds, Marked(ix, k, room))
  {
    var t := WithCommands(slots, k, ds[..room]);
    forall j | 0 <= j < MAX_COMMANDS ensures t[j] == if k <= j < k + room then Filled(ds[j - k]) else slots[j] {
      WithAt(slots, k, ds[..room], j);
    }
  }

  lemma KeptDrained(slots: seq<Slot>, ds: seq<Command>, ix: seq<int>)
    requires Kept(slots, ds, ix)
    ensures Kept(Drained(slots), ds, Unmarked(ix, FirstFree(slots))) && !Drained(slots)[0].exist
    ensures AtEnd(ds, ix) ==> AtEnd(ds, Unmarked(ix, FirstFree(slots)))
  {}

  lemma HeldIsWalk(slots: seq<Slot>, ds: seq<Command>, ix: seq<int>)
    requires Kept(slots, ds, ix)
    ensures var xs := ix[..FirstFree(slots)];
            && (forall i :: 0 <= i < |xs| ==> 0 <= xs[i] < |ds|)
            && Held(slots) == Picked(ds, xs)
            && (AtEnd(ds, ix) || FirstFree(slots) == 0 ==> Walk(|ds|, xs))
  {
    var xs := ix[..FirstFree(slots)];
    forall i | 0 <= i < |xs| ensures 0 <= xs[i] < |ds| && Held(slots)[i] == ds[xs[i]] {
      assert slots[i].exist && CommandOf(Filled(ds[xs[i]])) == ds[xs[i]];
    }
  }

  // ----- one turn -----

  /** A turn in the first frame that leaves the table as the second frame has left it. */
  lemma TurnInFirst(w: Pair, u: Mem, past: byte, a: State, ix: seq<int>) returns (b: State, jx: seq<int>)
    requires PairOk(w) && MemOk(u) && Saveable(u, w.second) && Short(w.second) && a.table == SavedAll(u, w.second)
    requires Kept(a.slots, w.second, ix) && !a.slots[0].exist && 5 <= a.place <= Len1(w)
    requires Skipped(w, a.place) == 0 ==> AtEnd(w.second, ix) || |w.second| == MAX_COMMANDS
    ensures TurnFrom(Message(w), past, a, b) && b.table == a.table && b.place == End(w, a.place) - a.place
    ensures Kept(b.slots, w.second, jx) && !b.slots[0].exist
    ensures Room(w, a.place) == |w.second| && (AtEnd(w.second, ix) || (Skipped(w, a.place) + |w.second| == MAX_COMMANDS && |w.second| > 0))
            ==> AtEnd(w.second, jx)
  {
    hide MemOk, Saveable, SavedAll, Short, PairOk, Decode, Frame, End, Drained, Marked, Unmarked, AtEnd;
    var k, room := Skipped(w, a.place), Room(w, a.place);
    FirstPassed(w, a.slots, a.place, past);
    var t := WithCommands(a.slots, k, w.second[..room]);
    WritesAll(w, a.place);
    KeptWritten(a.slots, w.second, ix, k, room);
    if k > 0 { StaysFree(a.slots, k, w.second[..room]); }
    var mx := Marked(ix, k, room);
    KeptDrained(t, w.second, mx);
    jx := Unmarked(mx, FirstFree(t));
    HeldIsWalk(t, w.second, mx);
    WalkSaved(u, w.second, mx[..FirstFree(t)]);
    PickedShort(w.second, mx[..FirstFree(t)]);
    InMessage(w, a.place);
    b := State(Drained(t), a.table, End(w, a.place) - a.place);
  }

  lemma InMessage(w: Pair, p: nat)
    requires p <= Len1(w)
    ensures p < |Message(w)|
  {}

  lemma WritesAll(w: Pair, p: nat)
    requires PairOk(w)
    ensures Skipped(w, p) <= MAX_COMMANDS && Room(w, p) <= |w.second|
    ensures Room(w, p) == |w.second| || Skipped(w, p) + Room(w, p) == MAX_COMMANDS
    ensures Skipped(w, p) == 0 ==> Room(w, p) == |w.second|
  {
    hide Plain;
  }

  lemma StaysFree(slots: seq<Slot>, k: nat, cs: seq<Command>)
    requires |slots| == MAX_COMMANDS && k + |cs| <= |slots| && k > 0 && !slots[0].exist
    ensures FirstFree(WithCommands(slots, k, cs)) == 0
  {
    WithAt(slots, k, cs, 0);
  }

  lemma PickedShort(ds: seq<Command>, xs: seq<int>)
    requires Short(ds) && forall i :: 0 <= i < |xs| ==> 0 <= xs[i] < |ds|
    ensures Short(Picked(ds, xs))
  {}

  /** A turn in the second frame leaves the table as it is. */
  lemma TurnInSecond(w: Pair, past: byte, a: State, ix: seq<int>) returns (b: State, jx: seq<int>)
    requires PairOk(w) && IsAct(w.act) && MemOk(a.table) && Kept(a.slots, w.second, ix) && !a.slots[0].exist
    requires Len1(w) < a.place < Len1(w) + Len2(w)
    ensures TurnFrom(Message(w), past, a, b) && b.table == a.table && b.place == SecondEnd(w, a.place)
    ensures Kept(b.slots, w.second, jx) && !b.slots[0].exist && (AtEnd(w.second, ix) ==> AtEnd(w.second, jx))
  {
    assert |a.slots| == MAX_COMMANDS;
    hide MemOk, PairOk, Decode, Frame, IsAct, SecondEnd, PrintCommands, WithCommands, Kept, AtEnd, SavedAll;
    SecondPassed(w, a.slots, a.place, past);
    SecondIs(w, a.place);
    var t := a.slots;
    jx := ix;
    if Stores(w, a.place) {
      t := WithCommands(a.slots, 1, w.second[1..]);
      jx := KeptBehind(a.slots, w.second, ix);
    }
    NothingHeld(t);
    NothingSaved(a.table);
    b := State(t, a.table, SecondEnd(w, a.place));
  }

  lemma KeptBehind(slots: seq<Slot>, ds: seq<Command>, ix: seq<int>) returns (jx: seq<int>)
    requires Kept(slots, ds, ix) && !slots[0].exist && 0 < |ds| <= MAX_COMMANDS
    ensures var t := WithCommands(slots, 1, ds[1..]);
            Kept(t, ds, jx) && !t[0].exist && (AtEnd(ds, ix) ==> AtEnd(ds, jx))
  {
    var t := WithCommands(slots, 1, ds[1..]);
    jx := seq(|ix|, j requires 0 <= j < |ix| => if 1 <= j < |ds| then j else ix[j]);
    forall j | 0 <= j < MAX_COMMANDS ensures t[j] == if 1 <= j < |ds| then Filled(ds[j]) else slots[j] {
      WithAt(slots, 1, ds[1..], j);
    }
    hide WithCommands;
  }

  lemma NothingHeld(slots: seq<Slot>)
    requires |slots| > 0 && !slots[0].exist
    ensures Held(slots) == [] && Drained(slots) == slots
  {
    FirstFreeIs(slots, 0);
  }

  lemma NothingSaved(s: Mem)
    requires MemOk(s)
    ensures Saveable(s, []) && SavedAll(s, []) == s && Short([])
  {
    hide MemOk;
  }

  // ----- the places -----

  lemma {:induction false} LongerPrint(ds: seq<Command>, i: nat, j: nat)
    requires i <= j <= |ds|
    ensures |PrintCommands(ds[..i])| <= |PrintCommands(ds[..j])|
    ensures i < j ==> |PrintCommands(ds[..i])| + 7 <= |PrintCommands(ds[..j])|
    decreases j - i
  {
    hide PrintCommand;
    if i < j {
      LongerPrint(ds, i, j - 1);
      assert ds[..j] == ds[..j - 1] + [ds[j - 1]];
      PrintAppend(ds[..j - 1], ds[j - 1]);
      CommandLength(ds[j - 1]);
    }
  }

  lemma EndBounds(w: Pair, p: nat)
    requires PairOk(w)
    ensures Len1(w) + 7 <= End(w, p) <= Len1(w) + Len2(w)
    ensures Room(w, p) == |w.second| ==> End(w, p) == Len1(w) + Len2(w)
    ensures Room(w, p) < |w.second| ==> End(w, p) <= Len1(w) + Len2(w) - 7
  {
    WritesAll(w, p);
    hide PairOk, Frame, PrintCommands, Skipped, Room;
    FrameIs(w.act, w.second);
    LongerPrint(w.second, Room(w, p), |w.second|);
    assert w.second[..|w.second|] == w.second;
  }

  lemma EndGrows(w: Pair, p: nat, q: nat)
    requires PairOk(w) && 5 <= p <= q
    ensures End(w, p) <= End(w, q) && Skipped(w, q) <= Skipped(w, p)
    ensures q <= p + 3 ==> Skipped(w, p) <= Skipped(w, q) + 1
  {
    ClosesLess(w.first, p - 5, q - 5);
    WritesAll(w, p);
    WritesAll(w, q);
    hide PairOk, Frame, PrintCommands, Closes;
    LongerPrint(w.second, Room(w, p), Room(w, q));
  }

  lemma NoneSkipped(w: Pair, p: nat)
    requires PairOk(w) && 5 <= p
    ensures Skipped(w, p) == 0 <==> p + 3 >= Len1(w) || |w.first| == 0
    ensures Len1(w) >= 7 && Len2(w) >= 7
  {
    hide PairOk, Closes, PrintCommands, Frame;
    ClosesNone(w.first, p - 5);
    FrameIs(w.act, w.first);
    FrameIs(w.act, w.second);
  }

  /** From the place Len2 on, all commands of the second frame find a slot. */
  predicate Fits(w: Pair) { Room(w, Len2(w)) == |w.second| }

  /** Places where commands are left out, and nothing is drained; what lies before them leads to such places. */
  ghost predicate Early(w: Pair, p: nat) {
    7 <= p < Len1(w) - 3 && forall q :: 7 <= q < Len2(w) && End(w, q) >= q + Len1(w) - 3 ==> q < p
  }

  /** Places right behind Len2 where the last command goes into the last slot; the turn after them is at the end of the first frame. */
  predicate Filling(w: Pair, p: int) {
    Len2(w) < p <= Len2(w) + 3 && p < Len1(w) - 3 && Skipped(w, p) + |w.second| == MAX_COMMANDS && |w.second| > 0
  }

  /** The places of all turns but the first two, if the second frame is not longer. */
  ghost predicate PlaceOk(w: Pair, p: nat) {
    if Fits(w) then p == Len1(w) || p == Len2(w) else Early(w, p) || Filling(w, p) || Filling(w, Len1(w) + Len2(w) - p)
  }

  /** Where the last slot must not hold another command than the last. */
  predicate NeedsEnd(w: Pair, p: nat) { Fits(w) || p + 3 >= Len1(w) }

  lemma NextPlace(w: Pair, p: nat)
    requires PairOk(w) && Len2(w) <= Len1(w) && PlaceOk(w, p)
    ensures 7 <= p <= Len1(w) && p <= End(w, p) && PlaceOk(w, End(w, p) - p)
    ensures Skipped(w, p) == 0 ==> NeedsEnd(w, p)
    ensures NeedsEnd(w, End(w, p) - p) ==> Room(w, p) == |w.second|
    ensures NeedsEnd(w, End(w, p) - p) && !NeedsEnd(w, p) ==> Skipped(w, p) + |w.second| == MAX_COMMANDS && |w.second| > 0
  {
    hide PairOk, Frame, PrintCommands, Closes, End;
    NoneSkipped(w, 7);
    WritesAll(w, p);
    WritesAll(w, Len2(w));
    EndBounds(w, p);
    EndBounds(w, Len2(w));
    NoneSkipped(w, Len2(w));
    NoneSkipped(w, p);
    if Fits(w) {
    } else if Early(w, p) {
      FromEarly(w, p);
    }
  }

  lemma FromEarly(w: Pair, p: nat)
    requires PairOk(w) && Len2(w) <= Len1(w) && !Fits(w) && Early(w, p)
    ensures p <= End(w, p)
    ensures var next := End(w, p) - p; Early(w, next) || (Filling(w, p) && next == Len1(w) + Len2(w) - p)
  {
    hide PairOk, Frame, PrintCommands, Closes, End;
    NoneSkipped(w, 7);
    WritesAll(w, p);
    WritesAll(w, Len2(w));
    EndBounds(w, p);
    var next := End(w, p) - p;
    if p < Len2(w) || next + 3 < Len1(w) {
      forall q | 7 <= q < Len2(w) && End(w, q) >= q + Len1(w) - 3 ensures q < next {
        EndGrows(w, q, p);
      }
    } else {
      EndGrows(w, Len2(w), p);
    }
  }

  // ----- all turns -----

  /** All commands of both frames fit the slots, or those of the second always take all of them. */
  predicate Loose(w: Pair) { |w.first| + |w.second| <= MAX_COMMANDS || |w.second| == MAX_COMMANDS }

  /** Where the third turn and all later ones begin, and what then must hold of the last slot. */
  ghost predicate Here(w: Pair, p: nat, ix: seq<int>) {
    if Len2(w) <= Len1(w) then PlaceOk(w, p) && (NeedsEnd(w, p) ==> AtEnd(w.second, ix))
    else if Loose(w) then 5 <= p <= Len1(w) + Len2(w) - 5 && (AtEnd(w.second, ix) || |w.second| == MAX_COMMANDS)
    else Len1(w) <= p <= Len2(w) && AtEnd(w.second, ix)
  }

  /** What is asked of two frames: for a second one that is longer there is a length that can go wrong. */
  predicate Harmless(w: Pair) { Len1(w) < Len2(w) ==> IsAct(w.act) && (Len2(w) % 0x1_0000 == 0x1004 ==> Loose(w)) }

  /** A state after both frames are saved. */
  ghost predicate Settled(w: Pair, u: Mem, a: State, ix: seq<int>) {
    && PairOk(w) && Harmless(w) && MemOk(u) && Saveable(u, w.second) && Short(w.second) && a.table == SavedAll(u, w.second)
    && Kept(a.slots, w.second, ix) && !a.slots[0].exist && Here(w, a.place, ix)
  }

  lemma SettledTurn(w: Pair, u: Mem, past: byte, a: State, ix: seq<int>) returns (b: State, jx: seq<int>)
    requires Settled(w, u, a, ix)
    ensures TurnFrom(Message(w), past, a, b) && Settled(w, u, b, jx) && b.table == a.table
  {
    hide PairOk, MemOk, SavedAll, Saveable, Short, Kept, AtEnd, TurnFrom, PlaceOk, NeedsEnd, Frame, End, Room, Skipped, Message, SecondEnd, IsAct;
    WritesAll(w, a.place);
    if Len2(w) <= Len1(w) {
      NextPlace(w, a.place);
      b, jx := TurnInFirst(w, u, past, a, ix);
    } else if a.place <= Len1(w) {
      StaysInFirst(w, a.place);
      b, jx := TurnInFirst(w, u, past, a, ix);
    } else {
      StaysInSecond(w, a.place);
      b, jx := TurnInSecond(w, past, a, ix);
    }
  }

  lemma StaysInFirst(w: Pair, p: nat)
    requires PairOk(w) && Len1(w) < Len2(w) && p <= Len1(w)
    requires if Loose(w) then 5 <= p else p == Len1(w)
    ensures 5 <= p <= End(w, p) && (if Loose(w) then 5 <= End(w, p) - p <= Len1(w) + Len2(w) - 5 else End(w, p) - p == Len2(w))
    ensures |w.second| == MAX_COMMANDS || Room(w, p) == |w.second|
  {
    NoneSkipped(w, 7);
    NoneSkipped(w, Len1(w));
    WritesAll(w, p);
    EndBounds(w, p);
    SkippedFew(w, p);
    hide PairOk, Frame, End, PrintCommands, Closes;
  }

  lemma SkippedFew(w: Pair, p: nat)
    ensures Skipped(w, p) <= |w.first|
  {}

  lemma StaysInSecond(w: Pair, p: nat)
    requires PairOk(w) && Harmless(w) && Len1(w) < Len2(w) && Len1(w) < p
    requires if Loose(w) then p <= Len1(w) + Len2(w) - 5 else p <= Len2(w)
    ensures p < Len1(w) + Len2(w) && IsAct(w.act)
    ensures if Loose(w) then 5 <= SecondEnd(w, p) <= Len1(w) + Len2(w) - 5 else Len1(w) <= SecondEnd(w, p) <= Len2(w)
  {
    NoneSkipped(w, 7);
    FrameIs(w.act, w.second);
    if |w.second| > 0 {
      LongerPrint(w.second, |w.second| - 1, |w.second|);
      assert w.second[..|w.second|] == w.second;
    }
    hide PairOk, Frame, PrintCommands, IsAct;
  }

  lemma {:induction false} SettledTurns(w: Pair, u: Mem, past: byte, a: State, ix: seq<int>, turns: nat) returns (c: seq<State>)
    requires Settled(w, u, a, ix)
    ensures Course(Message(w), past, c) && |c| == turns + 1 && c[0] == a && forall k :: 0 <= k < |c| ==> c[k].table == a.table
    decreases turns
  {
    hide Settled, TurnFrom, Message;
    if turns == 0 {
      c := [a];
    } else {
      var b, jx := SettledTurn(w, u, past, a, ix);
      var d := SettledTurns(w, u, past, b, jx, turns - 1);
      CourseGrows(Message(w), past, a, d);
      c := [a] + d;
    }
  }

  lemma SettledAtFirst(w: Pair, u: Mem, a: State) returns (ix: seq<int>)
    requires PairOk(w) && Harmless(w) && MemOk(u) && Saveable(u, w.second) && Short(w.second) && a.table == SavedAll(u, w.second)
    requires Ready(a) && a.place == Len2(w)
    ensures Settled(w, u, a, ix)
  {
    hide PairOk, MemOk, SavedAll, Saveable, Short, Frame, End, Skipped, IsAct;
    ix := seq(MAX_COMMANDS, _ => -1);
    NoneSkipped(w, 7);
    NoneSkipped(w, Len2(w));
    WritesAll(w, Len2(w));
  }

  lemma JoinCourses(m: seq<byte>, past: byte, c: seq<State>, d: seq<State>)
    requires Course(m, past, c) && Course(m, past, d) && |c| == 3 && c[2] == d[0]
    ensures Course(m, past, [c[0]] + ([c[1]] + d))
  {
    hide TurnFrom;
    assert TurnAt(m, past, c, 0) && TurnAt(m, past, c, 1);
    CourseGrows(m, past, c[1], d);
    CourseGrows(m, past, c[0], [c[1]] + d);
  }

  /**
   Two frames of any two lengths, with no DLE in their addresses and payloads: the loop takes all its turns, and from
   the second on the table is what saving both frames in order makes of it. Left out is a second frame that is
   longer, of 0x1004 bytes modulo 0x10000, with fewer than fifty commands, but together with the first more than fifty.
   */
  lemma TwoFramesServed(slots: seq<Slot>, s: Mem, act: byte, cs: seq<Command>, ds: seq<Command>, past: byte) returns (c: seq<State>)
    requires |slots| == MAX_COMMANDS && AllFree(slots) && MemOk(s) && Takeable(s, cs) && Takeable(s, ds) && Plain(cs) && Plain(ds)
    requires var l1, l2 := |Frame(act, cs)|, |Frame(act, ds)|;
             l1 < l2 ==> IsAct(act) && (l2 % 0x1_0000 == 0x1004 ==> |cs| + |ds| <= MAX_COMMANDS || |ds| == MAX_COMMANDS)
    ensures var m := Frame(act, cs) + Frame(act, ds);
            Course(m, past, c) && Over(m, c) && |c| == MAXDECODINGLOOPS + 1 && c[0] == State(slots, s, 0)
    ensures Saveable(s, cs + ds) && forall k :: 2 <= k < |c| ==> c[k].table == SavedAll(s, cs + ds)
  {
    hide Frame, MemOk, SavedAll, Saveable, Short, Plain, TurnFrom, AllFree, Course, Settled, IsAct;
    var w := Pair(act, cs, ds);
    assert Frame(act, ds) + [] == Frame(act, ds);
    var e := TwoFramesTurns(slots, s, act, cs, ds, [], past);
    SavedConcat(s, cs, ds);
    TakeableStays(s, cs, ds);
    var ix := SettledAtFirst(w, SavedAll(s, cs), e[2]);
    var d := SettledTurns(w, SavedAll(s, cs), past, e[2], ix, MAXDECODINGLOOPS - 2);
    JoinCourses(Message(w), past, e, d);
    c := [e[0]] + ([e[1]] + d);
  }
}
