/** What a printed frame decodes to, and which slots any message at all can fill. */
module MttpProofs {
  import opened Bytes
  import opened Mttp

  // ----- one command -----

  /** Between two commands of a frame: the message header is behind, no mark is open. */
  function Between(index: nat, ecd: bool): Scan { Scan(false, true, false, ecd, index, 0, 3) }

  /** Inside a command, part bytes of its header seen. */
  function Inside(index: nat, part: nat): Scan { Scan(false, true, true, false, index, part, 3) }

  /** The result of the rest of a scan, with k bytes counted before it. */
  function After(k: nat, r: (seq<Slot>, nat)): (seq<Slot>, nat) { (r.0, k + r.1) }

  lemma OneTurn(s: Scan, slots: seq<Slot>, b: byte, rest: seq<byte>, past: byte, s': Scan, t: seq<Slot>)
    requires ScanOk(s, slots)
    requires Step(s, slots, b, Next([b] + rest, past)) == Go(s', t)
    ensures Run(s, slots, [b] + rest, past) == After(1, Run(s', t, rest, past))
  {
    hide Step;
    assert ([b] + rest)[1..] == rest;
  }

  /** A byte in its escaped form is taken once, wherever a command expects one. */
  lemma EscapedByteTaken(index: nat, part: nat, slots: seq<Slot>, b: byte, rest: seq<byte>, past: byte)
    requires ScanOk(Inside(index, part), slots) && part <= 3
    ensures TakeByte(Inside(index, part), slots, b, Next([b] + rest, past)).Go?
    ensures var p := TakeByte(Inside(index, part), slots, b, Next([b] + rest, past));
            ScanOk(p.scan, p.slots) &&
            Run(Inside(index, part), slots, EscapeByte(b) + rest, past) == After(|EscapeByte(b)|, Run(p.scan, p.slots, rest, past))
  {
    var s := Inside(index, part);
    var p := TakeByte(s, slots, b, Next([b] + rest, past));
    if b == DLE {
      assert EscapeByte(b) + rest == [DLE] + ([DLE] + rest);
      OneTurn(s, slots, DLE, [DLE] + rest, past, s.(dle := true), slots);
      assert s.(dle := true).(dle := false) == s;
      OneTurn(s.(dle := true), slots, DLE, rest, past, p.scan, p.slots);
    } else {
      OneTurn(s, slots, b, rest, past, p.scan, p.slots);
    }
  }

  function WithPayload(slots: seq<Slot>, index: nat, p: seq<byte>): seq<Slot>
    requires index < |slots|
  {
    slots[index := slots[index].(payload := slots[index].payload + p)]
  }

  lemma PayloadByteTaken(index: nat, slots: seq<Slot>, b: byte, rest: seq<byte>, past: byte)
    requires ScanOk(Inside(index, 3), slots)
    ensures Run(Inside(index, 3), slots, EscapeByte(b) + rest, past) ==
            After(|EscapeByte(b)|, Run(Inside(index, 3), WithPayload(slots, index, [b]), rest, past))
  {
    hide Run, Step, EscapeByte;
    EscapedByteTaken(index, 3, slots, b, rest, past);
  }

  lemma {:induction false} PayloadTaken(index: nat, slots: seq<Slot>, p: seq<byte>, rest: seq<byte>, past: byte)
    requires ScanOk(Inside(index, 3), slots)
    ensures Run(Inside(index, 3), slots, Escape(p) + rest, past) ==
            After(|Escape(p)|, Run(Inside(index, 3), WithPayload(slots, index, p), rest, past))
    decreases |p|
  {
    hide Run, Step, TakeByte, EscapeByte;
    if |p| == 0 {
      assert Escape(p) + rest == rest;
      WithNothing(slots, index);
    } else {
      var more := Escape(p[1..]) + rest;
      assert Escape(p) + rest == EscapeByte(p[0]) + more;
      PayloadByteTaken(index, slots, p[0], more, past);
      WithMore(slots, index, p);
      PayloadTaken(index, WithPayload(slots, index, [p[0]]), p[1..], rest, past);
    }
  }

  lemma WithNothing(slots: seq<Slot>, index: nat)
    requires index < |slots|
    ensures WithPayload(slots, index, []) == slots
  {
    assert slots[index].payload + [] == slots[index].payload;
  }

  lemma WithMore(slots: seq<Slot>, index: nat, p: seq<byte>)
    requires index < |slots| && |p| > 0
    ensures WithPayload(WithPayload(slots, index, [p[0]]), index, p[1..]) == WithPayload(slots, index, p)
  {
    assert slots[index].payload + [p[0]] + p[1..] == slots[index].payload + p;
  }

  function Filled(c: Command): Slot { Slot(true, c.kind, c.adress, c.payload) }

  /** The two address bytes: the low one is read ahead, and an escaped DLE starts with DLE. */
  lemma AdressTaken(index: nat, slots: seq<Slot>, adress: word, rest: seq<byte>, past: byte)
    requires ScanOk(Inside(index, 1), slots)
    ensures var a := Escape(Int16Bytes(adress));
            Run(Inside(index, 1), slots, a + rest, past) ==
            After(|a|, Run(Inside(index, 3), slots[index := Slot(true, slots[index].kind, adress, [])], rest, past))
  {
    hide Run;
    var hi, lo := High(adress), Low(adress);
    JoinParts(adress);
    EscapeOfTwo(hi, lo);
    var more := EscapeByte(lo) + rest;
    assert Escape(Int16Bytes(adress)) + rest == EscapeByte(hi) + more;
    assert Next([hi] + more, past) == lo;
    EscapedByteTaken(index, 1, slots, hi, more, past);
    var t := slots[index := slots[index].(adress := adress)];
    EscapedByteTaken(index, 2, t, lo, rest, past);
    assert t[index := t[index].(exist := true, payload := [])] == slots[index := Slot(true, slots[index].kind, adress, [])];
  }

  lemma EscapeOfTwo(a: byte, b: byte)
    ensures Escape([a, b]) == EscapeByte(a) + EscapeByte(b)
  {
    assert [a, b] == [a] + [b];
    EscapeConcat([a], [b]);
    assert [a][1..] == [] && [b][1..] == [];
    assert Escape([a]) == EscapeByte(a) + Escape([]);
    assert Escape([b]) == EscapeByte(b) + Escape([]);
  }

  /** A printed command fills the next slot with exactly its kind, address and payload. */
  lemma CommandTaken(index: nat, ecd: bool, slots: seq<Slot>, c: Command, rest: seq<byte>, past: byte)
    requires |slots| == MAX_COMMANDS && index < MAX_COMMANDS && IsData(c.kind)
    requires ecd ==> index + 1 < MAX_COMMANDS
    ensures var at := if ecd then index + 1 else index;
            Run(Between(index, ecd), slots, PrintCommand(c) + rest, past) ==
            After(|PrintCommand(c)|, Run(Between(at, true), slots[at := Filled(c)], rest, past))
  {
    hide Run, Escape;
    var at := if ecd then index + 1 else index;
    EscapeConcat(Int16Bytes(c.adress), c.payload);
    var a, p, end := Escape(Int16Bytes(c.adress)), Escape(c.payload), [DLE] + ([ECD] + rest);
    assert PrintCommand(c) + rest == [DLE] + ([SCD] + ([c.kind] + (a + (p + end))));
    var s := Between(index, ecd);
    OneTurn(s, slots, DLE, [SCD] + ([c.kind] + (a + (p + end))), past, s.(dle := true), slots);
    OneTurn(s.(dle := true), slots, SCD, [c.kind] + (a + (p + end)), past, Inside(at, 0), slots);
    var t := slots[at := slots[at].(kind := c.kind)];
    OneTurn(Inside(at, 0), slots, c.kind, a + (p + end), past, Inside(at, 1), t);
    AdressTaken(at, t, c.adress, p + end, past);
    var u := t[at := Slot(true, c.kind, c.adress, [])];
    PayloadTaken(at, u, c.payload, end, past);
    assert [] + c.payload == c.payload;
    assert WithPayload(u, at, c.payload) == slots[at := Filled(c)];
    OneTurn(Inside(at, 3), slots[at := Filled(c)], DLE, [ECD] + rest, past, Inside(at, 3).(dle := true), slots[at := Filled(c)]);
    OneTurn(Inside(at, 3).(dle := true), slots[at := Filled(c)], ECD, rest, past, Between(at, true), slots[at := Filled(c)]);
  }

  // ----- the bytes of a frame in which nothing is escaped -----

  predicate NoDle(p: seq<byte>) { forall i :: 0 <= i < |p| ==> p[i] != DLE }

  /** What a command prints between its marks when nothing in it is escaped. */
  function Inner(c: Command): seq<byte> { [c.kind] + (Int16Bytes(c.adress) + c.payload) }

  lemma {:induction false} EscapeNothing(p: seq<byte>)
    requires NoDle(p)
    ensures Escape(p) == p
  {
    if |p| > 0 { EscapeNothing(p[1..]); }
  }

  lemma PlainPrint(c: Command)
    requires NoDle(Inner(c))
    ensures PrintCommand(c) == [DLE, SCD] + Inner(c) + [DLE, ECD]
  {
    var p := Int16Bytes(c.adress) + c.payload;
    forall i | 0 <= i < |p| ensures p[i] != DLE { assert Inner(c)[i + 1] == p[i]; }
    EscapeNothing(p);
  }

  /** A frame of one such command, byte by byte; its length is counted modulo 0x10000. */
  lemma FrameBytes(act: byte, c: Command)
    requires NoDle(Inner(c))
    ensures var n := (14 + |c.payload|) % 0x1_0000;
            Frame(act, [c]) ==
            [0x10, 0x02, n / 0x100, n % 0x100, act, 0x10, 0x04, c.kind, c.adress / 0x100, c.adress % 0x100] + c.payload + [0x10, 0x05, 0x10, 0x03]
  {
    PlainPrint(c);
    assert [c][1..] == [];
    assert PrintCommands([c]) == PrintCommand(c) + PrintCommands([]);
    hide PrintCommand, PrintCommands;
    assert 5 + |Body([c], true)| == 14 + |c.payload|;
  }

  // ----- whole frames -----

  predicate AllData(cs: seq<Command>) { forall i :: 0 <= i < |cs| ==> IsData(cs[i].kind) }

  /** The slots with the commands put in from slot k on. */
  function WithCommands(slots: seq<Slot>, k: nat, cs: seq<Command>): (r: seq<Slot>)
    requires k + |cs| <= |slots|
    ensures |r| == |slots|
  {
    slots[..k] + seq(|cs|, i requires 0 <= i < |cs| => Filled(cs[i])) + slots[k + |cs|..]
  }

  lemma {:induction false} CommandsTaken(index: nat, ecd: bool, slots: seq<Slot>, cs: seq<Command>, rest: seq<byte>, past: byte)
    requires |slots| == MAX_COMMANDS && index < MAX_COMMANDS && AllData(cs)
    requires (if ecd then index + 1 else index) + |cs| <= MAX_COMMANDS
    ensures var at := if ecd then index + 1 else index;
            var s := if |cs| == 0 then Between(index, ecd) else Between(at + |cs| - 1, true);
            Run(Between(index, ecd), slots, PrintCommands(cs) + rest, past) ==
            After(|PrintCommands(cs)|, Run(s, WithCommands(slots, at, cs), rest, past))
    decreases |cs|
  {
    hide Run, PrintCommand;
    var at := if ecd then index + 1 else index;
    if |cs| == 0 {
      assert PrintCommands(cs) + rest == rest;
      assert WithCommands(slots, at, cs) == slots;
    } else {
      var more := PrintCommands(cs[1..]) + rest;
      assert PrintCommands(cs) + rest == PrintCommand(cs[0]) + more;
      CommandTaken(index, ecd, slots, cs[0], more, past);
      var t := slots[at := Filled(cs[0])];
      CommandsTaken(at, true, t, cs[1..], rest, past);
      assert WithCommands(t, at + 1, cs[1..]) == WithCommands(slots, at, cs);
    }
  }

  /** Before the first start mark, and between the commands of a frame, bytes without a DLE do nothing. */
  lemma {:induction false} NoiseSkipped(s: Scan, slots: seq<Slot>, noise: seq<byte>, rest: seq<byte>, past: byte)
    requires ScanOk(s, slots) && !s.dle && (!s.stx || (!s.scd && s.header == 3)) && forall i :: 0 <= i < |noise| ==> noise[i] != DLE
    ensures Run(s, slots, noise + rest, past) == After(|noise|, Run(s, slots, rest, past))
    decreases |noise|
  {
    hide Run;
    if |noise| == 0 {
      assert noise + rest == rest;
    } else {
      assert noise + rest == [noise[0]] + (noise[1..] + rest);
      OneTurn(s, slots, noise[0], noise[1..] + rest, past, s, slots);
      NoiseSkipped(s, slots, noise[1..], rest, past);
    }
  }

  /** Before a start mark: no mark open, and a command slot chosen. */
  function Before(index: nat, ecd: bool): Scan { START.(index := index, ecd := ecd) }

  /** The start mark and the three bytes after it, whatever they are. */
  lemma HeaderSkipped(k: nat, ecd: bool, slots: seq<Slot>, act: byte, lenght: word, rest: seq<byte>, past: byte)
    requires ScanOk(Before(k, ecd), slots)
    ensures Run(Before(k, ecd), slots, Header(act, lenght) + rest, past) == After(5, Run(Between(k, ecd), slots, rest, past))
  {
    hide Run;
    var h, l := High(lenght), Low(lenght);
    var s := Before(k, ecd);
    assert Header(act, lenght) + rest == [DLE] + ([STX] + ([h] + ([l] + ([act] + rest))));
    OneTurn(s, slots, DLE, [STX] + ([h] + ([l] + ([act] + rest))), past, s.(dle := true), slots);
    OneTurn(s.(dle := true), slots, STX, [h] + ([l] + ([act] + rest)), past, s.(stx := true, header := 0), slots);
    OneTurn(s.(stx := true, header := 0), slots, h, [l] + ([act] + rest), past, s.(stx := true, header := 1), slots);
    OneTurn(s.(stx := true, header := 1), slots, l, [act] + rest, past, s.(stx := true, header := 2), slots);
    OneTurn(s.(stx := true, header := 2), slots, act, rest, past, Between(k, ecd), slots);
  }

  lemma EndFound(index: nat, ecd: bool, slots: seq<Slot>, rest: seq<byte>, past: byte)
    requires |slots| == MAX_COMMANDS && index < MAX_COMMANDS
    ensures Run(Between(index, ecd), slots, [DLE, ETX] + rest, past) == (slots, 2)
  {
    var s := Between(index, ecd);
    assert [DLE, ETX] + rest == [DLE] + ([ETX] + rest);
    OneTurn(s, slots, DLE, [ETX] + rest, past, s.(dle := true), slots);
    assert Step(s.(dle := true), slots, ETX, Next([ETX] + rest, past)) == Stop(slots);
  }

  lemma FrameParts(noise: seq<byte>, act: byte, cs: seq<Command>, suffix: seq<byte>)
    ensures noise + Frame(act, cs) + suffix ==
            noise + (Header(act, Wrap16(5 + |Body(cs, true)|)) + (PrintCommands(cs) + ([DLE, ETX] + suffix)))
    ensures |Frame(act, cs)| == 5 + |PrintCommands(cs)| + 2
  {
    hide PrintCommands, Wrap16;
  }

  /** The slot of the next command. */
  function NextSlot(index: nat, ecd: bool): nat { if ecd then index + 1 else index }

  /** A frame, whatever its length bytes say and whatever slot its first command goes into. */
  lemma FrameRead(index: nat, ecd: bool, slots: seq<Slot>, act: byte, lenght: word, cs: seq<Command>, suffix: seq<byte>, past: byte)
    requires |slots| == MAX_COMMANDS && AllData(cs) && index < MAX_COMMANDS && NextSlot(index, ecd) + |cs| <= MAX_COMMANDS
    ensures Run(Before(index, ecd), slots, Header(act, lenght) + (PrintCommands(cs) + ([DLE, ETX] + suffix)), past)
         == (WithCommands(slots, NextSlot(index, ecd), cs), 5 + |PrintCommands(cs)| + 2)
  {
    hide Run, PrintCommands, Header, WithCommands;
    var at, end := NextSlot(index, ecd), [DLE, ETX] + suffix;
    HeaderSkipped(index, ecd, slots, act, lenght, PrintCommands(cs) + end, past);
    CommandsTaken(index, ecd, slots, cs, end, past);
    EndFound(if |cs| == 0 then index else at + |cs| - 1, if |cs| == 0 then ecd else true, WithCommands(slots, at, cs), suffix, past);
  }

  /**
   The round trip. Whatever comes before a frame without a DLE and whatever comes after it: the
   frame's commands end up, in order, in the slots from the first free one on, no other slot
   changes, and the number returned is the position right after the frame.
   */
  lemma RoundTrip(slots: seq<Slot>, noise: seq<byte>, act: byte, cs: seq<Command>, suffix: seq<byte>, past: byte)
    requires |slots| == MAX_COMMANDS && FirstFree(slots) < MAX_COMMANDS
    requires AllData(cs) && FirstFree(slots) + |cs| <= MAX_COMMANDS
    requires forall i :: 0 <= i < |noise| ==> noise[i] != DLE
    ensures Decode(slots, noise + Frame(act, cs) + suffix, past)
         == (WithCommands(slots, FirstFree(slots), cs), |noise| + |Frame(act, cs)|)
  {
    hide Run, PrintCommands, Header, Frame, WithCommands, FirstFree, Step, Body;
    var k := FirstFree(slots);
    var lenght := Wrap16(5 + |Body(cs, true)|);
    var end := [DLE, ETX] + suffix;
    FrameParts(noise, act, cs, suffix);
    NoiseSkipped(Before(k, false), slots, noise, Header(act, lenght) + (PrintCommands(cs) + end), past);
    FrameRead(k, false, slots, act, lenght, cs, suffix, past);
  }

  /**
   More commands than free slots: the slots fill up, and the scan gives the rest of the frame back
   from right after the start mark of the first command that has no slot.
   */
  lemma OverfullFrame(slots: seq<Slot>, act: byte, cs: seq<Command>, suffix: seq<byte>, past: byte)
    requires |slots| == MAX_COMMANDS && FirstFree(slots) < MAX_COMMANDS
    requires AllData(cs) && FirstFree(slots) + |cs| > MAX_COMMANDS
    ensures var fit := cs[..MAX_COMMANDS - FirstFree(slots)];
            Decode(slots, Frame(act, cs) + suffix, past) == (WithCommands(slots, FirstFree(slots), fit), 5 + |PrintCommands(fit)| + 2)
  {
    hide Run, PrintCommands, Frame, WithCommands;
    assert Before(FirstFree(slots), false) == START.(index := FirstFree(slots));
    OverfullRead(FirstFree(slots), false, slots, act, cs, suffix, past);
  }

  lemma OverfullRead(index: nat, ecd: bool, slots: seq<Slot>, act: byte, cs: seq<Command>, suffix: seq<byte>, past: byte)
    requires |slots| == MAX_COMMANDS && index < MAX_COMMANDS && AllData(cs) && NextSlot(index, ecd) + |cs| > MAX_COMMANDS
    ensures var fit := cs[..MAX_COMMANDS - NextSlot(index, ecd)];
            Run(Before(index, ecd), slots, Frame(act, cs) + suffix, past) ==
            (WithCommands(slots, NextSlot(index, ecd), fit), 5 + |PrintCommands(fit)| + 2)
  {
    hide Run, PrintCommand, PrintCommands, Escape, Header, Frame, WithCommands;
    var at := NextSlot(index, ecd);
    var n := MAX_COMMANDS - at;
    var lenght := Wrap16(5 + |Body(cs, true)|);
    var tail := OverfullParts(act, cs, n, suffix);
    var rest := [DLE] + ([SCD] + tail);
    HeaderSkipped(index, ecd, slots, act, lenght, PrintCommands(cs[..n]) + rest, past);
    CommandsTaken(index, ecd, slots, cs[..n], rest, past);
    var s, t := Between(MAX_COMMANDS - 1, true), WithCommands(slots, at, cs[..n]);
    OneTurn(s, t, DLE, [SCD] + tail, past, s.(dle := true), t);
    StopAt(s.(dle := true), t, SCD, tail, past);
  }

  lemma OverfullParts(act: byte, cs: seq<Command>, n: nat, suffix: seq<byte>) returns (tail: seq<byte>)
    requires n < |cs|
    ensures Frame(act, cs) + suffix ==
            Header(act, Wrap16(5 + |Body(cs, true)|)) + (PrintCommands(cs[..n]) + ([DLE] + ([SCD] + tail)))
  {
    hide PrintCommand, Escape, Wrap16;
    var c, after := cs[n], PrintCommands(cs[n + 1..]) + [DLE, ETX] + suffix;
    tail := [c.kind] + Escape(Int16Bytes(c.adress) + c.payload) + [DLE, ECD] + after;
    PrintSplit(cs, n);
    assert cs[n..][0] == c && cs[n..][1..] == cs[n + 1..];
    assert PrintCommands(cs[n..]) == PrintCommand(c) + PrintCommands(cs[n + 1..]);
    hide PrintCommands;
    SplitFirst(c, after);
    assert PrintCommands(cs) + ([DLE, ETX] + suffix) == PrintCommands(cs[..n]) + (PrintCommand(c) + after);
    FrameParts([], act, cs, suffix);
    assert [] + Frame(act, cs) + suffix == Frame(act, cs) + suffix;
  }

  lemma StopAt(s: Scan, slots: seq<Slot>, b: byte, rest: seq<byte>, past: byte)
    requires ScanOk(s, slots) && Step(s, slots, b, Next([b] + rest, past)) == Stop(slots)
    ensures Run(s, slots, [b] + rest, past) == (slots, 1)
  {}

  lemma SplitFirst(c: Command, rest: seq<byte>)
    ensures PrintCommand(c) + rest == [DLE] + ([SCD] + ([c.kind] + Escape(Int16Bytes(c.adress) + c.payload) + [DLE, ECD] + rest))
  {
    hide Escape;
  }

  lemma {:induction false} PrintSplit(cs: seq<Command>, n: nat)
    requires n <= |cs|
    ensures PrintCommands(cs) == PrintCommands(cs[..n]) + PrintCommands(cs[n..])
    decreases n
  {
    hide PrintCommand;
    if n == 0 {
      assert cs[n..] == cs;
    } else {
      PrintSplit(cs[1..], n - 1);
      assert cs[..n][1..] == cs[1..][..n - 1];
      assert cs[1..][n - 1..] == cs[n..];
      assert PrintCommands(cs) == PrintCommand(cs[0]) + (PrintCommands(cs[..n][1..]) + PrintCommands(cs[n..]));
    }
  }

  /** Frames one after the other. */
  function Frames(act: byte, fs: seq<seq<Command>>): seq<byte> {
    if |fs| == 0 then [] else Frame(act, fs[0]) + Frames(act, fs[1..])
  }

  function Joined(fs: seq<seq<Command>>): seq<Command> { if |fs| == 0 then [] else fs[0] + Joined(fs[1..]) }

  /** A caller that goes on where the last call of AddMessage stopped, n times: the slots, and how far it got. */
  function DecodedInTurn(slots: seq<Slot>, m: seq<byte>, past: byte, n: nat): (r: (seq<Slot>, nat))
    requires |slots| == MAX_COMMANDS
    ensures |r.0| == MAX_COMMANDS
    decreases n
  {
    if n == 0 then (slots, 0)
    else
      var (t, k) := Decode(slots, m, past);
      if k > |m| then (t, k) else var r := DecodedInTurn(t, m[k..], past, n - 1); (r.0, k + r.1)
  }

  /**
   Any number of frames without a gap between them are decoded one by one: together their commands fill
   the slots from the first free one on, and the caller ends up right behind the last frame. Before
   each frame there must be a free slot; so the last may fill the slots, but not an empty one after that.
   */
  lemma {:induction false} BackToBack(slots: seq<Slot>, act: byte, fs: seq<seq<Command>>, suffix: seq<byte>, past: byte)
    requires |slots| == MAX_COMMANDS && forall i :: FirstFree(slots) <= i < MAX_COMMANDS ==> !slots[i].exist
    requires forall j :: 0 <= j < |fs| ==> AllData(fs[j])
    requires FirstFree(slots) + |Joined(fs)| <= MAX_COMMANDS
    requires FirstFree(slots) + |Joined(fs)| == MAX_COMMANDS && |fs| > 0 ==> fs[|fs| - 1] != []
    ensures DecodedInTurn(slots, Frames(act, fs) + suffix, past, |fs|)
         == (WithCommands(slots, FirstFree(slots), Joined(fs)), |Frames(act, fs)|)
    decreases |fs|
  {
    hide Frame, Decode, FirstFree, WithCommands, AllData;
    var k := FirstFree(slots);
    if |fs| == 0 {
      WithNone(slots, k);
    } else {
      var rest := Frames(act, fs[1..]) + suffix;
      var t := WithCommands(slots, k, fs[0]);
      assert Frames(act, fs) + suffix == Frame(act, fs[0]) + rest;
      LastNotEmpty(fs);
      RestOfFrames(fs);
      NoNoise(Frame(act, fs[0]), rest);
      RoundTrip(slots, [], act, fs[0], rest, past);
      FreeAfter(slots, k, fs[0]);
      BackToBack(t, act, fs[1..], suffix, past);
      WithBoth(slots, k, fs[0], Joined(fs[1..]));
    }
  }

  lemma RestOfFrames(fs: seq<seq<Command>>)
    requires |fs| > 0 && forall j :: 0 <= j < |fs| ==> AllData(fs[j])
    ensures forall j :: 0 <= j < |fs[1..]| ==> AllData(fs[1..][j])
    ensures |fs| > 1 ==> fs[1..][|fs[1..]| - 1] == fs[|fs| - 1]
  {
    hide AllData;
  }

  lemma {:induction false} LastNotEmpty(fs: seq<seq<Command>>)
    requires |fs| > 0
    ensures fs[|fs| - 1] != [] ==> |Joined(fs)| > 0
  {
    if |fs| > 1 {
      LastNotEmpty(fs[1..]);
      assert fs[1..][|fs[1..]| - 1] == fs[|fs| - 1];
    }
  }

  lemma WithNone(slots: seq<Slot>, k: nat)
    requires k <= |slots|
    ensures WithCommands(slots, k, []) == slots
  {}

  lemma NoNoise(f: seq<byte>, rest: seq<byte>)
    ensures [] + f + rest == f + rest && (f + rest)[|f|..] == rest
  {}

  lemma WithBoth(slots: seq<Slot>, k: nat, cs: seq<Command>, ds: seq<Command>)
    requires k + |cs| + |ds| <= |slots|
    ensures WithCommands(WithCommands(slots, k, cs), k + |cs|, ds) == WithCommands(slots, k, cs + ds)
  {}

  lemma FirstFreeIs(slots: seq<Slot>, k: nat)
    requires k < |slots| && !slots[k].exist && forall i :: 0 <= i < k ==> slots[i].exist
    ensures FirstFree(slots) == k
  {}

  lemma WithAt(slots: seq<Slot>, k: nat, cs: seq<Command>, i: nat)
    requires k + |cs| <= |slots| && i < |slots|
    ensures WithCommands(slots, k, cs)[i] == if k <= i < k + |cs| then Filled(cs[i - k]) else slots[i]
  {}

  lemma FreeAfter(slots: seq<Slot>, k: nat, cs: seq<Command>)
    requires |slots| == MAX_COMMANDS && k + |cs| <= |slots| && k == FirstFree(slots)
    requires forall i :: k <= i < |slots| ==> !slots[i].exist
    ensures FirstFree(WithCommands(slots, k, cs)) == k + |cs|
    ensures forall i :: k + |cs| <= i < |slots| ==> !WithCommands(slots, k, cs)[i].exist
  {
    var t := WithCommands(slots, k, cs);
    forall i | 0 <= i < |slots| ensures t[i] == if k <= i < k + |cs| then Filled(cs[i - k]) else slots[i] { WithAt(slots, k, cs, i); }
    hide WithCommands;
    if k + |cs| < |slots| { FirstFreeIs(t, k + |cs|); }
  }

  /** The two length bytes of a frame, finished or not, hold its length modulo 65536: exactly, for all that fits a send buffer. */
  lemma LengthHeader(act: byte, cs: seq<Command>, closed: bool)
    ensures var f := FrameSoFar(act, cs, closed);
            GetInt16(f, 2) == |f| % 0x1_0000 && (|f| <= 8192 ==> GetInt16(f, 2) == |f|)
  {
    hide Body, High, Low, Join;
    JoinParts(Wrap16(5 + |Body(cs, closed)|));
  }

  // ----- any message -----

  /** Fresh slots, only there to run a step without any. */
  function Blank(n: nat): (r: seq<Slot>)
    ensures |r| == n
  {
    if n == 0 then [] else Blank(n - 1) + [Slot(false, 0, 0, [])]
  }

  /** What a byte does to flags and counters; the slots have no say in it. */
  function Control(s: Scan, b: byte): (r: Progress)
    requires s.index < MAX_COMMANDS
    ensures r.Go? ==> r.scan.index < MAX_COMMANDS && s.index <= r.scan.index <= s.index + 1
  {
    Step(s, Blank(MAX_COMMANDS), b, 0)
  }

  /**
   Read off the message alone: for the command open now and every command that opens later, whether
   its kind and both address bytes still come before it is closed.
   */
  function Complete(s: Scan, m: seq<byte>): (c: seq<bool>)
    requires s.index < MAX_COMMANDS
    ensures 1 <= |c| <= MAX_COMMANDS - s.index
    decreases |m|
  {
    if |m| == 0 then [false]
    else
      match Control(s, m[0])
      case Stop(_) => [false]
      case Go(s', _) =>
        var c := Complete(s', m[1..]);
        if s'.index > s.index then [false] + c else c[0 := c[0] || (s.part == 2 && s'.part == 3)]
  }

  lemma ControlDecides(s: Scan, slots: seq<Slot>, b: byte, next: byte)
    requires ScanOk(s, slots)
    ensures Step(s, slots, b, next).Go? == Control(s, b).Go?
    ensures forall i :: 0 <= i < |slots| && i != s.index ==> Step(s, slots, b, next).slots[i] == slots[i]
    ensures Step(s, slots, b, next).Stop? ==> Step(s, slots, b, next).slots == slots
    ensures Step(s, slots, b, next).Go? ==>
              var p := Step(s, slots, b, next);
              && p.scan == Control(s, b).scan
              && (p.scan.index > s.index ==> p.slots == slots)
              && p.slots[s.index].exist == (slots[s.index].exist || (s.part == 2 && p.scan.part == 3))
  {
    hide Blank;
  }

  /** From slot k on, slot k + i became used if c[i] says so; all other slots are the same. */
  ghost predicate FilledAs(before: seq<Slot>, after: seq<Slot>, k: nat, c: seq<bool>)
    requires |before| == |after| && k + |c| <= |before|
  {
    && (forall j :: k <= j < k + |c| ==> after[j].exist == (before[j].exist || c[j - k]))
    && (forall j :: 0 <= j < k || k + |c| <= j < |before| ==> after[j] == before[j])
  }

  lemma {:induction false} RunFills(s: Scan, slots: seq<Slot>, m: seq<byte>, past: byte)
    requires ScanOk(s, slots)
    ensures FilledAs(slots, Run(s, slots, m, past).0, s.index, Complete(s, m))
    decreases |m|
  {
    hide Step, Control;
    if |m| > 0 {
      ControlDecides(s, slots, m[0], Next(m, past));
      var p := Step(s, slots, m[0], Next(m, past));
      if p.Go? {
        RunFills(p.scan, p.slots, m[1..], past);
      }
    }
  }

  /**
   For every message: of the slots from the first free one on, exactly those become used whose
   command had its whole header, and no other slot is touched.
   */
  lemma SlotsFilled(slots: seq<Slot>, m: seq<byte>, past: byte)
    requires |slots| == MAX_COMMANDS && FirstFree(slots) < MAX_COMMANDS
    ensures FilledAs(slots, Decode(slots, m, past).0, FirstFree(slots), Complete(START.(index := FirstFree(slots)), m))
  {
    RunFills(START.(index := FirstFree(slots)), slots, m, past);
  }

  function Freed(slot: Slot): Slot { Slot(false, slot.kind, slot.adress, slot.payload) }

  /** The slots after the caller took out commands from slot 0 on until it met a free slot. */
  function Drained(slots: seq<Slot>): (r: seq<Slot>)
    ensures |r| == |slots|
  {
    seq(|slots|, i requires 0 <= i < |slots| => if i < FirstFree(slots) then Freed(slots[i]) else slots[i])
  }

  predicate AllFree(slots: seq<Slot>) { forall i :: 0 <= i < |slots| ==> !slots[i].exist }

  /**
   Not every message keeps the used slots in one run: a command closed right after its kind, then a
   complete one. The second lands in slot 1, slot 0 stays free, and draining never reaches it.
   */
  lemma GapExample(slots: seq<Slot>, act: byte, lenght: word, c: Command, past: byte)
    requires |slots| == MAX_COMMANDS && AllFree(slots) && IsData(c.kind)
    ensures var m := Header(act, lenght) + ([DLE, SCD, c.kind, DLE, ECD] + (PrintCommand(c) + [DLE, ETX]));
            var t := Decode(slots, m, past).0;
            !t[0].exist && t[1] == Filled(c) && Drained(t)[1].exist
  {
    hide Run, PrintCommand;
    FirstFreeIs(slots, 0);
    var rest := PrintCommand(c) + [DLE, ETX];
    var short := [DLE, SCD, c.kind, DLE, ECD] + rest;
    HeaderSkipped(0, false, slots, act, lenght, short, past);
    assert short == [DLE] + ([SCD] + ([c.kind] + ([DLE] + ([ECD] + rest))));
    var s, t := Between(0, false), slots[0 := slots[0].(kind := c.kind)];
    OneTurn(s, slots, DLE, [SCD] + ([c.kind] + ([DLE] + ([ECD] + rest))), past, s.(dle := true), slots);
    OneTurn(s.(dle := true), slots, SCD, [c.kind] + ([DLE] + ([ECD] + rest)), past, Inside(0, 0), slots);
    OneTurn(Inside(0, 0), slots, c.kind, [DLE] + ([ECD] + rest), past, Inside(0, 1), t);
    OneTurn(Inside(0, 1), t, DLE, [ECD] + rest, past, Inside(0, 1).(dle := true), t);
    OneTurn(Inside(0, 1).(dle := true), t, ECD, rest, past, Between(0, true), t);
    CommandTaken(0, true, t, c, [DLE, ETX], past);
    assert [DLE, ETX] + [] == [DLE, ETX];
    EndFound(1, true, t[1 := Filled(c)], [], past);
  }
}
