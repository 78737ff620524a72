/**
 Which messages the server's inner loop takes out of the decoder completely (server.c, lines 256-281). The
 loop stops at the first free slot, and a command that is closed before its kind and its address are
 complete leaves its slot free.
 */
module MttpDrain {
  import opened Bytes
  import opened Mttp
  import opened MttpProofs

  // ----- messages given by the bytes between the command marks -----

  /** A command as it is printed, whatever and however short its body: kind, two address bytes, payload. */
  function PrintBody(b: seq<byte>): seq<byte> { [DLE, SCD] + Escape(b) + [DLE, ECD] }

  function PrintBodies(bs: seq<seq<byte>>): seq<byte> {
    if |bs| == 0 then [] else PrintBody(bs[0]) + PrintBodies(bs[1..])
  }

  /** What AddCommand prints is such a body of at least three bytes. */
  lemma CommandIsBody(c: Command)
    requires IsData(c.kind)
    ensures PrintCommand(c) == PrintBody([c.kind] + Int16Bytes(c.adress) + c.payload)
  {
    var rest := Int16Bytes(c.adress) + c.payload;
    assert [c.kind] + Int16Bytes(c.adress) + c.payload == [c.kind] + rest;
    assert ([c.kind] + rest)[1..] == rest;
  }

  function Least(a: nat, b: nat): nat { if a <= b then a else b }

  /** Only the slot at index may have changed; it is used if it was, or if a third byte came. */
  ghost predicate FilledIf(before: seq<Slot>, after: seq<Slot>, index: nat, whole: bool) {
    && |after| == |before| && index < |before|
    && (forall j :: 0 <= j < |before| && j != index ==> after[j] == before[j])
    && after[index].exist == (before[index].exist || whole)
  }

  lemma {:induction false} BodyTaken(index: nat, part: nat, slots: seq<Slot>, b: seq<byte>, rest: seq<byte>, past: byte) returns (t: seq<Slot>)
    requires ScanOk(Inside(index, part), slots) && part <= 3
    ensures FilledIf(slots, t, index, part < 3 <= part + |b|)
    ensures Run(Inside(index, part), slots, Escape(b) + rest, past)
         == After(|Escape(b)|, Run(Inside(index, Least(part + |b|, 3)), t, rest, past))
    decreases |b|
  {
    hide Run, EscapeByte;
    if |b| == 0 {
      t := slots;
      assert Escape(b) + rest == rest;
    } else {
      var more := Escape(b[1..]) + rest;
      assert Escape(b) + rest == EscapeByte(b[0]) + more;
      EscapedByteTaken(index, part, slots, b[0], more, past);
      var p := TakeByte(Inside(index, part), slots, b[0], Next([b[0]] + more, past));
      assert p.scan == Inside(index, Least(part + 1, 3));
      t := BodyTaken(index, Least(part + 1, 3), p.slots, b[1..], rest, past);
    }
  }

  /** One printed body goes into the next slot. */
  lemma BodyPrinted(index: nat, ecd: bool, slots: seq<Slot>, b: seq<byte>, rest: seq<byte>, past: byte) returns (t: seq<Slot>)
    requires |slots| == MAX_COMMANDS && (if ecd then index + 1 else index) < MAX_COMMANDS
    ensures var at := if ecd then index + 1 else index;
            && FilledIf(slots, t, at, |b| >= 3)
            && Run(Between(index, ecd), slots, PrintBody(b) + rest, past) == After(|PrintBody(b)|, Run(Between(at, true), t, rest, past))
  {
    hide Run, Escape;
    var at := if ecd then index + 1 else index;
    var s, end := Between(index, ecd), [DLE] + ([ECD] + rest);
    assert PrintBody(b) + rest == [DLE] + ([SCD] + (Escape(b) + end));
    OneTurn(s, slots, DLE, [SCD] + (Escape(b) + end), past, s.(dle := true), slots);
    OneTurn(s.(dle := true), slots, SCD, Escape(b) + end, past, Inside(at, 0), slots);
    t := BodyTaken(at, 0, slots, b, end, past);
    var u := Inside(at, Least(|b|, 3));
    OneTurn(u, t, DLE, [ECD] + rest, past, u.(dle := true), t);
    OneTurn(u.(dle := true), t, ECD, rest, past, Between(at, true), t);
  }

  /** From slot k on, slot k + i is used if it was or if body i is long enough; the others are the same. */
  ghost predicate FilledBy(before: seq<Slot>, after: seq<Slot>, k: nat, bs: seq<seq<byte>>) {
    && |after| == |before| && k + |bs| <= |before|
    && (forall j :: 0 <= j < k || k + |bs| <= j < |before| ==> after[j] == before[j])
    && forall j :: k <= j < k + |bs| ==> after[j].exist == (before[j].exist || |bs[j - k]| >= 3)
  }

  lemma {:induction false} BodiesPrinted(index: nat, ecd: bool, slots: seq<Slot>, bs: seq<seq<byte>>, rest: seq<byte>, past: byte)
    returns (t: seq<Slot>)
    requires |slots| == MAX_COMMANDS && index < MAX_COMMANDS && (if ecd then index + 1 else index) + |bs| <= MAX_COMMANDS
    ensures var at := if ecd then index + 1 else index;
            var s := if |bs| == 0 then Between(index, ecd) else Between(at + |bs| - 1, true);
            && FilledBy(slots, t, at, bs)
            && Run(Between(index, ecd), slots, PrintBodies(bs) + rest, past) == After(|PrintBodies(bs)|, Run(s, t, rest, past))
    decreases |bs|
  {
    hide Run, PrintBody;
    var at := if ecd then index + 1 else index;
    if |bs| == 0 {
      t := slots;
      assert PrintBodies(bs) + rest == rest;
    } else {
      var more := PrintBodies(bs[1..]) + rest;
      assert PrintBodies(bs) + rest == PrintBody(bs[0]) + more;
      var u := BodyPrinted(index, ecd, slots, bs[0], more, past);
      t := BodiesPrinted(at, true, u, bs[1..], rest, past);
    }
  }

  /** Draining leaves nothing behind when the used slots come first. */
  lemma DrainedIff(t: seq<Slot>)
    ensures AllFree(Drained(t)) <==> forall i, j :: 0 <= i < j < |t| && t[j].exist ==> t[i].exist
  {
    var f := FirstFree(t);
    if AllFree(Drained(t)) {
      forall j | f <= j < |t| ensures !t[j].exist { assert Drained(t)[j] == t[j]; }
    }
  }

  /** The rest of a message of bodies: its end mark and anything behind it, or a last command that is cut off. */
  datatype Ending = Ended(suffix: seq<byte>) | CutOff(body: seq<byte>)

  function PrintEnding(e: Ending): seq<byte> {
    match e
    case Ended(suffix) => [DLE, ETX] + suffix
    case CutOff(body) => [DLE, SCD] + Escape(body)
  }

  /** The bodies of such a message, the cut-off one included. */
  function AllBodies(bs: seq<seq<byte>>, e: Ending): seq<seq<byte>> {
    match e
    case Ended(_) => bs
    case CutOff(body) => bs + [body]
  }

  lemma EndingTaken(index: nat, ecd: bool, slots: seq<Slot>, e: Ending, past: byte) returns (t: seq<Slot>)
    requires |slots| == MAX_COMMANDS && index < MAX_COMMANDS && (e.CutOff? ==> (if ecd then index + 1 else index) < MAX_COMMANDS)
    ensures t == Run(Between(index, ecd), slots, PrintEnding(e), past).0
    ensures e.Ended? ==> t == slots
    ensures e.CutOff? ==> FilledIf(slots, t, if ecd then index + 1 else index, |e.body| >= 3)
  {
    var s, at := Between(index, ecd), if ecd then index + 1 else index;
    match e
    case Ended(suffix) =>
      EndFound(index, ecd, slots, suffix, past);
      t := slots;
    case CutOff(body) =>
      hide Run, Escape;
      assert [DLE, SCD] + Escape(body) == [DLE] + ([SCD] + Escape(body));
      assert Escape(body) + [] == Escape(body);
      OneTurn(s, slots, DLE, [SCD] + Escape(body), past, s.(dle := true), slots);
      OneTurn(s.(dle := true), slots, SCD, Escape(body), past, Inside(at, 0), slots);
      t := BodyTaken(at, 0, slots, body, [], past);
      RunOfNothing(Inside(at, Least(|body|, 3)), t, past);
  }

  /** A command for which there is no slot left ends the scan. */
  lemma OneTooMany(slots: seq<Slot>, rest: seq<byte>, past: byte)
    requires |slots| == MAX_COMMANDS
    ensures Run(Between(MAX_COMMANDS - 1, true), slots, [DLE] + ([SCD] + rest), past).0 == slots
  {
    var s := Between(MAX_COMMANDS - 1, true);
    OneTurn(s, slots, DLE, [SCD] + rest, past, s.(dle := true), slots);
    StopAt(s.(dle := true), slots, SCD, rest, past);
  }

  function BodiesMessage(noise: seq<byte>, act: byte, lenght: word, bs: seq<seq<byte>>, e: Ending): seq<byte> {
    noise + (Header(act, lenght) + (PrintBodies(bs) + PrintEnding(e)))
  }

  lemma {:induction false} BodiesSplit(bs: seq<seq<byte>>, n: nat, rest: seq<byte>)
    requires n < |bs|
    ensures exists tail :: PrintBodies(bs) + rest == PrintBodies(bs[..n]) + ([DLE] + ([SCD] + tail))
    decreases n
  {
    hide Escape;
    if n == 0 {
      var tail := Escape(bs[0]) + [DLE, ECD] + PrintBodies(bs[1..]) + rest;
      assert PrintBodies(bs) + rest == PrintBodies(bs[..0]) + ([DLE] + ([SCD] + tail));
    } else {
      hide PrintBody;
      BodiesSplit(bs[1..], n - 1, rest);
      var tail :| PrintBodies(bs[1..]) + rest == PrintBodies(bs[1..][..n - 1]) + ([DLE] + ([SCD] + tail));
      assert bs[..n][1..] == bs[1..][..n - 1];
      assert PrintBodies(bs) + rest == PrintBody(bs[0]) + (PrintBodies(bs[1..]) + rest);
      assert PrintBodies(bs[..n]) + ([DLE] + ([SCD] + tail)) == PrintBody(bs[0]) + (PrintBodies(bs[1..][..n - 1]) + ([DLE] + ([SCD] + tail)));
    }
  }

  /** Of a message of bodies, with empty slots: slot i is used exactly if there is a body i, of at least three bytes. */
  lemma BodiesFill(slots: seq<Slot>, noise: seq<byte>, act: byte, lenght: word, bs: seq<seq<byte>>, e: Ending, past: byte)
    requires |slots| == MAX_COMMANDS && AllFree(slots) && forall i :: 0 <= i < |noise| ==> noise[i] != DLE
    ensures var all := AllBodies(bs, e);
            forall i :: 0 <= i < MAX_COMMANDS ==>
              (Decode(slots, BodiesMessage(noise, act, lenght, bs, e), past).0[i].exist <==> i < |all| && |all[i]| >= 3)
  {
    hide Run, PrintBodies, PrintEnding, Escape, Header;
    var all := AllBodies(bs, e);
    FirstFreeIs(slots, 0);
    assert START.(index := 0) == START;
    NoiseSkipped(START, slots, noise, Header(act, lenght) + (PrintBodies(bs) + PrintEnding(e)), past);
    HeaderSkipped(0, false, slots, act, lenght, PrintBodies(bs) + PrintEnding(e), past);
    if |all| <= MAX_COMMANDS {
      var t := BodiesPrinted(0, false, slots, bs, PrintEnding(e), past);
      var u := EndingTaken(if |bs| == 0 then 0 else |bs| - 1, |bs| > 0, t, e, past);
    } else if |bs| > MAX_COMMANDS {
      BodiesSplit(bs, MAX_COMMANDS, PrintEnding(e));
      var tail :| PrintBodies(bs) + PrintEnding(e) == PrintBodies(bs[..MAX_COMMANDS]) + ([DLE] + ([SCD] + tail));
      var t := BodiesPrinted(0, false, slots, bs[..MAX_COMMANDS], [DLE] + ([SCD] + tail), past);
      OneTooMany(t, tail, past);
    } else {
      var t := BodiesPrinted(0, false, slots, bs, PrintEnding(e), past);
      CutOffEnding(e);
      OneTooMany(t, Escape(e.body), past);
    }
  }

  lemma CutOffEnding(e: Ending)
    requires e.CutOff?
    ensures PrintEnding(e) == [DLE] + ([SCD] + Escape(e.body))
  {
    hide Escape;
  }

  /** No body of fewer than three bytes comes before one of at least three, among those there are slots for. */
  predicate ShortOnesLast(bs: seq<seq<byte>>) {
    forall i, j :: 0 <= i < j < |bs| && j < MAX_COMMANDS && |bs[j]| >= 3 ==> |bs[i]| >= 3
  }

  /**
   Any number of commands with bodies of any length, after bytes without a DLE or none, followed by an end
   mark and anything at all or broken off within a last command: the server's inner loop empties the
   decoder if and only if no body of fewer than three bytes comes before one of at least three.
   */
  lemma DrainBodiesIff(slots: seq<Slot>, noise: seq<byte>, act: byte, lenght: word, bs: seq<seq<byte>>, e: Ending, past: byte)
    requires |slots| == MAX_COMMANDS && AllFree(slots) && forall i :: 0 <= i < |noise| ==> noise[i] != DLE
    ensures AllFree(Drained(Decode(slots, BodiesMessage(noise, act, lenght, bs, e), past).0)) <==> ShortOnesLast(AllBodies(bs, e))
  {
    hide Decode, BodiesMessage, AllBodies;
    BodiesFill(slots, noise, act, lenght, bs, e, past);
    DrainedIff(Decode(slots, BodiesMessage(noise, act, lenght, bs, e), past).0);
  }

  // ----- any message at all -----

  /** A message as marks and the bytes between them. The three bytes after a start mark are neither. */
  datatype Token = StartMark | EndMark | OpenMark | CloseMark | Data

  /**
   A DLE makes the next STX, ETX, SCD or ECD a mark, other bytes in between notwithstanding, and the next DLE
   a byte. For raw more bytes nothing is a mark; they do not run out while a command is open.
   */
  function Tokens(m: seq<byte>, pending: bool, raw: nat, open: bool): seq<Token> {
    if |m| == 0 then []
    else if raw > 0 then
      if open then [Data] + Tokens(m[1..], pending, raw, open) else Tokens(m[1..], pending, raw - 1, open)
    else if m[0] == DLE then
      if pending then [Data] + Tokens(m[1..], false, 0, open) else Tokens(m[1..], true, 0, open)
    else if !pending then [Data] + Tokens(m[1..], false, 0, open)
    else if m[0] == STX then [StartMark] + Tokens(m[1..], false, 3, open)
    else if m[0] == ETX then [EndMark] + Tokens(m[1..], false, 0, open)
    else if m[0] == SCD then [OpenMark] + Tokens(m[1..], false, 0, true)
    else if m[0] == ECD then [CloseMark] + Tokens(m[1..], false, 0, false)
    else [Data] + Tokens(m[1..], true, 0, open)
  }

  /**
   How many bytes there are between the marks of the command that is open now, or was last, count so far, and
   of each later one; room is for how many more there are slots.
   */
  function Counts(ts: seq<Token>, started: bool, open: bool, closed: bool, count: nat, room: nat): (n: seq<nat>)
    ensures |n| >= 1
    decreases |ts|
  {
    if |ts| == 0 then [count]
    else
      match ts[0]
      case Data => Counts(ts[1..], started, open, closed, if started && open then count + 1 else count, room)
      case StartMark => Counts(ts[1..], true, open, closed, count, room)
      case EndMark => if started then [count] else Counts(ts[1..], started, open, closed, count, room)
      case CloseMark => Counts(ts[1..], started, false, true, count, room)
      case OpenMark =>
        if open then [count]
        else if !closed then Counts(ts[1..], started, true, false, count, room)
        else if room == 0 then [count]
        else [count] + Counts(ts[1..], started, true, false, 0, room - 1)
  }

  /** The lengths of the command bodies of a message, as far as there are slots; a single 0 if there is no command. */
  function BodyLengths(m: seq<byte>): seq<nat> { Counts(Tokens(m, false, 0, false), false, false, false, 0, MAX_COMMANDS - 1) }

  function RawLeft(s: Scan): nat { if 0 <= s.header <= 2 then 3 - s.header else 0 }

  /** The flags and counters of the scan, seen as a count. */
  ghost predicate Agrees(s: Scan, count: nat) {
    && s.index < MAX_COMMANDS
    && (RawLeft(s) > 0 ==> s.stx && !s.dle)
    && (s.scd ==> s.part == Least(count, 3))
    && (!s.scd ==> s.part == 0 && (!s.ecd ==> count == 0))
    && (s.scd ==> !s.ecd)
  }

  /** What the scan makes of a command is decided by its length. */
  ghost predicate SameVerdict(c: seq<bool>, n: seq<nat>, count: nat) {
    && |c| == |n| >= 1
    && (c[0] || count >= 3 <==> n[0] >= 3)
    && forall i :: 0 < i < |n| ==> (c[i] <==> n[i] >= 3)
  }

  function CountsFrom(s: Scan, m: seq<byte>, count: nat): seq<nat>
    requires s.index < MAX_COMMANDS
  {
    Counts(Tokens(m, s.dle, RawLeft(s), s.scd), s.stx, s.scd, s.ecd, count, MAX_COMMANDS - 1 - s.index)
  }

  /** Whether the next byte lies between marks. */
  predicate IsDataByte(s: Scan, b: byte) {
    RawLeft(s) > 0 || (if b == DLE then s.dle else !s.dle || (b != STX && b != ETX && b != SCD && b != ECD))
  }

  function NextCount(s: Scan, b: byte, count: nat): nat
    requires s.index < MAX_COMMANDS && Control(s, b).Go?
  {
    if Control(s, b).scan.index > s.index then 0 else if IsDataByte(s, b) && s.stx && s.scd then count + 1 else count
  }

  /** One byte: what the scan does to its flags is what the marks say. */
  lemma CountStep(s: Scan, m: seq<byte>, count: nat)
    requires Agrees(s, count) && |m| > 0
    ensures var p := Control(s, m[0]);
            if p.Stop? then CountsFrom(s, m, count) == [count]
            else
              var k := NextCount(s, m[0], count);
              && Agrees(p.scan, k)
              && CountsFrom(s, m, count) == (if p.scan.index > s.index then [count] else []) + CountsFrom(p.scan, m[1..], k)
              && p.scan.index >= s.index && (p.scan.index > s.index ==> k == 0)
              && (p.scan.index == s.index ==> (k >= 3 <==> count >= 3 || (s.part == 2 && p.scan.part == 3)))
  {
    hide Blank;
  }

  lemma {:induction false} CountsDecide(s: Scan, m: seq<byte>, count: nat)
    requires Agrees(s, count)
    ensures SameVerdict(Complete(s, m), CountsFrom(s, m, count), count)
    decreases |m|
  {
    if |m| > 0 {
      hide Control, Agrees, CountsFrom, NextCount, SameVerdict;
      IndexBound(s, count);
      CountStep(s, m, count);
      var p := Control(s, m[0]);
      if p.Go? {
        var k := NextCount(s, m[0], count);
        CountsDecide(p.scan, m[1..], k);
        VerdictStep(Complete(p.scan, m[1..]), CountsFrom(p.scan, m[1..], k), count, k, s.part == 2 && p.scan.part == 3);
      } else {
        VerdictOne(count);
      }
    } else {
      OnlyCount(s, count);
      VerdictOne(count);
    }
  }

  lemma VerdictOne(count: nat)
    ensures SameVerdict([false], [count], count)
  {}

  lemma VerdictStep(c: seq<bool>, n: seq<nat>, count: nat, k: nat, gained: bool)
    requires SameVerdict(c, n, k)
    ensures |c| == |n| >= 1
    ensures (k >= 3 <==> count >= 3 || gained) ==> SameVerdict(c[0 := c[0] || gained], n, count)
    ensures k == 0 ==> SameVerdict([false] + c, [count] + n, count)
  {}

  lemma IndexBound(s: Scan, count: nat)
    requires Agrees(s, count)
    ensures s.index < MAX_COMMANDS
  {}

  lemma OnlyCount(s: Scan, count: nat)
    requires Agrees(s, count)
    ensures CountsFrom(s, [], count) == [count]
  {}

  /** No command body of fewer than three bytes comes before one of at least three. */
  predicate ShortLengthsLast(n: seq<nat>) { forall i, j :: 0 <= i < j < |n| && n[j] >= 3 ==> n[i] >= 3 }

  /** For every message in an empty decoder: slot i is used exactly if there is a command i, of at least three bytes. */
  lemma SlotsByLength(slots: seq<Slot>, m: seq<byte>, past: byte)
    requires |slots| == MAX_COMMANDS && AllFree(slots)
    ensures |BodyLengths(m)| <= MAX_COMMANDS
    ensures forall i :: 0 <= i < MAX_COMMANDS ==>
      (Decode(slots, m, past).0[i].exist <==> i < |BodyLengths(m)| && BodyLengths(m)[i] >= 3)
  {
    FirstFreeIs(slots, 0);
    SlotsFilled(slots, m, past);
    assert START.(index := 0) == START;
    CountsDecide(START, m, 0);
    hide Decode, Complete, BodyLengths, Tokens, Counts;
    StartCounts(m);
  }

  /**
   For every message, whatever its bytes: the server's inner loop empties the decoder if and only if, between
   the marks of the message, no command body of fewer than three bytes comes before one of at least three.
   */
  lemma DrainEmptiesIff(slots: seq<Slot>, m: seq<byte>, past: byte)
    requires |slots| == MAX_COMMANDS && AllFree(slots)
    ensures AllFree(Drained(Decode(slots, m, past).0)) <==> ShortLengthsLast(BodyLengths(m))
  {
    hide Decode, BodyLengths;
    var n, t := BodyLengths(m), Decode(slots, m, past).0;
    SlotsByLength(slots, m, past);
    DrainedIff(t);
    if !ShortLengthsLast(n) {
      var i, j :| 0 <= i < j < |n| && n[j] >= 3 && n[i] < 3;
      assert t[j].exist && !t[i].exist;
    }
  }

  lemma StartCounts(m: seq<byte>)
    ensures CountsFrom(START, m, 0) == BodyLengths(m) && RawLeft(START) == 0
  {}

  // ----- what the printer makes -----

  function Bodies(cs: seq<Command>): (bs: seq<seq<byte>>)
    ensures |bs| == |cs| && forall i :: 0 <= i < |cs| ==> |bs[i]| >= 3
  {
    if |cs| == 0 then [] else [[cs[0].kind] + Int16Bytes(cs[0].adress) + cs[0].payload] + Bodies(cs[1..])
  }

  lemma {:induction false} CommandsAreBodies(cs: seq<Command>)
    requires AllData(cs)
    ensures PrintCommands(cs) == PrintBodies(Bodies(cs))
  {
    hide PrintCommand, PrintBody;
    if |cs| > 0 {
      CommandIsBody(cs[0]);
      CommandsAreBodies(cs[1..]);
    }
  }

  /** A printed frame with any number of commands always drains, more than there are slots for included. */
  lemma PrintedDrains(slots: seq<Slot>, noise: seq<byte>, act: byte, cs: seq<Command>, suffix: seq<byte>, past: byte)
    requires |slots| == MAX_COMMANDS && AllFree(slots) && AllData(cs) && forall i :: 0 <= i < |noise| ==> noise[i] != DLE
    ensures AllFree(Drained(Decode(slots, noise + Frame(act, cs) + suffix, past).0))
  {
    hide Decode, Frame, Bodies, PrintCommands, PrintBodies, Header;
    CommandsAreBodies(cs);
    FrameParts(noise, act, cs, suffix);
    DrainBodiesIff(slots, noise, act, Wrap16(5 + |Body(cs, true)|), Bodies(cs), Ended(suffix), past);
  }
}
