/** The requests of the display, byte by byte, and what is answered to each. */
module Answers {
  import opened Bytes
  import opened Table
  import opened TableProofs
  import opened TableWrites
  import opened Display
  import Memory

  /** A header and registers, as they are sent: of each the override if it has one, or its value, high byte first. */
  ghost predicate Shows(header: seq<byte>, range: seq<Reg>, answer: seq<byte>) {
    && |answer| == |header| + 2 * |range| && answer[..|header|] == header
    && forall k :: 0 <= k < |range| ==>
         (answer[|header| + 2 * k] as int) * 0x100 + answer[|header| + 2 * k + 1] ==
         if range[k].haveAlternate then range[k].alternate else range[k].value
  }

  /** The register in use at this address has a header. */
  ghost predicate HeaderAt(t: seq<Reg>, from: word, i: nat) { i < |t| && t[i].adress == from && t[i].haveHeader && |t[i].header| > 0 }

  /** The stored header of the first register with all registers up to the last address, or nothing if there is no such header. */
  ghost predicate ShowsRange(t: seq<Reg>, from: word, to: word, answer: seq<byte>) {
    && (forall i: nat :: HeaderAt(t, from, i) ==> Shows(t[i].header, Within(t, from, to), answer))
    && ((forall i: nat :: !HeaderAt(t, from, i)) ==> answer == [])
  }

  lemma WordsShown(header: seq<byte>, range: seq<Reg>)
    ensures Shows(header, range, header + Pack(ReadRegs(range, true)))
  {
    var ws := ReadRegs(range, true);
    var answer := header + Pack(ws);
    hide Pack, ReadRegs;
    forall k | 0 <= k < |range| ensures (answer[|header| + 2 * k] as int) * 0x100 + answer[|header| + 2 * k + 1] == ReadReg(range[k], true) {
      PackedWord(ws, k);
      assert answer[|header| + 2 * k] == Pack(ws)[2 * k] && answer[|header| + 2 * k + 1] == Pack(ws)[2 * k + 1];
    }
  }

  /** What is answered to a request for a range of registers. */
  lemma ReplyShows(m: Mem, from: word, to: word)
    requires MemOk(m) && 0 < from < NO_ADRESS
    ensures ShowsRange(m.regs, from, to, Reply(m, Range(from, to)))
  {
    var a, t := RegAdresses(m.regs), m.regs;
    var i := StartIndex(a, from);
    RangeIsFilter(t, from, to);
    forall j: nat | HeaderAt(t, from, j) ensures j == i { assert a[j] == from; }
    hide Within, Pack, RegRange, ReadRegs, MemOk, Shows;
    if i >= 0 {
      assert a[i] == from;
      WordsShown(t[i].header, Within(t, from, to));
      assert HeaderAt(t, from, i) <==> HasReply(m, Range(from, to));
    }
  }

  lemma {:induction false} SameEnd(t: seq<Cell>, i: nat, end: word)
    requires i <= |t| && end >= 0xFF
    ensures DiscEnd(t, i, end) == DiscEnd(t, i, 0xFFFF)
    decreases |t| - i
  {
    if i < |t| { SameEnd(t, i + 1, end); }
  }

  /** As no value of an input is beyond 0x2000, the request for the input there gets all from there on. */
  lemma DiscreteShows(m: Mem)
    requires MemOk(m)
    ensures DiscreteAnswer(m.discs, 256)
         == [0x01, 0x02] + if 0x2000 in CellAdresses(m.discs) then [0x01] + ReadCells(WithinCells(m.discs, 0x2000, 0xFFFF)) else []
  {
    hide RegsOk, UserRegsOk, UserCoilsOk;
    var t := m.discs;
    if StartIndex(CellAdresses(t), 0x2000) >= 0 {
      SameEnd(t, StartIndex(CellAdresses(t), 0x2000), 0x2000);
      DiscRangeToTheLast(t, 0x2000, 0xFFFF);
    }
    hide WithinCells, ReadCells, DiscEnd;
  }

  lemma RequestKinds(q: seq<byte>)
    requires |q| >= 8
    ensures AsksInfo(q, 1) <==> [0x01, 0x2B, 0x0E, 0x01, 0x00] <= q
    ensures AsksInfo(q, 2) <==> [0x01, 0x2B, 0x0E, 0x02, 0x00] <= q
    ensures AsksDiscrete(q) <==> [0x01, 0x02, 0x20, 0x00, 0x00, 0x01] <= q
    ensures SwitchesOff(q) <==> [0x01, 0x0F, 0x00, 0x02, 0x00, 0x01, 0x01, 0x00] <= q
    ensures KnownRange(q) ==
            if [0x01, 0x43, 0x30, 0x00, 0x00, 0x0F] <= q then Range(0x3000, 0x300E)
            else if [0x01, 0x43, 0x33, 0x02, 0x00, 0x1B] <= q then Range(0x3302, 0x331E)
            else if [0x01, 0x43, 0x31, 0x00, 0x00, 0x76] <= q then Range(0x3100, 0x311D)
            else if [0x01, 0x43, 0x32, 0x00, 0x00, 0x04] <= q then Range(0x3200, 0x3202)
            else if [0x01, 0x43, 0x90, 0x00, 0x00, 0x76] <= q then Range(0x9000, 0x9070)
            else if [0x01, 0x43, 0x90, 0x13, 0x00, 0x03] <= q then Range(0x9013, 0x9015)
            else Unknown
  {}

  /** The ten requests that are answered from the table, each with its answer. */
  lemma StoredAnswers(m: Mem, q: seq<byte>)
    requires MemOk(m) && |q| >= 8
    ensures [0x01, 0x2B, 0x0E, 0x01, 0x00] <= q ==> StoredAnswer(m, q) == m.info1
    ensures [0x01, 0x2B, 0x0E, 0x02, 0x00] <= q ==> StoredAnswer(m, q) == m.info2
    ensures [0x01, 0x43, 0x30, 0x00, 0x00, 0x0F] <= q ==> ShowsRange(m.regs, 0x3000, 0x300E, StoredAnswer(m, q))
    ensures [0x01, 0x43, 0x33, 0x02, 0x00, 0x1B] <= q ==> ShowsRange(m.regs, 0x3302, 0x331E, StoredAnswer(m, q))
    ensures [0x01, 0x43, 0x31, 0x00, 0x00, 0x76] <= q ==> ShowsRange(m.regs, 0x3100, 0x311D, StoredAnswer(m, q))
    ensures [0x01, 0x43, 0x32, 0x00, 0x00, 0x04] <= q ==> ShowsRange(m.regs, 0x3200, 0x3202, StoredAnswer(m, q))
    ensures [0x01, 0x43, 0x90, 0x00, 0x00, 0x76] <= q ==> ShowsRange(m.regs, 0x9000, 0x9070, StoredAnswer(m, q))
    ensures [0x01, 0x43, 0x90, 0x13, 0x00, 0x03] <= q ==> ShowsRange(m.regs, 0x9013, 0x9015, StoredAnswer(m, q))
    ensures [0x01, 0x02, 0x20, 0x00, 0x00, 0x01] <= q ==>
      StoredAnswer(m, q) == [0x01, 0x02] + if 0x2000 in CellAdresses(m.discs) then [0x01] + ReadCells(WithinCells(m.discs, 0x2000, 0xFFFF)) else []
    ensures [0x01, 0x0F, 0x00, 0x02, 0x00, 0x01, 0x01, 0x00] <= q ==> StoredAnswer(m, q) == []
    ensures Known(q) <==>
      || [0x01, 0x2B, 0x0E, 0x01, 0x00] <= q || [0x01, 0x2B, 0x0E, 0x02, 0x00] <= q
      || [0x01, 0x43, 0x30, 0x00, 0x00, 0x0F] <= q || [0x01, 0x43, 0x33, 0x02, 0x00, 0x1B] <= q || [0x01, 0x43, 0x31, 0x00, 0x00, 0x76] <= q
      || [0x01, 0x43, 0x32, 0x00, 0x00, 0x04] <= q || [0x01, 0x43, 0x90, 0x00, 0x00, 0x76] <= q || [0x01, 0x43, 0x90, 0x13, 0x00, 0x03] <= q
      || [0x01, 0x02, 0x20, 0x00, 0x00, 0x01] <= q || [0x01, 0x0F, 0x00, 0x02, 0x00, 0x01, 0x01, 0x00] <= q
  {
    RequestKinds(q);
    Memory.KnownExclusive(q);
    DiscreteShows(m);
    if KnownRange(q).Range? {
      Memory.KnownBounds(q);
      ReplyShows(m, KnownRange(q).start, KnownRange(q).end);
    }
    hide AsksInfo, AsksDiscrete, SwitchesOff, KnownRange, Reply, DiscreteAnswer, ShowsRange, WithinCells, ReadCells, MemOk;
  }

  /** A device information block that was polled is what the request for it is answered with, whatever else is in the table. */
  lemma PolledInfoAnswered(m: Mem, resp: seq<byte>, lenght: nat, headerlenght: nat, req: seq<byte>, q: seq<byte>)
    requires MemOk(m) && ResponseAllowed(m, resp, lenght, headerlenght, req) && resp[1] == 0x2B && (resp[3] == 1 || resp[3] == 2)
    requires |q| >= 8 && [0x01, 0x2B, 0x0E, resp[3], 0x00] <= q
    ensures StoredAnswer(SavedResponse(m, resp, lenght, headerlenght, req).0, q) == resp[..lenght - 2]
  {
    SavedResponseOk(m, resp, lenght, headerlenght, req);
    ResponseInfo(m, resp, lenght, headerlenght, req);
    hide MemOk, StoredAnswer, SavedResponse;
    StoredAnswers(SavedResponse(m, resp, lenght, headerlenght, req).0, q);
  }
}
