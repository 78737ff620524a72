/**
 Every run of writes to the controller's registers, however it mixes polled responses, commands from the
 network and overrides from the text port: the table behaves like two maps from address to word. A read
 with overrides gives the latest override since the last clean, or else the latest value of the
 controller; a read without them gives the latest value of the controller.
 */
module Overlay {
  import opened Bytes
  import opened Table
  import opened TableProofs

  datatype Op =
    | Save(kind: byte, adress: word, payload: seq<byte>, past: byte)
    | SaveResponse(resp: seq<byte>, lenght: nat, headerlenght: nat, req: seq<byte>)
    | PutRegStr(value: Parsed, adress: word)
    | PutRegStr32(value: Parsed, adress: word)
    | CleanAlternate

  /** What the source demands of its callers; it depends on the addresses alone. */
  predicate Allowed(m: Mem, op: Op)
    requires |m.regs| > 0 && |m.coils| > 0 && |m.discs| > 0
  {
    match op
    case Save(kind, adress, _, _) => SaveAllowed(m, kind, adress)
    case SaveResponse(resp, lenght, headerlenght, req) => ResponseAllowed(m, resp, lenght, headerlenght, req)
    case PutRegStr32(_, adress) => IsUserReg(adress) || RegIndex(m.regs, adress) + 1 < |m.regs|
    case _ => true
  }

  function Apply(m: Mem, op: Op): Mem
    requires |m.regs| > 0 && |m.coils| > 0 && |m.discs| > 0 && Allowed(m, op)
  {
    match op
    case Save(kind, adress, payload, past) => Saved(m, kind, adress, payload, past).0
    case SaveResponse(resp, lenght, headerlenght, req) => SavedResponse(m, resp, lenght, headerlenght, req).0
    case PutRegStr(value, adress) => Put(m, value, adress).0
    case PutRegStr32(value, adress) => Put32(m, value, adress).0
    case CleanAlternate => m.(regs := ClearAlternates(m.regs))
  }

  // ----- what one write means for one address -----

  datatype Written = None | Word(w: word)

  /** How many addresses of the table lie from lo up to, but without, hi. */
  function CountBetween(a: seq<word>, lo: word, hi: word): nat {
    if |a| == 0 then 0 else (if lo <= a[0] < hi then 1 else 0) + CountBetween(a[1..], lo, hi)
  }

  /** The word that falls to address x when ws are written to the addresses of the table from start on, one each. */
  function Share(a: seq<word>, start: word, ws: seq<word>, x: word): Written {
    if start <= x && CountBetween(a, start, x) < |ws| then Word(ws[CountBetween(a, start, x)]) else None
  }

  /** The value of the controller that an operation brings for x. */
  function DeviceWrite(a: seq<word>, op: Op, x: word): Written {
    match op
    case Save(kind, adress, payload, past) => if kind == E_REG then Share(a, adress, Words(payload, past), x) else None
    case SaveResponse(resp, lenght, headerlenght, req) =>
      if |req| < 4 || !(4 <= lenght <= |resp|) || headerlenght + 1 >= |resp| then None
      else if resp[1] == 0x43 then Share(a, GetInt16(req, 2), Words(DataOf(resp, lenght, headerlenght), resp[lenght - 2]), x)
      else if resp[1] == 0x03 || resp[1] == 0x04 then Share(a, GetInt16(req, 2), [GetInt16(resp, headerlenght)], x)
      else None
    case _ => None
  }

  /** The override an operation brings for x. */
  function OverrideWrite(a: seq<word>, op: Op, x: word): Written {
    match op
    case Save(kind, adress, payload, past) => if kind == E_USER then Share(a, adress, Words(payload, past), x) else None
    case PutRegStr(value, adress) => if value.Number? && x == adress && x != 0 && !IsUserReg(x) then Word(Wrap16(value.v)) else None
    case PutRegStr32(value, adress) =>
      if value.NotANumber? || adress == 0 || IsUserReg(adress) || adress !in a || adress + 1 !in a then None
      else if x == adress then Word(LowWord(value.v))
      else if x == adress + 1 then Word(HighWord(value.v))
      else None
    case _ => None
  }

  // ----- what a run means for one address: the latest write wins -----

  function LatestValue(a: seq<word>, ops: seq<Op>, x: word, first: word): word {
    if |ops| == 0 then first
    else
      match DeviceWrite(a, ops[|ops| - 1], x)
      case Word(w) => w
      case None => LatestValue(a, ops[..|ops| - 1], x, first)
  }

  function LatestOverride(a: seq<word>, ops: seq<Op>, x: word, first: Written): Written {
    if |ops| == 0 then first
    else if ops[|ops| - 1].CleanAlternate? then None
    else
      match OverrideWrite(a, ops[|ops| - 1], x)
      case Word(w) => Word(w)
      case None => LatestOverride(a, ops[..|ops| - 1], x, first)
  }

  // ----- proofs for one write -----

  lemma {:induction false} CountIsDistance(a: seq<word>, i: nat, j: nat, lo: word)
    requires Ordered(a) && i <= j < |a| && a[j] != NO_ADRESS
    requires forall k :: 0 <= k < |a| && a[k] != NO_ADRESS ==> (lo <= a[k] <==> i <= k)
    ensures CountBetween(a, lo, a[j]) == j - i
  {
    if |a| > 0 {
      assert forall k, n :: 0 <= k < n < |a[1..]| ==> a[1..][k] == a[k + 1] && a[1..][n] == a[n + 1];
      if j > 0 {
        CountIsDistance(a[1..], if i > 0 then i - 1 else 0, j - 1, lo);
      } else {
        NoneBelow(a[1..], lo, a[0]);
      }
    }
  }

  lemma {:induction false} NoneBelow(a: seq<word>, lo: word, hi: word)
    requires forall k :: 0 <= k < |a| ==> a[k] >= hi
    ensures CountBetween(a, lo, hi) == 0
  {
    if |a| > 0 { NoneBelow(a[1..], lo, hi); }
  }

  /** Writing to consecutive slots gives every address its share. */
  lemma ShareIs(a: seq<word>, start: word, ws: seq<word>, j: nat)
    requires Ordered(a) && j < |a| && a[j] != NO_ADRESS && StartIndex(a, start) >= 0
    ensures var i := StartIndex(a, start);
            Share(a, start, ws, a[j]) == if i <= j < i + |ws| then Word(ws[j - i]) else None
  {
    var i := StartIndex(a, start);
    forall k | 0 <= k < |a| && a[k] != NO_ADRESS ensures start <= a[k] <==> i <= k {
      RangePlaces(a, start, 0xFFFE, k);
    }
    if i <= j { CountIsDistance(a, i, j, start); }
  }

  /** The effect of one write on one register. */
  ghost predicate Effect(a: seq<word>, op: Op, before: Reg, after: Reg) {
    && after.adress == before.adress
    && (match DeviceWrite(a, op, before.adress)
        case Word(w) => after.value == w
        case None => after.value == before.value)
    && (if op.CleanAlternate? then !after.haveAlternate
        else match OverrideWrite(a, op, before.adress)
          case Word(w) => after.haveAlternate && after.alternate == w
          case None => after.haveAlternate == before.haveAlternate && after.alternate == before.alternate)
  }

  lemma SaveEffect(m: Mem, kind: byte, adress: word, payload: seq<byte>, past: byte, j: nat)
    requires MemOk(m) && SaveAllowed(m, kind, adress) && j < MAXREG && m.regs[j].adress != NO_ADRESS
    ensures Effect(RegAdresses(m.regs), Save(kind, adress, payload, past), m.regs[j], Saved(m, kind, adress, payload, past).0.regs[j])
  {
    var a := RegAdresses(m.regs);
    if kind == E_REG || kind == E_USER { ShareIs(a, adress, Words(payload, past), j); }
    hide Words, StartIndex, Find, Share, CellsOk, UserRegsOk, UserCoilsOk, Ordered, Unpack;
  }

  lemma ResponseEffect(m: Mem, op: Op, j: nat)
    requires MemOk(m) && op.SaveResponse? && Allowed(m, op) && j < MAXREG && m.regs[j].adress != NO_ADRESS
    ensures Effect(RegAdresses(m.regs), op, m.regs[j], Apply(m, op).regs[j])
  {
    var a := RegAdresses(m.regs);
    var adress := GetInt16(op.req, 2);
    if op.resp[1] == 0x43 {
      ShareIs(a, adress, Words(DataOf(op.resp, op.lenght, op.headerlenght), op.resp[op.lenght - 2]), j);
    } else if op.resp[1] == 0x03 || op.resp[1] == 0x04 {
      ShareIs(a, adress, [GetInt16(op.resp, op.headerlenght)], j);
    }
    hide Words, DataOf, StartIndex, Share, CellsOk, UserRegsOk, UserCoilsOk, Ordered, GetInt16;
  }

  lemma PutEffect(m: Mem, value: Parsed, adress: word, j: nat)
    requires MemOk(m) && j < MAXREG && m.regs[j].adress != NO_ADRESS
    ensures Effect(RegAdresses(m.regs), PutRegStr(value, adress), m.regs[j], Put(m, value, adress).0.regs[j])
  {
    FindIsPlace(RegAdresses(m.regs), adress, j);
    hide Find, CellsOk, UserRegsOk, UserCoilsOk, Ordered, Wrap16;
  }

  /** Addresses in use are unique. */
  lemma FindIsPlace(a: seq<word>, adress: word, j: nat)
    requires Ordered(a) && j < |a| && a[j] != NO_ADRESS
    ensures Find(a, adress) == j <==> a[j] == adress
    ensures adress in a <==> Find(a, adress) >= 0
  {
    var i := Find(a, adress);
    if 0 <= i < j { assert a[i] < a[j]; }
  }

  lemma Put32Effect(m: Mem, value: Parsed, adress: word, j: nat)
    requires MemOk(m) && j < MAXREG && m.regs[j].adress != NO_ADRESS
    ensures Effect(RegAdresses(m.regs), PutRegStr32(value, adress), m.regs[j], Put32(m, value, adress).0.regs[j])
  {
    var a := RegAdresses(m.regs);
    hide CellsOk, UserRegsOk, UserCoilsOk, LowWord, HighWord;
    if value.Number? && adress != 0 && !IsUserReg(adress) {
      PairPlaces(a, adress, j);
      hide RegsOk, Find;
    }
  }

  /** Which places Put32 writes, seen from a place in use. */
  lemma PairPlaces(a: seq<word>, adress: word, j: nat)
    requires Ordered(a) && j < |a| && a[j] != NO_ADRESS && adress != 0
    ensures var i := Find(a, adress);
            var both := i >= 0 && StartIndex(a, Wrap16(adress + 1)) >= 0 && i + 1 < |a|;
            && (i >= 0 && i == j <==> a[j] == adress)
            && (both && adress != NO_ADRESS <==> adress in a && adress + 1 in a)
            && (both ==> (i + 1 == j <==> a[j] == adress + 1))
            && (both && adress == NO_ADRESS ==> i != j && i + 1 != j)
  {
    var i, k := Find(a, adress), StartIndex(a, Wrap16(adress + 1));
    FindIsPlace(a, adress, j);
    if i >= 0 && adress < NO_ADRESS {
      if k >= 0 && adress + 1 < NO_ADRESS { NextPlace(a, adress); }
      FindIsPlace(a, (adress + 1) as word, j);
    }
    hide Find;
  }

  lemma ApplyOk(m: Mem, op: Op)
    requires MemOk(m) && Allowed(m, op)
    ensures MemOk(Apply(m, op)) && SameConfig(m, Apply(m, op))
  {
    hide Saved, SavedResponse, Put, Put32, SaveAllowed, ResponseAllowed;
    match op
    case Save(kind, adress, payload, past) => SavedOk(m, kind, adress, payload, past);
    case SaveResponse(resp, lenght, headerlenght, req) => SavedResponseOk(m, resp, lenght, headerlenght, req);
    case PutRegStr(value, adress) => PutOk(m, value, adress);
    case PutRegStr32(value, adress) => Put32Ok(m, value, adress);
    case CleanAlternate => RegsAlike(m.regs, ClearAlternates(m.regs));
  }

  /** Every operation has, on every register in use, the effect its address says. */
  lemma OneEffect(m: Mem, op: Op, j: nat)
    requires MemOk(m) && Allowed(m, op) && j < MAXREG && m.regs[j].adress != NO_ADRESS
    requires |Apply(m, op).regs| == MAXREG
    ensures Effect(RegAdresses(m.regs), op, m.regs[j], Apply(m, op).regs[j])
  {
    hide Saved, SavedResponse, Put, Put32, SaveAllowed, ResponseAllowed, DeviceWrite, OverrideWrite, MemOk;
    match op
    case Save(kind, adress, payload, past) => SaveEffect(m, kind, adress, payload, past, j);
    case SaveResponse(_, _, _, _) => ResponseEffect(m, op, j);
    case PutRegStr(value, adress) => PutEffect(m, value, adress, j);
    case PutRegStr32(value, adress) => Put32Effect(m, value, adress, j);
    case CleanAlternate => CleanEffect(m, j);
  }

  lemma CleanEffect(m: Mem, j: nat)
    requires j < |m.regs|
    ensures Effect(RegAdresses(m.regs), CleanAlternate, m.regs[j], ClearAlternates(m.regs)[j])
  {}

  // ----- runs -----

  ghost predicate AllAllowed(m: Mem, ops: seq<Op>) {
    |m.regs| > 0 && |m.coils| > 0 && |m.discs| > 0 && forall k :: 0 <= k < |ops| ==> Allowed(m, ops[k])
  }

  lemma AllowedStays(m: Mem, m': Mem, op: Op)
    requires |m.regs| > 0 && |m.coils| > 0 && |m.discs| > 0 && SameConfig(m, m') && Allowed(m, op)
    ensures |m'.regs| > 0 && |m'.coils| > 0 && |m'.discs| > 0 && Allowed(m', op)
  {}

  /** The table after a run. */
  ghost function Run(m: Mem, ops: seq<Op>): (r: Mem)
    requires MemOk(m) && AllAllowed(m, ops)
    ensures MemOk(r) && SameConfig(m, r)
    decreases |ops|
  {
    if |ops| == 0 then m
    else
      var n, op := Run(m, ops[..|ops| - 1]), ops[|ops| - 1];
      AllowedStays(m, n, op);
      ApplyOk(n, op);
      Apply(n, op)
  }

  /**
   After every run of allowed operations, for every register in use: read without overrides it has the
   latest value of the controller, read with overrides the latest override since the last clean, or
   the latest value of the controller when there is none.
   */
  lemma {:induction false} OverlayRefined(m: Mem, ops: seq<Op>, j: nat)
    requires MemOk(m) && AllAllowed(m, ops) && j < MAXREG && m.regs[j].adress != NO_ADRESS
    ensures var x := m.regs[j].adress;
            var a := RegAdresses(m.regs);
            var value := LatestValue(a, ops, x, m.regs[j].value);
            var override := LatestOverride(a, ops, x, if m.regs[j].haveAlternate then Word(m.regs[j].alternate) else None);
            && ReadReg(Run(m, ops).regs[j], false) == value
            && ReadReg(Run(m, ops).regs[j], true) == (if override.Word? then override.w else value)
            && (Run(m, ops).regs[j].haveAlternate <==> override.Word?)
    decreases |ops|
  {
    if |ops| > 0 {
      var past, op := ops[..|ops| - 1], ops[|ops| - 1];
      OverlayRefined(m, past, j);
      var n := Run(m, past);
      AllowedStays(m, n, op);
      assert RegAdresses(n.regs)[j] == RegAdresses(m.regs)[j];
      ApplyOk(n, op);
      OneEffect(n, op, j);
      hide Allowed, Apply, DeviceWrite, OverrideWrite, MemOk;
    }
  }
}
