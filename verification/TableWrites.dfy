/** What each write does to the table, entry by entry and byte by byte, and what single numbers read from it mean. */
module TableWrites {
  import opened Bytes
  import opened Table
  import opened TableProofs
  import Memory

  // ----- places -----

  /** Where the slots that belong to a start address begin: at the first slot for 0, at the address otherwise. */
  ghost predicate IsPlace(a: seq<word>, adress: word, i: nat) {
    i < |a| && if adress == 0 then i == 0 else a[i] == adress && forall k :: 0 <= k < i ==> a[k] != adress
  }

  lemma PlaceIs(a: seq<word>, adress: word)
    requires |a| > 0
    ensures StartIndex(a, adress) >= 0 <==> exists i: nat :: IsPlace(a, adress, i)
    ensures forall i: nat :: IsPlace(a, adress, i) ==> StartIndex(a, adress) == i
  {
    if StartIndex(a, adress) >= 0 { assert IsPlace(a, adress, StartIndex(a, adress)); }
  }

  // ----- responses of the charge controller -----

  /** How many data bytes a response has: without header and check value. */
  function DataCount(lenght: nat, headerlenght: nat): nat { if headerlenght < lenght - 2 then lenght - 2 - headerlenght else 0 }

  /** Function 0x2B: the whole response without its check value is kept as the block its fourth byte names, and nothing else changes. */
  lemma ResponseInfo(m: Mem, resp: seq<byte>, lenght: nat, headerlenght: nat, req: seq<byte>)
    requires MemOk(m) && ResponseAllowed(m, resp, lenght, headerlenght, req) && resp[1] == 0x2B
    ensures var (r, n) := SavedResponse(m, resp, lenght, headerlenght, req);
            && n == lenght - 1
            && (resp[3] == 1 ==> r == m.(info1 := resp[..lenght - 2]))
            && (resp[3] == 2 ==> r == m.(info2 := resp[..lenght - 2]))
            && (resp[3] != 1 && resp[3] != 2 ==> r == m)
  {}

  /** Functions 0x01 and 0x02: data byte k goes to the coil or input k places behind the address asked for, and nothing else changes. */
  lemma ResponseBits(m: Mem, resp: seq<byte>, lenght: nat, headerlenght: nat, req: seq<byte>, i: nat)
    requires MemOk(m) && ResponseAllowed(m, resp, lenght, headerlenght, req) && (resp[1] == 0x01 || resp[1] == 0x02)
    requires IsPlace(CellAdresses(if resp[1] == 0x01 then m.coils else m.discs), (req[2] as int) * 0x100 + req[3], i)
    ensures var (r, n) := SavedResponse(m, resp, lenght, headerlenght, req);
            && n == DataCount(lenght, headerlenght) + 1
            && (resp[1] == 0x01 ==> r == m.(coils := r.coils) && BitsTaken(m.coils, r.coils, resp, headerlenght, i, n - 1))
            && (resp[1] == 0x02 ==> r == m.(discs := r.discs) && BitsTaken(m.discs, r.discs, resp, headerlenght, i, n - 1))
  {
    var adress := (req[2] as int) * 0x100 + req[3];
    PlaceIs(CellAdresses(if resp[1] == 0x01 then m.coils else m.discs), adress);
    hide StartIndex, CellAdresses, RegAdresses, MemOk;
    var t, data := if resp[1] == 0x01 then m.coils else m.discs, DataOf(resp, lenght, headerlenght);
    BitsWritten(t, i, resp, lenght, headerlenght);
    hide WriteCells, BitsTaken, DataOf;
  }

  /** From slot i on, so many cells have the bytes behind the header; the others are as they were. */
  ghost predicate BitsTaken(t: seq<Cell>, u: seq<Cell>, resp: seq<byte>, headerlenght: nat, i: nat, count: int) {
    && |u| == |t| && headerlenght + count <= |resp|
    && forall j :: 0 <= j < |t| ==> u[j] == if i <= j < i + count then t[j].(value := resp[headerlenght + (j - i)]) else t[j]
  }

  lemma BitsWritten(t: seq<Cell>, i: nat, resp: seq<byte>, lenght: nat, headerlenght: nat)
    requires 4 <= lenght <= |resp| && headerlenght <= |resp|
    ensures BitsTaken(t, WriteCells(t, i, DataOf(resp, lenght, headerlenght)), resp, headerlenght, i, DataCount(lenght, headerlenght))
    ensures |DataOf(resp, lenght, headerlenght)| == DataCount(lenght, headerlenght)
  {}

  /**
   Function 0x43: the header is kept with the register asked for, two data bytes, high one first, are the value of
   each register from there on, and nothing else changes. An odd last byte is completed with the check value.
   */
  lemma ResponseRegs(m: Mem, resp: seq<byte>, lenght: nat, headerlenght: nat, req: seq<byte>, i: nat)
    requires MemOk(m) && ResponseAllowed(m, resp, lenght, headerlenght, req) && resp[1] == 0x43
    requires IsPlace(RegAdresses(m.regs), (req[2] as int) * 0x100 + req[3], i)
    ensures var (r, n) := SavedResponse(m, resp, lenght, headerlenght, req);
            && n == (DataCount(lenght, headerlenght) + 1) / 2 + 1
            && r == m.(regs := r.regs) && WordsTaken(m.regs, r.regs, resp, headerlenght, i, n - 1)
  {
    PlaceIs(RegAdresses(m.regs), (req[2] as int) * 0x100 + req[3]);
    hide StartIndex, CellAdresses, RegAdresses, MemOk;
    WordsWritten(m.regs, i, resp, lenght, headerlenght);
    hide WriteValues, WordsTaken, DataOf, Words, WithHeader;
  }

  /** From slot i on, so many registers have the words behind the header, slot i the header as well; all else is as it was. */
  ghost predicate WordsTaken(t: seq<Reg>, u: seq<Reg>, resp: seq<byte>, headerlenght: nat, i: nat, count: int) {
    && |u| == |t| && headerlenght + 2 * count <= |resp| && headerlenght <= |resp|
    && forall j :: 0 <= j < |t| ==>
         var value: word := if i <= j < i + count then (resp[headerlenght + 2 * (j - i)] as int) * 0x100 + resp[headerlenght + 2 * (j - i) + 1] else t[j].value;
         u[j] == if j == i then t[j].(value := value, haveHeader := true, header := resp[..headerlenght]) else t[j].(value := value)
  }

  lemma WordsWritten(t: seq<Reg>, i: nat, resp: seq<byte>, lenght: nat, headerlenght: nat)
    requires 4 <= lenght <= |resp| && headerlenght <= |resp| && i < |t|
    ensures var ws := Words(DataOf(resp, lenght, headerlenght), resp[lenght - 2]);
            && |ws| == (DataCount(lenght, headerlenght) + 1) / 2
            && WordsTaken(t, WriteValues(t[i := WithHeader(t[i], resp[..headerlenght])], i, ws), resp, headerlenght, i, |ws|)
  {
    Memory.WordsOfData(resp, lenght, headerlenght);
    var ws := Words(DataOf(resp, lenght, headerlenght), resp[lenght - 2]);
    assert |ws| == (DataCount(lenght, headerlenght) + 1) / 2 && headerlenght + 2 * |ws| <= |resp|;
    hide Words, DataOf;
    forall k: nat | k < |ws| ensures ws[k] == (resp[headerlenght + 2 * k] as int) * 0x100 + resp[headerlenght + 2 * k + 1] {
      Memory.DataAt(resp, lenght, headerlenght, k);
    }
    HeaderAndWordsTaken(t, i, resp, headerlenght, ws);
    hide WordsTaken, WriteValues, WithHeader, DataCount;
  }

  lemma HeaderAndWordsTaken(t: seq<Reg>, i: nat, resp: seq<byte>, headerlenght: nat, ws: seq<word>)
    requires i < |t| && headerlenght + 2 * |ws| <= |resp|
    requires forall k: nat :: k < |ws| ==> ws[k] == (resp[headerlenght + 2 * k] as int) * 0x100 + resp[headerlenght + 2 * k + 1]
    ensures WordsTaken(t, WriteValues(t[i := WithHeader(t[i], resp[..headerlenght])], i, ws), resp, headerlenght, i, |ws|)
  {}

  /** Functions 0x03 and 0x04: one value, at the register asked for. Any other function changes nothing. */
  lemma ResponseOne(m: Mem, resp: seq<byte>, lenght: nat, headerlenght: nat, req: seq<byte>, i: nat)
    requires MemOk(m) && ResponseAllowed(m, resp, lenght, headerlenght, req)
    requires IsPlace(RegAdresses(m.regs), (req[2] as int) * 0x100 + req[3], i)
    requires resp[1] == 0x03 || resp[1] == 0x04
    ensures SavedResponse(m, resp, lenght, headerlenght, req)
         == (m.(regs := m.regs[i := m.regs[i].(value := (resp[headerlenght] as int) * 0x100 + resp[headerlenght + 1])]), 1)
  {
    PlaceIs(RegAdresses(m.regs), (req[2] as int) * 0x100 + req[3]);
    hide StartIndex, CellAdresses, RegAdresses, MemOk;
  }

  lemma ResponseOther(m: Mem, resp: seq<byte>, lenght: nat, headerlenght: nat, req: seq<byte>)
    requires MemOk(m) && ResponseAllowed(m, resp, lenght, headerlenght, req)
    ensures resp[1] !in {0x01, 0x02, 0x03, 0x04, 0x2B, 0x43} ==> SavedResponse(m, resp, lenght, headerlenght, req) == (m, 0)
  {}

  // ----- commands from the network -----

  /** Kinds 0x31 and 0x32: one of the two blocks, unless it is longer than 100 bytes. Kinds below and above the nine change nothing. */
  lemma SaveInfo(m: Mem, kind: byte, adress: word, payload: seq<byte>, past: byte)
    requires MemOk(m) && SaveAllowed(m, kind, adress)
    ensures kind == 0x31 ==> Saved(m, kind, adress, payload, past) == if |payload| <= 100 then (m.(info1 := payload), |payload|) else (m, -1)
    ensures kind == 0x32 ==> Saved(m, kind, adress, payload, past) == if |payload| <= 100 then (m.(info2 := payload), |payload|) else (m, -1)
    ensures kind < 0x31 || kind > 0x39 ==> Saved(m, kind, adress, payload, past) == (m, 0)
  {}

  /** Word k of a payload, high byte first; the last one may take the byte behind the payload. */
  function WordOf(payload: seq<byte>, past: byte, k: nat): word
    requires 2 * k < |payload|
  {
    (payload[2 * k] as int) * 0x100 + if 2 * k + 1 < |payload| then payload[2 * k + 1] else past
  }

  /** From slot i on, registers have the words of the payload, as values or as overrides, as far as there are slots. */
  ghost predicate WordsSaved(t: seq<Reg>, u: seq<Reg>, i: nat, payload: seq<byte>, past: byte, override: bool) {
    && |u| == |t|
    && forall j :: 0 <= j < |t| ==>
         u[j] == if !(i <= j && 2 * (j - i) < |payload|) then t[j]
                 else if override then t[j].(haveAlternate := true, alternate := WordOf(payload, past, j - i))
                 else t[j].(value := WordOf(payload, past, j - i))
  }

  /** Kind 0x33 writes values, kind 0x37 overrides. The number returned is that of the words, or -1 if there are not enough slots. */
  lemma SaveRegs(m: Mem, kind: byte, adress: word, payload: seq<byte>, past: byte, i: nat)
    requires MemOk(m) && SaveAllowed(m, kind, adress) && (kind == 0x33 || kind == 0x37) && IsPlace(RegAdresses(m.regs), adress, i)
    ensures var (r, n) := Saved(m, kind, adress, payload, past);
            && n == (if i + (|payload| + 1) / 2 > 180 then -1 else (|payload| + 1) / 2)
            && r == m.(regs := r.regs) && WordsSaved(m.regs, r.regs, i, payload, past, kind == 0x37)
  {
    PlaceIs(RegAdresses(m.regs), adress);
    Memory.Sizes(m);
    hide StartIndex, CellAdresses, RegAdresses, MemOk;
    PayloadWords(m.regs, i, payload, past);
    hide WriteValues, WriteAlternates, WordsSaved, Words;
  }

  lemma PayloadWords(t: seq<Reg>, i: nat, payload: seq<byte>, past: byte)
    ensures var ws := Words(payload, past);
            && |ws| == (|payload| + 1) / 2
            && WordsSaved(t, WriteValues(t, i, ws), i, payload, past, false) && WordsSaved(t, WriteAlternates(t, i, ws), i, payload, past, true)
  {
    var ws := Words(payload, past);
    assert |ws| == (|payload| + 1) / 2;
    forall k: nat | k < |ws| ensures ws[k] == WordOf(payload, past, k) {
      UnpackAt(if |payload| % 2 == 0 then payload else payload + [past], k);
    }
    hide Words, WordOf;
  }

  /** From place i on, cells have the bytes of the payload, as far as there are slots. */
  ghost predicate BytesSaved(t: seq<Cell>, u: seq<Cell>, i: nat, payload: seq<byte>) {
    |u| == |t| && forall j :: 0 <= j < |t| ==> u[j] == if i <= j < i + |payload| then t[j].(value := payload[j - i]) else t[j]
  }

  /** Kind 0x34 writes coils, kind 0x35 discrete inputs, one byte each. */
  lemma SaveCells(m: Mem, kind: byte, adress: word, payload: seq<byte>, past: byte, i: nat)
    requires MemOk(m) && SaveAllowed(m, kind, adress) && (kind == 0x34 || kind == 0x35)
    requires IsPlace(CellAdresses(if kind == 0x34 then m.coils else m.discs), adress, i)
    ensures var (r, n) := Saved(m, kind, adress, payload, past);
            && n == (if i + |payload| > (if kind == 0x34 then 29 else 3) then -1 else |payload|)
            && (kind == 0x34 ==> r == m.(coils := r.coils) && BytesSaved(m.coils, r.coils, i, payload))
            && (kind == 0x35 ==> r == m.(discs := r.discs) && BytesSaved(m.discs, r.discs, i, payload))
  {
    PlaceIs(CellAdresses(if kind == 0x34 then m.coils else m.discs), adress);
    Memory.Sizes(m);
    hide StartIndex, CellAdresses, RegAdresses, MemOk;
  }

  /** Kind 0x36 keeps a header of up to 30 bytes with its register. */
  lemma SaveHeader(m: Mem, adress: word, payload: seq<byte>, past: byte, i: nat)
    requires MemOk(m) && SaveAllowed(m, 0x36, adress) && IsPlace(RegAdresses(m.regs), adress, i)
    ensures Saved(m, 0x36, adress, payload, past)
         == if |payload| > 30 then (m, -1) else (m.(regs := m.regs[i := m.regs[i].(haveHeader := true, header := payload)]), 1)
  {
    PlaceIs(RegAdresses(m.regs), adress);
    hide StartIndex, CellAdresses, RegAdresses, MemOk;
  }

  /**
   Kinds 0x38 and 0x39 write user registers and coils from the configured address on, whatever the addresses of the
   next ones. Nothing is written if the address is not configured or more would be written than there are.
   */
  lemma SaveUser(m: Mem, adress: word, payload: seq<byte>, past: byte, i: nat)
    requires MemOk(m)
    ensures i < |m.userRegs| && m.userRegs[i].adress == adress ==>
      var (r, n) := Saved(m, 0x38, adress, payload, past);
      if i + |payload| / 2 > |m.userRegs| then (r, n) == (m, -1)
      else
        && n == |payload| / 2 && r == m.(userRegs := r.userRegs) && |r.userRegs| == |m.userRegs|
        && forall j :: 0 <= j < |m.userRegs| ==>
             r.userRegs[j] == if i <= j < i + n then m.userRegs[j].(value := WordOf(payload, past, j - i)) else m.userRegs[j]
    ensures i < |m.userCoils| && m.userCoils[i].adress == adress ==>
      var (r, n) := Saved(m, 0x39, adress, payload, past);
      if i + |payload| > |m.userCoils| then (r, n) == (m, -1)
      else
        && n == |payload| && r == m.(userCoils := r.userCoils) && |r.userCoils| == |m.userCoils|
        && forall j :: 0 <= j < |m.userCoils| ==>
             r.userCoils[j] == if i <= j < i + n then m.userCoils[j].(value := payload[j - i]) else m.userCoils[j]
  {
    if i < |m.userRegs| && m.userRegs[i].adress == adress { UserPlace(m.userRegs, i); }
    if i < |m.userCoils| && m.userCoils[i].adress == adress { UserCoilPlace(m.userCoils, i); }
    forall k: nat | k < |payload| / 2 ensures Unpack(payload)[k] == WordOf(payload, past, k) { UnpackAt(payload, k); }
    hide Unpack, UserAdresses, UserCoilAdresses, RegsOk, CellsOk, UserRegsOk, UserCoilsOk, Find, WordOf;
  }

  lemma SaveUserUnknown(m: Mem, adress: word, payload: seq<byte>, past: byte)
    requires MemOk(m)
    ensures (forall j :: 0 <= j < |m.userRegs| ==> m.userRegs[j].adress != adress) ==> Saved(m, 0x38, adress, payload, past) == (m, 0)
    ensures (forall j :: 0 <= j < |m.userCoils| ==> m.userCoils[j].adress != adress) ==> Saved(m, 0x39, adress, payload, past) == (m, 0)
  {}

  // ----- single numbers, as the text port reads and writes them -----

  /** x is v modulo 0x10000, in the range of int16_t or of uint16_t. */
  predicate Reads(x: int, v: int, signed: bool) {
    (x - v) % 0x1_0000 == 0 && if signed then -0x8000 <= x < 0x8000 else 0 <= x < 0x1_0000
  }

  /** The same for 32 bits. */
  predicate Reads32(x: int, v: int, signed: bool) {
    (x - v) % 0x1_0000_0000 == 0 && if signed then -0x8000_0000 <= x < 0x8000_0000 else 0 <= x < 0x1_0000_0000
  }

  predicate IsUser(adress: word) { 0x3400 <= adress <= 0x8FFF }

  lemma SignedReads(w: word, signed: bool)
    ensures Reads(if signed then Signed16(w) else w, w, signed)
  {}

  /** A configured user register gives its value; it has no override. */
  lemma GetUser(m: Mem, adress: word, orig: bool, i: nat)
    requires MemOk(m) && i < |m.userRegs| && m.userRegs[i].adress == adress
    ensures Get(m, adress, orig).Answer? && Reads(Get(m, adress, orig).v, m.userRegs[i].value, m.userRegs[i].issigned)
  {
    UserPlace(m.userRegs, i);
    SignedReads(m.userRegs[i].value, m.userRegs[i].issigned);
    hide UserAdresses, Signed16, RegsOk, CellsOk, UserCoilsOk;
  }

  /** A register of the controller gives its override, unless there is none or the original is asked for, and then its value. */
  lemma GetRegister(m: Mem, adress: word, orig: bool, i: nat)
    requires MemOk(m) && !IsUser(adress) && adress != 0 && IsPlace(RegAdresses(m.regs), adress, i)
    ensures var r := m.regs[i];
            Get(m, adress, orig).Answer? && Reads(Get(m, adress, orig).v, if r.haveAlternate && !orig then r.alternate else r.value, r.issigned)
  {
    PlaceIs(RegAdresses(m.regs), adress);
    SignedReads(if m.regs[i].haveAlternate && !orig then m.regs[i].alternate else m.regs[i].value, m.regs[i].issigned);
    hide RegAdresses, StartIndex, Signed16, MemOk;
  }

  /** The addresses that have a number to read or to write. */
  ghost predicate HasNumber(m: Mem, adress: word) {
    if IsUser(adress) then exists i :: 0 <= i < |m.userRegs| && m.userRegs[i].adress == adress
    else adress != 0 && exists i: nat :: IsPlace(RegAdresses(m.regs), adress, i)
  }

  lemma HasNumberIs(m: Mem, adress: word)
    requires MemOk(m)
    ensures HasNumber(m, adress) <==> if IsUserReg(adress) then Find(UserAdresses(m.userRegs), adress) >= 0 else RegIndex(m.regs, adress) >= 0
  {
    PlaceIs(RegAdresses(m.regs), adress);
    UserFound(m.userRegs, adress);
  }

  lemma GetNothing(m: Mem, adress: word, orig: bool)
    requires MemOk(m)
    ensures Get(m, adress, orig) == Nothing <==> !HasNumber(m, adress)
  {
    HasNumberIs(m, adress);
    hide HasNumber, MemOk, Signed16;
  }

  /** A number written to a user register is read back, modulo 0x10000 and with its sign; nothing else reads differently. */
  lemma PutGetUser(m: Mem, v: int32, adress: word, i: nat)
    requires MemOk(m) && i < |m.userRegs| && m.userRegs[i].adress == adress
    ensures var (r, n) := Put(m, Number(v), adress);
            && n == 1 && |r.regs| == |m.regs|
            && (forall orig :: Get(r, adress, orig).Answer? && Reads(Get(r, adress, orig).v, v, m.userRegs[i].issigned))
            && forall x: word, orig :: x != adress ==> Get(r, x, orig) == Get(m, x, orig)
  {
    UserPlace(m.userRegs, i);
    var r := Put(m, Number(v), adress).0;
    assert UserAdresses(r.userRegs) == UserAdresses(m.userRegs);
    SignedReads(Wrap16(v), m.userRegs[i].issigned);
    ReadsOn(if m.userRegs[i].issigned then Signed16(Wrap16(v)) else Wrap16(v), v, m.userRegs[i].issigned);
    hide UserAdresses, Signed16, Wrap16, RegsOk, CellsOk, UserCoilsOk, RegIndex, Reads;
  }

  lemma ReadsOn(x: int, v: int, signed: bool)
    requires Reads(x, Wrap16(v), signed)
    ensures Reads(x, v, signed)
  {
    assert (x - v) % 0x1_0000 == ((x - Wrap16(v) as int) % 0x1_0000 - (v / 0x1_0000) * 0x1_0000) % 0x1_0000;
  }

  /** One written to a register of the controller is read back in the same way until the original is asked for. */
  lemma PutGetRegister(m: Mem, v: int32, adress: word, i: nat)
    requires MemOk(m) && !IsUser(adress) && adress != 0 && IsPlace(RegAdresses(m.regs), adress, i)
    ensures var (r, n) := Put(m, Number(v), adress);
            && n == 1 && |r.regs| == |m.regs|
            && Get(r, adress, false).Answer? && Reads(Get(r, adress, false).v, v, m.regs[i].issigned)
            && (forall x: word :: Get(r, x, true) == Get(m, x, true))
            && forall x: word :: x != adress ==> Get(r, x, false) == Get(m, x, false)
  {
    PlaceIs(RegAdresses(m.regs), adress);
    var r := Put(m, Number(v), adress).0;
    assert RegAdresses(r.regs) == RegAdresses(m.regs);
    SignedReads(Wrap16(v), m.regs[i].issigned);
    ReadsOn(if m.regs[i].issigned then Signed16(Wrap16(v)) else Wrap16(v), v, m.regs[i].issigned);
    hide RegAdresses, Signed16, Wrap16, MemOk, Reads, IsPlace;
  }

  /** What is not a number, or has no register, is refused. */
  lemma PutRefused(m: Mem, value: Parsed, adress: word)
    requires MemOk(m)
    ensures value.NotANumber? || !HasNumber(m, adress) <==> Put(m, value, adress).1 == -1
    ensures Put(m, value, adress).1 == -1 ==> Put(m, value, adress).0 == m
  {
    HasNumberIs(m, adress);
    hide HasNumber, MemOk, Wrap16;
  }

  /** Two registers of the controller as one number: the overrides only if both have one, the high word from the second, signed if either is. */
  lemma Get32Register(m: Mem, adress: word, orig: bool, i: nat)
    requires MemOk(m) && !IsUser(adress) && 0 < adress && adress + 1 < NO_ADRESS
    requires i + 1 < MAXREG && m.regs[i].adress == adress && m.regs[i + 1].adress == adress + 1
    ensures var l, h := m.regs[i], m.regs[i + 1];
            var both := l.haveAlternate && h.haveAlternate && !orig;
            var v := if both then (h.alternate as int) * 0x1_0000 + l.alternate else (h.value as int) * 0x1_0000 + l.value;
            Get32(m, adress, orig).Answer? && Reads32(Get32(m, adress, orig).v, v, l.issigned || h.issigned)
  {
    assert RegAdresses(m.regs)[i] == adress && RegAdresses(m.regs)[i + 1] == adress + 1;
    hide CellsOk, UserRegsOk, UserCoilsOk, RegAdresses;
  }

  /** So a number whose halves the controller has in two registers is read as it is, or modulo 2^32, with overrides unless both have one. */
  lemma Get32Back(m: Mem, v: int32, adress: word, i: nat)
    requires MemOk(m) && !IsUser(adress) && 0 < adress && adress + 1 < NO_ADRESS
    requires i + 1 < MAXREG && m.regs[i].adress == adress && m.regs[i + 1].adress == adress + 1
    requires m.regs[i].value == v % 0x1_0000 && m.regs[i + 1].value == (v / 0x1_0000) % 0x1_0000
    ensures var answer := Answer(if m.regs[i].issigned || m.regs[i + 1].issigned then v else v % 0x1_0000_0000);
            && Get32(m, adress, true) == answer
            && (!(m.regs[i].haveAlternate && m.regs[i + 1].haveAlternate) ==> Get32(m, adress, false) == answer)
  {
    Get32Register(m, adress, true, i);
    Get32Register(m, adress, false, i);
    HalvesAre(v);
    var signed := m.regs[i].issigned || m.regs[i + 1].issigned;
    var u := (m.regs[i + 1].value as int) * 0x1_0000 + m.regs[i].value;
    OneReading(Get32(m, adress, true).v, u, v, signed);
    OneReading(Get32(m, adress, false).v, u, v, signed);
    hide MemOk, Get32, Reads32;
  }

  lemma HalvesAre(v: int32)
    ensures ((v / 0x1_0000) % 0x1_0000) * 0x1_0000 + v % 0x1_0000 == v % 0x1_0000_0000
  {}

  lemma OneReading(x: int, u: int, v: int32, signed: bool)
    requires u == v % 0x1_0000_0000
    ensures Reads32(x, u, signed) ==> x == if signed then v as int else u
  {}

  /** Two user registers as one number: signed if the second is, and never with overrides. */
  lemma Get32User(m: Mem, adress: word, orig: bool, i: nat)
    requires MemOk(m) && IsUser(adress)
    requires i + 1 < |m.userRegs| && m.userRegs[i].adress == adress && m.userRegs[i + 1].adress == adress + 1
    ensures var l, h := m.userRegs[i], m.userRegs[i + 1];
            Get32(m, adress, orig).Answer? && Reads32(Get32(m, adress, orig).v, (h.value as int) * 0x1_0000 + l.value, h.issigned)
  {
    UserPlace(m.userRegs, i);
    UserPlace(m.userRegs, i + 1);
    hide RegsOk, CellsOk, UserCoilsOk, UserAdresses;
  }

  /** There is no number if and only if one of the two addresses has no register. */
  lemma Get32Nothing(m: Mem, adress: word, orig: bool)
    requires MemOk(m) && adress + 1 < NO_ADRESS
    ensures Get32(m, adress, orig) == Nothing <==>
            if IsUser(adress) then !(exists i :: 0 <= i < |m.userRegs| && m.userRegs[i].adress == adress)
                                   || !(exists i :: 0 <= i < |m.userRegs| && m.userRegs[i].adress == adress + 1)
            else adress == 0 || adress !in RegAdresses(m.regs) || adress + 1 !in RegAdresses(m.regs)
  {
    var a := UserAdresses(m.userRegs);
    assert forall x: word :: Find(a, x) >= 0 <==> exists i :: 0 <= i < |m.userRegs| && m.userRegs[i].adress == x by {
      forall x: word ensures Find(a, x) >= 0 <==> exists i :: 0 <= i < |m.userRegs| && m.userRegs[i].adress == x { UserFound(m.userRegs, x); }
    }
    hide Signed32, MemOk, UserAdresses;
  }

  lemma UserFound(t: seq<UserReg>, x: word)
    ensures Find(UserAdresses(t), x) >= 0 <==> exists i :: 0 <= i < |t| && t[i].adress == x
  {
    var i := Find(UserAdresses(t), x);
    if i >= 0 { assert t[i].adress == x; }
    if j :| 0 <= j < |t| && t[j].adress == x { assert UserAdresses(t)[j] == x; }
  }

  /** A 32-bit number is refused if it is none, if its first register is unknown or the last there is, or, with the controller's, if the next address is unknown. */
  lemma Put32Refused(m: Mem, value: Parsed, adress: word)
    requires MemOk(m)
    ensures var a, next := RegAdresses(m.regs), (adress + 1) % 0x1_0000;
            Put32(m, value, adress).1 == -1 <==>
            || value.NotANumber?
            || (IsUser(adress) && forall i :: 0 <= i < |m.userRegs| - 1 ==> m.userRegs[i].adress != adress)
            || (!IsUser(adress) && (adress == 0 || (forall i: nat :: IsPlace(a, adress, i) ==> i == MAXREG - 1) || forall i: nat :: !IsPlace(a, next, i)))
    ensures Put32(m, value, adress).1 == -1 ==> Put32(m, value, adress).0 == m
  {
    if IsUser(adress) {
      UserFound(m.userRegs, adress);
      forall i | 0 <= i < |m.userRegs| && m.userRegs[i].adress == adress ensures Find(UserAdresses(m.userRegs), adress) == i {
        UserPlace(m.userRegs, i);
      }
    } else {
      PlaceIs(RegAdresses(m.regs), adress);
      PlaceIs(RegAdresses(m.regs), (adress + 1) % 0x1_0000);
    }
    hide MemOk, IsPlace, StartIndex, Find, RegAdresses, UserAdresses, HighWord, LowWord;
  }
}
