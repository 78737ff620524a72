/** The server's loop over a received message (server.c, lines 243-289). What it does to whole frames is in ServerProofs.dfy. */
module Server {
  import opened Bytes
  import opened Table
  import opened Mttp
  import opened MttpProofs
  import opened Replication
  import Memory

  const MAXDECODINGLOOPS: nat := 100

  function CommandOf(slot: Slot): Command { Command(slot.kind, slot.adress, slot.payload) }

  /** The commands in the used slots from slot 0 on. */
  function Held(slots: seq<Slot>): (cs: seq<Command>)
    ensures |cs| == FirstFree(slots) && forall i :: 0 <= i < |cs| ==> cs[i] == CommandOf(slots[i])
  {
    seq(FirstFree(slots), i requires 0 <= i < FirstFree(slots) => CommandOf(slots[i]))
  }

  ghost predicate Short(cs: seq<Command>) { forall i :: 0 <= i < |cs| ==> |cs[i].payload| <= COMMAND_SIZE }

  /** Where the loop is before a turn: decoder, table, and the variable processed. */
  datatype State = State(slots: seq<Slot>, table: Mem, place: nat)

  /**
   One turn: what lies from the place on is decoded, all that is then held is saved, and the returned number is the
   next place. The source demands payloads that fit the command buffer and start addresses that are in
   the table.
   */
  ghost predicate TurnFrom(m: seq<byte>, past: byte, a: State, b: State) {
    && |a.slots| == MAX_COMMANDS && MemOk(a.table) && a.place < |m|
    && var (t, n) := Decode(a.slots, m[a.place..], past);
       Short(Held(t)) && Saveable(a.table, Held(t)) && b == State(Drained(t), SavedAll(a.table, Held(t)), n)
  }

  ghost predicate TurnAt(m: seq<byte>, past: byte, c: seq<State>, k: nat)
    requires k + 1 < |c|
  {
    TurnFrom(m, past, c[k], c[k + 1])
  }

  /** States of the loop, turn after turn. */
  ghost predicate Course(m: seq<byte>, past: byte, c: seq<State>) { |c| > 0 && forall k :: 0 <= k < |c| - 1 ==> TurnAt(m, past, c, k) }

  /** The loop ends: behind the message, or after its last turn. */
  predicate Over(m: seq<byte>, c: seq<State>) {
    0 < |c| <= MAXDECODINGLOOPS + 1 && (c[|c| - 1].place >= |m| || |c| == MAXDECODINGLOOPS + 1)
  }

  class Server {
    const memory: Memory.Memory
    const decoder: Mttp

    ghost predicate Valid()
      reads memory, memory.Register, memory.Coil, memory.DiscreteInput, decoder, decoder.decoded_commands
    {
      memory.Valid() && decoder.Valid()
    }

    constructor (memory: Memory.Memory)
      requires memory.Valid()
      ensures Valid() && this.memory == memory && fresh(decoder) && fresh(decoder.decoded_commands) && AllFree(decoder.decoded_commands[..])
    {
      this.memory := memory;
      decoder := new Mttp(E_NONE);
    }

    /** Lines 243-289, for every receive buffer the source can take. past is the byte behind the buffer. */
    method Action(recvbuffer: seq<byte>, past: byte, ghost c: seq<State>)
      requires Valid() && Course(recvbuffer, past, c) && Over(recvbuffer, c)
      requires c[0] == State(decoder.decoded_commands[..], memory.View(), 0)
      modifies memory, memory.Register, memory.Coil, memory.DiscreteInput, decoder.decoded_commands
      ensures Valid() && decoder.decoded_commands[..] == c[|c| - 1].slots && memory.View() == c[|c| - 1].table
    {
      hide Memory.Memory.Valid, Decode, TurnFrom, SavedAll, Saveable, Short, Held, Drained;
      var received, processed, n := |recvbuffer|, 0, 0;
      while n < MAXDECODINGLOOPS
        invariant 0 <= n <= MAXDECODINGLOOPS && n < |c| && 0 <= processed && Valid()
        invariant State(decoder.decoded_commands[..], memory.View(), processed) == c[n]
      {
        if n + 1 < |c| {
          assert TurnAt(recvbuffer, past, c, n);
          TurnFacts(recvbuffer, past, c[n], c[n + 1]);
        }
        if processed < received {
          processed := decoder.AddMessage(recvbuffer[processed..], past);
          Drain();
        } else {
          break;
        }
        n := n + 1;
      }
    }

    /** The inner loop, lines 258-280: takes the commands out and saves them until it meets a free slot. */
    method Drain()
      requires Valid() && Short(Held(decoder.decoded_commands[..])) && Saveable(memory.View(), Held(decoder.decoded_commands[..]))
      modifies memory, memory.Register, memory.Coil, memory.DiscreteInput, decoder.decoded_commands
      ensures Valid()
      ensures memory.View() == SavedAll(old(memory.View()), Held(old(decoder.decoded_commands[..])))
      ensures decoder.decoded_commands[..] == Drained(old(decoder.decoded_commands[..]))
    {
      ghost var s, slots := memory.View(), decoder.decoded_commands[..];
      NothingTaken(s, slots);
      hide Memory.Memory.Valid, TakenTo, SavedTo, Held, Short, Saveable, SavedAll, Drained, FirstFree;
      var m := 0;
      while m < MAX_COMMANDS
        invariant 0 <= m <= MAX_COMMANDS && Valid()
        invariant SavedTo(s, slots, m, memory.View()) && TakenTo(slots, m, decoder.decoded_commands[..])
      {
        NextTaken(s, slots, m, memory.View(), decoder.decoded_commands[..]);
        var more := SaveOne(m);
        if !more {
          break;
        }
        m := m + 1;
      }
      AllTaken(s, slots, m, memory.View(), decoder.decoded_commands[..]);
    }

    /** The body of the loop; more is false at its break. */
    method SaveOne(m: nat) returns (more: bool)
      requires Valid() && m < MAX_COMMANDS
      requires decoder.decoded_commands[m].exist ==>
        |decoder.decoded_commands[m].payload| <= COMMAND_SIZE && CanSave(memory.View(), CommandOf(decoder.decoded_commands[m]))
      modifies memory, memory.Register, memory.Coil, memory.DiscreteInput, decoder.decoded_commands
      ensures Valid() && more == old(decoder.decoded_commands[m].exist)
      ensures more ==> old(CanSave(memory.View(), CommandOf(decoder.decoded_commands[m])))
      ensures more ==> memory.View() == SavedOne(old(memory.View()), CommandOf(old(decoder.decoded_commands[m])))
      ensures more ==> decoder.decoded_commands[..] == old(decoder.decoded_commands[..])[m := Freed(old(decoder.decoded_commands[m]))]
      ensures !more ==> memory.View() == old(memory.View()) && decoder.decoded_commands[..] == old(decoder.decoded_commands[..])
    {
      hide Memory.Memory.Valid, Saved, SaveAllowed;
      var command := new byte[COMMAND_SIZE](i => 0);
      var commandret, memtype, startadress := decoder.GetCommand(command, COMMAND_SIZE, m);
      if commandret < 0 {
        return false;
      }
      if commandret > 0 {
        var saveret := memory.Save(memtype, startadress, commandret, command[..]);
      }
      return true;
    }
  }

  // ----- the inner loop -----

  /** Before slot m: the table r has the commands of the slots below m. */
  ghost predicate SavedTo(s: Mem, slots: seq<Slot>, m: nat, r: Mem) {
    var cs := Held(slots);
    && |slots| == MAX_COMMANDS && m <= |cs| && Short(cs) && MemOk(s) && Saveable(s, cs) && Saveable(s, cs[..m]) && r == SavedAll(s, cs[..m])
  }

  /** Before slot m: the slots below m are freed. */
  ghost predicate TakenTo(slots: seq<Slot>, m: nat, now: seq<Slot>) {
    |now| == |slots| && forall i :: 0 <= i < |slots| ==> now[i] == if i < m then Freed(slots[i]) else slots[i]
  }

  lemma NothingTaken(s: Mem, slots: seq<Slot>)
    requires |slots| == MAX_COMMANDS && MemOk(s) && Short(Held(slots)) && Saveable(s, Held(slots))
    ensures SavedTo(s, slots, 0, s) && TakenTo(slots, 0, slots)
  {
    hide MemOk, SaveAllowed;
  }

  lemma NextTaken(s: Mem, slots: seq<Slot>, m: nat, r: Mem, now: seq<Slot>)
    requires SavedTo(s, slots, m, r) && TakenTo(slots, m, now) && m < MAX_COMMANDS
    ensures |now| == MAX_COMMANDS && now[m] == slots[m] && (now[m].exist <==> m < FirstFree(slots))
    ensures now[m].exist ==>
      && |now[m].payload| <= COMMAND_SIZE && CanSave(r, CommandOf(now[m]))
      && SavedTo(s, slots, m + 1, SavedOne(r, CommandOf(now[m]))) && TakenTo(slots, m + 1, now[m := Freed(now[m])])
  {
    var cs := Held(slots);
    if m < |cs| {
      hide MemOk, CanSave, SavedOne, SameConfig;
      SaveableStays(s, r, cs);
      CutTwice(cs, m);
    }
  }

  lemma CutTwice(cs: seq<Command>, m: nat)
    requires m < |cs|
    ensures cs[..m + 1][..m] == cs[..m]
  {}

  lemma AllTaken(s: Mem, slots: seq<Slot>, m: nat, r: Mem, now: seq<Slot>)
    requires SavedTo(s, slots, m, r) && TakenTo(slots, m, now)
    requires m < MAX_COMMANDS ==> !slots[m].exist
    ensures r == SavedAll(s, Held(slots)) && now == Drained(slots)
  {
    hide MemOk, CanSave;
    assert m == FirstFree(slots);
    assert Held(slots)[..m] == Held(slots);
  }

  // ----- the outer loop -----

  lemma TurnFacts(m: seq<byte>, past: byte, a: State, b: State)
    requires TurnFrom(m, past, a, b)
    ensures |a.slots| == MAX_COMMANDS && MemOk(a.table) && a.place < |m|
    ensures var (t, n) := Decode(a.slots, m[a.place..], past);
            Short(Held(t)) && Saveable(a.table, Held(t)) && b == State(Drained(t), SavedAll(a.table, Held(t)), n)
  {
    hide Decode, Held, Drained, SavedAll, Saveable, Short, MemOk;
  }

  lemma OneNext(m: seq<byte>, past: byte, a: State, b: State, b': State)
    requires TurnFrom(m, past, a, b) && TurnFrom(m, past, a, b')
    ensures b == b'
  {
    hide Decode, Held, Drained, SavedAll, Saveable, Short, MemOk;
  }

  /** The loop has one course only. */
  lemma OneCourse(m: seq<byte>, past: byte, c: seq<State>, d: seq<State>)
    requires Course(m, past, c) && Over(m, c) && Course(m, past, d) && Over(m, d) && c[0] == d[0]
    ensures c == d
  {
    hide TurnFrom;
    var n := if |c| <= |d| then |c| else |d|;
    SameStates(m, past, c, d, n);
    if |c| < |d| { NotOver(m, past, d, |c| - 1); }
    if |d| < |c| { NotOver(m, past, c, |d| - 1); }
  }

  lemma {:induction false} SameStates(m: seq<byte>, past: byte, c: seq<State>, d: seq<State>, n: nat)
    requires Course(m, past, c) && Course(m, past, d) && c[0] == d[0] && 0 < n <= |c| && n <= |d|
    ensures forall k :: 0 <= k < n ==> c[k] == d[k]
  {
    hide TurnFrom;
    if n > 1 {
      SameStates(m, past, c, d, n - 1);
      assert TurnAt(m, past, c, n - 2) && TurnAt(m, past, d, n - 2);
      OneNext(m, past, c[n - 2], c[n - 1], d[n - 1]);
    }
  }

  lemma NotOver(m: seq<byte>, past: byte, c: seq<State>, k: nat)
    requires Course(m, past, c) && k + 1 < |c|
    ensures c[k].place < |m|
  {
    assert TurnAt(m, past, c, k);
    hide Decode, Held, Drained, SavedAll, Saveable, Short, MemOk;
  }
}
