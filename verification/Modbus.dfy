/**
 Modbus RTU over a serial line (modbus.c): sending a frame with its check value, and the machine
 that cuts the incoming bytes into frames by the silences between them.
 */
module Modbus {
  import opened Crc
  import CrcBits
  import CrcTwoFlips

  const MODBUS_RTU_MAX_ADU_LENGTH: nat := 256

  // In microseconds. The overrides of modbus.h replace the values computed from the speed.
  const T1_5: nat := 3000
  const T3_5: nat := 6000
  const IDLE_WAIT: nat := 5_000_000

  datatype State = Initial | Waiting | Processing | Idle

  /** A byte, and how long after the one before it (or after now) it comes in. */
  datatype Arrival = Arrival(gap: nat, b: bv8)

  // ----- which burst of a trace is judged -----

  /** The first byte after i that does not follow its predecessor within T1.5, or the end of the trace. */
  function RunEnd(ev: seq<Arrival>, i: nat): (e: nat)
    requires i < |ev|
    ensures i < e <= |ev|
    ensures e < |ev| ==> ev[e].gap > T1_5
    ensures forall k :: i < k < e ==> ev[k].gap <= T1_5
    decreases |ev| - i
  {
    if i + 1 == |ev| || ev[i + 1].gap > T1_5 then i + 1 else RunEnd(ev, i + 1)
  }

  /** A frame may begin at i: T3.5 of silence before it, not needed at the front when the call starts idle. */
  predicate Starts(ev: seq<Arrival>, fromIdle: bool, i: nat) {
    i < |ev| && ((fromIdle && i == 0) || ev[i].gap >= T3_5)
  }

  /** The first byte comes so late that the idle state gives up. */
  predicate Late(ev: seq<Arrival>, fromIdle: bool, i: nat)
    requires Starts(ev, fromIdle, i)
  {
    (if fromIdle && i == 0 then ev[i].gap else ev[i].gap - T3_5) >= IDLE_WAIT
  }

  /** The burst from i is followed by T3.5 of silence and is shorter than the read buffer. */
  predicate Whole(ev: seq<Arrival>, i: nat)
    requires i < |ev|
  {
    var e := RunEnd(ev, i);
    e - i < MODBUS_RTU_MAX_ADU_LENGTH && (e < |ev| ==> ev[e].gap >= T3_5)
  }

  /** The burst from i is cut by a silence between T1.5 and T3.5 before the read buffer is full. */
  predicate Broken(ev: seq<Arrival>, i: nat)
    requires i < |ev|
  {
    var e := RunEnd(ev, i);
    e - i < MODBUS_RTU_MAX_ADU_LENGTH && e < |ev| && ev[e].gap < T3_5
  }

  /** The burst a call of Receive judges: whole and in time, and every possible start before it was broken off. */
  ghost predicate Judged(ev: seq<Arrival>, fromIdle: bool, i: nat) {
    && Starts(ev, fromIdle, i) && !Late(ev, fromIdle, i) && Whole(ev, i)
    && PassedOver(ev, fromIdle, i)
  }

  ghost predicate PassedOver(ev: seq<Arrival>, fromIdle: bool, i: nat) {
    forall j: nat :: j < i && Starts(ev, fromIdle, j) ==> !Late(ev, fromIdle, j) && Broken(ev, j)
  }

  function BytesOf(ev: seq<Arrival>): (f: seq<bv8>)
    ensures |f| == |ev|
  {
    seq(|ev|, i requires 0 <= i < |ev| => ev[i].b)
  }

  function BurstAt(ev: seq<Arrival>, i: nat): seq<bv8>
    requires i < |ev|
  {
    BytesOf(ev[i..RunEnd(ev, i)])
  }

  /** The trace from position e on, after the T3.5 of silence that ended a frame. */
  function Rest(ev: seq<Arrival>, e: nat): seq<Arrival>
    requires e <= |ev| && (e < |ev| ==> ev[e].gap >= T3_5)
  {
    if e == |ev| then [] else [Arrival(ev[e].gap - T3_5, ev[e].b)] + ev[e + 1..]
  }

  predicate Acceptable(f: seq<bv8>, slave: bv8) {
    |f| > 3 && f[0] == slave && CrcOk(f)
  }

  /** At most one burst of a trace is judged. */
  lemma JudgedOnce(ev: seq<Arrival>, fromIdle: bool, i: nat, j: nat)
    requires Judged(ev, fromIdle, i) && Judged(ev, fromIdle, j)
    ensures i == j
  {}

  lemma RunEndIs(ev: seq<Arrival>, i: nat, e: nat)
    requires i < e <= |ev| && (e < |ev| ==> ev[e].gap > T1_5)
    requires forall k :: i < k < e ==> ev[k].gap <= T1_5
    ensures RunEnd(ev, i) == e
  {}

  lemma RunEndAtLeast(ev: seq<Arrival>, i: nat, e: nat)
    requires i < e <= |ev| && forall k :: i < k < e ==> ev[k].gap <= T1_5
    ensures RunEnd(ev, i) >= e
  {}

  /** What comes in after a time without a byte, and at the moment the next byte is there. */
  function Waited(line: seq<Arrival>, time: nat): (r: seq<Arrival>)
    requires |line| == 0 || line[0].gap >= time
    ensures |r| == |line|
  {
    if |line| == 0 then [] else [Arrival(line[0].gap - time, line[0].b)] + line[1..]
  }

  function Arrived(line: seq<Arrival>): (r: seq<Arrival>)
    requires |line| > 0
    ensures |r| == |line| && r[0].b == line[0].b && r[1..] == line[1..]
  {
    [Arrival(0, line[0].b)] + line[1..]
  }

  /** A message with its check value behind it, high byte first. */
  function Framed(m: seq<bv8>): seq<bv8> {
    m + [(Crc16Of(m) >> 8) as bv8, (Crc16Of(m) & 0xFF) as bv8]
  }

  /** A call of Receive on this trace hands over the frame f. */
  ghost predicate Received(ev: seq<Arrival>, fromIdle: bool, slave: bv8, f: seq<bv8>) {
    exists i: nat :: Judged(ev, fromIdle, i) && BurstAt(ev, i) == f && Acceptable(f, slave)
  }

  ghost predicate NoFrame(ev: seq<Arrival>, fromIdle: bool, slave: bv8) {
    forall f :: !Received(ev, fromIdle, slave, f)
  }

  lemma JudgedAlone(ev: seq<Arrival>, fromIdle: bool, i: nat, slave: bv8)
    requires Judged(ev, fromIdle, i)
    ensures forall j: nat :: Judged(ev, fromIdle, j) ==> j == i
    ensures Acceptable(BurstAt(ev, i), slave) ==> Received(ev, fromIdle, slave, BurstAt(ev, i))
    ensures !Acceptable(BurstAt(ev, i), slave) ==> NoFrame(ev, fromIdle, slave)
  {
    hide BurstAt, Acceptable;
    forall j: nat | Judged(ev, fromIdle, j) ensures j == i { JudgedOnce(ev, fromIdle, i, j); }
  }

  lemma NoneJudged(ev: seq<Arrival>, fromIdle: bool, slave: bv8)
    requires forall j: nat :: !Judged(ev, fromIdle, j)
    ensures NoFrame(ev, fromIdle, slave)
  {
    hide Judged, BurstAt, Acceptable;
  }

  // ----- the class -----

  class Modbus {
    var Mb_state: State
    var Mb_slave: bv8
    /** What comes in: the bytes not yet read, the first gap counted from now. */
    var line: seq<Arrival>
    /** What went out. */
    var sent: seq<bv8>

    /** select() with a limit: the time waited until a byte is there, or -2. */
    method Timeout(limit: nat) returns (rc: int)
      modifies this`line
      ensures if |old(line)| == 0 || old(line)[0].gap >= limit then rc == -2 && line == Waited(old(line), limit)
              else rc == old(line)[0].gap && line == Arrived(old(line))
    {
      if |line| == 0 {
        return -2;
      }
      if line[0].gap >= limit {
        line := Waited(line, limit);
        return -2;
      }
      rc := line[0].gap;
      line := Arrived(line);
    }

    /** read() of one byte that is there. */
    method Read() returns (b: bv8)
      requires |line| > 0
      modifies this`line
      ensures b == old(line)[0].b && line == old(line)[1..]
    {
      b := line[0].b;
      line := line[1..];
    }

    /** The loop of Receive, lines 453-564: collects the burst that is judged, or gives up. */
    method ReadBurst(input_state: State) returns (complete: bool, read_buffer: seq<bv8>, ghost i: nat)
      requires input_state.Initial? || input_state.Idle?
      modifies this`line, this`Mb_state
      ensures complete ==> Judged(old(line), input_state.Idle?, i) && read_buffer == BurstAt(old(line), i)
      ensures complete ==> line == Rest(old(line), RunEnd(old(line), i))
      ensures !complete ==> forall j: nat :: !Judged(old(line), input_state.Idle?, j)
    {
      hide Judged, BurstAt, RunEnd, Rest, Waited, AtInitial, AtIdle, AtProcessing;
      ghost var ev, fromIdle := line, input_state.Idle?;
      ghost var p := 0; // bytes read so far; the burst being read begins at i
      i := 0;
      read_buffer := [];
      Mb_state := input_state;
      complete := false;
      AtTheFront(ev, fromIdle);
      while true
        invariant Mb_state == Initial || Mb_state == Idle || Mb_state == Processing
        invariant Mb_state != Processing ==> read_buffer == []
        invariant Mb_state == Initial ==> AtInitial(line, ev, fromIdle, p)
        invariant Mb_state == Idle ==> AtIdle(line, ev, fromIdle, p)
        invariant Mb_state == Processing ==> AtProcessing(line, ev, fromIdle, i, p, read_buffer)
        decreases |line|, if Mb_state == Processing then 2 else if Mb_state == Initial then 1 else 0
      {
        if |read_buffer| == MODBUS_RTU_MAX_ADU_LENGTH {
          BufferFull(line, ev, fromIdle, i, p, read_buffer);
          break;
        }
        ghost var before := line;
        if Mb_state == Initial {
          var rc := Timeout(T3_5);
          if rc == -2 {
            Mb_state := Idle;
            SilenceFound(before, ev, fromIdle, p);
          } else {
            var discardbyte := Read();
            Discarded(before, ev, fromIdle, p);
            p := p + 1;
          }
        } else if Mb_state == Idle {
          var rc := Timeout(IDLE_WAIT);
          if rc == -2 {
            NothingIn(before, ev, fromIdle, p);
            return;
          }
          var b := Read();
          read_buffer := read_buffer + [b];
          assert read_buffer == [b];
          Mb_state := Processing;
          FirstByte(before, ev, fromIdle, p);
          i, p := p, p + 1;
        } else {
          var rc := Timeout(T3_5);
          if rc == -2 {
            Mb_state := Idle;
            complete := true;
            BurstEnds(before, ev, fromIdle, i, p, read_buffer);
            break;
          } else if rc > T1_5 {
            BurstBreaks(before, ev, fromIdle, i, p, read_buffer);
            read_buffer := [];
            Mb_state := Initial;
          } else {
            NextByte(before, ev, fromIdle, i, p, read_buffer);
            var b := Read();
            read_buffer := read_buffer + [b];
            p := p + 1;
          }
        }
      }
    }

    /**
     modbus.c, lines 446-597. The burst that Judged describes is handed over unchanged when it is
     acceptable, and in every other case the result is 0 and no frame was there to be received.
     */
    method Receive(input_state: State) returns (result: int, buffer: seq<bv8>)
      requires input_state.Initial? || input_state.Idle?
      modifies this`line, this`Mb_state
      ensures result > 0 ==> Received(old(line), input_state.Idle?, Mb_slave, buffer) && result == |buffer|
      ensures result <= 0 ==> result == 0 && buffer == [] && NoFrame(old(line), input_state.Idle?, Mb_slave)
      ensures forall i: nat :: Judged(old(line), input_state.Idle?, i) ==> line == Rest(old(line), RunEnd(old(line), i))
    {
      hide Judged, BurstAt, RunEnd, Rest, Acceptable, Received;
      ghost var ev := line;
      var complete, read_buffer, i := ReadBurst(input_state);
      result, buffer := 0, [];
      if complete {
        JudgedAlone(ev, input_state.Idle?, i, Mb_slave);
        result, buffer := Check(read_buffer);
      } else {
        NoneJudged(ev, input_state.Idle?, Mb_slave);
      }
    }

    /** A loop of write() calls, each of which takes at least one byte. */
    method Write(send_buffer: seq<bv8>)
      modifies this`sent
      ensures sent == old(sent) + send_buffer
    {
      var send := 0;
      while send < |send_buffer|
        invariant 0 <= send <= |send_buffer|
        invariant sent == old(sent) + send_buffer[..send]
      {
        var rc :| 0 < rc <= |send_buffer| - send;
        assert send_buffer[..send] + send_buffer[send..send + rc] == send_buffer[..send + rc];
        sent := sent + send_buffer[send..send + rc];
        send := send + rc;
      }
    }

    /** modbus.c, lines 388-439: one frame out, then the answer is received from the idle state. */
    method SendRequest(req: seq<bv8>) returns (result: int, resp: seq<bv8>)
      modifies this`line, this`Mb_state, this`sent
      ensures !(1 <= |req| <= MODBUS_RTU_MAX_ADU_LENGTH - 2) ==> result == 0 && resp == [] && sent == old(sent) && line == old(line)
      ensures 1 <= |req| <= MODBUS_RTU_MAX_ADU_LENGTH - 2 ==> sent == old(sent) + Framed(req)
      ensures 1 <= |req| <= MODBUS_RTU_MAX_ADU_LENGTH - 2 ==>
        if result > 0 then Received(old(line), true, Mb_slave, resp) && result == |resp|
        else result == 0 && resp == [] && NoFrame(old(line), true, Mb_slave)
    {
      hide Framed, Received, Rest;
      if |req| > MODBUS_RTU_MAX_ADU_LENGTH - 2 || |req| < 1 {
        return 0, [];
      }
      SendFramed(req);
      result, resp := Receive(Idle);
    }

    /** modbus.c, lines 599-640. */
    method SendConfirmation(conf: seq<bv8>) returns (send: int)
      modifies this`sent
      ensures |conf| > MODBUS_RTU_MAX_ADU_LENGTH - 2 ==> send == 0 && sent == old(sent)
      ensures |conf| <= MODBUS_RTU_MAX_ADU_LENGTH - 2 ==> send == |conf| + 2 && sent == old(sent) + Framed(conf)
    {
      if |conf| > MODBUS_RTU_MAX_ADU_LENGTH - 2 {
        return 0;
      }
      SendFramed(conf);
      return |conf| + 2;
    }

    /** What both senders do with the check value, lines 406-410 and 610-614. */
    method SendFramed(m: seq<bv8>)
      modifies this`sent
      ensures sent == old(sent) + Framed(m)
    {
      hide Crc16Of;
      var crc := Crc16(m);
      Write(m + [(crc >> 8) as bv8, (crc & 0xFF) as bv8]);
    }

    /** The end of Receive, lines 567-594. */
    method Check(read_buffer: seq<bv8>) returns (result: int, buffer: seq<bv8>)
      ensures if Acceptable(read_buffer, Mb_slave) then buffer == read_buffer && result == |buffer| > 3 else buffer == [] && result == 0
    {
      hide Crc16Of, JoinBytes;
      result, buffer := 0, [];
      var n := |read_buffer|;
      if n > 3 && read_buffer[0] == Mb_slave {
        var crc := Crc16(read_buffer[..n - 2]);
        var crc_received := JoinBytes(read_buffer[n - 2], read_buffer[n - 1]);
        if crc_received == crc {
          result, buffer := n, read_buffer;
        }
      }
    }
  }

  // ----- the turns of the loop -----

  /** Looking for silence, p bytes of the trace behind; part of the gap before the next byte may be over. */
  ghost predicate AtInitial(line: seq<Arrival>, ev: seq<Arrival>, fromIdle: bool, p: nat) {
    && p <= |ev| && |line| == |ev| - p && PassedOver(ev, fromIdle, p) && (p == 0 ==> !fromIdle)
    && (p < |ev| ==> line[0].b == ev[p].b && line[1..] == ev[p + 1..])
    && (p < |ev| ==> line[0].gap == ev[p].gap || (line[0].gap < T3_5 && ev[p].gap < T3_5))
  }

  /** Waiting for a first byte. */
  ghost predicate AtIdle(line: seq<Arrival>, ev: seq<Arrival>, fromIdle: bool, p: nat) {
    && p <= |ev| && |line| == |ev| - p && PassedOver(ev, fromIdle, p)
    && (p < |ev| ==> line[0].b == ev[p].b && line[1..] == ev[p + 1..] && Starts(ev, fromIdle, p))
    && (p < |ev| ==> line[0].gap == if fromIdle && p == 0 then ev[p].gap else ev[p].gap - T3_5)
  }

  /** Reading a burst that begins at i. */
  ghost predicate AtProcessing(line: seq<Arrival>, ev: seq<Arrival>, fromIdle: bool, i: nat, p: nat, read: seq<bv8>) {
    && i < p <= |ev| && line == ev[p..] && p - i <= MODBUS_RTU_MAX_ADU_LENGTH
    && PassedOver(ev, fromIdle, i) && Starts(ev, fromIdle, i) && !Late(ev, fromIdle, i)
    && read == BytesOf(ev[i..p])
    && forall k :: i < k < p ==> ev[k].gap <= T1_5
  }

  lemma AtTheFront(ev: seq<Arrival>, fromIdle: bool)
    ensures if fromIdle then AtIdle(ev, ev, fromIdle, 0) else AtInitial(ev, ev, fromIdle, 0)
  {}

  lemma SilenceFound(line: seq<Arrival>, ev: seq<Arrival>, fromIdle: bool, p: nat)
    requires AtInitial(line, ev, fromIdle, p) && (|line| > 0 ==> line[0].gap >= T3_5)
    ensures AtIdle(Waited(line, T3_5), ev, fromIdle, p)
  {}

  lemma Discarded(line: seq<Arrival>, ev: seq<Arrival>, fromIdle: bool, p: nat)
    requires AtInitial(line, ev, fromIdle, p) && |line| > 0 && line[0].gap < T3_5
    ensures AtInitial(line[1..], ev, fromIdle, p + 1)
  {
    assert !Starts(ev, fromIdle, p);
  }

  lemma FirstByte(line: seq<Arrival>, ev: seq<Arrival>, fromIdle: bool, p: nat)
    requires AtIdle(line, ev, fromIdle, p) && |line| > 0 && line[0].gap < IDLE_WAIT
    ensures AtProcessing(line[1..], ev, fromIdle, p, p + 1, [line[0].b])
  {
    assert BytesOf(ev[p..p + 1]) == [ev[p].b];
  }

  lemma NextByte(line: seq<Arrival>, ev: seq<Arrival>, fromIdle: bool, i: nat, p: nat, read: seq<bv8>)
    requires AtProcessing(line, ev, fromIdle, i, p, read) && |line| > 0 && line[0].gap <= T1_5
    requires |read| != MODBUS_RTU_MAX_ADU_LENGTH
    ensures AtProcessing(line[1..], ev, fromIdle, i, p + 1, read + [line[0].b])
  {
    assert BytesOf(ev[i..p + 1]) == BytesOf(ev[i..p]) + [ev[p].b];
  }

  lemma BurstEnds(line: seq<Arrival>, ev: seq<Arrival>, fromIdle: bool, i: nat, p: nat, read: seq<bv8>)
    requires AtProcessing(line, ev, fromIdle, i, p, read) && (|line| > 0 ==> line[0].gap >= T3_5)
    requires |read| != MODBUS_RTU_MAX_ADU_LENGTH
    ensures Judged(ev, fromIdle, i) && read == BurstAt(ev, i) && Waited(line, T3_5) == Rest(ev, RunEnd(ev, i))
  {
    RunEndIs(ev, i, p);
  }

  lemma BurstBreaks(line: seq<Arrival>, ev: seq<Arrival>, fromIdle: bool, i: nat, p: nat, read: seq<bv8>)
    requires AtProcessing(line, ev, fromIdle, i, p, read) && |line| > 0 && T1_5 < line[0].gap < T3_5
    requires |read| != MODBUS_RTU_MAX_ADU_LENGTH
    ensures AtInitial(Arrived(line), ev, fromIdle, p)
  {
    RunEndIs(ev, i, p);
    assert Broken(ev, i);
    assert forall k: nat :: i < k < p ==> !Starts(ev, fromIdle, k);
    hide RunEnd, Broken;
    assert PassedOver(ev, fromIdle, p);
  }

  lemma BufferFull(line: seq<Arrival>, ev: seq<Arrival>, fromIdle: bool, i: nat, p: nat, read: seq<bv8>)
    requires AtProcessing(line, ev, fromIdle, i, p, read) && |read| == MODBUS_RTU_MAX_ADU_LENGTH
    ensures forall j: nat :: !Judged(ev, fromIdle, j)
  {
    RunEndAtLeast(ev, i, p);
  }

  lemma NothingIn(line: seq<Arrival>, ev: seq<Arrival>, fromIdle: bool, p: nat)
    requires AtIdle(line, ev, fromIdle, p) && (|line| > 0 ==> line[0].gap >= IDLE_WAIT)
    ensures forall j: nat :: !Judged(ev, fromIdle, j)
  {}

  // ----- what the two ends do together -----

  lemma HalvesJoin(crc: bv16)
    ensures JoinBytes((crc >> 8) as bv8, (crc & 0xFF) as bv8) == crc
  {}

  lemma FramedIsOk(m: seq<bv8>)
    ensures CrcOk(Framed(m)) && Framed(m)[..|m|] == m
  {
    hide Crc16Of, JoinBytes;
    HalvesJoin(Crc16Of(m));
    assert Framed(m)[..|Framed(m)| - 2] == m;
  }

  /**
   A frame one end sends, arriving with pauses of at most T1.5 inside and T3.5 of silence after it,
   is received by the other end exactly when it carries the other end's id and its message is 2 to
   253 bytes long: one byte shorter than the senders allow.
   */
  lemma SentIsReceived(m: seq<bv8>, ev: seq<Arrival>, fromIdle: bool, slave: bv8)
    requires 1 <= |m| <= MODBUS_RTU_MAX_ADU_LENGTH - 2 && |m| + 2 <= |ev|
    requires BytesOf(ev[..|m| + 2]) == Framed(m)
    requires Starts(ev, fromIdle, 0) && !Late(ev, fromIdle, 0)
    requires forall k :: 0 < k < |m| + 2 ==> ev[k].gap <= T1_5
    requires |m| + 2 < |ev| ==> ev[|m| + 2].gap >= T3_5
    ensures Received(ev, fromIdle, slave, Framed(m)) <==> 2 <= |m| <= 253 && m[0] == slave
  {
    hide Framed, CrcOk;
    FramedIsOk(m);
    var n := |m| + 2;
    RunEndIs(ev, 0, n);
    assert ev[0..n] == ev[..n];
    if n < MODBUS_RTU_MAX_ADU_LENGTH {
      assert Judged(ev, fromIdle, 0) && BurstAt(ev, 0) == Framed(m);
      assert Framed(m)[0] == m[0] && |Framed(m)| == n by { assert |BytesOf(ev[..n])| == n; assert Framed(m)[..|m|][0] == m[0]; }
    } else {
      BufferFull(ev[n..], ev, fromIdle, 0, n, BytesOf(ev[0..n]));
    }
  }

  /** No accepted frame turns into another accepted one by a burst of up to sixteen bits. */
  lemma BurstNotAccepted(f: seq<bv8>, g: seq<bv8>, p: nat, slave: bv8)
    requires Acceptable(f, slave) && |g| == |f| && f != g && Burst16(f, g, p)
    ensures forall ev, fromIdle :: !Received(ev, fromIdle, slave, g)
  {
    hide CrcOk, Burst16;
    BurstDetected(f, g, p);
  }

  /** Nor by one, two or three flipped bits, wherever they are. */
  lemma FewFlipsNotAccepted(f: seq<bv8>, g: seq<bv8>, slave: bv8)
    requires Acceptable(f, slave) && |g| == |f| && f != g && CrcBits.CountOnLine(Difference(f, g), 8 * |f|) <= 3
    ensures forall ev, fromIdle :: !Received(ev, fromIdle, slave, g)
  {
    hide CrcOk, CrcBits.CountOnLine;
    if |g| <= 255 && CrcOk(g) { CrcTwoFlips.FourBitsApart(f, g); }
  }

  /** Nor by any odd number of them. */
  lemma OddFlipsNotAccepted(f: seq<bv8>, g: seq<bv8>, slave: bv8)
    requires Acceptable(f, slave) && |g| == |f| && CrcBits.CountOnLine(Difference(f, g), 8 * |f|) % 2 == 1
    ensures forall ev, fromIdle :: !Received(ev, fromIdle, slave, g)
  {
    hide CrcOk, CrcBits.CountOnLine;
    CrcBits.OddFlipsDetected(f, g);
  }

  // ----- one call after the other -----

  /**
   A call that has judged a burst ends T3.5 after it, and the next one waits for T3.5 of silence of its own. So the
   burst behind is judged by the next call if and only if twice T3.5 lies between the two.
   */
  lemma NextJudged(ev: seq<Arrival>, fromIdle: bool, i: nat)
    requires Judged(ev, fromIdle, i) && RunEnd(ev, i) < |ev|
    ensures var e := RunEnd(ev, i);
            Judged(Rest(ev, e), false, 0) <==> 2 * T3_5 <= ev[e].gap < 2 * T3_5 + IDLE_WAIT && Whole(Rest(ev, e), 0)
  {}

  /** Bursts one after the other. */
  function Trace(bs: seq<seq<Arrival>>): seq<Arrival> { if |bs| == 0 then [] else bs[0] + Trace(bs[1..]) }

  /** Bursts the read buffer can take, with pauses of at most T1.5 inside and of more between them. */
  ghost predicate Bursts(bs: seq<seq<Arrival>>) {
    && (forall j :: 0 <= j < |bs| ==> 0 < |bs[j]| < MODBUS_RTU_MAX_ADU_LENGTH && forall k :: 0 < k < |bs[j]| ==> bs[j][k].gap <= T1_5)
    && forall j :: 0 < j < |bs| ==> bs[j][0].gap > T1_5
  }

  /** So many calls of Receive from the initial state judge exactly these bursts, each the first there is. */
  ghost predicate JudgedInTurn(ev: seq<Arrival>, bs: seq<seq<Arrival>>)
    decreases |bs|
  {
    |bs| > 0 ==>
      && Judged(ev, false, 0) && BurstAt(ev, 0) == BytesOf(bs[0])
      && JudgedInTurn(Rest(ev, RunEnd(ev, 0)), bs[1..])
  }

  function FirstGap(bs: seq<seq<Arrival>>, j: nat): nat
    requires j < |bs| && |bs[j]| > 0
  {
    bs[j][0].gap
  }

  /** T3.5 of silence before the first burst, twice as much before every other, and nothing that makes the idle state give up. */
  ghost predicate FarApart(bs: seq<seq<Arrival>>)
    requires forall j :: 0 <= j < |bs| ==> |bs[j]| > 0
  {
    forall j :: 0 <= j < |bs| ==>
      var wait := if j == 0 then T3_5 else 2 * T3_5;
      wait <= FirstGap(bs, j) < wait + IDLE_WAIT
  }

  lemma FirstOfTrace(bs: seq<seq<Arrival>>)
    requires Bursts(bs) && |bs| > 0
    ensures var ev := Trace(bs);
            && |ev| > 0 && RunEnd(ev, 0) == |bs[0]| && BurstAt(ev, 0) == BytesOf(bs[0])
            && (|bs| == 1 ==> |ev| == |bs[0]|)
            && (|bs| > 1 ==> |ev| > |bs[0]| && ev[|bs[0]|].gap == FirstGap(bs, 1))
            && (Judged(ev, false, 0) <==> T3_5 <= FirstGap(bs, 0) < T3_5 + IDLE_WAIT && (|bs| > 1 ==> FirstGap(bs, 1) >= T3_5))
  {
    var ev := Trace(bs);
    if |bs| > 1 { assert Trace(bs[1..]) == bs[1] + Trace(bs[1..][1..]); } else { assert Trace(bs[1..]) == []; }
    RunEndIs(ev, 0, |bs[0]|);
    assert ev[0..|bs[0]|] == bs[0];
  }

  /** The bursts behind the first one, as the next call finds them. */
  function Later(bs: seq<seq<Arrival>>): seq<seq<Arrival>>
    requires |bs| > 1 && |bs[1]| > 0 && FirstGap(bs, 1) >= T3_5
  {
    [[Arrival(FirstGap(bs, 1) - T3_5, bs[1][0].b)] + bs[1][1..]] + bs[2..]
  }

  lemma LaterIsRest(bs: seq<seq<Arrival>>)
    requires Bursts(bs) && |bs| > 1 && FirstGap(bs, 1) >= T3_5
    ensures Bursts(Later(bs)) && |Later(bs)| == |bs| - 1 && BytesOf(Later(bs)[0]) == BytesOf(bs[1]) && Later(bs)[1..] == bs[2..]
    ensures |Trace(bs)| > |bs[0]| && Trace(bs)[|bs[0]|].gap >= T3_5 && Rest(Trace(bs), |bs[0]|) == Trace(Later(bs))
  {
    LaterBursts(bs);
    var rest := Trace(bs[2..]);
    assert bs[1..][1..] == bs[2..];
    assert Trace(bs[1..]) == bs[1] + rest;
    hide Bursts, Trace;
    RestOfTwo(bs[0], bs[1], rest);
    TraceOne(Later(bs));
  }

  lemma TraceOne(bs: seq<seq<Arrival>>)
    requires |bs| > 0
    ensures Trace(bs) == bs[0] + Trace(bs[1..])
  {}

  lemma LaterBursts(bs: seq<seq<Arrival>>)
    requires Bursts(bs) && |bs| > 1 && FirstGap(bs, 1) >= T3_5
    ensures Bursts(Later(bs)) && BytesOf(Later(bs)[0]) == BytesOf(bs[1]) && Later(bs)[1..] == bs[2..]
  {
    var ls := Later(bs);
    assert ls[1..] == bs[2..];
    forall j | 0 < j < |ls| ensures ls[j] == bs[j + 1] {}
  }

  lemma RestOfTwo(a: seq<Arrival>, b: seq<Arrival>, rest: seq<Arrival>)
    requires |b| > 0 && b[0].gap >= T3_5
    ensures var ev := a + (b + rest);
            |ev| > |a| && ev[|a|] == b[0] && Rest(ev, |a|) == ([Arrival(b[0].gap - T3_5, b[0].b)] + b[1..]) + rest
  {
    var ev := a + (b + rest);
    assert ev[|a| + 1..] == b[1..] + rest;
  }

  lemma {:induction false} SameBytes(ev: seq<Arrival>, bs: seq<seq<Arrival>>, cs: seq<seq<Arrival>>)
    requires |bs| == |cs| > 0 && BytesOf(bs[0]) == BytesOf(cs[0]) && bs[1..] == cs[1..]
    ensures JudgedInTurn(ev, bs) <==> JudgedInTurn(ev, cs)
  {}

  /**
   For any list of bursts: calls of Receive one after the other judge them all, in order and unchanged, if
   and only if twice T3.5 of silence lies between each two. After less, but at least T3.5, a burst is lost
   although it stands apart as the standard demands.
   */
  lemma {:induction false} InTurnIff(bs: seq<seq<Arrival>>)
    requires Bursts(bs)
    ensures JudgedInTurn(Trace(bs), bs) <==> FarApart(bs)
    decreases |bs|
  {
    if |bs| > 0 {
      hide Judged, BurstAt, RunEnd, Rest;
      FirstOfTrace(bs);
      if |bs| > 1 && FirstGap(bs, 1) >= T3_5 {
        var ls := Later(bs);
        LaterIsRest(bs);
        InTurnIff(ls);
        SameBytes(Trace(ls), bs[1..], ls);
        assert forall j :: 0 < j < |ls| ==> FirstGap(ls, j) == FirstGap(bs, j + 1);
        assert forall j :: 1 < j < |bs| ==> FirstGap(bs, j) == FirstGap(ls, j - 1);
      }
    }
  }
}
