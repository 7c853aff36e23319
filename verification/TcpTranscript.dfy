/** The exact TCP read as the log of its exchanges, from the bytes of rxPacket after each. */
module TcpTranscript {
  import opened Bytes
  import opened ChunkedRead

  /** One exchange: whether FNsend_request_expect accepted it, and rxPacket after it. */
  datatype Step = Step(ok: bool, rx: Packet)

  function Length(rx: Packet): nat {
    rx[17] + 256 * (rx[18] as int)
  }

  function Echoed(rx: Packet): nat {
    rx[13] + 256 * (rx[14] as int) + 0x1_0000 * (rx[15] as int) + 0x100_0000 * (rx[16] as int)
  }

  predicate Last(rx: Packet) {
    rx[8] % 2 == 1
  }

  /** An accepted reply with status 3 or 4. */
  predicate IsWait(s: Step) {
    s.ok && s.rx[5] == 1 && (s.rx[6] == 3 || s.rx[6] == 4)
  }

  /** An accepted reply with status 0 that echoes the cursor, and has data or is the last. */
  predicate IsChunk(s: Step, cursor: nat) {
    s.ok && s.rx[5] == 1 && s.rx[6] == 0 && Echoed(s.rx) == cursor && (Length(s.rx) > 0 || Last(s.rx))
  }

  /** The bytes counted: the data of the chunks, up to what was asked for. */
  function Counted(log: seq<Step>, cursor: nat, total: nat): (n: nat)
    ensures n <= total
  {
    if log == [] then 0
    else
      var n, last := Counted(log[..|log| - 1], cursor, total), log[|log| - 1];
      if IsChunk(last, cursor + n) then Min(n + Length(last.rx), total) else n
  }

  /** How many waits running the log ends in. */
  function Waits(log: seq<Step>): nat {
    if log == [] || !IsWait(log[|log| - 1]) then 0 else 1 + Waits(log[..|log| - 1])
  }

  /** Another exchange follows this log: it ends in a wait within the retries or in a chunk that is not the last,
      and there is more to get. Anything else ends the read: an exchange that failed, another status, an echo
      that differs, an empty chunk that is not the last. */
  predicate GoesOn(log: seq<Step>, cursor: nat, total: nat, retries: int)
    requires log != []
  {
    var last := log[|log| - 1];
    && (IsWait(last) ==> Waits(log) <= retries)
    && (!IsWait(last) ==> IsChunk(last, cursor + Counted(log[..|log| - 1], cursor, total)) && !Last(last.rx))
    && Counted(log, cursor, total) < total
  }

  function RxAfter(log: seq<Step>, before: Packet): Packet {
    if log == [] then before else log[|log| - 1].rx
  }

  /** The next exchange asks at the cursor, past what is counted, for at most 280 bytes, and is stored over rxPacket
      from its start. */
  ghost predicate IsNext(device: Device, cursor: nat, total: nat, before: Packet, front: seq<Step>, step: Step) {
    var n := Counted(front, cursor, total);
    var exchange := device(|front|, cursor + n, Min(total - n, 280));
    step.ok == exchange.ok && step.rx == exchange.stored + RxAfter(front, before)[|exchange.stored|..]
  }

  ghost predicate IsLog(device: Device, cursor: nat, total: nat, before: Packet, log: seq<Step>) {
    forall k :: 0 <= k < |log| ==> IsNext(device, cursor, total, before, log[..k], log[k])
  }

  ghost predicate AllGoOn(log: seq<Step>, cursor: nat, total: nat, retries: int) {
    forall k :: 0 < k <= |log| ==> GoesOn(log[..k], cursor, total, retries)
  }

  /** For any device: the read is the log of its exchanges up to the first that ends it; the count is the data of
      the chunks in it, and rxPacket is as the last exchange left it. */
  lemma ReadIsLog(device: Device, cursor: nat, total: nat, retries: int, before: Packet) returns (log: seq<Step>)
    ensures log != [] && IsLog(device, cursor, total, before, log)
    ensures AllGoOn(log[..|log| - 1], cursor, total, retries) && !GoesOn(log, cursor, total, retries)
    ensures TcpRead(device, 0, cursor, total, 0, 0, retries, before)
         == Outcome(Counted(log, cursor, total), log[|log| - 1].rx, |log|)
  {
    log := LogFrom(device, cursor, total, retries, before, []);
  }

  lemma {:induction false} LogFrom(device: Device, cursor: nat, total: nat, retries: int, before: Packet,
                                   front: seq<Step>) returns (log: seq<Step>)
    requires IsLog(device, cursor, total, before, front) && AllGoOn(front, cursor, total, retries)
    requires Waits(front) <= Max(0, retries)
    ensures log != [] && IsLog(device, cursor, total, before, log)
    ensures AllGoOn(log[..|log| - 1], cursor, total, retries) && !GoesOn(log, cursor, total, retries)
    ensures TcpRead(device, |front|, cursor, total, Counted(front, cursor, total), Waits(front), retries,
                    RxAfter(front, before))
         == Outcome(Counted(log, cursor, total), log[|log| - 1].rx, |log|)
    decreases total - Counted(front, cursor, total), Max(0, retries) - Waits(front)
  {
    var step := NextStep(device, cursor, total, before, front);
    log := front + [step];
    LogGrows(device, cursor, total, before, front, step);
    OneStep(device, cursor, total, retries, before, front, step);
    hide TcpRead, Counted, Waits, GoesOn, IsLog, IsNext, AllGoOn, RxAfter;
    assert log[..|log| - 1] == front && RxAfter(log, before) == step.rx by { LastRx(front, step, before); }
    if GoesOn(log, cursor, total, retries) {
      GoOnGrows(front, step, cursor, total, retries);
      Progress(front, step, cursor, total, retries);
      log := LogFrom(device, cursor, total, retries, before, log);
    }
  }

  lemma LastRx(front: seq<Step>, step: Step, before: Packet)
    ensures RxAfter(front + [step], before) == step.rx && (front + [step])[..|front + [step]| - 1] == front
  {}

  lemma NextStep(device: Device, cursor: nat, total: nat, before: Packet, front: seq<Step>) returns (step: Step)
    ensures IsNext(device, cursor, total, before, front, step)
  {
    var n, rx := Counted(front, cursor, total), RxAfter(front, before);
    var exchange := device(|front|, cursor + n, Min(total - n, 280));
    step := Step(exchange.ok, Received(rx, exchange.stored));
    ReceivedIs(rx, exchange.stored);
  }

  lemma LogGrows(device: Device, cursor: nat, total: nat, before: Packet, front: seq<Step>, step: Step)
    requires IsLog(device, cursor, total, before, front) && IsNext(device, cursor, total, before, front, step)
    ensures IsLog(device, cursor, total, before, front + [step])
  {
    hide IsNext;
    var log := front + [step];
    forall k | 0 <= k < |log|
      ensures IsNext(device, cursor, total, before, log[..k], log[k])
    {
      assert log[..k] == front[..k];
      if k == |front| { assert front[..k] == front; }
    }
  }

  lemma GoOnGrows(front: seq<Step>, step: Step, cursor: nat, total: nat, retries: int)
    requires AllGoOn(front, cursor, total, retries) && GoesOn(front + [step], cursor, total, retries)
    ensures AllGoOn(front + [step], cursor, total, retries)
  {
    hide GoesOn;
    var log := front + [step];
    forall k | 0 < k <= |log|
      ensures GoesOn(log[..k], cursor, total, retries)
    {
      if k <= |front| { assert log[..k] == front[..k]; } else { assert log[..k] == log; }
    }
  }

  /** What the client makes of an exchange is what its bytes say. */
  lemma StateIs(s: Step)
    ensures IsWait(s) <==> ChunkState(s.ok, s.rx) == NotReady
    ensures s.ok && s.rx[5] == 1 && s.rx[6] == 0 ==>
      ChunkState(s.ok, s.rx) == Good(Length(s.rx), Last(s.rx), Echoed(s.rx))
    ensures !(s.ok && s.rx[5] == 1 && s.rx[6] in {0, 3, 4}) ==> ChunkState(s.ok, s.rx) == Error
  {}

  /** One exchange of TcpRead, as the log has it. */
  lemma OneStep(device: Device, cursor: nat, total: nat, retries: int, before: Packet, front: seq<Step>, step: Step)
    requires Waits(front) <= Max(0, retries) && IsNext(device, cursor, total, before, front, step)
    ensures var log, n := front + [step], Counted(front, cursor, total);
      var r := TcpRead(device, |front|, cursor, total, n, Waits(front), retries, RxAfter(front, before));
      if GoesOn(log, cursor, total, retries) then
        && Waits(log) <= Max(0, retries)
        && r == TcpRead(device, |log|, cursor, total, Counted(log, cursor, total), Waits(log), retries, step.rx)
      else r == Outcome(Counted(log, cursor, total), step.rx, |log|)
  {
    hide TcpRead, Received, IsChunk, Length, Last, RxAfter, Counted, Waits, GoesOn, IsNext, IsWait;
    var n, rx := Counted(front, cursor, total), RxAfter(front, before);
    NextIs(device, cursor, total, before, front, step);
    LogNext(front, step, cursor, total, retries);
    TcpNext(device, |front|, cursor, total, n, Waits(front), retries, rx, step);
    var log := front + [step];
    var n', tries' := Counted(log, cursor, total), Waits(log);
    assert |log| == |front| + 1;
    if GoesOn(log, cursor, total, retries) {
      assert tries' <= Max(0, retries);
      assert TcpRead(device, |front|, cursor, total, n, Waits(front), retries, rx)
          == TcpRead(device, |log|, cursor, total, n', tries', retries, step.rx);
    } else {
      assert TcpRead(device, |front|, cursor, total, n, Waits(front), retries, rx) == Outcome(n', step.rx, |log|);
    }
  }

  /** Going on, either more is counted or one more wait is used up. */
  lemma Progress(front: seq<Step>, step: Step, cursor: nat, total: nat, retries: int)
    requires GoesOn(front + [step], cursor, total, retries)
    ensures var log := front + [step];
      Counted(log, cursor, total) > Counted(front, cursor, total)
      || (Counted(log, cursor, total) == Counted(front, cursor, total) && Waits(log) > Waits(front))
  {
    LogNext(front, step, cursor, total, retries);
    hide Counted, Waits, GoesOn, IsWait;
  }

  lemma NextIs(device: Device, cursor: nat, total: nat, before: Packet, front: seq<Step>, step: Step)
    requires IsNext(device, cursor, total, before, front, step)
    ensures var n, rx := Counted(front, cursor, total), RxAfter(front, before);
      var exchange := device(|front|, cursor + n, Min(total - n, 280));
      step == Step(exchange.ok, Received(rx, exchange.stored))
  {
    var n, rx := Counted(front, cursor, total), RxAfter(front, before);
    ReceivedIs(rx, device(|front|, cursor + n, Min(total - n, 280)).stored);
  }

  lemma LogNext(front: seq<Step>, step: Step, cursor: nat, total: nat, retries: int)
    ensures var log, n := front + [step], Counted(front, cursor, total);
      && Counted(log, cursor, total) == (if IsChunk(step, cursor + n) then Min(n + Length(step.rx), total) else n)
      && Waits(log) == (if IsWait(step) then Waits(front) + 1 else 0)
      && (GoesOn(log, cursor, total, retries) <==>
          && Counted(log, cursor, total) < total
          && (if IsWait(step) then Waits(log) <= retries else IsChunk(step, cursor + n) && !Last(step.rx)))
  {
    assert (front + [step])[..|front + [step]| - 1] == front;
    hide IsWait, IsChunk, Last, Length;
  }

  lemma TcpNext(device: Device, i: nat, cursor: nat, total: nat, n: nat, tries: nat, retries: int, before: Packet,
                s: Step)
    requires n <= total && tries <= Max(0, retries)
    requires var exchange := device(i, cursor + n, Min(total - n, 280));
      s == Step(exchange.ok, Received(before, exchange.stored))
    ensures var n' := if IsChunk(s, cursor + n) then Min(n + Length(s.rx), total) else n;
      var tries' := if IsWait(s) then tries + 1 else 0;
      TcpRead(device, i, cursor, total, n, tries, retries, before) ==
        if n' < total && (if IsWait(s) then tries' <= retries else IsChunk(s, cursor + n) && !Last(s.rx))
        then TcpRead(device, i + 1, cursor, total, n', tries', retries, s.rx)
        else Outcome(n', s.rx, i + 1)
  {
    TcpUnfold(device, i, cursor, total, n, tries, retries, before);
    StateIs(s);
    ChunkIs(s, cursor + n);
    hide TcpRead, Received, ChunkState, Length, Last, Echoed, IsWait, IsChunk;
  }

  lemma ChunkIs(s: Step, cursor: nat)
    ensures IsChunk(s, cursor) <==>
      && ChunkState(s.ok, s.rx).Good? && ChunkState(s.ok, s.rx).echoOffset == cursor
      && (ChunkState(s.ok, s.rx).dataLen > 0 || ChunkState(s.ok, s.rx).eof)
    ensures ChunkState(s.ok, s.rx).Good? ==> ChunkState(s.ok, s.rx) == Good(Length(s.rx), Last(s.rx), Echoed(s.rx))
  {}

  /** So every exchange but the last was accepted with status 0, 3 or 4, and a status 0 was a chunk with data that
      echoed the cursor: the first that fails, has another status, echoes anything else, or is empty without
      being the last, ends the read. */
  lemma EarlierAreGood(log: seq<Step>, cursor: nat, total: nat, retries: int, k: nat)
    requires k + 1 < |log| && AllGoOn(log[..|log| - 1], cursor, total, retries)
    ensures log[k].ok && log[k].rx[5] == 1 && log[k].rx[6] in {0, 3, 4}
    ensures log[k].rx[6] == 0 ==>
      && Echoed(log[k].rx) == cursor + Counted(log[..k], cursor, total)
      && Length(log[k].rx) > 0 && !Last(log[k].rx)
  {
    hide Counted, Waits;
    var front := log[..|log| - 1][..k + 1];
    assert GoesOn(front, cursor, total, retries);
    assert front[k] == log[k] && front[..k] == log[..k];
  }

  /** And the exchange that ends it that way counts nothing. */
  lemma FailureCountsNothing(log: seq<Step>, cursor: nat, total: nat)
    requires log != []
    requires var s := log[|log| - 1];
      || !s.ok || s.rx[5] != 1 || s.rx[6] != 0
      || Echoed(s.rx) != cursor + Counted(log[..|log| - 1], cursor, total)
    ensures Counted(log, cursor, total) == Counted(log[..|log| - 1], cursor, total)
  {}
}
