/** A run in which the loader reports success over a wrong image: the last allowed try of
    `ymodem_check_packet` brings the block it already has. */
module StaleBlock {
  import opened Bytes
  import opened YmodemFrames
  import opened Transfer
  import opened TransferRuns
  import opened Ymodem
  import opened Load
  import opened EndToEnd
  import opened TransferTheorems
  import opened FaultFree

  const AS_NAK := Fault(Turned(NAK), None)

  function AllLost(n: nat): (s: seq<Fault>)
    ensures |s| == n
  {
    seq(n, _ => LOST)
  }

  /** The header and the first block come; the ACK for it and 18 requests are lost; the 19th request
      arrives as a NAK; then the line is dead. */
  const BAD_TAPE: seq<Fault> := [NO_FAULT, NO_FAULT, NO_FAULT, LOST] + AllLost(18) + [AS_NAK]

  function WithTape(r: Receiver, tape: seq<Fault>): Receiver {
    r.(line := r.line.(tape := tape))
  }

  /** A try in silence, with the request for more lost. */
  lemma LostTry(r: Receiver, retries: nat, ret: Code, rest: seq<Fault>)
    requires !r.ack && r.line.fifo == [] && retries > 0 && r.line.tape == [LOST] + rest
    ensures CheckLoop(r, retries, ret) == CheckLoop(WithTape(r, rest), retries - 1, Timeout)
  {
    hide React, Listen;
    SilentListen(r);
    assert GetPacket(r) == Listen(r);
    assert Heard(r, []) == r;
    assert r.line.tape[1..] == rest;
    assert AfterError(r) == WithTape(r, rest);
  }

  lemma {:induction false} LostTries(r: Receiver, n: nat, retries: nat, rest: seq<Fault>)
    requires !r.ack && r.line.fifo == [] && n < retries && r.line.tape == AllLost(n) + rest
    ensures CheckLoop(r, retries, Timeout) == CheckLoop(WithTape(r, rest), retries - n, Timeout)
    decreases n
  {
    hide CheckLoop;
    if n == 0 {
      assert AllLost(0) + rest == rest;
      assert WithTape(r, rest) == r;
    } else {
      assert AllLost(n) + rest == [LOST] + (AllLost(n - 1) + rest);
      LostTry(r, retries, Timeout, AllLost(n - 1) + rest);
      LostTries(WithTape(r, AllLost(n - 1) + rest), n - 1, retries - 1, rest);
    }
  }

  /** The ACK for the last block is lost, and so are 18 requests. */
  lemma AllTriesLost(r: Receiver)
    requires r.ack && r.line.fifo == [] && r.line.tape == [LOST] + AllLost(18) + [AS_NAK]
    ensures CheckPacket(r) == CheckLoop(WithTape(r.(ack := false), [AS_NAK]), 2, Timeout)
  {
    hide React, Listen;
    var q := Say(r.(ack := false), ACK);
    assert r.line.tape == [LOST] + (AllLost(18) + [AS_NAK]);
    assert q == WithTape(r.(ack := false), AllLost(18) + [AS_NAK]);
    SilentListen(q);
    assert AllLost(18) + [AS_NAK] == [LOST] + (AllLost(17) + [AS_NAK]);
    var p := WithTape(q, AllLost(17) + [AS_NAK]);
    assert AfterError(q) == p;
    assert GetPacket(r) == (q, Timeout);
    assert CheckPacket(r) == CheckLoop(p, 19, Timeout);
    LostTries(p, 17, 19, [AS_NAK]);
    assert WithTape(p, [AS_NAK]) == WithTape(r.(ack := false), [AS_NAK]);
  }

  /** The request that arrives as a NAK brings the last block again. */
  lemma NakTry(r: Receiver, k: nat)
    requires Reachable(r.line.tx) && BlockOut(r.line.tx) && r.line.tx.outcome.Running? && r.line.tx.retry == 0
    requires Sent(r.line.tx) == k && k >= 1 && 1024 * (k - 1) < |r.line.tx.file|
    requires !r.ack && r.line.fifo == [] && r.line.tape == [AS_NAK]
    ensures var p := AfterError(r);
      && CheckLoop(r, 2, Timeout) == CheckLoop(p, 1, Timeout)
      && p == r.(line := p.line) && p.line.tape == [] && p.line.fifo == Block(r.line.tx.file, k)
      && p.line.log == r.line.log && p.line.tx.file == r.line.tx.file && p.line.tx.outcome.Running?
  {
    hide React, Listen, Reachable, Block;
    SilentListen(r);
    assert GetPacket(r) == Listen(r);
    assert Heard(r, []) == r;
    ReactToNak(r.line.tx);
    ReachableValid(r.line.tx);
    Alone(Block(r.line.tx.file, k));
    assert r.line.log + [] == r.line.log;
  }

  lemma ReachableValid(tx: Tx)
    requires Reachable(tx)
    ensures tx.Valid() && (BlockOut(tx) ==> LastMessage(tx) == Block(tx.file, Sent(tx)))
  {
  }

  /** On the last try the block that is already there passes for a new one. */
  lemma LastTry(r: Receiver, k: nat)
    requires !r.ack && r.line.tape == [] && r.expected == Low8(k + 1)
    requires k >= 1 && 1024 * k < |r.line.tx.file| && r.line.fifo == Block(r.line.tx.file, k)
    ensures var (s, code), file := CheckLoop(r, 1, Timeout), r.line.tx.file;
      && code == Succ && s.packetLength == 1024 && s.packet[..1024] == file[1024 * (k - 1)..1024 * k]
      && s == r.(packetLength := s.packetLength, packet := s.packet, number := s.number,
                 line := r.line.(fifo := [], log := r.line.log + [LastTryDuplicate]))
  {
    hide Listen, Block, BlockData, Low8;
    ParseBlock(r.line.tx.file, k);
    GoodListen(r);
    assert GetPacket(r) == Listen(r);
    var s := Listen(r).0;
    NumbersDiffer(k);
    assert s.IsDuplicate() && !s.IsNext();
    WholeBlock(r.line.tx.file, k);
    assert Say(s, ACK) == s;
    var t := AfterDuplicate(s, 1);
    assert CheckLoop(t, 0, Succ) == (t, Succ);
  }

  lemma WholeBlock(file: seq<Byte>, k: nat)
    requires k >= 1 && 1024 * k < |file|
    ensures BlockData(file, k) == file[1024 * (k - 1)..1024 * k]
  {
  }

  /** On a dead line nothing comes any more. */
  lemma {:induction false} DeadLoop(r: Receiver, retries: nat, ret: Code)
    requires !r.ack && r.line.tape == [] && r.line.fifo == []
    ensures CheckLoop(r, retries, ret) == (r, if retries == 0 then ret else Timeout)
    decreases retries
  {
    hide Listen;
    if retries > 0 {
      SilentListen(r);
      assert GetPacket(r) == Listen(r);
      assert AfterError(r) == r;
      DeadLoop(r, retries - 1, Timeout);
    }
  }

  lemma DeadRead(r: Receiver)
    requires !r.ack && r.line.tape == [] && r.line.fifo == [] && r.packetLength == 0
    ensures Read(r, READ_SIZE).0 == r
  {
    hide CheckLoop;
    DeadLoop(r, MAX_RETRIES, Fail);
  }

  /** The window that gets the stale block. */
  lemma StaleWindow(r: Receiver)
    requires Smooth(r, 1) && r.packetLength == 0 && r.line.tx.retry == 0 && |r.line.tx.file| == 2048
    requires r.line.tape == [LOST] + AllLost(18) + [AS_NAK]
    ensures var (s, data), file := Read(r, 1024), r.line.tx.file;
      && data == file[..1024] && s.line.log == r.line.log + [LastTryDuplicate]
      && s.line.tape == [] && s.line.fifo == [] && !s.ack && s.packetLength == 0
      && s.line.tx.outcome.Running?
  {
    hide CheckLoop, Smooth, Inv, Reachable, Block, Read, AfterError;
    SmoothFacts(r, 1);
    InvReachable(r, 1);
    AllTriesLost(r);
    var q := WithTape(r.(ack := false), [AS_NAK]);
    NakTry(q, 1);
    var p := AfterError(q);
    LastTry(p, 1);
    ReadOnePacket(r, CheckPacket(r).0, 1024);
  }

  /** For every file of two blocks: the loader reports success, and flash holds the first block twice. */
  lemma SuccessOverWrongImage(r: Receiver, file: seq<Byte>, erased: nat, min: nat, max: nat)
    requires AtRest(r, file, BAD_TAPE) && |file| == 2048
    requires min < 2048 <= max && (erased == 0 || 2048 <= erased)
    ensures var (s, ok) := LoadSerial(r, erased, min, max);
      && ok && StoredBytes(s.line.log) == file[..1024] + file[..1024] && !Clean(s.line.log)
      && !s.line.tx.outcome.Succeeded?
  {
    hide Open, Smooth, StoredBytes, Read, BlockPart, NoFaults, Clean;
    assert NoFaults(r.line, 3) by {
      ThreeClean(r.line);
    }
    OpenSmooth(r, file, BAD_TAPE, 3);
    EmptyIsSound(file);
    var t := Open(r).0;
    WindowFilled(t, 0, 2);
    var (r1, data) := Read(t, 1024);
    PartSize(file, 0);
    StoreSmooth(r1, 0);
    var r2 := Note(r1, Stored(data));
    assert BAD_TAPE[1..][2..] == [LOST] + AllLost(18) + [AS_NAK];
    StaleWindow(r2);
    var (r3, stale) := Read(r2, 1024);
    DeadRead(Note(r3, Stored(stale)));
    EventEffects(r2.line.log, LastTryDuplicate);
    EventEffects(r3.line.log, Stored(stale));
    assert ReceiveFile(Note(r3, Stored(stale)), 0) == (Note(r3, Stored(stale)), true);
    assert ReceiveFile(r2, 1024) == (Note(r3, Stored(stale)), true);
    assert ReceiveFile(t, 2048) == ReceiveFile(r2, 1024);
  }

  lemma ThreeClean(line: Line)
    requires line.tape == BAD_TAPE
    ensures NoFaults(line, 3)
  {
  }
}
