/** A line that loses exactly one octet of the receiver, and is otherwise faultless. */
module OneLoss {
  import opened Bytes
  import opened YmodemFrames
  import opened Transfer
  import opened TransferRuns
  import opened Ymodem
  import opened Load
  import opened EndToEnd
  import opened TransferTheorems
  import opened FaultFree
  import opened StaleBlock
  import opened SerialLoad

  // A lost acknowledgement --------------------------------------------------------------------------

  predicate AwaitsAck(tx: Tx) {
    tx.status.WaitInitAck? || BlockOut(tx)
  }

  /** A sender that waits for an ACK is deaf to `C`. */
  lemma {:induction false} DeafSender(r: Receiver, retries: nat)
    requires Reachable(r.line.tx) && AwaitsAck(r.line.tx) && r.line.tx.outcome.Running?
    requires !r.ack && !r.eof && r.line.fifo == [] && NoFaults(r.line, retries)
    ensures var (s, code) := CheckLoop(r, retries, Timeout);
      code == Timeout && s.line.tx.outcome.Running? && !s.eof
    decreases retries
  {
    hide Listen, Reachable, React, Put, NoFaults;
    if retries > 0 {
      SilentListen(r);
      assert GetPacket(r) == Listen(r);
      assert Heard(r, []) == r;
      CleanPut(r.line, CRC_REQUEST, retries);
      ReactToC(r.line.tx);
      DeafSender(AfterError(r), retries - 1);
    }
  }

  /** The rest of the line, once its first octet is lost, is faultless for `n` octets. */
  predicate LostThenClean(line: Line, n: nat) {
    line.tape != [] && line.tape[0] == LOST && NoFaults(line.(tape := line.tape[1..]), n)
  }

  /** A lost ACK uses up all the tries. */
  lemma LostAckTimesOut(r: Receiver, k: nat)
    requires Smooth(r, k) && LostThenClean(r.line, MAX_RETRIES)
    ensures var (s, code) := CheckPacket(r); code == Timeout && s.line.tx.outcome.Running? && !s.eof
  {
    hide Listen, Smooth, Reachable, React, Inv, NoFaults, CheckLoop, Put;
    SmoothFacts(r, k);
    LostPut(r.line, ACK);
    var q := Say(r.(ack := false), ACK);
    SilentListen(q);
    CleanPut(q.line, CRC_REQUEST, MAX_RETRIES);
    ReactToC(q.line.tx);
    assert Heard(q, []) == q;
    DeafTry(r, q);
    DeafSender(AfterError(q), 19);
  }

  lemma DeafTry(r: Receiver, q: Receiver)
    requires GetPacket(r) == (q, Timeout)
    ensures CheckPacket(r) == CheckLoop(AfterError(q), 19, Timeout)
  {
    hide GetPacket, AfterError;
  }

  /** However good the line is after a lost ACK, the sender does not get through, and the loader does if and only if
      it has all the data; what is stored stays. */
  lemma LostAckStalls(r: Receiver, k: nat)
    requires Smooth(r, k) && r.packetLength == 0 && LostThenClean(r.line, MAX_RETRIES)
    ensures var file := r.line.tx.file;
      var (s, ok) := ReceiveFile(r, if 1024 * k < |file| then |file| - 1024 * k else 0);
      && (ok <==> 1024 * k >= |file|) && !s.line.tx.outcome.Succeeded?
      && StoredBytes(s.line.log) == StoredBytes(r.line.log)
  {
    hide Smooth, CheckPacket, StoredBytes, LostThenClean;
    SmoothFacts(r, k);
    LostAckTimesOut(r, k);
    CheckPacketStoresNothing(r);
  }

  // One loss ----------------------------------------------------------------------------------------

  /** Octet `at` is lost, and no other. */
  predicate OneLost(tape: seq<Fault>, at: nat) {
    forall i :: 0 <= i < |tape| ==> tape[i] == if i == at then LOST else NO_FAULT
  }

  lemma CleanBefore(line: Line, at: nat, n: nat)
    requires OneLost(line.tape, at) && n <= at && n <= |line.tape|
    ensures NoFaults(line, n)
  {
  }

  lemma LostHere(line: Line, n: nat)
    requires OneLost(line.tape, 0) && n < |line.tape|
    ensures LostThenClean(line, n)
  {
  }

  lemma StillOneLost(tape: seq<Fault>, at: nat, n: nat)
    requires OneLost(tape, at) && n <= at && n <= |tape|
    ensures OneLost(tape[n..], at - n)
  {
  }

  /** After all data: the ACK for the last block, two for EOT, `C`, and the last ACK. */
  lemma LossAtTheEnd(r: Receiver, k: nat, at: nat)
    requires Smooth(r, k) && r.packetLength == 0 && k > 0 && 1024 * k >= |r.line.tx.file|
    requires OneLost(r.line.tape, at) && |r.line.tape| > MAX_RETRIES
    ensures var (s, ok) := ReceiveFile(r, 0);
      && ok && StoredBytes(s.line.log) == StoredBytes(r.line.log)
      && (s.line.tx.outcome.Succeeded? <==> at == 1 || at == 2 || at >= 5)
  {
    hide Smooth, CheckPacket, StoredBytes;
    SmoothFacts(r, k);
    if at == 0 {
      LostHere(r.line, MAX_RETRIES);
      LostAckStalls(r, k);
    } else {
      Closing(r, k);
    }
  }

  lemma FirstPiece(r: Receiver, remaining: nat)
    requires remaining > 0
    ensures var (r1, data) := Read(r, Min(remaining, READ_SIZE));
      data != [] && |data| <= remaining ==>
        ReceiveFile(r, remaining) == ReceiveFile(Note(r1, Stored(data)), remaining - |data|)
  {
    hide Read;
  }

  /** From block `k` on, with `at` octets to go before the one that is lost. */
  lemma {:induction false} LossInData(r: Receiver, k: nat, remaining: nat, at: nat)
    requires Smooth(r, k) && r.packetLength == 0 && k > 0 && StoredBytes(r.line.log) == Carried(r.line.tx.file, k)
    requires remaining == if 1024 * k < |r.line.tx.file| then |r.line.tx.file| - 1024 * k else 0
    requires OneLost(r.line.tape, at) && |r.line.tape| > BlockCount(remaining) + MAX_RETRIES
    ensures var left := BlockCount(remaining);
      var (s, ok) := ReceiveFile(r, remaining);
      && (ok <==> at >= left)
      && (s.line.tx.outcome.Succeeded? <==> at == left + 1 || at == left + 2 || at >= left + 5)
      && (ok ==> StoredBytes(s.line.log) == r.line.tx.file)
    decreases remaining
  {
    hide Smooth, NoFaults, StoredBytes, Carried, Read, BlockPart, BlockCount, OneLost, LostThenClean, ReceiveFile,
      Reachable, Inv, SoundSoFar, Clean, BlockOut;
    SmoothFacts(r, k);
    FewerBlocks(remaining);
    var file := r.line.tx.file;
    if remaining == 0 {
      CarriedAll(file, k);
      LossAtTheEnd(r, k, at);
    } else if at == 0 {
      LostHere(r.line, MAX_RETRIES);
      LostAckStalls(r, k);
    } else {
      CleanBefore(r.line, at, 1);
      WindowFilled(r, k, 1);
      StillOneLost(r.line.tape, at, 1);
      PartSize(file, k);
      var (r1, data) := Read(r, Min(remaining, READ_SIZE));
      StoreSmooth(r1, k);
      LossInData(Note(r1, Stored(data)), k + 1, remaining - |data|, at - 1);
      FirstPiece(r, remaining);
    }
  }

  /** The `C` that asks for the first block is lost, and the next one brings it. */
  lemma LateRequest(q: Receiver, n: nat)
    requires Asking(q) && LostThenClean(q.line, n) && n >= 1
    ensures var (s, code) := CheckLoop(AfterError(q), 19, Timeout);
      && code == Succ && Smooth(s, 1) && Holds(s, 0) && NoFaults(s.line, n - 1)
      && s.line.tx.file == q.line.tx.file && StoredBytes(s.line.log) == StoredBytes(q.line.log)
  {
    hide Put, Smooth, Listen, Inv, Reachable, StoredBytes, SoundSoFar, Clean, NoFaults;
    var rest := q.line.tape[1..];
    assert q.line.tape == [LOST] + rest;
    var p := WithTape(q, rest);
    assert Heard(q, []) == q;
    LostPut(q.line, CRC_REQUEST);
    assert AfterError(q) == p;
    TapeAside(q, rest);
    SilentListen(p);
    assert GetPacket(p) == Listen(p);
    assert CheckLoop(p, 19, Timeout) == CheckLoop(AfterError(p), 18, Timeout);
    RequestAnswered(p, n, 18);
  }

  lemma TapeAside(q: Receiver, tape: seq<Fault>)
    requires Asking(q)
    ensures Asking(WithTape(q, tape))
  {
    hide Reachable, SoundSoFar, Clean, LastMessage;
  }

  lemma LateFirstBlock(r: Receiver)
    requires Smooth(r, 0) && OneLost(r.line.tape, 1) && |r.line.tape| >= 3
    ensures var (s, code) := CheckPacket(r);
      && code == Succ && Smooth(s, 1) && Holds(s, 0) && NoFaults(s.line, |r.line.tape| - 3)
      && s.line.tx.file == r.line.tx.file && StoredBytes(s.line.log) == StoredBytes(r.line.log)
  {
    hide Put, Smooth, CheckLoop, AfterError, StoredBytes, Holds, Asking, NoFaults;
    CleanBefore(r.line, 1, 1);
    HeaderAcked(r, 1);
    var q := Say(r.(ack := false), ACK);
    StillOneLost(r.line.tape, 1, 1);
    LostHere(q.line, |r.line.tape| - 2);
    LateRequest(q, |r.line.tape| - 2);
  }

  lemma LateWindow(r: Receiver)
    requires Smooth(r, 0) && r.packetLength == 0 && OneLost(r.line.tape, 1) && |r.line.tape| >= 3
    ensures var file := r.line.tx.file;
      var (s, data) := Read(r, Min(|file|, READ_SIZE));
      && 0 < |file| && data == BlockPart(file, 1) && Smooth(s, 1) && s.packetLength == 0 && s.line.tx.file == file
      && NoFaults(s.line, |r.line.tape| - 3) && StoredBytes(s.line.log) == StoredBytes(r.line.log)
  {
    hide Smooth, CheckPacket, StoredBytes, BlockPart, NoFaults, Read, Reachable, Inv, SoundSoFar, Clean, OneLost;
    SmoothFacts(r, 0);
    ReachableFile(r.line.tx);
    LateFirstBlock(r);
    var r1 := CheckPacket(r).0;
    SmoothFacts(r1, 1);
    PartSize(r.line.tx.file, 0);
    ReadOnePacket(r, r1, Min(|r.line.tx.file|, READ_SIZE));
    SmoothLength(r1, 1);
    LengthAside(r1, |r.line.tape| - 3);
  }

  lemma LengthAside(r: Receiver, n: nat)
    ensures NoFaults(r.(packetLength := 0).line, n) == NoFaults(r.line, n)
  {
  }

  /** The first window, and all that follows, when only that `C` is lost. */
  lemma LateTransfer(r: Receiver)
    requires Smooth(r, 0) && r.packetLength == 0 && StoredBytes(r.line.log) == Carried(r.line.tx.file, 0)
    requires OneLost(r.line.tape, 1) && |r.line.tape| >= BlockCount(|r.line.tx.file|) + 7
    ensures var (s, ok) := ReceiveFile(r, |r.line.tx.file|);
      ok && s.line.tx.outcome.Succeeded? && StoredBytes(s.line.log) == r.line.tx.file
  {
    hide Smooth, StoredBytes, BlockPart, Carried, NoFaults, BlockCount, Read, ReceiveFile, OneLost, Reachable;
    var file := r.line.tx.file;
    FewerBlocks(|file|);
    LateWindow(r);
    PartSize(file, 0);
    var (r1, data) := Read(r, Min(|file|, READ_SIZE));
    StoreSmooth(r1, 0);
    var n := |r.line.tape| - 3;
    SameTape(r1, Stored(data), n);
    ReceiveSmooth(Note(r1, Stored(data)), 1, |file| - |data|, n);
    FirstPiece(r, |file|);
  }

  /** The ACK for the header and the first `C` arrive. */
  lemma LossAfterFirst(r: Receiver, at: nat)
    requires Smooth(r, 0) && r.packetLength == 0 && StoredBytes(r.line.log) == Carried(r.line.tx.file, 0)
    requires 0 < |r.line.tx.file| && at >= 2
    requires OneLost(r.line.tape, at) && |r.line.tape| > BlockCount(|r.line.tx.file|) + MAX_RETRIES + 1
    ensures var file := r.line.tx.file;
      var blocks := BlockCount(|file|);
      var (s, ok) := ReceiveFile(r, |file|);
      && (ok <==> at > blocks)
      && (s.line.tx.outcome.Succeeded? <==> at == blocks + 2 || at == blocks + 3 || at >= blocks + 6)
      && (ok ==> StoredBytes(s.line.log) == file)
  {
    hide Smooth, StoredBytes, Carried, Read, BlockPart, BlockCount, OneLost, ReceiveFile, NoFaults, Reachable;
    var file := r.line.tx.file;
    FewerBlocks(|file|);
    CleanBefore(r.line, at, 2);
    WindowFilled(r, 0, 2);
    StillOneLost(r.line.tape, at, 2);
    PartSize(file, 0);
    var (r1, data) := Read(r, Min(|file|, READ_SIZE));
    StoreSmooth(r1, 0);
    LossInData(Note(r1, Stored(data)), 1, |file| - |data|, at - 2);
    FirstPiece(r, |file|);
  }

  /** From the header on. */
  lemma LossAfterHeader(r: Receiver, at: nat)
    requires Smooth(r, 0) && r.packetLength == 0 && StoredBytes(r.line.log) == Carried(r.line.tx.file, 0)
    requires OneLost(r.line.tape, at) && |r.line.tape| > BlockCount(|r.line.tx.file|) + MAX_RETRIES + 1
    ensures var file := r.line.tx.file;
      var blocks := BlockCount(|file|);
      var (s, ok) := ReceiveFile(r, |file|);
      && (ok <==> at == 1 || at > blocks)
      && (s.line.tx.outcome.Succeeded? <==> at == 1 || at == blocks + 2 || at == blocks + 3 || at >= blocks + 6)
      && (ok ==> StoredBytes(s.line.log) == file)
  {
    hide Smooth, StoredBytes, Carried, BlockCount, OneLost, LostThenClean, ReceiveFile, NoFaults, Reachable;
    SmoothFacts(r, 0);
    ReachableFile(r.line.tx);
    FewerBlocks(|r.line.tx.file|);
    if at == 0 {
      LostHere(r.line, MAX_RETRIES);
      LostAckStalls(r, 0);
    } else if at == 1 {
      LateTransfer(r);
    } else {
      LossAfterFirst(r, at);
    }
  }

  /** The first `C` is lost, and the next one brings the header. */
  lemma LateHeader(r: Receiver, file: seq<Byte>, tape: seq<Fault>)
    requires AtRest(r, file, tape) && |file| <= LOAD_MAX_SIZE && OneLost(tape, 0) && |tape| >= 2
    ensures var (t, code) := Open(r);
      && code == Succ && Smooth(t, 0) && t.packetLength == 0 && t.fileLength == |file| && t.line.tx.file == file
      && NoFaults(t.line, |tape| - 2) && t.line.log == []
  {
    hide Put, OpenLoop, Opening, Smooth, InfoFrame, Start, NoFaults;
    var cleared := r.(packetLength := 0, fileLength := 0, readLength := 0, ack := false, eof := false);
    CallOpens(r, file, tape);
    StartFile(file);
    LostPut(cleared.line, CRC_REQUEST);
    var q := Say(cleared, CRC_REQUEST);
    OpeningPut(cleared);
    OpeningTimeout(q, MAX_RETRIES);
    LostHere(r.line, |tape| - 1);
    HeaderComes(q, |tape| - 1);
    var p := Say(q, CRC_REQUEST);
    HeaderOpens(p, file, 19);
    OpeningFacts(p);
    FifoAside(p.line, |tape| - 2);
  }

  lemma FifoAside(line: Line, n: nat)
    ensures NoFaults(line.(fifo := []), n) == NoFaults(line, n)
  {
  }

  lemma OpeningTimeout(q: Receiver, retries: nat)
    requires q.line.fifo == [] && !q.ack && retries > 0
    ensures OpenLoop(q, retries) == OpenLoop(Say(q, CRC_REQUEST), retries - 1)
  {
    hide Put, Listen;
    SilentListen(q);
    assert GetPacket(q) == Listen(q);
  }

  /** With N blocks a faultless transfer takes N + 7 octets of the receiver: `C`, ACK, `C`, an ACK for each block, two
      ACKs for EOT, `C`, ACK. On a line that loses exactly octet `at` of its octets, and is long enough for 20 tries:
      - the loader fails if and only if the ACK for the header, or for a block before the last, is lost;
      - the sender does not get through if and only if one of these is lost, or the ACK for the last block, or the
        closing `C`, or the last ACK;
      - if the loader succeeds, flash holds the file. */
  lemma OneLossExactly(
    r: Receiver, file: seq<Byte>, tape: seq<Fault>, at: nat, erased: nat, min: nat, max: nat)
    requires AtRest(r, file, tape) && OneLost(tape, at) && |tape| >= BlockCount(|file|) + MAX_RETRIES + 3
    requires min < |file| <= max && |file| <= 0x100_0000 && (erased == 0 || |file| <= erased)
    ensures var blocks := BlockCount(|file|);
      var (s, ok) := LoadSerial(r, erased, min, max);
      && (!ok <==> at == 1 || 3 <= at <= blocks + 1)
      && (!s.line.tx.outcome.Succeeded? <==>
            at == 1 || 3 <= at <= blocks + 2 || at == blocks + 5 || at == blocks + 6)
      && (ok ==> StoredBytes(s.line.log) == file)
  {
    hide Open, Smooth, NoFaults, StoredBytes, ReceiveFile, Carried, OneLost, BlockCount;
    EmptyIsSound(file);
    FewerBlocks(|file|);
    var n := |tape| - 1;
    if at == 0 {
      LateHeader(r, file, tape);
      ReceiveSmooth(Open(r).0, 0, |file|, n - 1);
    } else {
      CleanBefore(r.line, at, 1);
      OpenSmooth(r, file, tape, 1);
      StillOneLost(tape, at, 1);
      LossAfterHeader(Open(r).0, at - 1);
    }
  }
}
