/** On a line without faults the transfer completes. */
module FaultFree {
  import opened Bytes
  import opened YmodemFrames
  import opened Transfer
  import opened TransferRuns
  import opened Ymodem
  import opened FileHeader
  import opened Load
  import opened EndToEnd
  import opened TransferTheorems

  predicate NoFaults(line: Line, n: nat) {
    n <= |line.tape| && forall i :: 0 <= i < n ==> line.tape[i] == NO_FAULT
  }

  /** A faultless octet reaches the sender, and its answer comes back whole. */
  lemma CleanPut(line: Line, ch: Byte, n: nat)
    requires NoFaults(line, n) && n > 0 && Reachable(line.tx)
    ensures var l, (t, out) := Put(line, ch), React(line.tx, ch);
      && l.tx == t && l.fifo == line.fifo + out && l.tape == line.tape[1..] && NoFaults(l, n - 1)
      && l.log == line.log + (if t.offset != line.tx.offset then [BlockSent] else [])
  {
    hide React;
    ReactValid(line.tx, ch);
  }

  /** `used` faultless octets have been spent, and the last of them reset the sender's retry counter. */
  predicate UsedUp(l: Line, m: Line, n: nat, used: nat)
    requires used <= n <= |l.tape|
  {
    NoFaults(m, n - used) && m.tape == l.tape[used..] && m.tx.retry == 0
  }

  /** Block `k` has just been taken, its acknowledgement is due, and nothing is on the line. */
  ghost predicate Smooth(r: Receiver, k: nat) {
    && Inv(r, k) && r.ack && r.line.fifo == [] && Sent(r.line.tx) == k && r.line.tx.outcome.Running?
    && SoundSoFar(r.line.tx.file, r.line.log) && Clean(r.line.log) && |r.line.tx.file| <= LOAD_MAX_SIZE
    && (if k == 0 then r.line.tx.status.WaitInitAck? else BlockOut(r.line.tx))
  }

  predicate BlockOut(tx: Tx) {
    tx.status.WaitInterAck? || tx.status.WaitFinalAck?
  }

  /** The sender's message, delivered whole, is received. */
  lemma Received(r: Receiver, k: nat)
    requires Inv(r, k) && !r.ack && r.line.fifo == LastMessage(r.line.tx)
    requires !r.line.tx.status.WaitStartC? && !r.line.tx.status.WaitEotC?
    ensures var (s, code) := Listen(r);
      code == Succ && Inv(s, k) && Got(s) && OnlyPacketChanged(r, s) && s.line.fifo == [] && !s.ack
  {
    hide Listen, Inv, Got, LastMessage, Reachable;
    InvReachable(r, k);
    GoodGot(r, Listen(r).0);
    ListenKeeps(r, k);
  }

  lemma InvReachable(r: Receiver, k: nat)
    requires Inv(r, k)
    ensures Reachable(r.line.tx) && r.expected == Low8(k + 1) && r.line.tx.Valid()
  {
  }

  /** A block that is one ahead is accepted. */
  lemma TakesBlock(r: Receiver, k: nat)
    requires Inv(r, k) && !r.ack && r.line.fifo == LastMessage(r.line.tx)
    requires 1024 * k < |r.line.tx.file| <= LOAD_MAX_SIZE
    requires Sent(r.line.tx) == k + 1 && BlockOut(r.line.tx) && r.line.tx.outcome.Running?
    requires SoundSoFar(r.line.tx.file, r.line.log) && Clean(r.line.log)
    ensures var (s, code) := Listen(r);
      && code == Succ && s.IsNext()
      && Smooth(Accept(s), k + 1) && Holds(Accept(s), k) && Accept(s).line.tape == r.line.tape
      && Accept(s).line.tx == r.line.tx && StoredBytes(Accept(s).line.log) == StoredBytes(r.line.log)
  {
    hide Listen, Inv, SoundSoFar, Clean, StoredBytes, LastMessage, Reachable, BlockPart;
    Received(r, k);
    var s := Listen(r).0;
    InvReachable(s, k);
    BlockNumber(s, k);
    AcceptNewBlock(s, k);
  }

  lemma BlockNumber(s: Receiver, k: nat)
    requires Got(s) && Sent(s.line.tx) == k + 1 && BlockOut(s.line.tx) && s.expected == Low8(k + 1)
    ensures s.IsNext()
  {
    hide Reachable;
  }

  /** Nothing is on the line, and the sender waits for the `C` that asks for the first block. */
  ghost predicate Asking(q: Receiver) {
    && Inv(q, 0) && !q.ack && q.line.fifo == [] && q.line.tx.status.WaitTransC? && q.line.tx.outcome.Running?
    && SoundSoFar(q.line.tx.file, q.line.log) && Clean(q.line.log) && |q.line.tx.file| <= LOAD_MAX_SIZE
  }

  /** After the header: ACK, and a timeout. */
  lemma HeaderAcked(r: Receiver, n: nat)
    requires Smooth(r, 0) && NoFaults(r.line, n) && n >= 1
    ensures var q := Say(r.(ack := false), ACK);
      && Asking(q) && CheckPacket(r) == CheckLoop(AfterError(q), 19, Timeout)
      && UsedUp(r.line, q.line, n, 1)
      && q.line.tx.file == r.line.tx.file && StoredBytes(q.line.log) == StoredBytes(r.line.log)
  {
    hide Put, Inv, SoundSoFar, Clean, StoredBytes, LastMessage, Reachable, React, Smooth, Listen;
    SmoothFacts(r, 0);
    CleanPut(r.line, ACK, n);
    ReactToAck(r.line.tx);
    PutKeeps(r, ACK, 0);
    var q := Say(r.(ack := false), ACK);
    NothingSent(r.line.tx);
    SilentListen(q);
    assert GetPacket(r) == Listen(q) == (q, Timeout);
    assert CheckPacket(r) == CheckLoop(AfterError(q), 19, Timeout);
  }

  /** Then `C`, and the first block. */
  lemma RequestAnswered(q: Receiver, n: nat, retries: nat)
    requires Asking(q) && NoFaults(q.line, n) && n >= 1 && retries > 0
    ensures var (s, code) := CheckLoop(AfterError(q), retries, Timeout);
      && code == Succ && Smooth(s, 1) && Holds(s, 0) && UsedUp(q.line, s.line, n, 1)
      && s.line.tx.file == q.line.tx.file && StoredBytes(s.line.log) == StoredBytes(q.line.log)
  {
    hide Put, Inv, SoundSoFar, Clean, StoredBytes, LastMessage, Reachable, BlockPart, React, Block, Smooth, Listen,
      Rx.IsNext;
    InvReachable(q, 0);
    ReachableFile(q.line.tx);
    CleanPut(q.line, CRC_REQUEST, n);
    ReactToC(q.line.tx);
    PutKeeps(q, CRC_REQUEST, 0);
    var p := AfterError(q);
    assert Heard(q, []) == q.(ack := false) == q;
    ReactMoves(q.line.tx, CRC_REQUEST);
    BlockNotEmpty(q.line.tx.file, 1);
    Alone(React(q.line.tx, CRC_REQUEST).1);
    TakesBlock(p, 0);
    assert GetPacket(p) == Listen(p);
    assert CheckLoop(p, retries, Timeout) == (Accept(Listen(p).0), Succ);
  }

  lemma FirstBlock(r: Receiver, n: nat)
    requires Smooth(r, 0) && NoFaults(r.line, n) && n >= 2
    ensures var (s, code) := CheckPacket(r);
      && code == Succ && Smooth(s, 1) && Holds(s, 0) && UsedUp(r.line, s.line, n, 2)
      && s.line.tx.file == r.line.tx.file && StoredBytes(s.line.log) == StoredBytes(r.line.log)
  {
    hide Put, Smooth, CheckLoop, AfterError, StoredBytes, Holds, Asking;
    HeaderAcked(r, n);
    RequestAnswered(Say(r.(ack := false), ACK), n - 1, 19);
  }

  lemma SmoothFacts(r: Receiver, k: nat)
    requires Smooth(r, k)
    ensures Inv(r, k) && Reachable(r.line.tx) && r.line.tx.outcome.Running? && r.line.fifo == [] && r.ack && !r.eof
    ensures Sent(r.line.tx) == k && Clean(r.line.log) && SoundSoFar(r.line.tx.file, r.line.log)
    ensures |r.line.tx.file| <= LOAD_MAX_SIZE
    ensures if k == 0 then r.line.tx.status.WaitInitAck? else BlockOut(r.line.tx)
  {
  }

  lemma SilentListen(q: Receiver)
    requires q.line.fifo == []
    ensures Listen(q) == (q, Timeout)
  {
    hide Body;
    assert Heard(q, []) == q;
  }

  lemma BlockNotEmpty(file: seq<Byte>, k: nat)
    requires 1 <= k && 1024 * (k - 1) < |file|
    ensures Block(file, k) != []
  {
  }

  lemma Alone(s: seq<Byte>)
    ensures [] + s == s
  {
  }

  /** From block to block: ACK, and the next block comes. */
  lemma NextBlockTaken(r: Receiver, k: nat, n: nat)
    requires Smooth(r, k) && k > 0 && 1024 * k < |r.line.tx.file| && NoFaults(r.line, n) && n >= 1
    ensures var (s, code) := CheckPacket(r);
      && code == Succ && Smooth(s, k + 1) && Holds(s, k) && UsedUp(r.line, s.line, n, 1)
      && s.line.tx.file == r.line.tx.file && StoredBytes(s.line.log) == StoredBytes(r.line.log)
  {
    hide Put, Inv, SoundSoFar, Clean, StoredBytes, LastMessage, Reachable, BlockPart, React, Block, Smooth, Listen,
      Rx.IsNext;
    SmoothFacts(r, k);
    var tx := r.line.tx;
    NotFinalYet(tx, k);
    CleanPut(r.line, ACK, n);
    ReactToAck(tx);
    ReactMoves(tx, ACK);
    PutKeeps(r, ACK, k);
    var q := Say(r.(ack := false), ACK);
    BlockNotEmpty(tx.file, k + 1);
    Alone(React(tx, ACK).1);
    TakesBlock(q, k);
    assert GetPacket(r) == Listen(q);
    assert CheckPacket(r) == (Accept(Listen(q).0), Succ);
  }

  lemma NotFinalYet(tx: Tx, k: nat)
    requires Reachable(tx) && BlockOut(tx) && Sent(tx) == k
    ensures 1024 * k < |tx.file| <==> tx.status.WaitInterAck?
  {
  }

  // The closing exchange --------------------------------------------------------------------------

  const LOST := Fault(Lost, None)

  /** The next `n` octets arrive or are lost. */
  predicate Lossy(line: Line, n: nat) {
    n <= |line.tape| && forall i :: 0 <= i < n ==> line.tape[i] == NO_FAULT || line.tape[i] == LOST
  }

  /** EOT is out, and nothing is on the line. */
  predicate AtEot(line: Line) {
    Reachable(line.tx) && line.tx.status.WaitEotC? && line.tx.outcome.Running? && line.fifo == []
  }

  lemma LostPut(line: Line, ch: Byte)
    requires line.tape != [] && line.tape[0] == LOST
    ensures Put(line, ch) == line.(tape := line.tape[1..])
  {
    hide React;
  }

  lemma OneClean(line: Line)
    requires line.tape != [] && line.tape[0] == NO_FAULT
    ensures NoFaults(line, 1)
  {
  }

  /** The ACK for the last block brings EOT. */
  lemma EotComes(r: Receiver, k: nat)
    requires Smooth(r, k) && k > 0 && 1024 * k >= |r.line.tx.file| && NoFaults(r.line, 1)
    ensures var q := Heard(Say(r.(ack := false), ACK), []);
      && AtEot(q.line) && !q.ack && q.line.tape == r.line.tape[1..] && q.line.log == r.line.log
      && q.line.tx.file == r.line.tx.file && CheckPacket(r) == Close(Say(q, ACK))
  {
    hide Put, Inv, SoundSoFar, Clean, StoredBytes, LastMessage, Reachable, React, Block, Smooth, Listen;
    SmoothFacts(r, k);
    NotFinalYet(r.line.tx, k);
    CleanPut(r.line, ACK, 1);
    ReactToAck(r.line.tx);
    var q := Say(r.(ack := false), ACK);
    assert r.line.log + [] == r.line.log;
    FinalOffset(r.line.tx);
    ParseEot();
    EotListen(q);
    assert q.line.fifo == [EOT];
    assert GetPacket(r) == Listen(q) == (Say(Heard(q, []), ACK), Eot);
    assert CheckPacket(r) == Close(Say(Heard(q, []), ACK));
  }

  lemma FinalOffset(tx: Tx)
    requires Reachable(tx) && tx.status.WaitFinalAck?
    ensures tx.offset == |tx.file|
  {
  }

  /** Both ACKs for EOT are ignored, lost or not ... */
  lemma IdleAck(line: Line)
    requires AtEot(line) && Lossy(line, 1)
    ensures var l := Put(line, ACK);
      AtEot(l) && l.tape == line.tape[1..] && l.log == line.log && l.tx.file == line.tx.file
  {
    hide Put, Reachable, React;
    if line.tape[0] == LOST {
      LostPut(line, ACK);
    } else {
      OneClean(line);
      CleanPut(line, ACK, 1);
      ReactToAck(line.tx);
      assert line.log + [] == line.log;
    }
  }

  /** ... `C` brings the closing header ... */
  lemma CloseAsked(line: Line)
    requires AtEot(line) && Lossy(line, 1)
    ensures var l := Put(line, CRC_REQUEST);
      && Reachable(l.tx) && l.tx.outcome.Running? && l.tape == line.tape[1..] && l.log == line.log
      && l.tx.file == line.tx.file
      && if line.tape[0] == NO_FAULT then l.tx.status.WaitZeroAck? && l.fifo == NullFrame(l.tx.buffer) else AtEot(l)
  {
    hide Put, Reachable, React, NullFrame;
    if line.tape[0] == LOST {
      LostPut(line, CRC_REQUEST);
    } else {
      OneClean(line);
      CleanPut(line, CRC_REQUEST, 1);
      ReactToC(line.tx);
      Alone(NullFrame(Put(line, CRC_REQUEST).tx.buffer));
      assert line.log + [] == line.log;
    }
  }

  /** ... and the ACK for it ends the transfer. */
  lemma LastAck(line: Line)
    requires Reachable(line.tx) && line.tx.outcome.Running? && line.fifo == [] && Lossy(line, 1)
    requires line.tx.status.WaitEotC? || line.tx.status.WaitZeroAck?
    ensures var l := Put(line, ACK);
      && l.log == line.log && l.tx.file == line.tx.file
      && (l.tx.outcome.Succeeded? <==> line.tape[0] == NO_FAULT && line.tx.status.WaitZeroAck?)
  {
    hide Put, Reachable, React;
    if line.tape[0] == LOST {
      LostPut(line, ACK);
    } else {
      OneClean(line);
      CleanPut(line, ACK, 1);
      ReactToAck(line.tx);
      assert line.log + [] == line.log;
    }
  }

  lemma CloseHeard(r: Receiver)
    requires !r.ack && (r.line.fifo == [] || r.line.fifo == NullFrame(r.line.tx.buffer))
    ensures GetPacket(r).0.line == r.line.(fifo := [])
  {
    hide NullFrame, Listen;
    if r.line.fifo == [] {
      SilentListen(r);
    } else {
      ParseNull(r.line.tx.buffer);
      GoodListen(r);
    }
  }

  /** The closing exchange over four octets that arrive or are lost: the receiver is through in any case; the sender
      is if and only if the third and the fourth arrive. */
  lemma CloseOutcome(q: Receiver)
    requires AtEot(q.line) && !q.ack && Lossy(q.line, 4)
    ensures var s := Close(Say(q, ACK)).0;
      && s.eof && s.line.log == q.line.log && s.line.tx.file == q.line.tx.file
      && (s.line.tx.outcome.Succeeded? <==> q.line.tape[2] == NO_FAULT && q.line.tape[3] == NO_FAULT)
  {
    hide Put, Reachable, React, Listen, GetPacket, NullFrame;
    IdleAck(q.line);
    var r := Say(q, ACK);
    IdleAck(r.line);
    var r1 := Say(r, ACK);
    CloseAsked(r1.line);
    var r2 := Say(r1, CRC_REQUEST);
    CloseHeard(r2);
    LastAck(GetPacket(r2).0.line);
  }

  lemma Closing(r: Receiver, k: nat)
    requires Smooth(r, k) && k > 0 && 1024 * k >= |r.line.tx.file| && Lossy(r.line, 5) && r.line.tape[0] == NO_FAULT
    ensures var s := CheckPacket(r).0;
      && s.eof && s.line.log == r.line.log && s.line.tx.file == r.line.tx.file
      && (s.line.tx.outcome.Succeeded? <==> r.line.tape[3] == NO_FAULT && r.line.tape[4] == NO_FAULT)
  {
    hide Smooth, Put, CheckPacket, Close, AtEot;
    OneClean(r.line);
    EotComes(r, k);
    CloseOutcome(Heard(Say(r.(ack := false), ACK), []));
  }

  // The whole call --------------------------------------------------------------------------------

  /** `C` brings the header ... */
  lemma HeaderComes(r: Receiver, n: nat)
    requires Opening(r) && r.line.fifo == [] && r.line.tx == Start(r.line.tx.file) && NoFaults(r.line, n) && n >= 1
    ensures var q, file := Say(r, CRC_REQUEST), r.line.tx.file;
      && Opening(q) && 0 < |file| < U32 && q.line.fifo == InfoFrame(|file|, 0) && q.line.tx.status.WaitInitAck?
      && q.line.tx.outcome.Running? && UsedUp(r.line, q.line, n, 1) && q.line.tx.file == file && !q.ack
  {
    hide Put, React, Reachable, LastMessage, InfoFrame, NoFaults, Pending;
    ReachableFile(r.line.tx);
    CleanPut(r.line, CRC_REQUEST, n);
    ReactToC(r.line.tx);
    OpeningPut(r);
    Alone(InfoFrame(|r.line.tx.file|, 0));
  }

  /** ... and the header opens the transfer. */
  lemma HeaderOpens(q: Receiver, file: seq<Byte>, retries: nat)
    requires retries > 0 && Opening(q) && 0 < |file| <= LOAD_MAX_SIZE && q.line.fifo == InfoFrame(|file|, 0)
    requires q.line.tx.status.WaitInitAck? && q.line.tx.outcome.Running? && q.line.tx.file == file
    ensures var (t, code) := OpenLoop(q, retries);
      && code == Succ && Smooth(t, 0) && t.packetLength == 0 && t.fileLength == |file|
      && t.line == q.line.(fifo := [])
  {
    hide Inv, SoundSoFar, Clean, LastMessage, Reachable, Listen, GetInfo, Opening, InfoFrame, InfoData, Smooth;
    ParseInfo(|file|);
    GoodListen(q);
    OpeningListen(q);
    OpeningFacts(q);
    var s := Listen(q).0;
    assert GetPacket(q) == Listen(q);
    assert OpenLoop(q, retries) == GetInfo(s);
    InfoOpens(s);
    InfoAcks(s);
    EmptyIsSound(file);
    OpenedSmooth(s, GetInfo(s).0);
  }

  lemma OpenSmooth(r: Receiver, file: seq<Byte>, tape: seq<Fault>, n: nat)
    requires AtRest(r, file, tape) && |file| <= LOAD_MAX_SIZE && NoFaults(r.line, n) && n >= 1
    ensures var (t, code) := Open(r);
      && code == Succ && Smooth(t, 0) && t.packetLength == 0 && t.fileLength == |file| && t.line.tx.file == file
      && UsedUp(r.line, t.line, n, 1) && t.line.log == []
  {
    hide Put, OpenLoop, Opening, Smooth, InfoFrame, Start;
    var cleared := r.(packetLength := 0, fileLength := 0, readLength := 0, ack := false, eof := false);
    CallOpens(r, file, tape);
    StartFile(file);
    HeaderComes(cleared, n);
    var q := Say(cleared, CRC_REQUEST);
    HeaderOpens(q, file, MAX_RETRIES);
    OpeningFacts(q);
  }

  lemma StartFile(file: seq<Byte>)
    ensures Start(file).file == file
  {
  }

  lemma InfoAcks(s: Receiver)
    requires s.number == 0
    ensures GetInfo(s).1 == Succ ==> GetInfo(s).0.ack
  {
    hide ParseLength, SkipName;
  }

  lemma OpenedSmooth(s: Receiver, t: Receiver)
    requires Inv(t, 0) && t.ack && t.line == s.line && s.line.fifo == [] && s.line.log == []
    requires s.line.tx.status.WaitInitAck? && s.line.tx.outcome.Running?
    requires SoundSoFar(t.line.tx.file, []) && |t.line.tx.file| <= LOAD_MAX_SIZE
    ensures Smooth(t, 0)
  {
    hide SoundSoFar, Reachable, LastMessage;
    NothingSent(s.line.tx);
  }

  lemma SmoothLength(r: Receiver, k: nat)
    requires Smooth(r, k)
    ensures Smooth(r.(packetLength := 0), k)
  {
    hide Inv, SoundSoFar, Clean, Reachable, LastMessage;
    LengthIgnored(r, k);
  }

  /** What the line must carry before block `k + 1` is in: the first block takes an ACK and a `C`. */
  function Budget(k: nat): nat {
    if k == 0 then 2 else 1
  }

  lemma NextChecked(r: Receiver, k: nat, n: nat)
    requires Smooth(r, k) && 1024 * k < |r.line.tx.file| && NoFaults(r.line, n) && n >= Budget(k)
    ensures var (s, code) := CheckPacket(r);
      && code == Succ && Smooth(s, k + 1) && Holds(s, k) && UsedUp(r.line, s.line, n, Budget(k))
      && s.line.tx.file == r.line.tx.file && StoredBytes(s.line.log) == StoredBytes(r.line.log)
  {
    hide CheckPacket, Smooth, NoFaults, StoredBytes, Holds;
    if k == 0 {
      FirstBlock(r, n);
    } else {
      NextBlockTaken(r, k, n);
    }
  }

  /** A window of the loader is filled with the next block. */
  lemma WindowFilled(r: Receiver, k: nat, n: nat)
    requires Smooth(r, k) && r.packetLength == 0 && 1024 * k < |r.line.tx.file|
    requires NoFaults(r.line, n) && n >= Budget(k)
    ensures var file := r.line.tx.file;
      var (s, data) := Read(r, Min(|file| - 1024 * k, READ_SIZE));
      && data == BlockPart(file, k + 1) && Smooth(s, k + 1) && s.packetLength == 0 && s.line.tx.file == file
      && UsedUp(r.line, s.line, n, Budget(k)) && StoredBytes(s.line.log) == StoredBytes(r.line.log)
  {
    hide CheckPacket, Smooth, NoFaults, StoredBytes, BlockPart, Read, Budget, UsedUp, Reachable, Inv, SoundSoFar,
      Clean, BlockOut;
    EnoughTape(r.line, n);
    NextChecked(r, k, n);
    var r1 := CheckPacket(r).0;
    SmoothFacts(r, k);
    SmoothFacts(r1, k + 1);
    PartSize(r.line.tx.file, k);
    ReadOnePacket(r, r1, Min(|r.line.tx.file| - 1024 * k, READ_SIZE));
    SmoothLength(r1, k + 1);
  }

  lemma EnoughTape(line: Line, n: nat)
    requires NoFaults(line, n)
    ensures n <= |line.tape|
  {
  }

  lemma ReadOnePacket(r: Receiver, r1: Receiver, size: nat)
    requires !r.eof && r.packetLength == 0 && CheckPacket(r) == (r1, Succ)
    requires !r1.eof && 0 < size == r1.packetLength <= PACKET_SIZE
    ensures Read(r, size) == (r1.(packetLength := 0), r1.packet[..size])
  {
    hide CheckPacket;
    assert Read(r1.(packetLength := 0), 0) == (r1.(packetLength := 0), []);
    assert r1.packet[..size] + [] == r1.packet[..size];
  }

  lemma StoreSmooth(r: Receiver, k: nat)
    requires Smooth(r, k + 1) && 1024 * k < |r.line.tx.file|
    requires StoredBytes(r.line.log) == Carried(r.line.tx.file, k)
    ensures var s := Note(r, Stored(BlockPart(r.line.tx.file, k + 1)));
      Smooth(s, k + 1) && StoredBytes(s.line.log) == Carried(r.line.tx.file, k + 1)
  {
    hide Inv, SoundSoFar, Clean, Reachable, LastMessage, StoredBytes, Carried, BlockPart;
    StoreKeeps(r, k);
  }

  lemma {:induction false} ReceiveSmooth(r: Receiver, k: nat, remaining: nat, n: nat)
    requires Smooth(r, k) && r.packetLength == 0 && StoredBytes(r.line.log) == Carried(r.line.tx.file, k)
    requires remaining == if 1024 * k < |r.line.tx.file| then |r.line.tx.file| - 1024 * k else 0
    requires NoFaults(r.line, n) && n >= BlockCount(remaining) + Budget(k) + 4
    ensures var (s, ok) := ReceiveFile(r, remaining);
      ok && s.line.tx.outcome.Succeeded? && StoredBytes(s.line.log) == r.line.tx.file
    decreases remaining
  {
    hide Smooth, NoFaults, StoredBytes, Carried, Read, BlockPart, BlockCount, Reachable, BlockOut, Clean, SoundSoFar,
      Inv;
    SmoothFacts(r, k);
    FewerBlocks(remaining);
    var file := r.line.tx.file;
    if remaining == 0 {
      CarriedAll(file, k);
      ReachableFile(r.line.tx);
      LastRead(r, k, n);
      return;
    }
    WindowFilled(r, k, n);
    PartSize(file, k);
    var (r1, data) := Read(r, Min(remaining, READ_SIZE));
    StoreSmooth(r1, k);
    SameTape(r1, Stored(data), n - Budget(k));
    ReceiveSmooth(Note(r1, Stored(data)), k + 1, remaining - |data|, n - Budget(k));
  }

  lemma FewerBlocks(remaining: nat)
    ensures BlockCount(remaining) == if remaining == 0 then 0 else 1 + BlockCount(remaining - Min(remaining, READ_SIZE))
  {
  }

  lemma SameTape(r: Receiver, e: Event, n: nat)
    requires NoFaults(r.line, n)
    ensures NoFaults(Note(r, e).line, n)
  {
  }

  lemma LastRead(r: Receiver, k: nat, n: nat)
    requires Smooth(r, k) && r.packetLength == 0 && k > 0 && 1024 * k >= |r.line.tx.file|
    requires NoFaults(r.line, n) && n >= 5
    ensures var s := Read(r, READ_SIZE).0; s.line.tx.outcome.Succeeded? && s.line.log == r.line.log
  {
    hide Smooth, CheckPacket;
    SmoothFacts(r, k);
    Closing(r, k);
  }

  /** On a line that spoils none of the first octets, one for every block and seven more, every file
      within the load limits arrives: loader and sender both report success, and flash holds the
      file. */
  lemma Completion(r: Receiver, file: seq<Byte>, tape: seq<Fault>, erased: nat, min: nat, max: nat)
    requires AtRest(r, file, tape) && NoFaults(r.line, BlockCount(|file|) + 7)
    requires min < |file| <= max && |file| <= 0x100_0000 && (erased == 0 || |file| <= erased)
    ensures var (s, ok) := LoadSerial(r, erased, min, max);
      ok && s.line.tx.outcome.Succeeded? && StoredBytes(s.line.log) == file
  {
    hide Open, Smooth, NoFaults, StoredBytes, ReceiveFile, Carried;
    var n := BlockCount(|file|) + 7;
    OpenSmooth(r, file, tape, n);
    EmptyIsSound(file);
    var t := Open(r).0;
    ReceiveSmooth(t, 0, |file|, n - 1);
  }
}
