/** What flash holds once the last allowed try of `ymodem_check_packet` has brought a duplicate. */
module WrongImage {
  import opened Bytes
  import opened YmodemFrames
  import opened Transfer
  import opened TransferRuns
  import opened Ymodem
  import opened FileHeader
  import opened Load
  import opened EndToEnd
  import opened TransferTheorems
  import opened FaultFree
  import opened StaleBlock
  import opened SerialLoad

  /** The history before the first duplicate that was taken for data. */
  function BeforeStale(log: seq<Event>): seq<Event>
    decreases |log|
  {
    if log == [] || log[0] == LastTryDuplicate then [] else [log[0]] + BeforeStale(log[1..])
  }

  /** How many blocks had been accepted by then. */
  function StaleAt(log: seq<Event>): nat {
    Tally(BeforeStale(log), BlockAccepted)
  }

  /** The packet that passes for block `k + 1`: block `k`, or the file header. */
  function StaleData(file: seq<Byte>, k: nat): (data: seq<Byte>)
    requires 1024 * k < |file| < U32
    ensures |data| == if k == 0 then 128 else 1024
  {
    if k == 0 then InfoData(|file|) else file[1024 * (k - 1)..1024 * k]
  }

  /** As much of it as the loader reads: no more than is still missing. */
  function StalePart(file: seq<Byte>, k: nat): (data: seq<Byte>)
    requires 1024 * k < |file| < U32
    ensures 0 < |data| <= |file| - 1024 * k
  {
    var data := StaleData(file, k);
    data[..Min(|data|, |file| - 1024 * k)]
  }

  lemma {:induction false} StaleIsFirst(front: seq<Event>, rest: seq<Event>)
    requires Clean(front)
    ensures BeforeStale(front + [LastTryDuplicate] + rest) == front
    decreases |front|
  {
    var log := front + [LastTryDuplicate] + rest;
    if front == [] {
      assert log[0] == LastTryDuplicate;
    } else {
      assert log[0] == front[0];
      assert log[1..] == front[1..] + [LastTryDuplicate] + rest;
      StaleIsFirst(front[1..], rest);
    }
  }

  /** The last event is the first duplicate taken for data, after `k` blocks, and the packet is at hand. */
  ghost predicate TookStale(s: Receiver, k: nat) {
    var file, log := s.line.tx.file, s.line.log;
    && log != [] && log[|log| - 1] == LastTryDuplicate
    && Clean(log[..|log| - 1]) && Tally(log[..|log| - 1], BlockAccepted) == k
    && !s.eof
    && (1024 * k < |file| < U32 ==>
          s.packetLength == |StaleData(file, k)| && s.packet[..s.packetLength] == StaleData(file, k))
  }

  lemma StaleCount(log: seq<Event>, longer: seq<Event>)
    requires log != [] && log[|log| - 1] == LastTryDuplicate && Clean(log[..|log| - 1]) && log <= longer
    ensures StaleAt(longer) == Tally(log[..|log| - 1], BlockAccepted) && !Clean(longer)
  {
    var front, rest := log[..|log| - 1], longer[|log|..];
    assert longer == front + [LastTryDuplicate] + rest;
    StaleIsFirst(front, rest);
  }

  /** The duplicate's contents. */
  lemma StaleContents(s: Receiver, k: nat)
    requires Inv(s, k) && Got(s) && s.IsDuplicate() && 1024 * k < |s.line.tx.file| < U32
    ensures s.packetLength == |StaleData(s.line.tx.file, k)|
    ensures s.packet[..s.packetLength] == StaleData(s.line.tx.file, k)
  {
    hide Inv, Got, Rx.IsDuplicate, InfoData, BlockData, Reachable, GotBlock;
    DuplicateIsOld(s, k);
    InvParts(s, k);
    var tx := s.line.tx;
    if k == 0 {
      StatusOfNone(tx);
      InfoAtHand(s);
    } else {
      StatusOfSome(tx, k);
      BlockAtHand(s);
      GotBlockSays(s, k);
      WholeBlock(tx.file, k);
    }
  }

  lemma StatusOfNone(tx: Tx)
    requires Reachable(tx) && Sent(tx) == 0
    ensures tx.status.WaitStartC? || tx.status.WaitInitAck? || tx.status.WaitTransC?
  {
  }

  lemma StatusOfSome(tx: Tx, k: nat)
    requires Reachable(tx) && Sent(tx) == k > 0 && 1024 * k < |tx.file|
    ensures tx.status.WaitInterAck?
  {
  }

  lemma InfoAtHand(s: Receiver)
    requires Got(s) && |s.line.tx.file| < U32
    requires s.line.tx.status.WaitStartC? || s.line.tx.status.WaitInitAck? || s.line.tx.status.WaitTransC?
    ensures GotInfo(s)
  {
    hide Reachable, InfoData;
  }

  lemma BlockAtHand(s: Receiver)
    requires Got(s) && s.line.tx.status.WaitInterAck?
    ensures 1 <= Sent(s.line.tx) && 1024 * (Sent(s.line.tx) - 1) < |s.line.tx.file| && GotBlock(s)
  {
    BlockIsOut(s.line.tx);
    hide Reachable, BlockData, BlockSize, Sent;
  }

  /** The last try. */
  lemma LastTryStale(s: Receiver, k: nat)
    requires Inv(s, k) && Got(s) && s.IsDuplicate() && s.line.fifo == [] && !s.ack
    requires SoundSoFar(s.line.tx.file, s.line.log) && Clean(s.line.log)
    ensures TookStale(AfterDuplicate(s, 1), k)
  {
    hide Put, Inv, Got, Rx.IsDuplicate, SoundSoFar, Clean, Tally, StaleData;
    if 1024 * k < |s.line.tx.file| {
      DuplicateIsOld(s, k);
    }
    if 1024 * k < |s.line.tx.file| < U32 {
      StaleContents(s, k);
    }
    PutKeeps(s, ACK, k);
    assert s.(ack := false) == s;
    var a := Say(s, ACK);
    InvParts(a, k);
    InvNotEof(a, k);
    assert (a.line.log + [LastTryDuplicate])[..|a.line.log|] == a.line.log;
  }

  /** `ymodem_check_packet` takes a duplicate for data only as its very last act. */
  lemma {:induction false} CheckLoopStale(r: Receiver, k: nat, retries: nat, ret: Code)
    requires Inv(r, k) && SoundSoFar(r.line.tx.file, r.line.log) && Clean(r.line.log)
    ensures var (s, code) := CheckLoop(r, retries, ret);
      !Clean(s.line.log) ==> code == Succ && TookStale(s, k)
    decreases retries
  {
    hide GetPacket, Inv, Got, Close, AfterError, AfterDuplicate, Rx.IsNext, Rx.IsDuplicate, SoundSoFar,
      Clean, Reachable, StoredBytes, TookStale;
    if retries == 0 {
      return;
    }
    var (r1, code) := GetPacket(r);
    GetPacketKeeps(r, k);
    if code == Succ && r1.IsNext() {
      EventEffects(r1.line.log, BlockAccepted);
    } else if code == Succ && r1.IsDuplicate() {
      if retries == 1 {
        LastTryStale(r1, k);
      } else {
        DuplicateKeeps(r1, k, retries);
        CheckLoopStale(AfterDuplicate(r1, retries), k, retries - 1, Succ);
      }
    } else if code == Cancel {
    } else if code == Eot {
      CloseKeeps(r1);
    } else {
      ErrorKeeps(r1, k);
      CheckLoopStale(AfterError(r1), k, retries - 1, if code == Succ then SequenceError else code);
    }
  }

  lemma CopyBegins(r: Receiver, size: nat)
    requires 0 < size <= PACKET_SIZE && r.packetLength <= PACKET_SIZE
    ensures r.packet[..Min(size, r.packetLength)] <= Copy(r, size).1
  {
    hide Read;
  }

  /** A prefix of a prefix. */
  lemma ShorterFront<T>(s: seq<T>, n: nat, m: nat, data: seq<T>)
    requires m <= n <= |s| && s[..n] == data
    ensures data[..m] == s[..m]
  {
  }

  /** The packet at hand is the duplicate, and the window begins with it. */
  lemma StaleCopied(r: Receiver, k: nat)
    requires TookStale(r, k) && 1024 * k < |r.line.tx.file| < U32
    ensures var file := r.line.tx.file;
      var size := Min(|file| - 1024 * k, READ_SIZE);
      var (s, data) := Copy(r, size);
      StalePart(file, k) <= data && StaleAt(s.line.log) == k && !Clean(s.line.log) && s.line.tx.file == file
  {
    hide Clean, StaleData, Tally, Copy, StaleAt;
    var file := r.line.tx.file;
    var size := Min(|file| - 1024 * k, READ_SIZE);
    CopyContinues(r, size);
    var s := Copy(r, size).0;
    ContinuesLog(r.line, s.line);
    StaleCount(r.line.log, s.line.log);
    CopyBegins(r, size);
    ShorterFront(r.packet, r.packetLength, Min(size, r.packetLength), StaleData(file, k));
  }

  /** The window that meets the duplicate. */
  lemma StaleWindowRead(r: Receiver, k: nat)
    requires Inv(r, k) && SoundSoFar(r.line.tx.file, r.line.log) && Clean(r.line.log)
    requires r.packetLength == 0 && 1024 * k < |r.line.tx.file| <= LOAD_MAX_SIZE
    ensures var file := r.line.tx.file;
      var (s, data) := Read(r, Min(|file| - 1024 * k, READ_SIZE));
      !Clean(s.line.log) ==> StalePart(file, k) <= data && StaleAt(s.line.log) == k && s.line.tx.file == file
  {
    hide CheckLoop, Inv, SoundSoFar, Clean, StalePart, Copy, StaleAt, TookStale, Quiet, StoredBytes;
    var file := r.line.tx.file;
    var size := Min(|file| - 1024 * k, READ_SIZE);
    InvNotEof(r, k);
    CheckLoopStale(r, k, MAX_RETRIES, Fail);
    CheckLoopKeeps(r, k, MAX_RETRIES, Fail);
    CheckLoopContinues(r, MAX_RETRIES, Fail);
    var (r1, code) := CheckPacket(r);
    if !Clean(r1.line.log) {
      NotYetOver(r1, k);
      StaleCopied(r1, k);
    } else if code == Succ && !r1.eof {
      PartSize(file, k);
      ReadOnePacket(r, r1, size);
    }
  }

  lemma NotYetOver(s: Receiver, k: nat)
    requires TookStale(s, k)
    ensures !s.eof
  {
  }

  /** What flash holds: the file, or the first blocks and then, in place of the next, the one before it again. */
  ghost predicate Outcome(file: seq<Byte>, log: seq<Event>)
    requires |file| < U32
  {
    var k := StaleAt(log);
    if 1024 * k < |file| then Carried(file, k) + StalePart(file, k) <= StoredBytes(log) else StoredBytes(log) == file
  }

  /** What is stored stays stored. */
  lemma {:induction false} ReceiveAppends(r: Receiver, remaining: nat)
    ensures var (s, ok) := ReceiveFile(r, remaining);
      && StoredBytes(r.line.log) <= StoredBytes(s.line.log)
      && (ok ==> |StoredBytes(s.line.log)| == |StoredBytes(r.line.log)| + remaining)
    decreases remaining
  {
    hide Read, StoredBytes;
    if remaining == 0 {
      ReadStoresNothing(r, READ_SIZE);
      return;
    }
    ReadStoresNothing(r, Min(remaining, READ_SIZE));
    var (r1, data) := Read(r, Min(remaining, READ_SIZE));
    EventEffects(r1.line.log, Stored(data));
    if data != [] && |data| <= remaining {
      ReceiveAppends(Note(r1, Stored(data)), remaining - |data|);
    }
  }

  lemma StaleStays(log: seq<Event>, longer: seq<Event>)
    requires !Clean(log) && log <= longer
    ensures StaleAt(longer) == StaleAt(log) && !Clean(longer)
  {
    hide Tally;
    StaleFound(log);
    var front := BeforeStale(log);
    StaleIsFirst(front, log[|front| + 1..]);
    assert longer == front + [LastTryDuplicate] + longer[|front| + 1..];
    StaleIsFirst(front, longer[|front| + 1..]);
  }

  lemma {:induction false} StaleFound(log: seq<Event>)
    requires !Clean(log)
    ensures var front := BeforeStale(log);
      |front| < |log| && Clean(front) && log == front + [LastTryDuplicate] + log[|front| + 1..]
    decreases |log|
  {
    if log[0] != LastTryDuplicate {
      StaleFound(log[1..]);
    }
  }

  lemma {:induction false} TallyGrows(log: seq<Event>, longer: seq<Event>, e: Event)
    requires log <= longer
    ensures Tally(log, e) <= Tally(longer, e)
    decreases |longer|
  {
    if |longer| == |log| {
      assert longer == log;
    } else {
      TallyGrows(log, longer[..|longer| - 1], e);
    }
  }

  lemma {:induction false} CleanComesFirst(log: seq<Event>, longer: seq<Event>)
    requires Clean(log) && log <= longer
    ensures log <= BeforeStale(longer)
    decreases |log|
  {
    if log != [] {
      assert longer[0] == log[0] && log[0] in log;
      CleanComesFirst(log[1..], longer[1..]);
    }
  }

  /** A duplicate taken later comes after all the blocks there are now. */
  lemma StaleLater(log: seq<Event>, longer: seq<Event>)
    requires Clean(log) && log <= longer
    ensures StaleAt(longer) >= Tally(log, BlockAccepted)
  {
    CleanComesFirst(log, longer);
    TallyGrows(log, BeforeStale(longer), BlockAccepted);
  }

  /** After the last block a duplicate does no harm. */
  lemma LateStale(r: Receiver, k: nat, longer: seq<Event>)
    requires Inv(r, k) && |r.line.tx.file| < U32 && 1024 * k >= |r.line.tx.file|
    requires Clean(r.line.log) && r.line.log <= longer && StoredBytes(longer) == r.line.tx.file
    ensures Outcome(r.line.tx.file, longer)
  {
    hide Inv, Clean, StoredBytes, StaleAt, Tally, Carried, StalePart;
    InvParts(r, k);
    StaleLater(r.line.log, longer);
  }

  lemma StaleStored(r: Receiver, k: nat, data: seq<Byte>, remaining: nat)
    requires 1024 * k < |r.line.tx.file| < U32 && !Clean(r.line.log) && StaleAt(r.line.log) == k
    requires StoredBytes(r.line.log) == Carried(r.line.tx.file, k) && StalePart(r.line.tx.file, k) <= data
    ensures Outcome(r.line.tx.file, ReceiveFile(Note(r, Stored(data)), remaining).0.line.log)
  {
    hide ReceiveFile, StoredBytes, StaleAt, Carried, StalePart, Clean;
    var file, s := r.line.tx.file, Note(r, Stored(data));
    var t := ReceiveFile(s, remaining).0;
    EventEffects(r.line.log, Stored(data));
    ReceiveContinues(s, remaining);
    ReceiveAppends(s, remaining);
    StaleStays(r.line.log, t.line.log);
    assert Carried(file, k) + StalePart(file, k) <= Carried(file, k) + data;
  }

  /** The rest of `receive_file`, from a clean state with `k` blocks stored. */
  lemma {:induction false} ReceiveOutcome(r: Receiver, k: nat, remaining: nat)
    requires Inv(r, k) && SoundSoFar(r.line.tx.file, r.line.log) && |r.line.tx.file| <= LOAD_MAX_SIZE
    requires Clean(r.line.log) && StoredBytes(r.line.log) == Carried(r.line.tx.file, k)
    requires 1024 * k < |r.line.tx.file| ==> r.packetLength == 0
    requires remaining == if 1024 * k < |r.line.tx.file| then |r.line.tx.file| - 1024 * k else 0
    ensures var s := ReceiveFile(r, remaining).0;
      !Clean(s.line.log) ==> Outcome(r.line.tx.file, s.line.log)
    decreases remaining
  {
    hide Read, Inv, SoundSoFar, Clean, StoredBytes, Carried, BlockPart, Outcome, StaleAt, StalePart, Quiet;
    var file := r.line.tx.file;
    if remaining == 0 {
      ReadStoresNothing(r, READ_SIZE);
      ReadContinues(r, READ_SIZE);
      CarriedAll(file, k);
      var s := Read(r, READ_SIZE).0;
      ContinuesLog(r.line, s.line);
      LateStale(r, k, s.line.log);
      return;
    }
    ReadBlock(r, k);
    StaleWindowRead(r, k);
    ReadStoresNothing(r, Min(remaining, READ_SIZE));
    var (r1, data) := Read(r, Min(remaining, READ_SIZE));
    if !Clean(r1.line.log) {
      StaleStored(r1, k, data, remaining - |data|);
    } else if data != [] {
      PartSize(file, k);
      StoreKeeps(r1, k);
      ReceiveOutcome(Note(r1, Stored(data)), k + 1, remaining - |data|);
    }
  }

  /** For every file, every line and every load limits: if a duplicate was ever taken for data, then flash holds
      the file if all of it was there by then, and otherwise the blocks accepted by then followed by the last of
      them (or, before the first, the file header) once more. Whatever happened, success means the right length. */
  lemma WrongImageExactly(r: Receiver, file: seq<Byte>, tape: seq<Fault>, erased: nat, min: nat, max: nat)
    requires AtRest(r, file, tape)
    ensures var (s, ok) := LoadSerial(r, erased, min, max);
      && (!Clean(s.line.log) ==> Outcome(file, s.line.log))
      && (ok ==> |StoredBytes(s.line.log)| == |file|)
  {
    hide Open, Inv, SoundSoFar, Clean, StoredBytes, ReceiveFile, Carried, Outcome, AtRest;
    OpenResult(r, file, tape);
    EmptyIsSound(file);
    var (t, code) := Open(r);
    if code == Succ && t.fileLength != 0 {
      CarriedNext(file, 0);
      ReceiveOutcome(t, 0, t.fileLength);
      ReceiveAppends(t, t.fileLength);
    }
  }

  /** No part of the file repeats what was sent before it. */
  ghost predicate NeighboursDiffer(file: seq<Byte>)
    requires |file| < U32
  {
    forall k: nat :: 1024 * k < |file| ==> !(Carried(file, k) + StalePart(file, k) <= file)
  }

  /** No duplicate was taken for data while data was missing. */
  ghost predicate Harmless(file: seq<Byte>, log: seq<Event>) {
    Clean(log) || 1024 * StaleAt(log) >= |file|
  }

  /** For files whose neighbouring blocks differ: after success, flash holds the file if and only if no duplicate
      was taken for data while data was missing. */
  lemma SuccessMeansExactly(r: Receiver, file: seq<Byte>, tape: seq<Fault>, erased: nat, min: nat, max: nat)
    requires AtRest(r, file, tape) && NeighboursDiffer(file)
    ensures var (s, ok) := LoadSerial(r, erased, min, max);
      ok ==> (StoredBytes(s.line.log) == file <==> Harmless(file, s.line.log))
  {
    hide LoadSerial, StoredBytes, Clean, SoundSoFar, StaleAt, Carried, StalePart;
    WrongImageExactly(r, file, tape, erased, min, max);
    Safety(r, file, tape, erased, min, max);
  }
}
