/** The loader with windows of other sizes than 1024 octets, as builds with large packets have them. */
module WideWindow {
  import opened Bytes
  import opened YmodemFrames
  import opened Transfer
  import opened TransferRuns
  import opened Ymodem
  import opened Load
  import opened EndToEnd
  import opened TransferTheorems
  import opened FaultFree
  import opened StaleBlock

  /** `receive_file` with windows of `window` octets. The last part of the result says whether some window ended
      early and left a packet in the buffer. */
  function ReceiveWindows(r: Receiver, remaining: nat, window: nat): (Receiver, bool, bool)
    requires 0 < window <= PACKET_SIZE
    decreases remaining
  {
    if remaining == 0 then (Read(r, window).0, true, false)
    else
      var size := Min(remaining, window);
      var (r1, data) := Read(r, size);
      if data == [] || remaining < |data| then (r1, false, false)
      else
        var (s, ok, cut) := ReceiveWindows(Note(r1, Stored(data)), remaining - |data|, window);
        (s, ok, cut || (|data| < size && r1.packetLength != 0))
  }

  function LoadWindows(r: Receiver, erased: nat, min: nat, max: nat, window: nat): (Receiver, bool, bool)
    requires 0 < window <= PACKET_SIZE
  {
    var (r1, code) := Open(r);
    if code != Succ || r1.fileLength <= min || r1.fileLength > max then (Heard(r1, []), false, false)
    else if erased != 0 && erased < r1.fileLength then (Heard(r1, []), false, false)
    else
      var (r2, ok, cut) := ReceiveWindows(r1, r1.fileLength, window);
      (Heard(r2, []), ok, cut)
  }

  lemma {:induction false} ReceiveNarrow(r: Receiver, remaining: nat)
    ensures var (s, ok, _) := ReceiveWindows(r, remaining, READ_SIZE); (s, ok) == ReceiveFile(r, remaining)
    decreases remaining
  {
    hide Read;
    if remaining > 0 {
      var (r1, data) := Read(r, Min(remaining, READ_SIZE));
      if data != [] && |data| <= remaining {
        ReceiveNarrow(Note(r1, Stored(data)), remaining - |data|);
      }
    }
  }

  /** With windows of 1024 octets this is the loader of module Load. */
  lemma LoadNarrow(r: Receiver, erased: nat, min: nat, max: nat)
    ensures var (s, ok, _) := LoadWindows(r, erased, min, max, READ_SIZE); (s, ok) == LoadSerial(r, erased, min, max)
  {
    hide Open, ReceiveFile, ReceiveWindows;
    ReceiveNarrow(Open(r).0, Open(r).0.fileLength);
  }

  // Whole windows ---------------------------------------------------------------------------------

  /** The part of the file that blocks `k + 1` to `m` carry. */
  function Blocks(file: seq<Byte>, k: nat, m: nat): seq<Byte>
    requires k <= m
  {
    file[Min(1024 * k, |file|)..Min(1024 * m, |file|)]
  }

  lemma BlocksJoin(file: seq<Byte>, k: nat, m: nat)
    requires k < m && 1024 * k < |file|
    ensures BlockPart(file, k + 1) + Blocks(file, k + 1, m) == Blocks(file, k, m)
  {
  }

  lemma CarriedBlocks(file: seq<Byte>, k: nat, m: nat)
    requires k <= m
    ensures Carried(file, k) + Blocks(file, k, m) == Carried(file, m) <= file
    ensures 1024 * k < |file| ==> |Blocks(file, k, m)| == Min(1024 * m, |file|) - 1024 * k
  {
  }

  function Missing(file: seq<Byte>, k: nat): nat {
    if 1024 * k < |file| then |file| - 1024 * k else 0
  }

  /** A window of whole blocks gets the next blocks of the file, as many as come. */
  lemma {:induction false} ReadWindow(r: Receiver, k: nat, window: nat) returns (m: nat)
    requires Inv(r, k) && SoundSoFar(r.line.tx.file, r.line.log)
    requires r.packetLength == 0 && |r.line.tx.file| <= LOAD_MAX_SIZE
    requires window <= PACKET_SIZE && window % 1024 == 0
    ensures var file := r.line.tx.file;
      var size := Min(Missing(file, k), window);
      var (s, data) := Read(r, size);
      && SoundSoFar(file, s.line.log) && s.line.tx.file == file && m >= k
      && (Clean(s.line.log) ==>
        && Quiet(r, s) && Inv(s, m) && data == Blocks(file, k, m)
        && (|data| == size ==> s.packetLength == 0))
    decreases window
  {
    hide CheckLoop, Inv, SoundSoFar, Quiet, Clean, StoredBytes, BlockPart, Blocks;
    var file := r.line.tx.file;
    var size := Min(Missing(file, k), window);
    InvNotEof(r, k);
    NoBlocks(file, k);
    QuietItself(r);
    m := k;
    if size == 0 {
      return;
    }
    CheckLoopKeeps(r, k, MAX_RETRIES, Fail);
    var (r1, code) := CheckPacket(r);
    if code == Succ && !r1.eof {
      if Clean(r1.line.log) {
        PartSize(file, k);
        LengthIgnored(r1, k + 1);
        QuietLength(r, r1);
        var r2 := r1.(packetLength := 0);
        QuietSound(r, r2);
        m := ReadWindow(r2, k + 1, window - 1024);
        var s := Read(r2, size - r1.packetLength).0;
        if Clean(s.line.log) {
          QuietTransitive(r, r2, s);
        }
        BlocksJoin(file, k, m);
      } else {
        CopyContinues(r1, size);
        ContinuesLog(r1.line, Copy(r1, size).0.line);
        UncleanStaysSound(file, r1.line.log, Copy(r1, size).0.line.log);
      }
    }
  }

  lemma NoBlocks(file: seq<Byte>, k: nat)
    ensures Blocks(file, k, k) == []
  {
  }

  lemma QuietItself(r: Receiver)
    requires SoundSoFar(r.line.tx.file, r.line.log)
    ensures Quiet(r, r)
  {
  }

  // The loader ------------------------------------------------------------------------------------

  lemma BlocksStored(r: Receiver, k: nat, m: nat)
    requires Inv(r, m) && SoundSoFar(r.line.tx.file, r.line.log) && k <= m
    requires Clean(r.line.log) && StoredBytes(r.line.log) == Carried(r.line.tx.file, k)
    ensures var s := Note(r, Stored(Blocks(r.line.tx.file, k, m)));
      && Inv(s, m) && SoundSoFar(s.line.tx.file, s.line.log) && Clean(s.line.log)
      && StoredBytes(s.line.log) == Carried(r.line.tx.file, m)
  {
    hide Reachable, Rejected, LastMessage, SoundSoFar, StoredBytes, Tally, Clean, Blocks, Carried;
    var file, log, part := r.line.tx.file, r.line.log, Blocks(r.line.tx.file, k, m);
    EventEffects(log, Stored(part));
    SoundNow(file, log);
    CarriedBlocks(file, k, m);
    OneMoreEvent(file, log, Stored(part));
  }

  lemma {:induction false} WindowsContinue(r: Receiver, remaining: nat, window: nat)
    requires 0 < window <= PACKET_SIZE
    ensures r.line.log <= ReceiveWindows(r, remaining, window).0.line.log
    decreases remaining
  {
    hide Read;
    ReadContinues(r, if remaining == 0 then window else Min(remaining, window));
    if remaining > 0 {
      var (r1, data) := Read(r, Min(remaining, window));
      if data != [] && |data| <= remaining {
        WindowsContinue(Note(r1, Stored(data)), remaining - |data|, window);
      }
    }
  }

  /** Once a duplicate has been taken for data the history stays marked. */
  lemma WindowsUnclean(r: Receiver, remaining: nat, window: nat)
    requires 0 < window <= PACKET_SIZE && remaining > 0 && !Clean(Read(r, Min(remaining, window)).0.line.log)
    ensures !Clean(ReceiveWindows(r, remaining, window).0.line.log)
  {
    hide Read, Clean;
    var (r1, data) := Read(r, Min(remaining, window));
    if data != [] && |data| <= remaining {
      WindowsContinue(Note(r1, Stored(data)), remaining - |data|, window);
      MarkStays(r1.line.log, ReceiveWindows(r, remaining, window).0.line.log);
    }
  }

  lemma MarkStays(log: seq<Event>, longer: seq<Event>)
    requires !Clean(log) && log <= longer
    ensures !Clean(longer)
  {
    var n :| 0 <= n < |log| && log[n] == LastTryDuplicate;
    assert longer[n] == log[n];
  }

  lemma {:induction false} WindowsKeep(r: Receiver, k: nat, window: nat)
    requires Inv(r, k) && SoundSoFar(r.line.tx.file, r.line.log) && |r.line.tx.file| <= LOAD_MAX_SIZE
    requires Clean(r.line.log) && StoredBytes(r.line.log) == Carried(r.line.tx.file, k)
    requires 1024 * k < |r.line.tx.file| ==> r.packetLength == 0
    requires 0 < window <= PACKET_SIZE && window % 1024 == 0
    ensures var file := r.line.tx.file;
      var (s, ok, cut) := ReceiveWindows(r, Missing(file, k), window);
      Clean(s.line.log) && !cut ==> StoredBytes(s.line.log) <= file && (ok ==> StoredBytes(s.line.log) == file)
    decreases Missing(r.line.tx.file, k)
  {
    hide Read, Inv, SoundSoFar, Clean, StoredBytes, Tally, Carried, Blocks, Quiet;
    var file := r.line.tx.file;
    CarriedBlocks(file, k, k);
    if 1024 * k >= |file| {
      ReadEnd(r, k, window);
      CarriedAll(file, k);
      return;
    }
    var m := ReadWindow(r, k, window);
    var size := Min(Missing(file, k), window);
    var (r1, data) := Read(r, size);
    if !Clean(r1.line.log) {
      WindowsUnclean(r, Missing(file, k), window);
      return;
    }
    QuietStores(r, r1);
    if data != [] {
      CarriedBlocks(file, k, m);
      BlocksStored(r1, k, m);
      if |data| == size || r1.packetLength == 0 {
        WindowsKeep(Note(r1, Stored(data)), m, window);
      }
    }
  }

  lemma QuietStores(r: Receiver, s: Receiver)
    requires Quiet(r, s)
    ensures StoredBytes(s.line.log) == StoredBytes(r.line.log) && SoundSoFar(s.line.tx.file, s.line.log)
  {
    hide SoundSoFar, StoredBytes;
  }

  /** For every window of whole blocks, every file, line and load limits: as long as no window ended early with a
      packet in the buffer, and no duplicate was taken for data, flash holds the beginning of the file, and after
      success the file. */
  lemma WideSafety(r: Receiver, file: seq<Byte>, tape: seq<Fault>, erased: nat, min: nat, max: nat, window: nat)
    requires AtRest(r, file, tape) && 0 < window <= PACKET_SIZE && window % 1024 == 0
    ensures var (s, ok, cut) := LoadWindows(r, erased, min, max, window);
      Clean(s.line.log) && !cut ==> StoredBytes(s.line.log) <= file && (ok ==> StoredBytes(s.line.log) == file)
  {
    hide Open, Inv, SoundSoFar, Clean, StoredBytes, ReceiveWindows, Carried, AtRest;
    OpenResult(r, file, tape);
    EmptyIsSound(file);
    CarriedBlocks(file, 0, 0);
    var (t, code) := Open(r);
    if code == Succ && t.fileLength != 0 {
      WindowsKeep(t, 0, window);
    }
  }

  // A window that is cut short --------------------------------------------------------------------

  /** The second block with other data, and a checksum that does not fit them. */
  function Damaged(data: seq<Byte>): seq<Byte> {
    [STX, 2, !2] + data + WrongCheck(data)
  }

  function WrongCheck(data: seq<Byte>): (s: seq<Byte>)
    ensures |s| == 2
  {
    [!CheckBytes(data)[0], CheckBytes(data)[1]]
  }

  /** The header and the first block come; the second is damaged; then the line is dead. */
  function CutTape(data: seq<Byte>): seq<Fault> {
    [NO_FAULT, NO_FAULT, NO_FAULT, Fault(Intact, Some(Damaged(data)))]
  }

  lemma DamagedParses(data: seq<Byte>)
    requires |data| == 1024
    ensures Parse(Damaged(data)) == BadChecksum(1024, data, []) && Rejected(Damaged(data))
  {
    hide WrongCheck, Body, CheckBytes;
    var s := Damaged(data);
    assert s[0] == STX && s[1..] == [2, !2] + data + WrongCheck(data);
    CheckIsWrong(data);
    BodyOfDamaged(2, data, WrongCheck(data));
  }

  lemma CheckIsWrong(data: seq<Byte>)
    ensures WrongCheck(data) != CheckBytes(data)
  {
    hide CheckBytes;
    Complemented(CheckBytes(data)[0]);
    assert WrongCheck(data)[0] != CheckBytes(data)[0];
  }

  lemma BodyOfDamaged(number: Byte, data: seq<Byte>, check: seq<Byte>)
    requires |check| == 2 && check != CheckBytes(data)
    ensures Body(|data|, [number, !number] + data + check) == BadChecksum(|data|, data, [])
  {
    hide CheckBytes;
    var n, t := |data|, [number, !number] + data + check;
    ComplementSums(number);
    assert t[0] == number && t[1] == !number;
    assert t[2..2 + n] == data;
    assert t[2 + n..4 + n] == check;
    assert t[4 + n..] == [];
  }

  lemma Complemented(b: Byte)
    ensures !b != b
  {
  }

  /** The ACK for the first block brings the damaged second one. */
  lemma DamagedPut(line: Line, data: seq<Byte>)
    requires Reachable(line.tx) && line.tx.outcome.Running? && line.tx.status.WaitInterAck? && Sent(line.tx) == 1
    requires 1024 < |line.tx.file| && |data| == 1024 && line.fifo == []
    requires line.tape == [Fault(Intact, Some(Damaged(data)))]
    ensures var l := Put(line, ACK);
      && l.fifo == Damaged(data) && l.tape == [] && (l.log == line.log || l.log == line.log + [BlockSent])
      && l.tx.file == line.tx.file && l.tx.Valid()
  {
    hide React, Reachable, Damaged, Parse, Rejected, Block;
    ReactToAck(line.tx);
    BlockNotEmpty(line.tx.file, 2);
    DamagedParses(data);
    Alone(Damaged(data));
    assert line.log + [] == line.log;
  }

  /** It is turned away, and stays in the packet buffer. */
  lemma DamagedListen(r: Receiver, data: seq<Byte>)
    requires |data| == 1024 && r.line.fifo == Damaged(data)
    ensures var (s, code) := Listen(r);
      && code == ChecksumError && s.packetLength == 1024 && s.packet[..1024] == data
      && s == r.(packetLength := s.packetLength, packet := s.packet, line := r.line.(fifo := []))
  {
    hide Damaged, Parse;
    DamagedParses(data);
  }

  lemma DamagedCheck(r: Receiver, data: seq<Byte>)
    requires Smooth(r, 1) && |r.line.tx.file| == 2048 && |data| == 1024
    requires r.line.tape == [Fault(Intact, Some(Damaged(data)))]
    ensures var (s, code) := CheckPacket(r);
      && code == Timeout && s.packetLength == 1024 && s.packet[..1024] == data
      && !s.eof && !s.ack && s.line.fifo == [] && s.line.tape == []
      && (s.line.log == r.line.log || s.line.log == r.line.log + [BlockSent])
  {
    hide React, Reachable, Inv, Smooth, Damaged, Put, Listen;
    SmoothFacts(r, 1);
    NotFinalYet(r.line.tx, 1);
    DamagedPut(r.line, data);
    var q := Say(r.(ack := false), ACK);
    DamagedListen(q, data);
    var s := Listen(q).0;
    assert GetPacket(r) == (s, ChecksumError);
    DeadError(s);
    assert CheckPacket(r) == CheckLoop(s, 19, ChecksumError);
    DeadLoop(s, 19, ChecksumError);
  }

  lemma DeadError(s: Receiver)
    requires s.line.tape == [] && s.line.fifo == []
    ensures AfterError(s) == s
  {
    assert Heard(s, []) == s;
  }

  /** One packet comes, and the next does not. */
  lemma ReadThenFail(r: Receiver, r1: Receiver, size: nat)
    requires !r.eof && r.packetLength == 0 && CheckPacket(r) == (r1, Succ)
    requires !r1.eof && 0 < r1.packetLength < size <= PACKET_SIZE
    requires CheckPacket(r1.(packetLength := 0)).1 != Succ
    ensures Read(r, size) == (CheckPacket(r1.(packetLength := 0)).0, r1.packet[..r1.packetLength])
  {
    hide CheckPacket;
    var r2 := r1.(packetLength := 0);
    assert Read(r2, size - r1.packetLength) == (CheckPacket(r2).0, []);
    assert r1.packet[..r1.packetLength] + [] == r1.packet[..r1.packetLength];
  }

  /** A window that wants more than the first block gets it, and no more. */
  lemma CutWindow(r: Receiver, data: seq<Byte>, size: nat)
    requires Smooth(r, 0) && |r.line.tx.file| == 2048 && |data| == 1024 && r.packetLength == 0
    requires r.line.tape == CutTape(data)[1..] && 1024 < size <= 2048
    ensures var (s, part) := Read(r, size);
      && part == r.line.tx.file[..1024] && s.packetLength == 1024 && s.packet[..1024] == data
      && !s.eof && !s.ack && s.line.fifo == [] && s.line.tape == []
      && StoredBytes(s.line.log) == StoredBytes(r.line.log) && Clean(s.line.log)
  {
    hide CheckPacket, Smooth, Inv, Damaged, StoredBytes, Clean, NoFaults, CutTape, Read, BlockPart, Reachable,
      SoundSoFar;
    TwoClean(r.line, data);
    FirstBlock(r, 2);
    var r1 := CheckPacket(r).0;
    SmoothFacts(r, 0);
    SmoothFacts(r1, 1);
    SmoothLength(r1, 1);
    FirstPart(r.line.tx.file);
    var r2 := r1.(packetLength := 0);
    DamagedCheck(r2, data);
    EventEffects(r2.line.log, BlockSent);
    ReadThenFail(r, r1, size);
  }

  lemma TwoClean(line: Line, data: seq<Byte>)
    requires line.tape == CutTape(data)[1..]
    ensures NoFaults(line, 2) && line.tape[2..] == [Fault(Intact, Some(Damaged(data)))]
  {
    hide Damaged;
  }

  lemma FirstPart(file: seq<Byte>)
    requires |file| == 2048
    ensures BlockPart(file, 1) == file[..1024] && |BlockPart(file, 1)| == 1024
  {
  }

  /** What is left in the buffer is copied out as the rest of the file. */
  lemma StaleRead(r: Receiver, data: seq<Byte>, size: nat)
    requires r.packetLength == 1024 && r.packet[..1024] == data && !r.eof && size == 1024
    ensures Read(r, size) == (r.(packetLength := 0), data)
  {
    assert Read(r.(packetLength := 0), 0) == (r.(packetLength := 0), []);
    assert data + [] == data;
  }

  lemma DeadWindow(r: Receiver, window: nat)
    requires !r.ack && r.line.tape == [] && r.line.fifo == [] && r.packetLength == 0 && 0 < window <= PACKET_SIZE
    ensures Read(r, window).0 == r
  {
    hide CheckLoop;
    DeadLoop(r, MAX_RETRIES, Fail);
  }

  /** With any larger window, for every file of two blocks and every other second block: the loader reports
      success, flash holds the other block, and no duplicate was ever taken. */
  lemma WideWindowFails(
    r: Receiver, file: seq<Byte>, data: seq<Byte>, erased: nat, min: nat, max: nat, window: nat)
    requires AtRest(r, file, CutTape(data)) && |file| == 2048 && |data| == 1024
    requires min < 2048 <= max && (erased == 0 || 2048 <= erased) && READ_SIZE < window <= PACKET_SIZE
    ensures var (s, ok, cut) := LoadWindows(r, erased, min, max, window);
      ok && cut && Clean(s.line.log) && StoredBytes(s.line.log) == file[..1024] + data
  {
    hide Open, Smooth, StoredBytes, Read, NoFaults, Clean, Damaged;
    OneClean(r.line);
    OpenSmooth(r, file, CutTape(data), 1);
    EmptyIsSound(file);
    var t := Open(r).0;
    var size := Min(2048, window);
    CutWindow(t, data, size);
    var (r1, part) := Read(t, size);
    var r2 := Note(r1, Stored(part));
    EventEffects(r1.line.log, Stored(part));
    StaleRead(r2, data, 1024);
    var r3 := r2.(packetLength := 0);
    var r4 := Note(r3, Stored(data));
    EventEffects(r3.line.log, Stored(data));
    DeadWindow(r4, window);
    assert ReceiveWindows(r4, 0, window) == (r4, true, false);
    assert ReceiveWindows(r2, 1024, window) == (r4, true, false);
    assert ReceiveWindows(t, 2048, window) == (r4, true, true);
  }

  /** Success over a history in which no duplicate was taken for data means the file is in flash. */
  ghost predicate SafeWindow(window: nat)
    requires 0 < window <= PACKET_SIZE
  {
    forall r: Receiver, erased: nat, min: nat, max: nat ::
      AtRest(r, r.line.tx.file, r.line.tape) ==>
        var (s, ok, _) := LoadWindows(r, erased, min, max, window);
        ok && Clean(s.line.log) ==> StoredBytes(s.line.log) == r.line.tx.file
  }

  function Rested(file: seq<Byte>, tape: seq<Fault>): Receiver
    requires |file| < U32
  {
    Rx(0, Fill(0, PACKET_SIZE), false, false, 0, 0, 0, 0, Line(Start(file), [], tape, []))
  }

  /** Of all windows of at least 1024 octets, only that of 1024 octets itself keeps what success promises. */
  lemma SafeWindowsExactly(window: nat)
    requires READ_SIZE <= window <= PACKET_SIZE
    ensures SafeWindow(window) <==> window == READ_SIZE
  {
    hide LoadWindows, LoadSerial, StoredBytes, Clean, AtRest, SoundSoFar, Damaged;
    if window == READ_SIZE {
      forall r: Receiver, erased: nat, min: nat, max: nat | AtRest(r, r.line.tx.file, r.line.tape)
        ensures var (s, ok, _) := LoadWindows(r, erased, min, max, window);
          ok && Clean(s.line.log) ==> StoredBytes(s.line.log) == r.line.tx.file
      {
        LoadNarrow(r, erased, min, max);
        Safety(r, r.line.tx.file, r.line.tape, erased, min, max);
      }
    } else {
      var file, data := Fill(0, 2048), Fill(1, 1024);
      var r := Rested(file, CutTape(data));
      assert AtRest(r, file, CutTape(data)) by {
        RestedIsAtRest(file, CutTape(data));
      }
      WideWindowFails(r, file, data, 0, 0, 2048, window);
      assert (file[..1024] + data)[1024] == 1 && file[1024] == 0;
      var (s, ok, _) := LoadWindows(r, 0, 0, 2048, window);
      assert StoredBytes(s.line.log) != r.line.tx.file;
    }
  }

  lemma RestedIsAtRest(file: seq<Byte>, tape: seq<Fault>)
    requires 0 < |file| < U32
    ensures AtRest(Rested(file, tape), file, tape)
  {
  }
}
