/** Sender, faulty line, receiver and loader together. */
module EndToEnd {
  import opened Bytes
  import opened YmodemFrames
  import opened Transfer
  import opened TransferRuns
  import opened Ymodem
  import opened FileHeader
  import opened Load

  // Histories -----------------------------------------------------------------------------------

  /** No duplicate was ever taken for data. */
  predicate Clean(log: seq<Event>) {
    LastTryDuplicate !in log
  }

  /** Flash holds a prefix of the file, and the two block counts are at most one apart. */
  predicate Sound(file: seq<Byte>, log: seq<Event>) {
    && StoredBytes(log) <= file
    && -1 <= Tally(log, BlockSent) - Tally(log, BlockAccepted) <= 1
  }

  /** Sound at every moment, up to the first time a duplicate is taken for data. */
  ghost predicate SoundSoFar(file: seq<Byte>, log: seq<Event>) {
    forall n: nat :: n <= |log| && Clean(log[..n]) ==> Sound(file, log[..n])
  }

  lemma OneMoreEvent(file: seq<Byte>, log: seq<Event>, e: Event)
    requires SoundSoFar(file, log)
    requires Clean(log + [e]) ==> Sound(file, log + [e])
    ensures SoundSoFar(file, log + [e])
  {
    var longer := log + [e];
    forall n: nat | n <= |longer| && Clean(longer[..n])
      ensures Sound(file, longer[..n])
    {
      if n <= |log| {
        assert longer[..n] == log[..n];
      } else {
        assert longer[..n] == longer;
      }
    }
  }

  lemma UncleanStaysSound(file: seq<Byte>, log: seq<Event>, longer: seq<Event>)
    requires SoundSoFar(file, log) && !Clean(log) && log <= longer
    ensures SoundSoFar(file, longer) && !Clean(longer)
  {
    forall n: nat | n <= |longer| && Clean(longer[..n])
      ensures Sound(file, longer[..n])
    {
      if n <= |log| {
        assert longer[..n] == log[..n];
      }
    }
  }

  lemma EventEffects(log: seq<Event>, e: Event)
    ensures Tally(log + [e], BlockSent) == Tally(log, BlockSent) + if e == BlockSent then 1 else 0
    ensures Tally(log + [e], BlockAccepted) == Tally(log, BlockAccepted) + if e == BlockAccepted then 1 else 0
    ensures StoredBytes(log + [e]) == StoredBytes(log) + if e.Stored? then e.data else []
    ensures Clean(log + [e]) <==> Clean(log) && e != LastTryDuplicate
  {
    assert (log + [e])[..|log|] == log;
  }

  // The sender and the line ---------------------------------------------------------------------

  /** The line carries nothing, something the receiver will turn away, or the sender's last message. */
  predicate Pending(line: Line)
    requires Reachable(line.tx)
  {
    line.fifo == [] || Rejected(line.fifo) || line.fifo == LastMessage(line.tx)
  }

  /** What an ACK does to the sender. */
  predicate AckMove(tx: Tx, t: Tx) {
    match tx.status
    case WaitInitAck => t.status.WaitTransC? && t.offset == 0
    case WaitInterAck => Sent(t) == Sent(tx) + 1 && (t.status.WaitInterAck? || t.status.WaitFinalAck?)
    case WaitFinalAck => t.status.WaitEotC? && t.offset == tx.offset
    case _ => false
  }

  /** What `C` does to the sender. */
  predicate CMove(tx: Tx, t: Tx) {
    match tx.status
    case WaitStartC => t.status.WaitInitAck? && t.offset == 0
    case WaitTransC => Sent(t) == 1 && (t.status.WaitInterAck? || t.status.WaitFinalAck?)
    case WaitEotC => t.status.WaitZeroAck? && t.offset == tx.offset
    case _ => false
  }

  predicate Stays(tx: Tx, t: Tx) {
    t.status == tx.status && t.offset == tx.offset && t.number == tx.number
  }

  /** What one octet of the receiver, as the line leaves it, does to the sender. */
  predicate Moves(tx: Tx, t: Tx, ch: Byte) {
    Stays(tx, t) || CMove(tx, t) || (ch == ACK && AckMove(tx, t))
  }

  lemma ReactMoves(tx: Tx, b: Byte)
    requires Reachable(tx)
    ensures var (t, out) := React(tx, b);
      && Reachable(t) && t.file == tx.file
      && (Stays(tx, t) || (b == CRC_REQUEST && CMove(tx, t)) || (b == ACK && AckMove(tx, t)))
      && (t.offset != tx.offset <==> Sent(t) == Sent(tx) + 1) && Sent(tx) <= Sent(t) <= Sent(tx) + 1
      && (out == [] || out == LastMessage(t))
  {
    hide Block, InfoFrame, NullFrame, Buffered;
    ReactReachable(tx, b);
    MovesByOneBlock(tx, b);
    SaysItsLastMessage(tx, b);
    if tx.outcome.Running? {
      if b == CRC_REQUEST {
        ReactToC(tx);
      } else if b == ACK {
        ReactToAck(tx);
      } else if b == NAK {
        ReactToNak(tx);
      } else {
        ReactToOther(tx, b);
      }
    }
  }

  /** The state of the whole system once the header has been read: `k` blocks are accepted. */
  ghost predicate Inv(r: Receiver, k: nat) {
    var tx, line := r.line.tx, r.line;
    && Reachable(tx) && Pending(line) && !r.eof
    && r.expected == Low8(k + 1)
    && Tally(line.log, BlockSent) == Sent(tx) && Tally(line.log, BlockAccepted) == k
    && (r.ack ==> line.fifo == [])
    && if 1024 * k < |tx.file| then DataPhase(r, k) else FinalPhase(r, k)
  }

  /** Data is still missing: the sender is at block `k`, unacknowledged, or one ahead. */
  ghost predicate DataPhase(r: Receiver, k: nat) {
    var tx := r.line.tx;
    && r.fileLength == |tx.file| && r.readLength == 1024 * k
    && (Sent(tx) == k || Sent(tx) == k + 1)
    && (r.ack ==> Sent(tx) == k)
    && (tx.status.WaitInitAck? || tx.status.WaitTransC? || tx.status.WaitInterAck? || tx.status.WaitFinalAck?)
  }

  /** Everything is there. Block number 0 of the closing header may yet be taken for the next block,
      once, when the block count has wrapped to it. */
  ghost predicate FinalPhase(r: Receiver, k: nat) {
    var tx := r.line.tx;
    && tx.offset == |tx.file| && Sent(tx) <= k <= Sent(tx) + 1
    && (tx.status.WaitFinalAck? || tx.status.WaitEotC? || tx.status.WaitZeroAck?)
    && (k == Sent(tx) + 1 ==> tx.status.WaitZeroAck? && Low8(k) == 0)
  }

  lemma PutMoves(line: Line, ch: Byte)
    requires Reachable(line.tx) && line.fifo == []
    ensures var l := Put(line, ch);
      && Reachable(l.tx) && Pending(l) && l.tx.file == line.tx.file
      && Moves(line.tx, l.tx, ch)
      && Sent(line.tx) <= Sent(l.tx) <= Sent(line.tx) + 1
      && l.log == line.log + (if Sent(l.tx) != Sent(line.tx) then [BlockSent] else [])
  {
    hide React, LastMessage, Reachable, AckMove, CMove, Sent, Rejected;
    if line.tape != [] {
      match Arriving(line.tape[0].control, ch)
      case None =>
      case Some(b) =>
        ReactMoves(line.tx, b);
        var answer := Delivered(line.tape[0].packet, React(line.tx, b).1);
        assert [] + answer == answer;
    }
  }

  /** A control octet keeps the invariant, provided an ACK is sent only for a block that has come. */
  lemma PutKeeps(r: Receiver, ch: Byte, k: nat)
    requires Inv(r, k) && r.line.fifo == []
    requires ch == ACK && 1024 * k < |r.line.tx.file| ==> Sent(r.line.tx) == k
    requires SoundSoFar(r.line.tx.file, r.line.log)
    ensures var s := Say(r.(ack := false), ch);
      && Inv(s, k) && SoundSoFar(s.line.tx.file, s.line.log) && Clean(s.line.log) == Clean(r.line.log)
      && StoredBytes(s.line.log) == StoredBytes(r.line.log) && s.line.tx.file == r.line.tx.file
  {
    hide Put, SoundSoFar, Inv, StoredBytes, Clean;
    PutKeepsInv(r, ch, k);
    InvParts(r, k);
    CountsFit(Say(r.(ack := false), ch), k);
    PutKeepsSound(r.line, ch);
  }

  lemma PutKeepsInv(r: Receiver, ch: Byte, k: nat)
    requires Inv(r, k) && r.line.fifo == []
    requires ch == ACK && 1024 * k < |r.line.tx.file| ==> Sent(r.line.tx) == k
    ensures Inv(Say(r.(ack := false), ch), k)
  {
    hide Put, Inv, Reachable, Pending, Tally, DataPhase, FinalPhase, Moves, Sent;
    InvParts(r, k);
    PutMoves(r.line, ch);
    PutTallies(r.line, ch);
    var s := Say(r.(ack := false), ch);
    if 1024 * k < |r.line.tx.file| {
      DataMoves(r, s, k, ch);
    } else {
      FinalMoves(r, s, k, ch);
    }
    InvAgain(r, s, k);
  }

  lemma InvParts(r: Receiver, k: nat)
    requires Inv(r, k)
    ensures Reachable(r.line.tx)
    ensures Tally(r.line.log, BlockSent) == Sent(r.line.tx) && Tally(r.line.log, BlockAccepted) == k
    ensures if 1024 * k < |r.line.tx.file| then DataPhase(r, k) else FinalPhase(r, k)
  {
  }

  lemma InvAgain(r: Receiver, s: Receiver, k: nat)
    requires Inv(r, k) && s == r.(ack := false, line := s.line) && s.line.tx.file == r.line.tx.file
    requires Reachable(s.line.tx) && Pending(s.line)
    requires Tally(s.line.log, BlockSent) == Sent(s.line.tx) && Tally(s.line.log, BlockAccepted) == k
    requires if 1024 * k < |s.line.tx.file| then DataPhase(s, k) else FinalPhase(s, k)
    ensures Inv(s, k)
  {
    hide Reachable, Pending, Tally, Sent, DataPhase, FinalPhase;
  }

  lemma PutTallies(line: Line, ch: Byte)
    requires Reachable(line.tx) && line.fifo == []
    ensures var l := Put(line, ch);
      && Reachable(l.tx)
      && Tally(l.log, BlockSent) - Tally(line.log, BlockSent) == Sent(l.tx) - Sent(line.tx)
      && Tally(l.log, BlockAccepted) == Tally(line.log, BlockAccepted)
  {
    hide Put, Reachable, Pending, Tally, Moves, Sent;
    PutMoves(line, ch);
    EventEffects(line.log, BlockSent);
    assert line.log + [] == line.log;
  }

  lemma StatusFacts(tx: Tx)
    requires Reachable(tx)
    ensures tx.status.WaitTransC? || tx.status.WaitInitAck? ==> Sent(tx) == 0
    ensures tx.status.WaitFinalAck? ==> tx.offset == |tx.file| <= 1024 * Sent(tx)
    ensures tx.status.WaitInterAck? ==> tx.offset < |tx.file|
  {
  }

  lemma DataMoves(r: Receiver, s: Receiver, k: nat, ch: Byte)
    requires Reachable(r.line.tx) && DataPhase(r, k) && 1024 * k < |r.line.tx.file|
    requires s == r.(ack := false, line := s.line) && s.line.tx.file == r.line.tx.file
    requires Moves(r.line.tx, s.line.tx, ch) && (ch == ACK ==> Sent(r.line.tx) == k)
    ensures DataPhase(s, k)
  {
    hide Reachable, BlockCount;
    StatusFacts(r.line.tx);
  }

  lemma FinalMoves(r: Receiver, s: Receiver, k: nat, ch: Byte)
    requires Reachable(r.line.tx) && Reachable(s.line.tx) && FinalPhase(r, k)
    requires s == r.(ack := false, line := s.line) && s.line.tx.file == r.line.tx.file
    requires Moves(r.line.tx, s.line.tx, ch)
    ensures FinalPhase(s, k)
  {
    hide Reachable, BlockCount;
    StatusFacts(r.line.tx);
  }

  predicate CountsAgree(log: seq<Event>) {
    -1 <= Tally(log, BlockSent) - Tally(log, BlockAccepted) <= 1
  }

  lemma CountsFit(r: Receiver, k: nat)
    requires Inv(r, k)
    ensures CountsAgree(r.line.log)
  {
    hide Reachable, Tally, Pending;
  }

  lemma PutKeepsSound(line: Line, ch: Byte)
    requires Reachable(line.tx) && line.fifo == [] && CountsAgree(Put(line, ch).log)
    requires SoundSoFar(line.tx.file, line.log)
    ensures var l := Put(line, ch);
      && SoundSoFar(l.tx.file, l.log) && Clean(l.log) == Clean(line.log)
      && StoredBytes(l.log) == StoredBytes(line.log) && l.tx.file == line.tx.file
  {
    hide Put, SoundSoFar, Reachable, Sent, Pending, StoredBytes, Tally, Clean;
    PutMoves(line, ch);
    var l := Put(line, ch);
    EventEffects(line.log, BlockSent);
    SoundNow(line.tx.file, line.log);
    assert line.log + [] == line.log;
    if l.log != line.log {
      OneMoreEvent(line.tx.file, line.log, BlockSent);
    }
  }

  lemma SoundNow(file: seq<Byte>, log: seq<Event>)
    requires SoundSoFar(file, log)
    ensures Clean(log) ==> Sound(file, log)
  {
    assert log[..|log|] == log;
  }

  // What the receiver makes of the line -----------------------------------------------------------

  function BlockData(file: seq<Byte>, k: nat): seq<Byte>
    requires 1 <= k && 1024 * (k - 1) < |file|
  {
    BlockPart(file, k) + Fill(FILLER, BlockSize(file, k) - |BlockPart(file, k)|)
  }

  lemma ParseWhole(head: Byte, number: Byte, data: seq<Byte>)
    requires |data| == PacketLength(head) > 0
    ensures Parse(Frame(head, number, data)) == Good(number, data, [])
  {
    ParseFrame(head, number, data, []);
    assert Frame(head, number, data) + [] == Frame(head, number, data);
  }

  lemma ParseBlock(file: seq<Byte>, k: nat)
    requires 1 <= k && 1024 * (k - 1) < |file|
    ensures Parse(Block(file, k)) == Good(Low8(k), BlockData(file, k), [])
    ensures |BlockData(file, k)| == BlockSize(file, k)
  {
    hide Parse, Frame, Block;
    BlockIsFrame(file, k);
    ParseWhole(if BlockSize(file, k) == 128 then SOH else STX, Low8(k), BlockData(file, k));
  }

  lemma ParseInfo(length: nat)
    requires length < 0x1_0000_0000
    ensures Parse(InfoFrame(length, 0)) == Good(0, InfoData(length), [])
  {
    hide Parse, Frame, InfoData;
    ParseWhole(SOH, 0, InfoData(length));
  }

  lemma ParseNull(buffer: seq<Byte>)
    requires |buffer| == BUFFER_LENGTH
    ensures Parse(NullFrame(buffer)) == Good(0, Fill(0, 125) + buffer[128..131], [])
  {
    hide Parse, Frame;
    ParseWhole(SOH, 0, Fill(0, 125) + buffer[128..131]);
  }

  lemma ParseEot()
    ensures Parse([EOT]) == EndRequest([])
  {
  }

  /** The sender's last message, seen by the receiver. */
  lemma ParseLast(tx: Tx)
    requires Reachable(tx) && !tx.status.WaitStartC?
    ensures match tx.status
      case WaitInitAck => Parse(LastMessage(tx)) == Good(0, InfoData(|tx.file|), [])
      case WaitTransC => Parse(LastMessage(tx)) == Good(0, InfoData(|tx.file|), [])
      case WaitInterAck => Parse(LastMessage(tx)) == Good(Low8(Sent(tx)), BlockData(tx.file, Sent(tx)), [])
      case WaitFinalAck => Parse(LastMessage(tx)) == Good(Low8(Sent(tx)), BlockData(tx.file, Sent(tx)), [])
      case WaitEotC => Parse(LastMessage(tx)) == EndRequest([])
      case WaitZeroAck => Parse(LastMessage(tx)).Good? && Parse(LastMessage(tx)).number == 0
                          && Parse(LastMessage(tx)).rest == []
      case _ => true
    ensures tx.status.WaitInterAck? || tx.status.WaitFinalAck? ==>
      |BlockData(tx.file, Sent(tx))| == BlockSize(tx.file, Sent(tx))
  {
    hide Parse, InfoFrame, Block, NullFrame, InfoData, BlockData;
    match tx.status
    case WaitInitAck => ParseInfo(|tx.file|);
    case WaitTransC => ParseInfo(|tx.file|);
    case WaitInterAck => ParseBlock(tx.file, Sent(tx));
    case WaitFinalAck => ParseBlock(tx.file, Sent(tx));
    case WaitEotC => ParseEot();
    case WaitZeroAck => ParseNull(tx.buffer);
    case _ =>
  }

  /** The receivers agree except for the packet just read, its length, and what is left on the line: nothing, or
      what will be turned away as well. */
  predicate OnlyPacketChanged(r: Receiver, s: Receiver) {
    && s == r.(packetLength := s.packetLength, packet := s.packet, number := s.number,
               line := r.line.(fifo := s.line.fifo))
    && (s.line.fifo == [] || Rejected(s.line.fifo))
  }

  lemma RejectedListen(r: Receiver)
    requires r.line.fifo == [] || Rejected(r.line.fifo)
    ensures var (s, code) := Listen(r);
      OnlyPacketChanged(r, s) && code != Succ && code != Eot && (code == Timeout ==> s.line.fifo == [])
  {
    hide Body;
    ParseFits(r.line.fifo);
  }

  lemma GoodListen(r: Receiver)
    requires Parse(r.line.fifo).Good? && Parse(r.line.fifo).rest == []
    ensures var (s, code), p := Listen(r), Parse(r.line.fifo);
      && OnlyPacketChanged(r, s) && s.line.fifo == [] && code == Succ && s.number == p.number
      && s.packetLength == |p.data| && s.packet[..s.packetLength] == p.data
  {
    hide Parse;
    ParseFits(r.line.fifo);
  }

  lemma EotListen(r: Receiver)
    requires Parse(r.line.fifo) == EndRequest([])
    ensures Listen(r) == (Say(Heard(r, []), ACK), Eot)
  {
    hide Parse, Say;
  }

  /** What a received packet says, given where the sender is. */
  ghost predicate Got(s: Receiver) {
    var tx := s.line.tx;
    && Reachable(tx)
    && match tx.status
       case WaitInitAck => s.number == Low8(0) && GotInfo(s)
       case WaitTransC => s.number == Low8(0) && GotInfo(s)
       case WaitInterAck => GotBlock(s)
       case WaitFinalAck => GotBlock(s)
       case WaitZeroAck => s.number == Low8(0)
       case _ => false
  }

  ghost predicate GotInfo(s: Receiver)
    requires |s.line.tx.file| < U32
  {
    s.packetLength == 128 && s.packet[..128] == InfoData(|s.line.tx.file|)
  }

  ghost predicate GotBlock(s: Receiver)
    requires 1 <= Sent(s.line.tx) && 1024 * (Sent(s.line.tx) - 1) < |s.line.tx.file|
  {
    var tx := s.line.tx;
    && s.number == Low8(Sent(tx))
    && s.packetLength == BlockSize(tx.file, Sent(tx))
    && s.packet[..s.packetLength] == BlockData(tx.file, Sent(tx))
  }

  /** Nothing relevant to soundness happened between two states. */
  ghost predicate Quiet(r: Receiver, s: Receiver) {
    && SoundSoFar(s.line.tx.file, s.line.log) && s.line.tx.file == r.line.tx.file
    && Clean(s.line.log) == Clean(r.line.log) && StoredBytes(s.line.log) == StoredBytes(r.line.log)
  }

  lemma QuietTransitive(r: Receiver, s: Receiver, t: Receiver)
    requires Quiet(r, s) && Quiet(s, t)
    ensures Quiet(r, t)
  {
  }

  lemma GoodGot(r: Receiver, s: Receiver)
    requires Reachable(r.line.tx) && !r.line.tx.status.WaitStartC? && !r.line.tx.status.WaitEotC?
    requires r.line.fifo == LastMessage(r.line.tx)
    requires s == Listen(r).0
    ensures OnlyPacketChanged(r, s) && s.line.fifo == [] && Got(s) && Listen(r).1 == Succ
  {
    hide Listen, Parse, LastMessage, BlockData, BlockSize, InfoData, Low8, Reachable, GotBlock, GotInfo;
    ParseLast(r.line.tx);
    NotIdle(r.line.tx);
    LowZero();
    GoodListen(r);
    ReachableFile(r.line.tx);
    var data := Parse(r.line.fifo).data;
    if r.line.tx.status.WaitInitAck? || r.line.tx.status.WaitTransC? {
      InfoGot(s, data);
    } else if !r.line.tx.status.WaitZeroAck? {
      BlockIsOut(r.line.tx);
      BlockGot(s, data);
    }
  }

  lemma BlockIsOut(tx: Tx)
    requires Reachable(tx) && (tx.status.WaitInterAck? || tx.status.WaitFinalAck?)
    ensures 1 <= Sent(tx) && 1024 * (Sent(tx) - 1) < |tx.file|
  {
  }

  lemma InfoGot(s: Receiver, data: seq<Byte>)
    requires |s.line.tx.file| < U32 && data == InfoData(|s.line.tx.file|)
    requires s.packetLength == |data| && s.packet[..|data|] == data
    ensures GotInfo(s)
  {
    hide InfoData;
  }

  lemma BlockGot(s: Receiver, data: seq<Byte>)
    requires 1 <= Sent(s.line.tx) && 1024 * (Sent(s.line.tx) - 1) < |s.line.tx.file|
    requires data == BlockData(s.line.tx.file, Sent(s.line.tx)) && |data| == BlockSize(s.line.tx.file, Sent(s.line.tx))
    requires s.packetLength == |data| && s.packet[..|data|] == data && s.number == Low8(Sent(s.line.tx))
    ensures GotBlock(s)
  {
    hide BlockData, BlockSize, Low8, Sent;
  }

  lemma NotIdle(tx: Tx)
    requires Reachable(tx)
    ensures !tx.status.Idle?
  {
  }

  lemma PacketAside(r: Receiver, s: Receiver, k: nat)
    requires Inv(r, k) && !r.ack && OnlyPacketChanged(r, s)
    ensures Inv(s, k)
  {
    hide Rejected, LastMessage, Reachable;
  }

  lemma ListenKeeps(r: Receiver, k: nat)
    requires Inv(r, k) && !r.ack
    ensures var (s, code) := Listen(r);
      && (code != Eot ==> Inv(s, k) && OnlyPacketChanged(r, s))
      && (code == Succ ==> Got(s) && s.line.fifo == [])
      && (code == Eot ==> s == Say(Heard(r, []), ACK) && r.line.tx.offset == |r.line.tx.file| <= 1024 * k)
  {
    hide Listen, Parse, Rejected, InfoFrame, Block, NullFrame, Say, Got, LastMessage, Reachable, OnlyPacketChanged;
    var s := Listen(r).0;
    if r.line.fifo == [] || Rejected(r.line.fifo) {
      RejectedListen(r);
      PacketAside(r, s, k);
    } else if r.line.tx.status.WaitEotC? {
      ParseLast(r.line.tx);
      EotListen(r);
    } else {
      GoodGot(r, s);
      PacketAside(r, s, k);
    }
  }

  /** One attempt to get a packet, including a deferred ACK. */
  lemma GetPacketKeeps(r: Receiver, k: nat)
    requires Inv(r, k) && SoundSoFar(r.line.tx.file, r.line.log)
    ensures var (s, code) := GetPacket(r);
      && (code != Eot ==> Inv(s, k) && !s.ack && Quiet(r, s))
      && (code == Succ ==> Got(s) && s.line.fifo == [])
      && (code == Eot ==>
            Reachable(s.line.tx) && s.line.tx.offset == |s.line.tx.file| <= 1024 * k && Quiet(r, s))
  {
    hide Listen, Put, Got, SoundSoFar, Reachable, DataPhase, FinalPhase;
    var q := if r.ack then Say(r.(ack := false), ACK) else r;
    if r.ack {
      AckedIsSent(r, k);
      PutKeeps(r, ACK, k);
    }
    ListenKeeps(q, k);
    if Listen(q).1 == Eot {
      PutAtEnd(Heard(q, []), ACK);
    }
  }

  lemma AckedIsSent(r: Receiver, k: nat)
    requires Inv(r, k) && r.ack
    ensures r.line.fifo == [] && (1024 * k < |r.line.tx.file| ==> Sent(r.line.tx) == k)
  {
  }

  /** Once the file is through, nothing the receiver says changes the history. */
  lemma PutAtEnd(r: Receiver, ch: Byte)
    requires Reachable(r.line.tx) && r.line.tx.offset == |r.line.tx.file|
    ensures var s := Say(r, ch);
      Reachable(s.line.tx) && s.line.tx.offset == |s.line.tx.file| && s.line.log == r.line.log
      && s.line.tx.file == r.line.tx.file
  {
    hide React, Reachable, Block, LastMessage, Delivered;
    if r.line.tape != [] {
      match Arriving(r.line.tape[0].control, ch)
      case None =>
      case Some(b) =>
        ReactMoves(r.line.tx, b);
        MovesByOneBlock(r.line.tx, b);
        SentAtEnd(r.line.tx);
    }
  }

  lemma SentAtEnd(tx: Tx)
    requires Reachable(tx) && tx.offset == |tx.file|
    ensures 1024 * Sent(tx) >= |tx.file|
  {
  }

  // Taking packets --------------------------------------------------------------------------------

  lemma NumbersDiffer(k: nat)
    ensures Low8(k) != Low8(k + 1)
    ensures Low8(k + 1) - 1 == Low8(k)
    ensures Low8(k) == 0 ==> Low8(k + 1) != 0
  {
    Low8Equal(k, k + 1);
    assert Low8(k + 1) == Low8(k) + 1;
  }

  /** In the data phase a packet with the next number is the next block. */
  lemma NextIsNew(s: Receiver, k: nat)
    requires Inv(s, k) && Got(s) && s.IsNext() && 1024 * k < |s.line.tx.file|
    ensures Sent(s.line.tx) == k + 1 && GotBlock(s)
    ensures s.line.tx.status.WaitInterAck? || s.line.tx.status.WaitFinalAck?
  {
    hide Pending, LastMessage, BlockSize, BlockData, Low8;
    NumbersDiffer(k);
  }

  /** A packet with the previous number is a block already taken. */
  lemma DuplicateIsOld(s: Receiver, k: nat)
    requires Inv(s, k) && Got(s) && s.IsDuplicate() && 1024 * k < |s.line.tx.file|
    ensures Sent(s.line.tx) == k
  {
    hide Pending, LastMessage, BlockSize, BlockData, Low8;
    NumbersDiffer(k);
  }

  /** After the last block only the closing header can be taken for a next one, and only once. */
  lemma NextIsClosing(s: Receiver, k: nat)
    requires Inv(s, k) && Got(s) && s.IsNext() && 1024 * k >= |s.line.tx.file|
    ensures s.line.tx.status.WaitZeroAck? && k == Sent(s.line.tx) && Low8(k + 1) == 0
  {
    hide Pending, LastMessage, BlockSize, BlockData, Low8;
    NumbersDiffer(k);
    assert Low8(0) == 0 by {
      LowZero();
    }
  }

  lemma LowZero()
    ensures Low8(0) == 0
  {
  }

  /** Accepting a block cuts it to the part of the file it carries. */
  lemma AcceptCuts(s: Receiver, k: nat)
    requires 1024 * k < |s.line.tx.file| <= LOAD_MAX_SIZE
    requires s.fileLength == |s.line.tx.file| && s.readLength == 1024 * k
    requires s.packetLength == BlockSize(s.line.tx.file, k + 1)
    requires s.packet[..s.packetLength] == BlockData(s.line.tx.file, k + 1)
    ensures var a, part := Accept(s), BlockPart(s.line.tx.file, k + 1);
      && a.packetLength == |part| && 0 < |part| <= 1024 && a.packet[..|part|] == part
      && (1024 * (k + 1) < |s.line.tx.file| ==> a.readLength == 1024 * (k + 1))
  {
    var part := BlockPart(s.line.tx.file, k + 1);
    assert s.packet[..|part|] == BlockData(s.line.tx.file, k + 1)[..|part|];
  }

  lemma AcceptIsSound(s: Receiver, k: nat)
    requires Inv(s, k) && SoundSoFar(s.line.tx.file, s.line.log)
    requires Sent(s.line.tx) == k + 1 || Sent(s.line.tx) == k
    ensures Quiet(s, Accept(s)) && Tally(Accept(s).line.log, BlockAccepted) == k + 1
    ensures Tally(Accept(s).line.log, BlockSent) == Sent(s.line.tx)
  {
    hide Reachable, Pending, DataPhase, FinalPhase, SoundSoFar;
    SoundNow(s.line.tx.file, s.line.log);
    EventEffects(s.line.log, BlockAccepted);
    OneMoreEvent(s.line.tx.file, s.line.log, BlockAccepted);
  }

  lemma AcceptNewBlock(s: Receiver, k: nat)
    requires Inv(s, k) && Got(s) && s.IsNext() && s.line.fifo == []
    requires SoundSoFar(s.line.tx.file, s.line.log)
    requires 1024 * k < |s.line.tx.file| <= LOAD_MAX_SIZE
    ensures var a, part := Accept(s), BlockPart(s.line.tx.file, k + 1);
      && Inv(a, k + 1) && Quiet(s, a)
      && a.ack && a.packetLength == |part| && 0 < |part| <= 1024 && a.packet[..|part|] == part
  {
    hide Rejected, LastMessage, BlockSize, BlockData, BlockPart, SoundSoFar, Low8, Got, Rx.IsNext, GotBlock, Quiet,
      Reachable, Tally, StoredBytes;
    NextIsNew(s, k);
    GotBlockSays(s, k + 1);
    AcceptCuts(s, k);
    LastBlockSent(s.line.tx, k);
    ExpectedAfter(s, k);
    AcceptIsSound(s, k);
  }

  lemma AcceptClosing(s: Receiver, k: nat)
    requires Inv(s, k) && Got(s) && s.IsNext() && s.line.fifo == []
    requires SoundSoFar(s.line.tx.file, s.line.log)
    requires 1024 * k >= |s.line.tx.file|
    ensures Inv(Accept(s), k + 1) && Quiet(s, Accept(s))
  {
    hide Rejected, LastMessage, SoundSoFar, Low8, Got, Rx.IsNext, Quiet, Reachable, Tally, StoredBytes;
    NextIsClosing(s, k);
    ExpectedAfter(s, k);
    AcceptIsSound(s, k);
  }

  lemma GotBlockSays(s: Receiver, k: nat)
    requires Reachable(s.line.tx) && Sent(s.line.tx) == k >= 1 && 1024 * (k - 1) < |s.line.tx.file| && GotBlock(s)
    ensures s.packetLength == BlockSize(s.line.tx.file, k) <= PACKET_SIZE
    ensures s.packet[..s.packetLength] == BlockData(s.line.tx.file, k)
  {
  }

  lemma ExpectedAfter(s: Receiver, k: nat)
    requires s.expected == Low8(k + 1)
    ensures Accept(s).expected == Low8(k + 2)
  {
  }

  lemma LastBlockSent(tx: Tx, k: nat)
    requires Reachable(tx) && Sent(tx) == k + 1
    requires tx.status.WaitInterAck? || tx.status.WaitFinalAck?
    ensures 1024 * k < |tx.file|
    ensures 1024 * (k + 1) >= |tx.file| <==> tx.status.WaitFinalAck?
    ensures tx.status.WaitFinalAck? ==> tx.offset == |tx.file|
  {
  }

  lemma DuplicateKeeps(s: Receiver, k: nat, retries: nat)
    requires Inv(s, k) && Got(s) && s.IsDuplicate() && s.line.fifo == [] && !s.ack
    requires SoundSoFar(s.line.tx.file, s.line.log)
    ensures var a := AfterDuplicate(s, retries);
      && SoundSoFar(a.line.tx.file, a.line.log) && a.line.tx.file == s.line.tx.file
      && (retries != 1 ==> Inv(a, k) && Quiet(s, a))
      && (retries == 1 ==> !Clean(a.line.log))
  {
    hide Put, SoundSoFar, Inv, Got, Rx.IsDuplicate;
    if 1024 * k < |s.line.tx.file| {
      DuplicateIsOld(s, k);
    }
    PutKeeps(s, ACK, k);
    assert s.(ack := false) == s;
    var a := Say(s, ACK);
    if retries == 1 {
      EventEffects(a.line.log, LastTryDuplicate);
      OneMoreEvent(a.line.tx.file, a.line.log, LastTryDuplicate);
    }
  }

  lemma ErrorKeeps(s: Receiver, k: nat)
    requires Inv(s, k) && !s.ack
    requires SoundSoFar(s.line.tx.file, s.line.log)
    ensures Inv(AfterError(s), k) && Quiet(s, AfterError(s))
  {
    hide Put, SoundSoFar, Inv;
    FlushKeeps(s, k);
    var q := Heard(s, []);
    PutKeeps(q, CRC_REQUEST, k);
    assert q.(ack := false) == q;
  }

  lemma FlushKeeps(s: Receiver, k: nat)
    requires Inv(s, k)
    ensures Inv(Heard(s, []), k)
  {
    hide Reachable, LastMessage, Rejected;
  }

  lemma CloseKeeps(r: Receiver)
    requires Reachable(r.line.tx) && r.line.tx.offset == |r.line.tx.file|
    requires SoundSoFar(r.line.tx.file, r.line.log)
    ensures var s := Close(r).0; Quiet(r, s) && s.eof
  {
    hide Put, SoundSoFar, Reachable, Listen;
    var r1 := Say(r, ACK);
    var r2 := Say(r1, CRC_REQUEST);
    PutAtEnd(r, ACK);
    PutAtEnd(r1, CRC_REQUEST);
    var r3 := if r2.ack then Say(r2.(ack := false), ACK) else r2;
    if r2.ack {
      PutAtEnd(r2.(ack := false), ACK);
    }
    ListenAtEnd(r3);
    var r4 := Listen(r3).0;
    assert GetPacket(r2) == Listen(r3);
    PutAtEnd(r4, ACK);
  }

  lemma ListenAtEnd(r: Receiver)
    requires Reachable(r.line.tx) && r.line.tx.offset == |r.line.tx.file|
    ensures var s := Listen(r).0;
      Reachable(s.line.tx) && s.line.tx.offset == |s.line.tx.file| && s.line.log == r.line.log
      && s.line.tx.file == r.line.tx.file
  {
    hide Put, Reachable, Parse;
    ParseFits(r.line.fifo);
    match Parse(r.line.fifo)
    case EndRequest(rest) => PutAtEnd(Heard(r, rest), ACK);
    case _ =>
  }

  // Whole calls -----------------------------------------------------------------------------------

  /** What `ymodem_check_packet` achieves: on a clean history, success means the next block and its data. */
  ghost predicate Checked(r: Receiver, k: nat, s: Receiver, code: Code) {
    && SoundSoFar(s.line.tx.file, s.line.log) && s.line.tx.file == r.line.tx.file
    && (Clean(s.line.log) ==>
      && Quiet(r, s)
      && (code == Succ && !s.eof ==> Inv(s, k + 1))
      && (code == Succ && 1024 * k < |r.line.tx.file| ==> !s.eof && Holds(s, k))
      && (code != Succ && 1024 * k < |r.line.tx.file| ==> Inv(s, k)))
  }

  /** The packet buffer holds the part of the file that block `k + 1` carries. */
  ghost predicate Holds(s: Receiver, k: nat)
    requires 1024 * k < |s.line.tx.file|
  {
    var part := BlockPart(s.line.tx.file, k + 1);
    s.packetLength == |part| && 0 < |part| <= 1024 && s.packet[..|part|] == part
  }

  lemma CheckedTransitive(r: Receiver, k: nat, r1: Receiver, s: Receiver, code: Code)
    requires Quiet(r, r1) && Checked(r1, k, s, code)
    ensures Checked(r, k, s, code)
  {
    hide Inv, SoundSoFar, StoredBytes, Holds, Clean;
  }

  lemma AcceptChecked(r: Receiver, k: nat)
    requires Inv(r, k) && Got(r) && r.IsNext() && r.line.fifo == []
    requires SoundSoFar(r.line.tx.file, r.line.log) && |r.line.tx.file| <= LOAD_MAX_SIZE
    ensures Checked(r, k, Accept(r), Succ)
  {
    hide Inv, Got, Rx.IsNext, SoundSoFar, StoredBytes, Clean, Accept, BlockPart;
    if 1024 * k < |r.line.tx.file| {
      AcceptNewBlock(r, k);
      InvNotEof(Accept(r), k + 1);
    } else {
      AcceptClosing(r, k);
    }
  }

  lemma CloseChecked(r: Receiver, k: nat)
    requires Reachable(r.line.tx) && r.line.tx.offset == |r.line.tx.file| <= 1024 * k
    requires SoundSoFar(r.line.tx.file, r.line.log)
    ensures Checked(r, k, Close(r).0, Close(r).1)
  {
    hide Inv, SoundSoFar, StoredBytes, Clean, Close, Reachable;
    CloseKeeps(r);
  }

  lemma UncleanChecked(r: Receiver, k: nat, s: Receiver)
    requires SoundSoFar(s.line.tx.file, s.line.log) && s.line.tx.file == r.line.tx.file && !Clean(s.line.log)
    ensures Checked(r, k, s, Succ)
  {
  }

  lemma {:induction false} CheckLoopKeeps(r: Receiver, k: nat, retries: nat, ret: Code)
    requires Inv(r, k) && SoundSoFar(r.line.tx.file, r.line.log) && |r.line.tx.file| <= LOAD_MAX_SIZE
    requires retries == 0 ==> ret != Succ
    ensures Checked(r, k, CheckLoop(r, retries, ret).0, CheckLoop(r, retries, ret).1)
    decreases retries
  {
    hide GetPacket, Inv, Got, Close, Accept, AfterError, AfterDuplicate, Rx.IsNext, Rx.IsDuplicate, SoundSoFar,
      Clean, Reachable, StoredBytes, Quiet, Checked;
    if retries == 0 {
      NotCheckedYet(r, k, ret);
      return;
    }
    var (r1, code) := GetPacket(r);
    GetPacketKeeps(r, k);
    QuietSound(r, r1);
    var (s, c) := CheckLoop(r, retries, ret);
    if code == Succ && r1.IsNext() {
      AcceptChecked(r1, k);
      CheckedTransitive(r, k, r1, s, c);
    } else if code == Succ && r1.IsDuplicate() {
      DuplicateKeeps(r1, k, retries);
      var r2 := AfterDuplicate(r1, retries);
      if retries == 1 {
        UncleanChecked(r1, k, r2);
        CheckedTransitive(r, k, r1, s, c);
      } else {
        CheckLoopKeeps(r2, k, retries - 1, Succ);
        QuietTransitive(r, r1, r2);
        CheckedTransitive(r, k, r2, s, c);
      }
    } else if code == Cancel {
      NotCheckedYet(r1, k, Cancel);
      CheckedTransitive(r, k, r1, s, c);
    } else if code == Eot {
      CloseChecked(r1, k);
      CheckedTransitive(r, k, r1, s, c);
    } else {
      ErrorKeeps(r1, k);
      var r2 := AfterError(r1);
      QuietSound(r1, r2);
      CheckLoopKeeps(r2, k, retries - 1, if code == Succ then SequenceError else code);
      QuietTransitive(r, r1, r2);
      CheckedTransitive(r, k, r2, s, c);
    }
  }

  lemma NotCheckedYet(r: Receiver, k: nat, code: Code)
    requires Inv(r, k) && SoundSoFar(r.line.tx.file, r.line.log) && code != Succ
    ensures Checked(r, k, r, code)
  {
  }

  lemma QuietSound(r: Receiver, s: Receiver)
    requires Quiet(r, s)
    ensures SoundSoFar(s.line.tx.file, s.line.log) && s.line.tx.file == r.line.tx.file
  {
  }

  lemma InvNotEof(r: Receiver, k: nat)
    requires Inv(r, k)
    ensures !r.eof
  {
  }

  // Reading ---------------------------------------------------------------------------------------

  lemma {:induction false} ReadContinues(r: Receiver, size: nat)
    requires size <= PACKET_SIZE
    ensures Continues(r.line, Read(r, size).0.line)
    decreases |r.line.tape|, |r.line.fifo|, size, 1
  {
    hide CheckLoop, Continues;
    ContinuesReflexive(r.line);
    if r.eof || size == 0 {
    } else if r.packetLength != 0 {
      CopyContinues(r, size);
    } else {
      CheckLoopContinues(r, MAX_RETRIES, Fail);
      var (r1, code) := CheckPacket(r);
      if code == Succ && !r1.eof {
        StrictlyLess(r.line, r1.line);
        CopyContinues(r1, size);
        ContinuesTransitive(r.line, r1.line, Copy(r1, size).0.line);
      }
    }
  }

  lemma StrictlyLess(l: Line, m: Line)
    requires StrictlyLater(l, m)
    ensures |m.tape| < |l.tape| || (|m.tape| == |l.tape| && |m.fifo| < |l.fifo|)
  {
  }

  lemma {:induction false} CopyContinues(r: Receiver, size: nat)
    requires 0 < size <= PACKET_SIZE
    ensures Continues(r.line, Copy(r, size).0.line)
    decreases |r.line.tape|, |r.line.fifo|, size, if r.packetLength == 0 then 2 else 0
  {
    hide Read;
    ReadContinues(r.(packetLength := 0), size - Min(size, r.packetLength));
  }

  lemma LengthIgnored(r: Receiver, k: nat)
    requires Inv(r, k)
    ensures Inv(r.(packetLength := 0), k)
  {
    hide Pending, Reachable;
  }

  /** One window of the loader is one block: it is delivered whole, or nothing is. */
  lemma ReadBlock(r: Receiver, k: nat)
    requires Inv(r, k) && SoundSoFar(r.line.tx.file, r.line.log)
    requires r.packetLength == 0 && 1024 * k < |r.line.tx.file| <= LOAD_MAX_SIZE
    ensures var file := r.line.tx.file;
      var (s, data) := Read(r, Min(|file| - 1024 * k, READ_SIZE));
      && SoundSoFar(file, s.line.log) && s.line.tx.file == file
      && (Clean(s.line.log) ==>
        && Quiet(r, s)
        && (data == [] || data == BlockPart(file, k + 1))
        && (data == [] ==> Inv(s, k)) && (data != [] ==> Inv(s, k + 1) && s.packetLength == 0))
  {
    hide CheckLoop, Inv, SoundSoFar, Quiet, Clean, StoredBytes;
    var file := r.line.tx.file;
    var size := Min(|file| - 1024 * k, READ_SIZE);
    InvNotEof(r, k);
    CheckLoopKeeps(r, k, MAX_RETRIES, Fail);
    var (r1, code) := CheckPacket(r);
    if code == Succ && !r1.eof {
      CopyContinues(r1, size);
      if Clean(r1.line.log) {
        PartSize(file, k);
        LengthIgnored(r1, k + 1);
        assert Read(r1.(packetLength := 0), 0) == (r1.(packetLength := 0), []);
        QuietLength(r, r1);
      } else {
        ContinuesLog(r1.line, Copy(r1, size).0.line);
        UncleanStaysSound(file, r1.line.log, Copy(r1, size).0.line.log);
      }
    }
  }

  lemma PartSize(file: seq<Byte>, k: nat)
    requires 1024 * k < |file|
    ensures |BlockPart(file, k + 1)| == Min(|file| - 1024 * k, 1024) > 0
  {
  }

  lemma QuietLength(r: Receiver, s: Receiver)
    requires Quiet(r, s)
    ensures Quiet(r, s.(packetLength := 0))
  {
  }

  lemma ContinuesLog(l: Line, m: Line)
    requires Continues(l, m)
    ensures l.log <= m.log && m.tx.file == l.tx.file
  {
  }

  /** Reading on after the last block changes nothing that is stored. */
  lemma {:induction false} ReadEnd(r: Receiver, k: nat, size: nat)
    requires Inv(r, k) && SoundSoFar(r.line.tx.file, r.line.log)
    requires |r.line.tx.file| <= LOAD_MAX_SIZE && |r.line.tx.file| <= 1024 * k && size <= PACKET_SIZE
    ensures var s := Read(r, size).0;
      && SoundSoFar(s.line.tx.file, s.line.log) && s.line.tx.file == r.line.tx.file
      && (Clean(s.line.log) ==> StoredBytes(s.line.log) == StoredBytes(r.line.log))
    decreases |r.line.tape|, |r.line.fifo|, size, 1
  {
    hide CheckLoop, Inv, SoundSoFar, Clean, StoredBytes, Tally;
    if r.eof || size == 0 {
    } else if r.packetLength != 0 {
      CopyEnd(r, k, size);
    } else {
      CheckLoopKeeps(r, k, MAX_RETRIES, Fail);
      CheckLoopContinues(r, MAX_RETRIES, Fail);
      var (r1, code) := CheckPacket(r);
      if code == Succ && !r1.eof {
        if Clean(r1.line.log) {
          CopyEnd(r1, k + 1, size);
        } else {
          CopyContinues(r1, size);
          ContinuesLog(r1.line, Copy(r1, size).0.line);
          UncleanStaysSound(r.line.tx.file, r1.line.log, Copy(r1, size).0.line.log);
        }
      }
    }
  }

  lemma {:induction false} CopyEnd(r: Receiver, k: nat, size: nat)
    requires Inv(r, k) && SoundSoFar(r.line.tx.file, r.line.log)
    requires |r.line.tx.file| <= LOAD_MAX_SIZE && |r.line.tx.file| <= 1024 * k && 0 < size <= PACKET_SIZE
    ensures var s := Copy(r, size).0;
      && SoundSoFar(s.line.tx.file, s.line.log) && s.line.tx.file == r.line.tx.file
      && (Clean(s.line.log) ==> StoredBytes(s.line.log) == StoredBytes(r.line.log))
    decreases |r.line.tape|, |r.line.fifo|, size, if r.packetLength == 0 then 2 else 0
  {
    hide Read, Inv, SoundSoFar, Clean, StoredBytes;
    LengthIgnored(r, k);
    ReadEnd(r.(packetLength := 0), k, size - Min(size, r.packetLength));
  }

  // The loader ------------------------------------------------------------------------------------

  lemma StoreKeeps(r: Receiver, k: nat)
    requires Inv(r, k + 1) && SoundSoFar(r.line.tx.file, r.line.log)
    requires 1024 * k < |r.line.tx.file|
    requires Clean(r.line.log) && StoredBytes(r.line.log) == Carried(r.line.tx.file, k)
    ensures var s := Note(r, Stored(BlockPart(r.line.tx.file, k + 1)));
      && Inv(s, k + 1) && SoundSoFar(s.line.tx.file, s.line.log) && Clean(s.line.log)
      && StoredBytes(s.line.log) == Carried(r.line.tx.file, k + 1)
  {
    hide Reachable, Rejected, LastMessage, SoundSoFar, StoredBytes, Tally, Clean, BlockPart, Carried;
    var file, log, part := r.line.tx.file, r.line.log, BlockPart(r.line.tx.file, k + 1);
    EventEffects(log, Stored(part));
    SoundNow(file, log);
    CarriedNext(file, k);
    OneMoreEvent(file, log, Stored(part));
  }

  lemma CarriedNext(file: seq<Byte>, k: nat)
    requires 1024 * k < |file|
    ensures Carried(file, k) + BlockPart(file, k + 1) == Carried(file, k + 1) <= file
    ensures |Carried(file, k)| == 1024 * k
  {
  }

  lemma CarriedAll(file: seq<Byte>, k: nat)
    requires |file| <= 1024 * k
    ensures Carried(file, k) == file
  {
    assert file[..|file|] == file;
  }

  /** The sender cannot be through while data is missing. */
  lemma NotThrough(r: Receiver, k: nat)
    requires Inv(r, k) && 1024 * k < |r.line.tx.file|
    ensures !r.line.tx.outcome.Succeeded?
  {
  }

  /** What `receive_file` leaves behind: if it, or the sender, reports success on a clean history,
      flash holds the file. */
  lemma {:induction false} ReceiveKeeps(r: Receiver, k: nat, remaining: nat)
    requires Inv(r, k) && SoundSoFar(r.line.tx.file, r.line.log) && |r.line.tx.file| <= LOAD_MAX_SIZE
    requires Clean(r.line.log) && StoredBytes(r.line.log) == Carried(r.line.tx.file, k)
    requires 1024 * k < |r.line.tx.file| ==> r.packetLength == 0
    requires remaining == if 1024 * k < |r.line.tx.file| then |r.line.tx.file| - 1024 * k else 0
    ensures var (s, ok) := ReceiveFile(r, remaining);
      && SoundSoFar(s.line.tx.file, s.line.log) && s.line.tx.file == r.line.tx.file
      && (Clean(s.line.log) && (ok || s.line.tx.outcome.Succeeded?) ==> StoredBytes(s.line.log) == r.line.tx.file)
    decreases remaining
  {
    hide Read, Inv, SoundSoFar, Clean, StoredBytes, Tally, Carried, BlockPart;
    var file := r.line.tx.file;
    if remaining == 0 {
      ReadEnd(r, k, READ_SIZE);
      CarriedAll(file, k);
      return;
    }
    ReadBlock(r, k);
    ReadContinues(r, Min(remaining, READ_SIZE));
    var (r1, data) := Read(r, Min(remaining, READ_SIZE));
    if !Clean(r1.line.log) {
      ReceiveContinues(r, remaining);
      ReceiveUnclean(r, remaining);
      return;
    }
    if data == [] {
      NotThrough(r1, k);
      return;
    }
    PartSize(file, k);
    StoreKeeps(r1, k);
    ReceiveKeeps(Note(r1, Stored(data)), k + 1, remaining - |data|);
  }

  lemma {:induction false} ReceiveContinues(r: Receiver, remaining: nat)
    ensures r.line.log <= ReceiveFile(r, remaining).0.line.log
    ensures ReceiveFile(r, remaining).0.line.tx.file == r.line.tx.file
    decreases remaining
  {
    hide Read;
    if remaining == 0 {
      ReadContinues(r, READ_SIZE);
      return;
    }
    ReadContinues(r, Min(remaining, READ_SIZE));
    var (r1, data) := Read(r, Min(remaining, READ_SIZE));
    if data != [] && |data| <= remaining {
      ReceiveContinues(Note(r1, Stored(data)), remaining - |data|);
    }
  }

  /** Once a duplicate has been taken for data the history stays marked. */
  lemma ReceiveUnclean(r: Receiver, remaining: nat)
    requires remaining > 0
    requires var r1 := Read(r, Min(remaining, READ_SIZE)).0;
      SoundSoFar(r.line.tx.file, r1.line.log) && !Clean(r1.line.log) && r1.line.tx.file == r.line.tx.file
    ensures var s := ReceiveFile(r, remaining).0;
      SoundSoFar(s.line.tx.file, s.line.log) && !Clean(s.line.log)
  {
    hide Read, SoundSoFar, Clean;
    var file := r.line.tx.file;
    var (r1, data) := Read(r, Min(remaining, READ_SIZE));
    ReceiveContinues(r, remaining);
    if data != [] && |data| <= remaining {
      var r2 := Note(r1, Stored(data));
      ReceiveContinues(r2, remaining - |data|);
      UncleanStaysSound(file, r1.line.log, ReceiveFile(r, remaining).0.line.log);
    }
  }

  // Opening ---------------------------------------------------------------------------------------

  /** Before the header is through. */
  ghost predicate Opening(r: Receiver) {
    var tx := r.line.tx;
    && Reachable(tx) && Pending(r.line) && r.line.log == []
    && (tx.status.WaitStartC? || tx.status.WaitInitAck?)
    && !r.ack && !r.eof && r.readLength == 0 && r.fileLength == 0
  }

  lemma OpeningPut(r: Receiver)
    requires Opening(r) && r.line.fifo == []
    ensures Opening(Say(r, CRC_REQUEST)) && Say(r, CRC_REQUEST).line.tx.file == r.line.tx.file
  {
    hide Put, LastMessage, Rejected, Block, InfoFrame, Pending;
    PutMoves(r.line, CRC_REQUEST);
    NothingSent(r.line.tx);
    NothingSent(Put(r.line, CRC_REQUEST).tx);
  }

  lemma NothingSent(tx: Tx)
    requires Reachable(tx) && (tx.status.WaitStartC? || tx.status.WaitInitAck? || tx.status.WaitTransC?)
    ensures Sent(tx) == 0 && tx.offset == 0
  {
  }

  lemma OpeningStays(r: Receiver, s: Receiver)
    requires Opening(r) && OnlyPacketChanged(r, s)
    ensures Opening(s)
  {
    hide LastMessage, Rejected, Reachable;
  }

  lemma OpeningListen(r: Receiver)
    requires Opening(r)
    ensures var (s, code) := Listen(r);
      && code != Eot && OnlyPacketChanged(r, s) && Opening(s)
      && (code == Succ || code == Timeout ==> s.line.fifo == [])
      && (code == Succ ==>
            s.number == 0 && s.packet[..128] == InfoData(|s.line.tx.file|) && s.line.tx.status.WaitInitAck?)
  {
    hide Listen, Parse, Rejected, InfoFrame, InfoData, LastMessage, Reachable, Opening, OnlyPacketChanged;
    OpeningStatus(r);
    var s := Listen(r).0;
    if r.line.fifo == [] || Rejected(r.line.fifo) {
      RejectedListen(r);
    } else if r.line.tx.status.WaitStartC? {
      SilentStart(r.line.tx);
      assert false;
    } else {
      ParseLast(r.line.tx);
      GoodListen(r);
    }
    OpeningStays(r, s);
    SameSender(r, s);
  }

  lemma OpeningStatus(r: Receiver)
    requires Opening(r)
    ensures Reachable(r.line.tx) && (r.line.tx.status.WaitStartC? || r.line.tx.status.WaitInitAck?)
    ensures r.line.fifo == [] || Rejected(r.line.fifo) || r.line.fifo == LastMessage(r.line.tx)
  {
  }

  lemma SilentStart(tx: Tx)
    requires Reachable(tx) && tx.status.WaitStartC?
    ensures LastMessage(tx) == []
  {
  }

  lemma SameSender(r: Receiver, s: Receiver)
    requires OnlyPacketChanged(r, s)
    ensures s.line.tx == r.line.tx
  {
  }

  /** The header is read, its length taken over, and the first acknowledgement prepared. */
  lemma InfoOpens(s: Receiver)
    requires Opening(s) && s.line.fifo == [] && s.number == 0 && s.line.tx.status.WaitInitAck?
    requires s.packet[..128] == InfoData(|s.line.tx.file|)
    ensures var (t, code), length := GetInfo(s), |s.line.tx.file|;
      && t.line == s.line
      && (length < 0x8000_0000 ==> (code == Succ <==> length <= 0x100_0000) && t.fileLength == length)
      && (length >= 0x8000_0000 ==> code == Succ && t.fileLength == 0)
      && (code == Succ && t.fileLength != 0 ==> Inv(t, 0) && t.packetLength == 0)
  {
    hide ParseLength, SkipName, InfoData, LastMessage, Pending, Reachable;
    HeaderRoundTrip(|s.line.tx.file|, s.packet);
    NothingSent(s.line.tx);
    LowOne();
    ReachableFile(s.line.tx);
  }

  lemma LowOne()
    ensures Low8(1) == 1
  {
  }

  lemma ReachableFile(tx: Tx)
    requires Reachable(tx)
    ensures 0 < |tx.file| < U32
  {
  }

  lemma {:induction false} OpenKeeps(r: Receiver, retries: nat)
    requires Opening(r)
    ensures var (t, code) := OpenLoop(r, retries);
      && t.line.log == [] && t.line.tx.file == r.line.tx.file && !t.line.tx.outcome.Succeeded?
      && (code == Succ && t.fileLength != 0 ==>
            Inv(t, 0) && t.packetLength == 0 && t.fileLength == |r.line.tx.file| <= 0x100_0000)
    decreases retries
  {
    hide Listen, Opening, Inv, GetInfo, InfoData, Put;
    if retries == 0 {
      OpeningFacts(r);
      return;
    }
    OpeningFacts(r);
    OpeningListen(r);
    assert GetPacket(r) == Listen(r);
    var (s, code) := Listen(r);
    OpeningFacts(s);
    SameSender(r, s);
    if code == Succ {
      InfoOpens(s);
    } else if code == Cancel {
    } else if code == Timeout {
      OpeningPut(s);
      OpenKeeps(Say(s, CRC_REQUEST), retries - 1);
    } else {
      OpenKeeps(s, retries - 1);
    }
  }

  lemma OpeningFacts(r: Receiver)
    requires Opening(r)
    ensures r.line.log == [] && !r.ack && !r.line.tx.outcome.Succeeded?
  {
  }
}
