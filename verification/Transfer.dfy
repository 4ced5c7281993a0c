/** The sending side of the loader's YMODEM: an event machine driven by single octets from the peer. */
module Transfer {
  import opened Bytes
  import opened YmodemFrames

  datatype Status =
    | Idle | WaitStartC | WaitInitAck | WaitTransC | WaitInterAck | WaitFinalAck | WaitEotC | WaitZeroAck

  datatype Outcome = Running | Succeeded | Failed

  const BUFFER_LENGTH := 1029
  const SHORT_MESSAGE := 133
  const CAN_COUNT := 3

  /** `upload.bin` with its terminating NUL. */
  const FILE_NAME: seq<Byte> := [0x75, 0x70, 0x6c, 0x6f, 0x61, 0x64, 0x2e, 0x62, 0x69, 0x6e, 0x00]

  /** The upload context. `retry` and `cans` are four-bit fields. */
  datatype Tx = Tx(file: seq<Byte>, offset: nat, status: Status, number: Byte, retry: nat, cans: nat,
                   buffer: seq<Byte>, outcome: Outcome)
  {
    predicate Valid() {
      && |buffer| == BUFFER_LENGTH
      && offset <= |file| < 0x1_0000_0000
      && retry < 16
      && cans < 16
    }
  }

  /** A decimal numeral without leading zeros; empty for zero. */
  function Decimal(n: nat): seq<Byte> {
    if n == 0 then [] else Decimal(n / 10) + [0x30 + Low8(n % 10)]
  }

  lemma {:induction false} DecimalShort(n: nat, digits: nat)
    requires n < Power10(digits)
    ensures |Decimal(n)| <= digits
    decreases digits
  {
    if n > 0 {
      DecimalShort(n / 10, digits - 1);
    }
  }

  function Power10(e: nat): (p: nat)
    ensures p > 0
  {
    if e == 0 then 1 else 10 * Power10(e - 1)
  }

  lemma Power10Of10()
    ensures Power10(10) == 10_000_000_000
  {
    assert Power10(5) == 100_000;
    assert Power10(8) == 1000 * Power10(5);
  }

  /** The length field of the file header: the C code counts in an `int32_t`. */
  function LengthField(length: nat): (s: seq<Byte>)
    requires length < 0x1_0000_0000
    ensures |s| <= 10
  {
    if length < 0x8000_0000 then
      Power10Of10();
      DecimalShort(length, 10);
      Decimal(length)
    else []
  }

  function InfoData(length: nat): (s: seq<Byte>)
    requires length < 0x1_0000_0000
    ensures |s| == 128
  {
    FILE_NAME + LengthField(length) + Fill(0, 117 - |LengthField(length)|)
  }

  function InfoFrame(length: nat, number: Byte): (s: seq<Byte>)
    requires length < 0x1_0000_0000
    ensures |s| == SHORT_MESSAGE
  {
    Frame(SOH, number, InfoData(length))
  }

  function Min(a: nat, b: nat): nat {
    if a <= b then a else b
  }

  /** The packet that carries the file from `offset` on. */
  function DataFrame(file: seq<Byte>, offset: nat, number: Byte): (s: seq<Byte>)
    requires offset <= |file|
    ensures |s| == if |file| - offset <= 128 then SHORT_MESSAGE else BUFFER_LENGTH
  {
    var remain := |file| - offset;
    if remain <= 128 then Frame(SOH, number, file[offset..] + Fill(FILLER, 128 - remain))
    else
      var n := Min(remain, 1024);
      Frame(STX, number, file[offset..offset + n] + Fill(FILLER, 1024 - n))
  }

  function SendFileInfo(tx: Tx): (Tx, seq<Byte>)
    requires tx.Valid()
  {
    if tx.retry > 0 then (tx, tx.buffer[..SHORT_MESSAGE])
    else
      var frame := InfoFrame(|tx.file|, tx.number);
      (tx.(buffer := frame + Fill(0, BUFFER_LENGTH - SHORT_MESSAGE), status := WaitInitAck), frame)
  }

  function SendData(tx: Tx): (Tx, seq<Byte>)
    requires tx.Valid()
  {
    if tx.retry > 0 then
      (tx, if tx.buffer[0] == SOH then tx.buffer[..SHORT_MESSAGE] else tx.buffer)
    else
      var remain := |tx.file| - tx.offset;
      var number := tx.number + 1;
      var frame := DataFrame(tx.file, tx.offset, number);
      (tx.(number := number,
           buffer := frame + Fill(FILLER, BUFFER_LENGTH - |frame|),
           status := if remain > 1024 then WaitInterAck else WaitFinalAck,
           offset := tx.offset + Min(remain, 1024)),
       frame)
  }

  /** The empty header that ends the batch. Only 128 octets of the buffer are cleared, so the last
      three data octets are what the buffer held before. */
  function NullFrame(buffer: seq<Byte>): (s: seq<Byte>)
    requires |buffer| == BUFFER_LENGTH
    ensures |s| == SHORT_MESSAGE
  {
    Frame(SOH, 0, Fill(0, 125) + buffer[128..131])
  }

  function SendNullInfo(tx: Tx): (Tx, seq<Byte>)
    requires tx.Valid()
  {
    var frame := NullFrame(tx.buffer);
    (tx.(buffer := frame + tx.buffer[SHORT_MESSAGE..], status := WaitZeroAck), frame)
  }

  function CStep(tx: Tx): (Tx, seq<Byte>)
    requires tx.Valid()
  {
    match tx.status
    case WaitStartC => SendFileInfo(tx)
    case WaitTransC => SendData(tx)
    case WaitEotC => SendNullInfo(tx)
    case _ => (tx, [])
  }

  function AckStep(tx: Tx): (Tx, seq<Byte>)
    requires tx.Valid()
  {
    match tx.status
    case WaitInitAck => (tx.(status := WaitTransC), [])
    case WaitInterAck => SendData(tx)
    case WaitFinalAck => (tx.(status := WaitEotC), [EOT])
    case _ => (tx, [])
  }

  function NakStep(tx: Tx): (Tx, seq<Byte>)
    requires tx.Valid()
  {
    match tx.status
    case WaitInitAck => SendFileInfo(tx)
    case WaitInterAck => SendData(tx)
    case WaitFinalAck => SendData(tx)
    case WaitEotC => (tx, [EOT])
    case WaitZeroAck => SendNullInfo(tx)
    case _ => (tx, [])
  }

  /** One turn of the event loop: the new context and the octets sent. */
  function React(tx: Tx, ch: Byte): (Tx, seq<Byte>)
    requires tx.Valid()
  {
    if !tx.outcome.Running? then (tx, [])
    else if ch == CRC_REQUEST then CStep(tx.(cans := 0, retry := 0))
    else if ch == ACK then
      var t := tx.(cans := 0, retry := 0);
      if t.status.WaitZeroAck? then (t.(outcome := Succeeded), []) else AckStep(t)
    else if ch == NAK then
      var t := tx.(cans := 0, retry := (tx.retry + 1) % 16);
      if t.retry == 0 then (t.(outcome := Failed), []) else NakStep(t)
    else if ch == CAN then
      var t := tx.(retry := 0, cans := (tx.cans + 1) % 16);
      if t.cans == CAN_COUNT then (t.(outcome := Failed), []) else (t, [])
    else (tx, [])
  }

  lemma SendsKeepValid(tx: Tx)
    requires tx.Valid()
    ensures SendFileInfo(tx).0.Valid() && SendData(tx).0.Valid() && SendNullInfo(tx).0.Valid()
    ensures SendFileInfo(tx).0.file == SendData(tx).0.file == SendNullInfo(tx).0.file == tx.file
  {
  }

  lemma StepsKeepValid(tx: Tx)
    requires tx.Valid()
    ensures CStep(tx).0.Valid() && AckStep(tx).0.Valid() && NakStep(tx).0.Valid()
    ensures CStep(tx).0.file == AckStep(tx).0.file == NakStep(tx).0.file == tx.file
  {
    SendsKeepValid(tx);
  }

  lemma ReactValid(tx: Tx, ch: Byte)
    requires tx.Valid()
    ensures React(tx, ch).0.Valid() && React(tx, ch).0.file == tx.file
  {
    StepsKeepValid(tx.(cans := 0, retry := 0));
    StepsKeepValid(tx.(cans := 0, retry := (tx.retry + 1) % 16));
  }

  /** The context that `upload_data` sets up. */
  function Start(file: seq<Byte>): Tx {
    Tx(file, 0, WaitStartC, 0, 0, 0, Fill(0, BUFFER_LENGTH), Running)
  }

  // What every reachable context looks like -----------------------------------------------------

  /** One block for every started kilobyte. */
  function BlockCount(length: nat): (k: nat)
    ensures length <= 1024 * k < length + 1024
  {
    if length == 0 then 0 else if length <= 1024 then 1 else 1 + BlockCount(length - 1024)
  }

  /** How many data blocks have been sent. */
  function Sent(tx: Tx): nat {
    BlockCount(tx.offset)
  }

  /** Data block `k`, counting from 1. */
  function Block(file: seq<Byte>, k: nat): (s: seq<Byte>)
    requires 1 <= k <= BlockCount(|file|)
  {
    DataFrame(file, 1024 * (k - 1), Low8(k))
  }

  /** The part of the file that the first `k` blocks carry. */
  function Carried(file: seq<Byte>, k: nat): seq<Byte> {
    file[..Min(1024 * k, |file|)]
  }

  /** The message that a NAK asks for again. */
  function LastMessage(tx: Tx): seq<Byte>
    requires Reachable(tx)
  {
    match tx.status
    case Idle => []
    case WaitStartC => []
    case WaitInitAck => InfoFrame(|tx.file|, 0)
    case WaitTransC => InfoFrame(|tx.file|, 0)
    case WaitInterAck => Block(tx.file, Sent(tx))
    case WaitFinalAck => Block(tx.file, Sent(tx))
    case WaitEotC => [EOT]
    case WaitZeroAck => NullFrame(tx.buffer)
  }

  predicate Buffered(tx: Tx, message: seq<Byte>)
    requires |tx.buffer| == BUFFER_LENGTH
  {
    message == if tx.buffer[0] == SOH then tx.buffer[..SHORT_MESSAGE] else tx.buffer
  }

  predicate Reachable(tx: Tx) {
    && tx.Valid() && tx.file != []
    && tx.number == Low8(Sent(tx))
    && tx.offset == Min(1024 * Sent(tx), |tx.file|)
    && (tx.outcome.Succeeded? ==> tx.status.WaitZeroAck?)
    && match tx.status
       case Idle => false
       case WaitStartC => tx.offset == 0
       case WaitInitAck => tx.offset == 0 && tx.buffer[..SHORT_MESSAGE] == InfoFrame(|tx.file|, 0)
       case WaitTransC => tx.offset == 0
       case WaitInterAck => 0 < tx.offset < |tx.file| && Buffered(tx, Block(tx.file, Sent(tx)))
       case WaitFinalAck => tx.offset == |tx.file| && Buffered(tx, Block(tx.file, Sent(tx)))
       case WaitEotC => tx.offset == |tx.file|
       case WaitZeroAck => tx.offset == |tx.file|
  }

  lemma StartReachable(file: seq<Byte>)
    requires 0 < |file| < 0x1_0000_0000
    ensures Reachable(Start(file)) && Sent(Start(file)) == 0
  {
  }

  lemma AdvanceOffset(k: nat, length: nat)
    requires 1024 * k < length
    ensures BlockCount(1024 * k) == k
    ensures BlockCount(1024 * k + Min(length - 1024 * k, 1024)) == k + 1 <= BlockCount(length)
    ensures 1024 * k + Min(length - 1024 * k, 1024) == Min(1024 * (k + 1), length)
  {
  }

  lemma DataFrameHead(file: seq<Byte>, offset: nat, number: Byte)
    requires offset <= |file|
    ensures DataFrame(file, offset, number)[0] == if |file| - offset <= 128 then SOH else STX
  {
  }

  lemma BufferedFrame(tx: Tx, frame: seq<Byte>)
    requires frame != [] && (frame[0] == SOH <==> |frame| == SHORT_MESSAGE)
    requires |frame| == SHORT_MESSAGE || |frame| == BUFFER_LENGTH
    requires tx.buffer == frame + Fill(FILLER, BUFFER_LENGTH - |frame|)
    ensures Buffered(tx, frame)
  {
    assert tx.buffer[..|frame|] == frame;
  }

  lemma NextIsBlock(tx: Tx)
    requires Reachable(tx) && tx.offset < |tx.file| && tx.retry == 0
    ensures SendData(tx).1 == Block(tx.file, Sent(tx) + 1)
  {
    AdvanceOffset(Sent(tx), |tx.file|);
    assert tx.number + 1 == Low8(Sent(tx) + 1);
  }

  lemma NextIsBuffered(tx: Tx)
    requires Reachable(tx) && tx.offset < |tx.file| && tx.retry == 0
    ensures Buffered(SendData(tx).0, SendData(tx).1)
  {
    DataFrameHead(tx.file, tx.offset, tx.number + 1);
    BufferedFrame(SendData(tx).0, SendData(tx).1);
  }

  lemma NextIsCounted(tx: Tx)
    requires Reachable(tx) && tx.offset < |tx.file| && tx.retry == 0
    ensures var t := SendData(tx).0;
            Sent(t) == Sent(tx) + 1 <= BlockCount(|tx.file|) && t.offset == Min(1024 * Sent(t), |tx.file|)
  {
    AdvanceOffset(Sent(tx), |tx.file|);
  }

  lemma NextIsReachable(tx: Tx, t: Tx)
    requires Reachable(tx) && tx.offset < |tx.file| && tx.retry == 0
    requires t == SendData(tx).0
    requires Sent(t) == Sent(tx) + 1 <= BlockCount(|tx.file|) && t.offset == Min(1024 * Sent(t), |tx.file|)
    requires Buffered(t, Block(tx.file, Sent(t)))
    ensures Reachable(t)
  {
  }

  lemma NextBlock(tx: Tx)
    requires Reachable(tx) && tx.offset < |tx.file| && tx.retry == 0
    ensures var (t, out) := SendData(tx);
            Reachable(t) && Sent(t) == Sent(tx) + 1 && out == Block(tx.file, Sent(tx) + 1) && t.file == tx.file
  {
    NextIsCounted(tx);
    NextIsBlock(tx);
    NextIsBuffered(tx);
    NextIsReachable(tx, SendData(tx).0);
  }

  lemma NullRepeats(tx: Tx)
    requires Reachable(tx) && tx.offset == |tx.file|
    ensures var (t, out) := SendNullInfo(tx);
            Reachable(t) && t.status == WaitZeroAck && out == NullFrame(t.buffer) == NullFrame(tx.buffer)
  {
    var frame := NullFrame(tx.buffer);
    var t := SendNullInfo(tx).0;
    assert t.buffer[128..131] == frame[128..131] == tx.buffer[128..131];
  }

  // What each octet from the peer does ----------------------------------------------------------

  lemma Recount(tx: Tx, retry: nat, cans: nat)
    requires Reachable(tx) && retry < 16 && cans < 16
    ensures Reachable(tx.(retry := retry, cans := cans))
  {
  }

  lemma HeaderSent(tx: Tx)
    requires Reachable(tx) && tx.status.WaitStartC? && tx.retry == 0
    ensures var (t, out) := SendFileInfo(tx);
            && Reachable(t) && t.status.WaitInitAck? && t.offset == 0 && t.file == tx.file
            && out == InfoFrame(|tx.file|, 0)
  {
    var t := SendFileInfo(tx).0;
    assert t.buffer[..SHORT_MESSAGE] == InfoFrame(|tx.file|, 0);
  }

  /** `C` starts the header, the first block or the closing header, and nothing else. */
  lemma ReactToC(tx: Tx)
    requires Reachable(tx) && tx.outcome.Running?
    ensures var (t, out) := React(tx, 0x43);
      && Reachable(t) && t.outcome.Running? && t.file == tx.file && t.retry == 0 && t.cans == 0
      && (match tx.status
          case WaitStartC => t.status.WaitInitAck? && t.offset == 0 && out == InfoFrame(|tx.file|, 0)
          case WaitTransC => Sent(t) == 1 && t.offset > 0 && out == Block(tx.file, 1) && !t.status.WaitTransC?
          case WaitEotC => t.status.WaitZeroAck? && t.offset == tx.offset && out == NullFrame(t.buffer)
          case _ => t == tx.(retry := 0, cans := 0) && out == [])
  {
    hide Frame, DataFrame, Block, NullFrame, InfoData, BlockCount;
    var u := tx.(retry := 0, cans := 0);
    Recount(tx, 0, 0);
    if u.status.WaitStartC? {
      HeaderSent(u);
    } else if u.status.WaitTransC? {
      NextBlock(u);
    } else if u.status.WaitEotC? {
      NullRepeats(u);
    }
  }

  /** An ACK moves the sender on: to the next block, to EOT after the last, or to success. */
  lemma ReactToAck(tx: Tx)
    requires Reachable(tx) && tx.outcome.Running?
    ensures var (t, out) := React(tx, 0x06);
      && Reachable(t) && t.file == tx.file && t.retry == 0 && t.cans == 0
      && (t.outcome.Succeeded? <==> tx.status.WaitZeroAck?) && !t.outcome.Failed?
      && (match tx.status
          case WaitInitAck => t.status.WaitTransC? && t.offset == 0 && out == []
          case WaitInterAck => Sent(t) == Sent(tx) + 1 && out == Block(tx.file, Sent(tx) + 1)
          case WaitFinalAck => t.status.WaitEotC? && t.offset == |tx.file| && out == [0x04]
          case _ => t == tx.(retry := 0, cans := 0, outcome := t.outcome) && out == [])
  {
    hide Frame, DataFrame, Block, NullFrame, InfoData, BlockCount, Low8;
    var u := tx.(retry := 0, cans := 0);
    Recount(tx, 0, 0);
    if u.status.WaitInterAck? {
      NextBlock(u);
    }
  }

  /** A NAK repeats the last message or is ignored; it never moves the file offset. The 16th gives up. */
  lemma ReactToNak(tx: Tx)
    requires Reachable(tx) && tx.outcome.Running?
    ensures var (t, out) := React(tx, 0x15);
      && Reachable(t) && t.file == tx.file && t.cans == 0
      && t.status == tx.status && t.offset == tx.offset && t.number == tx.number
      && t.retry == (tx.retry + 1) % 16
      && (t.outcome.Failed? <==> tx.retry == 15) && !t.outcome.Succeeded?
      && (out == [] || out == LastMessage(tx))
      && LastMessage(t) == LastMessage(tx)
      && (t.outcome.Running? && !tx.status.WaitStartC? && !tx.status.WaitTransC? ==> out == LastMessage(tx))
  {
    hide Frame, DataFrame, Block, InfoData, BlockCount, Low8, NullFrame;
    var u := tx.(retry := (tx.retry + 1) % 16, cans := 0);
    Recount(tx, (tx.retry + 1) % 16, 0);
    if u.status.WaitZeroAck? {
      NullRepeats(u);
    }
  }

  /** Any other octet changes no more than the counters. */
  lemma ReactToOther(tx: Tx, ch: Byte)
    requires Reachable(tx) && tx.outcome.Running? && ch != 0x43 && ch != 0x06 && ch != 0x15
    ensures var (t, out) := React(tx, ch);
      && Reachable(t) && out == []
      && t == tx.(retry := t.retry, cans := t.cans, outcome := t.outcome)
      && (t.outcome.Failed? <==> ch == 0x18 && (tx.cans + 1) % 16 == 3) && !t.outcome.Succeeded?
      && (ch == 0x18 ==> t.retry == 0 && t.cans == (tx.cans + 1) % 16)
      && (ch != 0x18 ==> t == tx)
  {
    hide Frame, DataFrame, Block, InfoData, BlockCount, Low8, NullFrame;
    Recount(tx, 0, (tx.cans + 1) % 16);
  }
}
