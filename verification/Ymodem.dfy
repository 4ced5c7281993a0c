/** The receiving side of the loader's YMODEM, on a serial line whose far end is the sender of
    module Transfer.

    The line is half duplex: a timeout is reported only when nothing is on its way, so every octet
    the receiver sends is answered, by the sender and the line together, before the receiver looks
    at the line again. What the line does to each octet and to the answer is fixed by a tape of
    faults; where the tape ends the line is dead. */
module Ymodem {
  import opened Bytes
  import opened YmodemFrames
  import opened Transfer

  // The line ------------------------------------------------------------------------------------

  type Sender = tx: Tx | tx.Valid() witness Tx([], 0, Idle, 0, 0, 0, Fill(0, BUFFER_LENGTH), Running)

  /** What happens to one octet of the receiver. An octet never turns into an ACK. */
  datatype ControlFault = Intact | Lost | Turned(b: Byte)

  /** What happens to it and to the sender's answer: `None` leaves the answer whole, `Some(d)` puts
      `d` in its place, provided the receiver's own checks turn `d` away. */
  datatype Fault = Fault(control: ControlFault, packet: Option<seq<Byte>>)

  const NO_FAULT := Fault(Intact, None)

  /** History, for stating what happened when. */
  datatype Event =
    | BlockSent                    // the sender put a new data block on the line
    | BlockAccepted                // the receiver took a block as the next one
    | LastTryDuplicate             // the last allowed try brought a duplicate, which is then used as data
    | Stored(data: seq<Byte>)      // the loader wrote to flash

  datatype Line = Line(tx: Sender, fifo: seq<Byte>, tape: seq<Fault>, log: seq<Event>)

  function Arriving(fault: ControlFault, ch: Byte): Option<Byte> {
    match fault
    case Intact => Some(ch)
    case Lost => None
    case Turned(b) => if b == ACK && ch != ACK then None else Some(b)
  }

  function Delivered(fault: Option<seq<Byte>>, answer: seq<Byte>): seq<Byte> {
    match fault
    case None => answer
    case Some(d) => if answer != [] && Rejected(d) then d else answer
  }

  function Answered(line: Line, fault: Fault, ch: Byte): Line {
    ReactValid(line.tx, ch);
    var (t, out) := React(line.tx, ch);
    line.(tx := t,
          fifo := line.fifo + Delivered(fault.packet, out),
          log := line.log + (if t.offset != line.tx.offset then [BlockSent] else []))
  }

  /** `serial_putc`. */
  function Put(line: Line, ch: Byte): Line {
    if line.tape == [] then line
    else
      var fault, rest := line.tape[0], line.(tape := line.tape[1..]);
      match Arriving(fault.control, ch)
      case None => rest
      case Some(b) => Answered(rest, fault, b)
  }

  /** The sender hears `b`, and `d` arrives behind what is on the line: its answer, or damage in its place. */
  ghost predicate Hears(line: Line, b: Byte, d: seq<Byte>, after: Line) {
    ReactValid(line.tx, b);
    var (t, out) := React(line.tx, b);
    && (d == out || (out != [] && Rejected(d)))
    && after == line.(tx := t, fifo := line.fifo + d,
                      log := line.log + if t.offset != line.tx.offset then [BlockSent] else [])
  }

  /** All that a line can do to an octet, and each of it with some fault: it loses the octet, or the sender hears it or
      any other one, but no ACK that was not sent; and the answer arrives whole, or as anything that is turned away. */
  lemma LineExactly(line: Line, ch: Byte, after: Line)
    ensures (exists f :: after == Put(line.(tape := [f] + line.tape), ch)) <==>
      after == line || exists b, d :: Hears(line, b, d, after) && (b == 0x06 ==> ch == 0x06)
    ensures line.tape == [] ==> Put(line, ch) == line
  {
    hide React, Rejected, Hears, Put;
    if f :| after == Put(line.(tape := [f] + line.tape), ch) {
      FaultHeard(line, ch, f);
    } else if after == line {
      OneFault(line, ch, Fault(Lost, None));
    } else if b, d :| Hears(line, b, d, after) && (b == 0x06 ==> ch == 0x06) {
      var f := HeardByFault(line, ch, b, d, after);
    }
    assert line.tape == [] ==> Put(line, ch) == line by {
      NothingSaid(line, ch);
    }
  }

  lemma NothingSaid(line: Line, ch: Byte)
    ensures line.tape == [] ==> Put(line, ch) == line
  {
  }

  lemma HeardByFault(line: Line, ch: Byte, b: Byte, d: seq<Byte>, after: Line) returns (f: Fault)
    requires Hears(line, b, d, after) && (b == 0x06 ==> ch == 0x06)
    ensures after == Put(line.(tape := [f] + line.tape), ch)
  {
    hide React, Rejected, Put;
    f := Fault(Turned(b), if d == React(line.tx, b).1 then None else Some(d));
    OneFault(line, ch, f);
  }

  lemma OneFault(line: Line, ch: Byte, f: Fault)
    ensures Put(line.(tape := [f] + line.tape), ch) ==
      match Arriving(f.control, ch)
      case None => line
      case Some(b) => Answered(line, f, b)
  {
    hide Answered, Arriving;
    var faulty := line.(tape := [f] + line.tape);
    assert faulty.tape[1..] == line.tape;
  }

  lemma FaultHeard(line: Line, ch: Byte, f: Fault)
    ensures var after := Put(line.(tape := [f] + line.tape), ch);
      after == line || exists b, d :: Hears(line, b, d, after) && (b == 0x06 ==> ch == 0x06)
  {
    hide React, Rejected;
    OneFault(line, ch, f);
    match Arriving(f.control, ch)
    case None =>
    case Some(b) =>
      var d := Delivered(f.packet, React(line.tx, b).1);
      assert Hears(line, b, d, Answered(line, f, b));
  }

  // The receiver --------------------------------------------------------------------------------

  /** The packet buffer, as in builds with large packets. */
  const PACKET_SIZE := 8192
  const MAX_RETRIES := 20
  const LOAD_MAX_SIZE := 0x100_0000

  datatype Code = Succ | Fail | Timeout | Cancel | Eot | FrameError | ChecksumError | SequenceError | LengthError

  datatype Rx = Rx(packetLength: nat, packet: seq<Byte>, eof: bool, ack: bool, number: Byte, expected: Byte,
                   fileLength: nat, readLength: nat, line: Line)
  {
    predicate IsNext() {
      number == expected
    }

    predicate IsDuplicate() {
      number == expected - 1
    }
  }

  type Receiver = r: Rx | |r.packet| == PACKET_SIZE
    witness Rx(0, Fill(0, PACKET_SIZE), false, false, 0, 0, 0, 0,
               Line(Tx([], 0, Idle, 0, 0, 0, Fill(0, BUFFER_LENGTH), Running), [], [], []))

  function Say(r: Receiver, ch: Byte): Receiver {
    r.(line := Put(r.line, ch))
  }

  function Heard(r: Receiver, rest: seq<Byte>): Receiver {
    r.(line := r.line.(fifo := rest))
  }

  function Note(r: Receiver, e: Event): Receiver {
    r.(line := r.line.(log := r.line.log + [e]))
  }

  /** The packet buffer after `data` was read into its front. */
  function Filled(r: Receiver, length: nat, data: seq<Byte>): Receiver
    requires |data| <= PACKET_SIZE
  {
    r.(packetLength := length, packet := data + r.packet[|data|..])
  }

  lemma BodyFits(length: nat, s: seq<Byte>)
    requires length <= PACKET_SIZE
    ensures match Body(length, s)
            case NoPacket => false
            case CancelRequest(_) => false
            case EndRequest(_) => false
            case Cut(n, _, data) => n == length && |data| <= length
            case BadNumber(n, data, rest) => n == |data| == length && |rest| < |s|
            case BadChecksum(n, data, rest) => n == |data| == length && |rest| < |s|
            case Good(_, data, rest) => |data| == length && |rest| < |s|
  {
  }

  /** No packet is longer than the buffer, and a packet uses up input. */
  lemma ParseFits(s: seq<Byte>)
    ensures match Parse(s)
            case NoPacket => true
            case CancelRequest(rest) => |rest| < |s|
            case EndRequest(rest) => |rest| < |s|
            case Cut(n, _, data) => n <= PACKET_SIZE && |data| <= PACKET_SIZE
            case BadNumber(n, data, rest) => n == |data| <= PACKET_SIZE && |rest| < |s|
            case BadChecksum(n, data, rest) => n == |data| <= PACKET_SIZE && |rest| < |s|
            case Good(_, data, rest) => |data| <= PACKET_SIZE && |rest| < |s|
  {
    match Hunt(s, true, 0)
    case Announced(length, rest) => BodyFits(length, rest);
    case _ =>
  }

  /** `ymodem_get_packet` once a deferred ACK is out. */
  function Listen(r: Receiver): (Receiver, Code) {
    ParseFits(r.line.fifo);
    match Parse(r.line.fifo)
    case NoPacket => (Heard(r, []), Timeout)
    case CancelRequest(rest) => (Heard(r, rest), Cancel)
    case EndRequest(rest) => (Say(Heard(r, rest), ACK), Eot)
    case Cut(length, inData, data) => (Filled(Heard(r, []), length, data), if inData then Fail else Timeout)
    case BadNumber(length, data, rest) => (Filled(Heard(r, rest), length, data), FrameError)
    case BadChecksum(length, data, rest) => (Filled(Heard(r, rest), length, data), ChecksumError)
    case Good(number, data, rest) => (Filled(Heard(r, rest), |data|, data).(number := number), Succ)
  }

  function GetPacket(r: Receiver): (Receiver, Code) {
    Listen(if r.ack then Say(r.(ack := false), ACK) else r)
  }

  // The file header -----------------------------------------------------------------------------

  /** The octet at `i`; behind the buffer lies the end-of-file flag, which is zero while a header is read. */
  function CharAt(p: seq<Byte>, i: nat): Byte {
    if i < |p| then p[i] else 0
  }

  function SkipName(p: seq<Byte>, i: nat, counter: nat): nat
    decreases counter
  {
    if CharAt(p, i) == 0 || counter == 0 then i + 1 else SkipName(p, i + 1, counter - 1)
  }

  function SkipSpaces(p: seq<Byte>, i: nat, count: nat): (nat, nat)
    decreases count
  {
    if CharAt(p, i) == 0x20 && count > 0 then SkipSpaces(p, i + 1, count - 1) else (i, count)
  }

  function HexValue(ch: Byte): Option<nat> {
    if 0x30 <= ch <= 0x39 then Some(Nat(ch - 0x30))
    else if 0x61 <= ch <= 0x66 then Some(Nat(ch - 0x61) + 10)
    else if 0x41 <= ch <= 0x46 then Some(Nat(ch - 0x41) + 10)
    else None
  }

  /** The digit loop. It never uses up `count`, takes `a` for 10 in decimal, and skips larger digits. */
  function Digits(p: seq<Byte>, i: nat, radix: nat, value: nat): Option<nat>
    decreases |p| - i
  {
    if CharAt(p, i) == 0 then Some(value)
    else
      match HexValue(p[i])
      case None => None
      case Some(d) => Digits(p, i + 1, radix, if d <= radix then (value * radix + d) % 0x1_0000_0000 else value)
  }

  function ParseLength(p: seq<Byte>, start: nat, parseMax: nat): Option<nat> {
    var (i, count) := SkipSpaces(p, start, parseMax);
    var hex := CharAt(p, i) == 0x30 && (CharAt(p, i + 1) == 0x78 || CharAt(p, i + 1) == 0x58) && count > 1;
    var j, left, radix := if hex then i + 2 else i, if hex then count - 2 else count, if hex then 16 else 10;
    if left > 0 then Digits(p, j, radix, 0) else Some(0)
  }

  function GetInfo(r: Receiver): (Receiver, Code) {
    var ready := r.(expected := 1, packetLength := 0);
    if r.number != 0 then (ready, Succ)
    else
      match ParseLength(r.packet, SkipName(r.packet, 0, 128), 128)
      case None => (r, Fail)
      case Some(length) =>
        if length > LOAD_MAX_SIZE then (r.(fileLength := length), LengthError)
        else (ready.(fileLength := length, ack := true), Succ)
  }

  // Opening -------------------------------------------------------------------------------------

  function OpenLoop(r: Receiver, retries: nat): (Receiver, Code)
    decreases retries
  {
    if retries == 0 then (r, Fail)
    else
      var (r1, code) := GetPacket(r);
      if code == Succ then GetInfo(r1)
      else if code == Cancel then (r1, Fail)
      else if code == Timeout then OpenLoop(Say(r1, CRC_REQUEST), retries - 1)
      else OpenLoop(r1, retries - 1)
  }

  function Open(r: Receiver): (Receiver, Code) {
    var cleared := r.(packetLength := 0, fileLength := 0, readLength := 0, ack := false, eof := false);
    OpenLoop(Say(cleared, CRC_REQUEST), MAX_RETRIES)
  }

  // Data ----------------------------------------------------------------------------------------

  const U32 := 0x1_0000_0000

  /** `get_packet_len`: count the block and cut the padding off the last one, in 32-bit arithmetic. */
  function Accept(r: Receiver): Receiver {
    var total := (r.readLength + r.packetLength) % U32;
    var length := if total > r.fileLength then (r.packetLength - (total - r.fileLength)) % U32 else r.packetLength;
    Note(r.(ack := true, expected := r.expected + 1, readLength := total, packetLength := length), BlockAccepted)
  }

  /** The closing exchange after EOT. */
  function Close(r: Receiver): (Receiver, Code) {
    var (r1, code) := GetPacket(Say(Say(r, ACK), CRC_REQUEST));
    (Say(r1, ACK).(eof := true), code)
  }

  /** A packet that repeats the last one is acknowledged once more. */
  function AfterDuplicate(r: Receiver, retries: nat): Receiver {
    var s := Say(r, ACK);
    if retries == 1 then Note(s, LastTryDuplicate) else s
  }

  /** Anything else is cleared from the line, and `C` asks for more. */
  function AfterError(r: Receiver): Receiver {
    Say(Heard(r, []), CRC_REQUEST)
  }

  /** The loop of `ymodem_check_packet`; `ret` is what the previous turn left behind. */
  function CheckLoop(r: Receiver, retries: nat, ret: Code): (Receiver, Code)
    decreases retries
  {
    if retries == 0 then (r, ret)
    else
      var (r1, code) := GetPacket(r);
      if code == Succ && r1.IsNext() then (Accept(r1), Succ)
      else if code == Succ && r1.IsDuplicate() then
        CheckLoop(AfterDuplicate(r1, retries), retries - 1, Succ)
      else if code == Cancel then (r1, Cancel)
      else if code == Eot then Close(r1)
      else CheckLoop(AfterError(r1), retries - 1, if code == Succ then SequenceError else code)
  }

  function CheckPacket(r: Receiver): (Receiver, Code) {
    CheckLoop(r, MAX_RETRIES, Fail)
  }

  // What is left to happen: octets of the tape, then octets on the line -------------------------

  predicate Later(l: Line, m: Line) {
    |m.tape| < |l.tape| || (|m.tape| == |l.tape| && |m.fifo| <= |l.fifo|)
  }

  predicate StrictlyLater(l: Line, m: Line) {
    |m.tape| < |l.tape| || (|m.tape| == |l.tape| && |m.fifo| < |l.fifo|)
  }

  /** History only grows, and the sender keeps its file. */
  predicate Continues(l: Line, m: Line) {
    l.log <= m.log && l.tx.file == m.tx.file && Later(l, m)
  }

  lemma PutContinues(l: Line, ch: Byte)
    ensures Continues(l, Put(l, ch))
  {
    if l.tape != [] {
      match Arriving(l.tape[0].control, ch)
      case None =>
      case Some(b) => ReactValid(l.tx, b);
    }
  }

  lemma ListenContinues(r: Receiver)
    ensures var (s, code) := Listen(r);
      Continues(r.line, s.line) && (code == Succ ==> StrictlyLater(r.line, s.line)) && s.eof == r.eof
      && s.expected == r.expected && s.fileLength == r.fileLength && s.readLength == r.readLength
  {
    ParseFits(r.line.fifo);
    match Parse(r.line.fifo)
    case EndRequest(rest) => PutContinues(r.line.(fifo := rest), ACK);
    case _ =>
  }

  lemma GetPacketContinues(r: Receiver)
    ensures var (s, code) := GetPacket(r);
      Continues(r.line, s.line) && (code == Succ ==> StrictlyLater(r.line, s.line)) && s.eof == r.eof
      && s.expected == r.expected && s.fileLength == r.fileLength && s.readLength == r.readLength
  {
    PutContinues(r.line, ACK);
    ListenContinues(if r.ack then Say(r.(ack := false), ACK) else r);
  }

  lemma ContinuesReflexive(l: Line)
    ensures Continues(l, l)
  {
  }

  lemma ContinuesTransitive(k: Line, l: Line, m: Line)
    requires Continues(k, l) && Continues(l, m)
    ensures Continues(k, m) && (StrictlyLater(k, l) || StrictlyLater(l, m) ==> StrictlyLater(k, m))
  {
  }

  lemma AfterContinues(r: Receiver, retries: nat)
    ensures Continues(r.line, AfterDuplicate(r, retries).line) && Continues(r.line, AfterError(r).line)
    ensures AfterDuplicate(r, retries).fileLength == AfterError(r).fileLength == r.fileLength
  {
    hide Put;
    PutContinues(r.line, ACK);
    PutContinues(Heard(r, []).line, CRC_REQUEST);
  }

  lemma AcceptContinues(l: Line, r: Receiver)
    requires Continues(l, r.line)
    ensures Continues(l, Accept(r).line) && (StrictlyLater(l, r.line) ==> StrictlyLater(l, Accept(r).line))
    ensures Accept(r).fileLength == r.fileLength
  {
  }

  lemma {:induction false} CheckLoopContinues(r: Receiver, retries: nat, ret: Code)
    ensures var (s, code) := CheckLoop(r, retries, ret);
      Continues(r.line, s.line) && s.fileLength == r.fileLength
      && (code == Succ && !s.eof && ret != Succ ==> StrictlyLater(r.line, s.line))
    decreases retries
  {
    hide GetPacket, AfterDuplicate, AfterError, Close, Continues, StrictlyLater, Accept, Rx.IsNext, Rx.IsDuplicate;
    if retries == 0 {
      ContinuesReflexive(r.line);
      return;
    }
    var (r1, code) := GetPacket(r);
    GetPacketContinues(r);
    AfterContinues(r1, retries);
    if code == Succ && r1.IsNext() {
      AcceptContinues(r.line, r1);
      return;
    }
    if code == Succ && r1.IsDuplicate() {
      var r2 := AfterDuplicate(r1, retries);
      CheckLoopContinues(r2, retries - 1, Succ);
      ContinuesTransitive(r.line, r1.line, r2.line);
      ContinuesTransitive(r.line, r2.line, CheckLoop(r2, retries - 1, Succ).0.line);
      return;
    }
    if code == Cancel {
      return;
    }
    if code == Eot {
      CloseContinues(r1);
      ContinuesTransitive(r.line, r1.line, Close(r1).0.line);
      return;
    }
    var r2, ret2 := AfterError(r1), if code == Succ then SequenceError else code;
    CheckLoopContinues(r2, retries - 1, ret2);
    ContinuesTransitive(r.line, r1.line, r2.line);
    ContinuesTransitive(r.line, r2.line, CheckLoop(r2, retries - 1, ret2).0.line);
  }

  lemma CloseContinues(r: Receiver)
    ensures var (s, _) := Close(r);
      Continues(r.line, s.line) && s.eof && s.fileLength == r.fileLength
  {
    hide Put, GetPacket;
    var s1 := Say(r, ACK);
    var s2 := Say(s1, CRC_REQUEST);
    PutContinues(r.line, ACK);
    PutContinues(s1.line, CRC_REQUEST);
    GetPacketContinues(s2);
    PutContinues(GetPacket(s2).0.line, ACK);
  }

  /** `ymodem_read`: packets are copied out until `size` octets are there, the end of the file is
      seen, or a packet does not come. What does not fit is dropped. */
  function Read(r: Receiver, size: nat): (result: (Receiver, seq<Byte>))
    requires size <= PACKET_SIZE
    ensures |result.1| <= size
    decreases |r.line.tape|, |r.line.fifo|, size, 1
  {
    if r.eof || size == 0 then (r, [])
    else if r.packetLength != 0 then Copy(r, size)
    else
      CheckLoopContinues(r, MAX_RETRIES, Fail);
      var (r1, code) := CheckPacket(r);
      if code != Succ || r1.eof then (r1, []) else Copy(r1, size)
  }

  function Copy(r: Receiver, size: nat): (result: (Receiver, seq<Byte>))
    requires 0 < size <= PACKET_SIZE
    ensures |result.1| <= size
    decreases |r.line.tape|, |r.line.fifo|, size, if r.packetLength == 0 then 2 else 0
  {
    var n := Min(size, r.packetLength);
    var (r1, more) := Read(r.(packetLength := 0), size - n);
    (r1, r.packet[..n] + more)
  }
}
