/** Receiver and loader as the boot loader runs them: one context, a packet buffer that is filled
    octet by octet, and flash memory behind a store address. */
module SerialLoad {
  import opened Bytes
  import opened Crc16
  import opened Crc16Table
  import opened YmodemFrames
  import opened Transfer
  import opened Ymodem
  import opened Load
  import opened EndToEnd
  import opened TransferTheorems
  import opened FaultFree

  /** What is left in the context when the octets behind a header octet were `s`. */
  function Absorbed(r: Receiver, length: nat, s: seq<Byte>): (Receiver, Code)
    requires length <= PACKET_SIZE
  {
    BodyFits(length, s);
    match Body(length, s)
    case Cut(_, inData, data) => (Filled(Heard(r, []), length, data), if inData then Fail else Timeout)
    case BadNumber(_, data, rest) => (Filled(Heard(r, rest), length, data), FrameError)
    case BadChecksum(_, data, rest) => (Filled(Heard(r, rest), length, data), ChecksumError)
    case Good(number, data, rest) => (Filled(Heard(r, rest), length, data).(number := number), Succ)
  }

  lemma ListenInSteps(r: Receiver)
    ensures Listen(r) ==
            match Hunt(r.line.fifo, true, 0)
            case Silence => (Heard(r, []), Timeout)
            case Cancelled(rest) => (Heard(r, rest), Cancel)
            case Ended(rest) => (Say(Heard(r, rest), ACK), Eot)
            case Announced(length, rest) => Absorbed(r, length, rest)
  {
    ParseFits(r.line.fifo);
    match Hunt(r.line.fifo, true, 0)
    case Announced(length, rest) => BodyFits(length, rest);
    case _ =>
  }

  /** The context after `data` has come in and the line holds `rest`. */
  function Taken(r: Receiver, length: nat, data: seq<Byte>, rest: seq<Byte>): Receiver
    requires |data| <= PACKET_SIZE
  {
    r.(packetLength := length, packet := data + r.packet[|data|..], line := r.line.(fifo := rest))
  }

  lemma AbsorbedShort(r: Receiver, n: nat, s: seq<Byte>)
    requires n <= PACKET_SIZE && |s| < 4 + n
    ensures |s| < 2 ==> Absorbed(r, n, s) == (r.(packetLength := n, line := r.line.(fifo := [])), Timeout)
    ensures 2 <= |s| < 2 + n ==> Absorbed(r, n, s) == (Taken(r, n, s[2..], []), Fail)
    ensures 2 + n <= |s| ==> Absorbed(r, n, s) == (Taken(r, n, s[2..][..n], []), Timeout)
  {
    assert |s| < 2 ==> [] + r.packet[0..] == r.packet;
    assert 2 + n <= |s| ==> s[2..][..n] == s[2..2 + n];
  }

  lemma AbsorbedWhole(r: Receiver, n: nat, s: seq<Byte>)
    requires 0 < n <= PACKET_SIZE && |s| >= 4 + n
    ensures var data, rest, hi, lo := s[2..][..n], s[4 + n..], s[2 + n], s[3 + n];
      Absorbed(r, n, s) ==
      if s[0] ^ s[1] != 0xFF then (Taken(r, n, data, rest), FrameError)
      else if Ccitt(0, data) != MakeWord(lo, hi) then (Taken(r, n, data, rest), ChecksumError)
      else (Taken(r, n, data, rest).(number := s[0]), Succ)
  {
    hide CheckBytes, MakeWord;
    var data := s[2..][..n];
    assert data == s[2..2 + n];
    ChecksumComparison(data, s[2 + n], s[3 + n]);
    assert s[2 + n..4 + n] == [s[2 + n], s[3 + n]];
  }

  lemma AbsorbedAfterHead(r: Receiver, n: nat, s: seq<Byte>)
    requires n <= PACKET_SIZE
    ensures Absorbed(Heard(r, s).(packetLength := n), n, s) == Absorbed(r, n, s)
  {
    hide Body;
    BodyFits(n, s);
  }

  lemma CheckTurn(r: Receiver, retries: nat, ret: Code)
    requires retries > 0
    ensures var (r1, code) := GetPacket(r);
      CheckLoop(r, retries, ret) ==
      if code == Succ && r1.number == r1.expected then (Accept(r1), Succ)
      else if code == Succ && r1.number == r1.expected - 1 then
        CheckLoop(AfterDuplicate(r1, retries), retries - 1, Succ)
      else if code == Cancel then (r1, Cancel)
      else if code == Eot then Close(r1)
      else CheckLoop(AfterError(r1), retries - 1, if code == Succ then SequenceError else code)
  {
    hide GetPacket, Accept, Close, AfterError, AfterDuplicate;
  }

  lemma CheckOver(r: Receiver, ret: Code)
    ensures CheckLoop(r, 0, ret) == (r, ret)
  {
  }

  /** `done` has been read, and reading `left` more octets completes the call. */
  predicate Reading(start: Receiver, size: nat, r: Receiver, left: nat, done: seq<Byte>) {
    && size <= PACKET_SIZE && left <= PACKET_SIZE
    && Read(start, size) == (Read(r, left).0, done + Read(r, left).1)
  }

  lemma ReadingStarts(r: Receiver, size: nat)
    requires size <= PACKET_SIZE
    ensures Reading(r, size, r, size, [])
  {
    hide Read;
    assert [] + Read(r, size).1 == Read(r, size).1;
  }

  lemma ReadingStops(start: Receiver, size: nat, r: Receiver, left: nat, done: seq<Byte>)
    requires Reading(start, size, r, left, done) && (r.eof || left == 0)
    ensures Read(start, size) == (r, done)
  {
    hide CheckPacket, Copy;
    assert done + [] == done;
  }

  lemma ReadChecks(r: Receiver, left: nat)
    requires !r.eof && 0 < left <= PACKET_SIZE && r.packetLength == 0
    ensures var (r1, code) := CheckPacket(r);
      Read(r, left) == if code != Succ then (r1, []) else if r1.eof then Read(r1, left) else Copy(r1, left)
  {
    hide CheckPacket, Copy;
  }

  lemma ReadCopies(r: Receiver, left: nat)
    requires !r.eof && 0 < left <= PACKET_SIZE && r.packetLength != 0
    ensures Read(r, left) == Copy(r, left)
  {
    hide Copy;
  }

  lemma CopyTakes(r: Receiver, left: nat)
    requires 0 < left <= PACKET_SIZE
    ensures var n := Min(left, r.packetLength);
      Copy(r, left)
      == (Read(r.(packetLength := 0), left - n).0, r.packet[..n] + Read(r.(packetLength := 0), left - n).1)
  {
    hide Read;
  }

  lemma CopyReading(start: Receiver, size: nat, r: Receiver, left: nat, done: seq<Byte>)
    requires size <= PACKET_SIZE && 0 < left <= PACKET_SIZE
    requires Read(start, size) == (Copy(r, left).0, done + Copy(r, left).1)
    ensures var n := Min(left, r.packetLength);
      Reading(start, size, r.(packetLength := 0), left - n, done + r.packet[..n])
  {
    hide Read, Copy;
    CopyTakes(r, left);
    var n := Min(left, r.packetLength);
    var more := Read(r.(packetLength := 0), left - n).1;
    assert done + (r.packet[..n] + more) == (done + r.packet[..n]) + more;
  }

  lemma Nothing(s: seq<Byte>)
    ensures s + [] == s
  {
  }

  lemma CheckProgresses(r: Receiver)
    ensures var (s, code) := CheckPacket(r); code == Succ && !s.eof ==> StrictlyLater(r.line, s.line)
  {
    hide CheckLoop;
    CheckLoopContinues(r, MAX_RETRIES, Fail);
  }

  lemma PutNext(s: seq<Byte>, before: seq<Byte>, i: nat)
    requires i < |s| && i < |before|
    ensures (s[..i] + before[i..])[i := s[i]] == s[..i + 1] + before[i + 1..]
    ensures s[i..][1..] == s[i + 1..]
  {
  }

  class YmodemContext {
    var packetLength: nat
    const packet: array<Byte>
    var eof: bool
    var ack: bool
    var number: Byte
    var expected: Byte
    var fileLength: nat
    var readLength: nat
    var line: Line

    predicate Ok() {
      packet.Length == PACKET_SIZE
    }

    function Abs(): Receiver
      requires Ok()
      reads this, packet
    {
      Rx(packetLength, packet[..], eof, ack, number, expected, fileLength, readLength, line)
    }

    constructor (l: Line)
      ensures Ok() && fresh(packet) && line == l
    {
      packet := new Byte[PACKET_SIZE](_ => 0);
      packetLength, eof, ack, number, expected, fileLength, readLength := 0, false, false, 0, 0, 0, 0;
      line := l;
    }

    method Putc(ch: Byte)
      requires Ok()
      modifies this`line
      ensures Abs() == Say(old(Abs()), ch)
    {
      line := Put(line, ch);
    }

    /** One octet, or nothing when the line stays silent. */
    method Getc() returns (ch: Option<Byte>)
      requires Ok()
      modifies this`line
      ensures old(line.fifo) == [] ==> ch == None && line == old(line)
      ensures old(line.fifo) != [] ==> ch == Some(old(line.fifo)[0]) && line == old(line).(fifo := old(line.fifo)[1..])
    {
      if line.fifo == [] {
        return None;
      }
      ch := Some(line.fifo[0]);
      line := line.(fifo := line.fifo[1..]);
    }

    method Flush()
      requires Ok()
      modifies this`line
      ensures Abs() == Heard(old(Abs()), [])
    {
      while true
        invariant line == old(line).(fifo := line.fifo)
        decreases |line.fifo|
      {
        var ch := Getc();
        if ch.None? {
          return;
        }
      }
    }

    /** `ymodem_close`: throw away what is still on the line. */
    method Drain()
      requires Ok()
      modifies this`line
      ensures Abs() == Heard(old(Abs()), [])
    {
      Flush();
    }

    /** Wait for the header octet of a packet. */
    method GetHead() returns (code: Code)
      requires Ok()
      modifies this`line, this`packetLength
      ensures match Hunt(old(line.fifo), true, 0)
              case Silence =>
                code == Timeout && line == old(line).(fifo := []) && packetLength == old(packetLength)
              case Cancelled(rest) =>
                code == Cancel && line == old(line).(fifo := rest) && packetLength == old(packetLength)
              case Ended(rest) =>
                code == Eot && line == Put(old(line).(fifo := rest), ACK) && packetLength == old(packetLength)
              case Announced(n, rest) => code == Succ && line == old(line).(fifo := rest) && packetLength == n
      ensures code == Succ ==> 0 < packetLength <= PACKET_SIZE
    {
      hide Put;
      var count, cans, found := 0, 0, false;
      while !found
        invariant line == old(line).(fifo := line.fifo)
        invariant !found ==> packetLength == old(packetLength)
        invariant !found ==> Hunt(line.fifo, count == 0, cans) == Hunt(old(line.fifo), true, 0)
        invariant found ==> 0 < packetLength <= PACKET_SIZE
        invariant found ==> Hunt(old(line.fifo), true, 0) == Announced(packetLength, line.fifo)
        decreases |line.fifo|, !found
      {
        var got := Getc();
        if got.None? {
          Flush();
          return Timeout;
        }
        var ch := got.value;
        count := count + 1;
        if ch == SOH {
          found, packetLength := true, 128;
        } else if ch == STX {
          found, packetLength := true, 1024;
        } else if ch == 0x0a {
          found, packetLength := true, 2048;
        } else if ch == 0x0b {
          found, packetLength := true, 4096;
        } else if ch == 0x0c {
          found, packetLength := true, 8192;
        } else if ch == CAN {
          cans := cans + 1;
          if cans == CAN_MAX {
            return Cancel;
          }
        } else if ch == EOT && count == 1 {
          Putc(ACK);
          return Eot;
        }
      }
      return Succ;
    }

    /** Read `n` data octets into the buffer. */
    method GetData(n: nat) returns (ok: bool)
      requires Ok() && n <= PACKET_SIZE
      modifies this`line, packet
      ensures ok <==> n <= old(|line.fifo|)
      ensures var s := old(line.fifo);
              var data, rest := if ok then s[..n] else s, if ok then s[n..] else [];
              packet[..] == data + old(packet[..])[|data|..] && line == old(line).(fifo := rest)
    {
      ghost var s, before := line.fifo, packet[..];
      for i := 0 to n
        invariant i <= |s| && line == old(line).(fifo := s[i..])
        invariant packet[..] == s[..i] + before[i..]
      {
        var got := Getc();
        if got.None? {
          assert s[..i] == s;
          return false;
        }
        PutNext(s, before, i);
        packet[i] := got.value;
      }
      return true;
    }

    /** Two octets, one after the other: block number and complement, or the checksum. */
    method GetPair() returns (pair: Option<(Byte, Byte)>)
      requires Ok()
      modifies this`line
      ensures var s := old(line.fifo);
        if |s| < 2 then pair == None && line == old(line).(fifo := [])
        else pair == Some((s[0], s[1])) && line == old(line).(fifo := s[2..])
    {
      var first := Getc();
      if first.None? {
        return None;
      }
      var second := Getc();
      if second.None? {
        return None;
      }
      return Some((first.value, second.value));
    }

    /** The checks on a packet that has come in whole. */
    method CheckData(blk: Byte, cblk: Byte, hi: Byte, lo: Byte) returns (code: Code)
      requires Ok() && packetLength <= PACKET_SIZE
      modifies this`number
      ensures code == if blk ^ cblk != 0xFF then FrameError
                      else if Ccitt(0, packet[..packetLength]) != MakeWord(lo, hi) then ChecksumError else Succ
      ensures number == if code == Succ then blk else old(number)
    {
      if blk ^ cblk != 0xFF {
        return FrameError;
      }
      var cs := Crc16Ccitt(0, packet, 0, packetLength);
      assert packet[0..packetLength] == packet[..packetLength];
      if cs != MakeWord(lo, hi) {
        return ChecksumError;
      }
      number := blk;
      return Succ;
    }

    /** Everything behind the header octet: numbers, data, checksum; then the checks. */
    method GetBody() returns (code: Code)
      requires Ok() && 0 < packetLength <= PACKET_SIZE
      modifies this`line, this`number, packet
      ensures (Abs(), code) == Absorbed(old(Abs()), packetLength, old(line.fifo))
    {
      hide Absorbed, MakeWord, Ccitt;
      ghost var r, s, n := Abs(), line.fifo, packetLength;
      if |s| < 4 + n {
        AbsorbedShort(r, n, s);
      } else {
        AbsorbedWhole(r, n, s);
      }
      var numbers := GetPair();
      if numbers.None? {
        return Timeout;
      }
      var ok := GetData(packetLength);
      if !ok {
        return Fail;
      }
      assert line.fifo == s[2..][n..] == s[2 + n..];
      var check := GetPair();
      if check.None? {
        return Timeout;
      }
      assert line.fifo == s[2 + n..][2..] == s[4 + n..];
      assert packet[..n] == s[2..][..n];
      code := CheckData(numbers.value.0, numbers.value.1, check.value.0, check.value.1);
    }

    /** `ymodem_get_packet`. */
    method GetPacket() returns (code: Code)
      requires Ok()
      modifies this, packet
      ensures (Abs(), code) == Ymodem.GetPacket(old(Abs()))
    {
      hide Put, Body, Listen, Absorbed, Hunt;
      if ack {
        Putc(ACK);
        ack := false;
      }
      ghost var r := Abs();
      ListenInSteps(r);
      code := GetHead();
      if code != Succ {
        return;
      }
      AbsorbedAfterHead(r, packetLength, line.fifo);
      code := GetBody();
    }

    // The file header

    method ParseLength(start: nat, parseMax: nat) returns (length: Option<nat>)
      requires Ok()
      ensures length == Ymodem.ParseLength(packet[..], start, parseMax)
    {
      hide HexValue;
      ghost var p := packet[..];
      var i: nat, count: nat := start, parseMax;
      while CharAt(packet[..], i) == 0x20 && count > 0
        invariant SkipSpaces(p, i, count) == SkipSpaces(p, start, parseMax)
        decreases count
      {
        i, count := i + 1, count - 1;
      }
      var radix: nat := 10;
      if CharAt(packet[..], i) == 0x30
         && (CharAt(packet[..], i + 1) == 0x78 || CharAt(packet[..], i + 1) == 0x58) && count > 1 {
        radix, i, count := 16, i + 2, count - 2;
      }
      var value: nat := 0;
      ghost var j := i;
      while CharAt(packet[..], i) != 0 && count > 0
        invariant if count > 0 then Digits(p, i, radix, value) == Digits(p, j, radix, 0) else value == 0
        decreases packet.Length - i
      {
        var digit := HexValue(packet[i]);
        i := i + 1;
        if digit.None? {
          return None;
        }
        if digit.value <= radix {
          value := (value * radix + digit.value) % U32;
        }
      }
      return Some(value);
    }

    method SkipFileName() returns (i: nat)
      requires Ok()
      ensures i == SkipName(packet[..], 0, 128)
    {
      ghost var p := packet[..];
      var counter := 128;
      i := 0;
      while CharAt(packet[..], i) != 0
        invariant SkipName(p, i, counter) == SkipName(p, 0, 128)
        decreases counter
      {
        if counter == 0 {
          break;
        }
        i, counter := i + 1, counter - 1;
      }
      i := i + 1;
    }

    /** `ymodem_get_info`. */
    method GetInfo() returns (code: Code)
      requires Ok()
      modifies this
      ensures (Abs(), code) == Ymodem.GetInfo(old(Abs()))
    {
      hide Ymodem.ParseLength, SkipName;
      if number == 0 {
        var start := SkipFileName();
        var length := ParseLength(start, 128);
        if length.None? {
          return Fail;
        }
        fileLength := length.value;
        if fileLength > LOAD_MAX_SIZE {
          return LengthError;
        }
        ack := true;
      }
      expected, packetLength := 1, 0;
      return Succ;
    }

    /** `ymodem_open`. */
    method Open() returns (code: Code)
      requires Ok()
      modifies this, packet
      ensures (Abs(), code) == Ymodem.Open(old(Abs()))
    {
      hide Put, Ymodem.GetPacket, Ymodem.GetInfo;
      packetLength, fileLength, readLength, ack, eof := 0, 0, 0, false, false;
      Putc(CRC_REQUEST);
      ghost var start := Abs();
      var retries: nat := MAX_RETRIES;
      while retries > 0
        invariant OpenLoop(Abs(), retries) == OpenLoop(start, MAX_RETRIES)
      {
        retries := retries - 1;
        code := GetPacket();
        if code == Succ {
          code := GetInfo();
          return;
        }
        if code == Cancel {
          break;
        }
        if code == Timeout {
          Putc(CRC_REQUEST);
        }
      }
      return Fail;
    }

    // Data

    method Log(e: Event)
      requires Ok()
      modifies this`line
      ensures Abs() == Note(old(Abs()), e)
    {
      line := line.(log := line.log + [e]);
    }

    /** `get_packet_len`. */
    method Accept()
      requires Ok()
      modifies this
      ensures Abs() == Ymodem.Accept(old(Abs()))
    {
      CountBlock();
      Log(BlockAccepted);
    }

    method CountBlock()
      requires Ok()
      modifies this`ack, this`expected, this`readLength, this`packetLength
      ensures ack && expected == old(expected) + 1 && readLength == (old(readLength) + old(packetLength)) % U32
      ensures packetLength == if readLength > fileLength then (old(packetLength) - (readLength - fileLength)) % U32
                              else old(packetLength)
    {
      ack := true;
      expected := expected + 1;
      readLength := (readLength + packetLength) % U32;
      if readLength > fileLength {
        packetLength := (packetLength - (readLength - fileLength)) % U32;
      }
    }

    /** The closing exchange after EOT. */
    method Close() returns (code: Code)
      requires Ok()
      modifies this, packet
      ensures (Abs(), code) == Ymodem.Close(old(Abs()))
    {
      hide Put, Ymodem.GetPacket;
      Putc(ACK);
      Putc(CRC_REQUEST);
      code := GetPacket();
      Putc(ACK);
      eof := true;
    }

    method AckDuplicate(retriesLeft: nat)
      requires Ok()
      modifies this`line
      ensures Abs() == AfterDuplicate(old(Abs()), retriesLeft + 1)
    {
      hide Put;
      Putc(ACK);
      if retriesLeft == 0 {
        Log(LastTryDuplicate);
      }
    }

    method AskAgain()
      requires Ok()
      modifies this`line
      ensures Abs() == AfterError(old(Abs()))
    {
      hide Put;
      Flush();
      Putc(CRC_REQUEST);
    }

    /** `ymodem_check_packet`. */
    method CheckPacket() returns (ret: Code)
      requires Ok()
      modifies this, packet
      ensures (Abs(), ret) == Ymodem.CheckPacket(old(Abs()))
    {
      hide Put, Ymodem.GetPacket, Ymodem.Accept, Ymodem.Close, CheckLoop, AfterError, AfterDuplicate;
      ghost var start := Abs();
      ret := Fail;
      var retries: nat := MAX_RETRIES;
      while retries > 0
        invariant CheckLoop(Abs(), retries, ret) == CheckLoop(start, MAX_RETRIES, Fail)
      {
        CheckTurn(Abs(), retries, ret);
        retries := retries - 1;
        ret := GetPacket();
        if ret == Succ {
          if number == expected {
            Accept();
            return;
          } else if number == expected - 1 {
            AckDuplicate(retries);
            continue;
          } else {
            ret := SequenceError;
          }
        }
        if ret == Cancel {
          return;
        }
        if ret == Eot {
          ret := Close();
          return;
        }
        AskAgain();
      }
      CheckOver(Abs(), ret);
    }

    /** `ymodem_read`: fill `buf` from the packets of the transfer. */
    method Read(buf: array<Byte>, size: nat) returns (total: nat)
      requires Ok() && buf != packet && size <= buf.Length && size <= PACKET_SIZE
      modifies this, packet, buf
      ensures total <= size && (Abs(), buf[..total]) == Ymodem.Read(old(Abs()), size)
    {
      hide CheckLoop, Ymodem.Read, Copy, Ymodem.CheckPacket;
      ghost var start := Abs();
      total := 0;
      var left: nat := size;
      ReadingStarts(start, size);
      while !eof && left > 0
        invariant total + left == size
        invariant Reading(start, size, Abs(), left, buf[..total])
        decreases !eof, |line.tape|, |line.fifo|, left
      {
        ghost var r, before := Abs(), buf[..total];
        if packetLength == 0 {
          CheckProgresses(r);
          var code := CheckPacket();
          ReadChecks(r, left);
          if code != Succ {
            Nothing(before);
            return;
          }
        } else {
          ReadCopies(r, left);
        }
        if !eof {
          var n: nat := Min(left, packetLength);
          CopyReading(start, size, Abs(), left, before);
          CopyOut(buf, total, n);
          left := left - n;
          total := total + n;
        }
      }
      ReadingStops(start, size, Abs(), left, buf[..total]);
    }

    /** Copy the first `n` octets of the packet to `at`; the rest of it is dropped. */
    method CopyOut(buf: array<Byte>, at: nat, n: nat)
      requires Ok() && buf != packet && n <= PACKET_SIZE && at + n <= buf.Length
      modifies buf, this`packetLength
      ensures buf[..at + n] == old(buf[..at]) + packet[..n] && packetLength == 0
    {
      forall i | 0 <= i < n {
        buf[at + i] := packet[i];
      }
      packetLength := 0;
    }
  }

  // Receiving writes nothing to flash ---------------------------------------------------------------

  /** No octet was stored between two states of the line. */
  predicate SameStore(l: Line, m: Line) {
    StoredBytes(m.log) == StoredBytes(l.log)
  }

  lemma PutStoresNothing(line: Line, ch: Byte)
    ensures SameStore(line, Put(line, ch))
  {
    hide React;
    EventEffects(line.log, BlockSent);
    assert line.log + [] == line.log;
  }

  lemma NoteStoresNothing(r: Receiver, e: Event)
    requires !e.Stored?
    ensures SameStore(r.line, Note(r, e).line)
  {
    EventEffects(r.line.log, e);
    assert StoredBytes(r.line.log) + [] == StoredBytes(r.line.log);
  }

  lemma GetPacketStoresNothing(r: Receiver)
    ensures SameStore(r.line, GetPacket(r).0.line)
  {
    hide Put, Parse, StoredBytes;
    PutStoresNothing(r.line, ACK);
    var q := if r.ack then Say(r.(ack := false), ACK) else r;
    ParseFits(q.line.fifo);
    match Parse(q.line.fifo)
    case EndRequest(rest) => PutStoresNothing(Heard(q, rest).line, ACK);
    case _ =>
  }

  lemma CloseStoresNothing(r: Receiver)
    ensures SameStore(r.line, Close(r).0.line)
  {
    hide Put, GetPacket, StoredBytes;
    var s1 := Say(r, ACK);
    var s2 := Say(s1, CRC_REQUEST);
    PutStoresNothing(r.line, ACK);
    PutStoresNothing(s1.line, CRC_REQUEST);
    GetPacketStoresNothing(s2);
    PutStoresNothing(GetPacket(s2).0.line, ACK);
  }

  lemma AfterStoresNothing(r: Receiver, retries: nat)
    ensures SameStore(r.line, AfterDuplicate(r, retries).line) && SameStore(r.line, AfterError(r).line)
    ensures SameStore(r.line, Accept(r).line)
  {
    hide Put, StoredBytes;
    PutStoresNothing(r.line, ACK);
    NoteStoresNothing(Say(r, ACK), LastTryDuplicate);
    PutStoresNothing(Heard(r, []).line, CRC_REQUEST);
    NoteStoresNothing(r, BlockAccepted);
  }

  lemma {:induction false} CheckLoopStoresNothing(r: Receiver, retries: nat, ret: Code)
    ensures SameStore(r.line, CheckLoop(r, retries, ret).0.line)
    decreases retries
  {
    hide GetPacket, AfterDuplicate, AfterError, Close, Accept, StoredBytes, CheckLoop;
    if retries == 0 {
      CheckOver(r, ret);
      return;
    }
    CheckTurn(r, retries, ret);
    var (r1, code) := GetPacket(r);
    GetPacketStoresNothing(r);
    AfterStoresNothing(r1, retries);
    CloseStoresNothing(r1);
    CheckLoopStoresNothing(AfterDuplicate(r1, retries), retries - 1, Succ);
    CheckLoopStoresNothing(AfterError(r1), retries - 1, if code == Succ then SequenceError else code);
  }

  lemma {:induction false} ReadStoresNothing(r: Receiver, size: nat)
    requires size <= PACKET_SIZE
    ensures SameStore(r.line, Read(r, size).0.line)
    decreases |r.line.tape|, |r.line.fifo|, size, 1
  {
    hide CheckPacket, StoredBytes, Read, Copy;
    if r.eof || size == 0 {
      ReadingStarts(r, size);
      ReadingStops(r, size, r, size, []);
    } else if r.packetLength != 0 {
      ReadCopies(r, size);
      CopyStoresNothing(r, size);
    } else {
      ReadChecks(r, size);
      CheckPacketStoresNothing(r);
      CheckProgresses(r);
      var (r1, code) := CheckPacket(r);
      if code == Succ {
        if r1.eof {
          ReadingStarts(r1, size);
          ReadingStops(r1, size, r1, size, []);
        } else {
          CopyStoresNothing(r1, size);
        }
      }
    }
  }

  lemma CheckPacketStoresNothing(r: Receiver)
    ensures SameStore(r.line, CheckPacket(r).0.line)
  {
    hide CheckLoop;
    CheckLoopStoresNothing(r, MAX_RETRIES, Fail);
  }

  lemma {:induction false} CopyStoresNothing(r: Receiver, size: nat)
    requires 0 < size <= PACKET_SIZE
    ensures SameStore(r.line, Copy(r, size).0.line)
    decreases |r.line.tape|, |r.line.fifo|, size, if r.packetLength == 0 then 2 else 0
  {
    hide Read, Copy, StoredBytes;
    CopyTakes(r, size);
    ReadStoresNothing(r.(packetLength := 0), size - Min(size, r.packetLength));
  }

  // The loader --------------------------------------------------------------------------------------

  lemma ReceiveTurn(r: Receiver, remaining: nat)
    ensures ReceiveFile(r, remaining) ==
      if remaining == 0 then (Read(r, READ_SIZE).0, true)
      else
        var (r1, data) := Read(r, Min(remaining, READ_SIZE));
        if data == [] then (r1, false) else ReceiveFile(Note(r1, Stored(data)), remaining - |data|)
  {
    hide Read;
  }

  /** Flash with `data` written at `at`. */
  predicate Written(before: seq<Byte>, at: nat, data: seq<Byte>, after: seq<Byte>) {
    && at + |data| <= |before|
    && after == before[..at] + data + before[at + |data|..]
  }

  lemma WrittenExactly(before: seq<Byte>, at: nat, data: seq<Byte>, after: seq<Byte>)
    requires Written(before, at, data, after)
    ensures at + |data| <= |before| && after == before[..at] + data + before[at + |data|..]
  {
  }

  lemma WrittenMore(before: seq<Byte>, at: nat, data: seq<Byte>, middle: seq<Byte>, more: seq<Byte>, after: seq<Byte>)
    requires Written(before, at, data, middle) && Written(middle, at + |data|, more, after)
    ensures Written(before, at, data + more, after)
  {
  }

  class Loader {
    const context: YmodemContext
    const buffer: array<Byte>
    const flash: array<Byte>

    predicate Ok() {
      && context.Ok() && buffer.Length == READ_SIZE
      && context.packet != buffer && context.packet != flash && buffer != flash
    }

    constructor (c: YmodemContext, f: array<Byte>)
      requires c.Ok() && c.packet != f
      ensures Ok() && context == c && flash == f && fresh(buffer)
    {
      context, flash := c, f;
      buffer := new Byte[READ_SIZE](_ => 0);
    }

    /** Write the first `n` octets of the buffer to `at`. */
    method Store(at: nat, n: nat)
      requires Ok() && 0 < n <= READ_SIZE && at + n <= flash.Length
      modifies flash, context`line
      ensures Written(old(flash[..]), at, buffer[..n], flash[..])
      ensures context.Abs() == Note(old(context.Abs()), Stored(buffer[..n]))
    {
      forall i | 0 <= i < n {
        flash[at + i] := buffer[i];
      }
      context.Log(Stored(buffer[..n]));
    }

    /** One turn of `receive_file`: read a window and store what came. */
    method ReceiveWindow(remaining: nat, at: nat) returns (n: nat, ghost data: seq<Byte>)
      requires Ok() && remaining > 0 && at + remaining <= flash.Length
      modifies context, context.packet, buffer, flash
      ensures var (r1, came) := Ymodem.Read(old(context.Abs()), Min(remaining, READ_SIZE));
        && data == came && n == |data| <= remaining
        && context.Abs() == if data == [] then r1 else Note(r1, Stored(data))
      ensures StoredBytes(context.line.log) == StoredBytes(old(context.line.log)) + data
      ensures Written(old(flash[..]), at, data, flash[..])
    {
      hide Ymodem.Read, StoredBytes, Written;
      ghost var r := context.Abs();
      ReadStoresNothing(r, Min(remaining, READ_SIZE));
      n := context.Read(buffer, Min(remaining, READ_SIZE));
      data := buffer[..n];
      NothingWritten(flash[..], at);
      Nothing(StoredBytes(r.line.log));
      if n > 0 {
        EventEffects(context.line.log, Stored(data));
        Store(at, n);
      }
    }

    /** `receive_file`: everything that goes to flash goes there in order, from `addr` on, and nothing else changes. */
    method ReceiveFile(length: nat, addr: nat) returns (ok: bool, size: nat, ghost stored: seq<Byte>)
      requires Ok() && addr + length <= flash.Length
      modifies context, context.packet, buffer, flash
      ensures (context.Abs(), ok) == Load.ReceiveFile(old(context.Abs()), length)
      ensures StoredBytes(context.line.log) == StoredBytes(old(context.line.log)) + stored
      ensures |stored| == size <= length && (ok ==> size == length)
      ensures Written(old(flash[..]), addr, stored, flash[..])
    {
      hide Load.ReceiveFile, Ymodem.Read, StoredBytes, Written;
      ghost var start, image := context.Abs(), flash[..];
      var remaining: nat, at: nat := length, addr;
      size, stored := 0, [];
      NothingWritten(image, addr);
      Nothing(StoredBytes(start.line.log));
      while remaining > 0
        invariant size == |stored| && remaining == length - size && at == addr + size
        invariant Load.ReceiveFile(context.Abs(), remaining) == Load.ReceiveFile(start, length)
        invariant StoredBytes(context.line.log) == StoredBytes(start.line.log) + stored
        invariant Written(image, addr, stored, flash[..])
      {
        ghost var middle := flash[..];
        ReceiveTurn(context.Abs(), remaining);
        var n;
        ghost var data;
        n, data := ReceiveWindow(remaining, at);
        Extended(StoredBytes(start.line.log), stored, data);
        WrittenMore(image, addr, stored, middle, data, flash[..]);
        stored := stored + data;
        if n == 0 || remaining < n {
          ok := false;
          return;
        }
        remaining := remaining - n;
        size := size + n;
        at := at + n;
      }
      ReceiveTurn(context.Abs(), 0);
      ReadStoresNothing(context.Abs(), READ_SIZE);
      var _ := context.Read(buffer, READ_SIZE);
      ok := true;
    }

    /** `loader_serial_ymodem`: what it writes lies between `offset` and `offset + max`. Over a history in
        which no duplicate was taken for data it is the beginning of the file, however the transfer ends,
        and after success the whole file, octet for octet; a good enough line brings success. */
    method LoaderSerialYmodem(offset: nat, erased: nat, min: nat, max: nat)
      returns (ok: bool, ghost stored: seq<Byte>)
      requires Ok() && offset + max <= flash.Length
      modifies context, context.packet, buffer, flash
      ensures (context.Abs(), ok) == LoadSerial(old(context.Abs()), erased, min, max)
      ensures |stored| <= max && offset + |stored| <= flash.Length
      ensures flash[..] == old(flash[..])[..offset] + stored + old(flash[..])[offset + |stored|..]
      ensures var r := old(context.Abs());
        AtRest(r, r.line.tx.file, r.line.tape) ==>
          && (Clean(context.line.log) ==> stored <= r.line.tx.file)
          && (ok && Clean(context.line.log) ==> stored == r.line.tx.file)
          && (GoodLine(r, erased, min, max) ==> ok && stored == r.line.tx.file)
    {
      hide Ymodem.Open, Load.ReceiveFile, LoadSerial, StoredBytes, Written, AtRest, GoodLine;
      ghost var start, image := context.Abs(), flash[..];
      LoadTurn(start, erased, min, max);
      NothingWritten(image, offset);
      stored := [];
      var code := context.Open();
      OpenStoresNothing(start);
      ok := false;
      if code == Succ && min < context.fileLength <= max && (erased == 0 || context.fileLength <= erased) {
        var size;
        ok, size, stored := ReceiveFile(context.fileLength, offset);
        assert [] + stored == stored;
      }
      context.Drain();
      FlashOutcome(start, erased, min, max, stored);
      WrittenExactly(image, offset, stored, flash[..]);
    }
  }

  /** A line that spoils none of the octets that matter, and a file within the limits. */
  ghost predicate GoodLine(r: Receiver, erased: nat, min: nat, max: nat) {
    var file := r.line.tx.file;
    && NoFaults(r.line, BlockCount(|file|) + 7)
    && min < |file| <= max && |file| <= LOAD_MAX_SIZE && (erased == 0 || |file| <= erased)
  }

  lemma OpenStoresNothing(r: Receiver)
    ensures AtRest(r, r.line.tx.file, r.line.tape) ==> StoredBytes(Open(r).0.line.log) == []
  {
    hide Open;
    if AtRest(r, r.line.tx.file, r.line.tape) {
      OpenResult(r, r.line.tx.file, r.line.tape);
    }
  }

  lemma LoadTurn(r: Receiver, erased: nat, min: nat, max: nat)
    ensures var (r1, code) := Open(r);
      LoadSerial(r, erased, min, max) ==
      if code == Succ && min < r1.fileLength <= max && (erased == 0 || r1.fileLength <= erased) then
        var (r2, ok) := ReceiveFile(r1, r1.fileLength); (Heard(r2, []), ok)
      else (Heard(r1, []), false)
  {
    hide Open, ReceiveFile;
  }

  /** What went to flash is what the history says, and that is the file. */
  lemma FlashOutcome(r: Receiver, erased: nat, min: nat, max: nat, stored: seq<Byte>)
    requires var (s, ok) := LoadSerial(r, erased, min, max);
      AtRest(r, r.line.tx.file, r.line.tape) ==> StoredBytes(s.line.log) == stored
    ensures var (s, ok) := LoadSerial(r, erased, min, max);
      AtRest(r, r.line.tx.file, r.line.tape) ==>
        && (Clean(s.line.log) ==> stored <= r.line.tx.file)
        && (ok && Clean(s.line.log) ==> stored == r.line.tx.file)
        && (GoodLine(r, erased, min, max) ==> ok && stored == r.line.tx.file)
  {
    hide LoadSerial, StoredBytes, Clean, NoFaults, AtRest;
    var file, tape := r.line.tx.file, r.line.tape;
    if AtRest(r, file, tape) {
      Safety(r, file, tape, erased, min, max);
      SoundNow(file, LoadSerial(r, erased, min, max).0.line.log);
      if GoodLine(r, erased, min, max) {
        Completion(r, file, tape, erased, min, max);
      }
    }
  }

  lemma NothingWritten(image: seq<Byte>, at: nat)
    requires at <= |image|
    ensures Written(image, at, [], image)
  {
  }

  lemma Extended(before: seq<Byte>, stored: seq<Byte>, data: seq<Byte>)
    ensures before + stored + data == before + (stored + data)
  {
  }
}
