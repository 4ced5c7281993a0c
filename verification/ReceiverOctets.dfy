/** One attempt of the receiver, octet by octet: when it ends in a cancellation, in the end of the transfer, in
    silence, or with a packet, and what it leaves on the line. */
module ReceiverOctets {
  import opened Bytes
  import opened Crc16
  import opened YmodemFrames
  import opened Transfer
  import opened Ymodem

  /** How many of the first `n` octets are CAN. */
  function Cans(s: seq<Byte>, n: nat): nat
    requires n <= |s|
  {
    if n == 0 then 0 else Cans(s, n - 1) + if s[n - 1] == 0x18 then 1 else 0
  }

  /** Octets that begin a packet, and the data length each of them announces. */
  predicate Begins(b: Byte) {
    b == 0x01 || b == 0x02 || b == 0x0A || b == 0x0B || b == 0x0C
  }

  function DataLength(b: Byte): nat {
    if b == 0x01 then 128 else if b == 0x02 then 1024 else if b == 0x0A then 2048 else if b == 0x0B then 4096 else 8192
  }

  /** Nothing before octet `k` has ended the hunt for a packet. */
  predicate Hunting(s: seq<Byte>, k: nat) {
    && k <= |s| && (k > 0 ==> s[0] != 0x04)
    && (forall i :: 0 <= i < k ==> !Begins(s[i]))
    && Cans(s, k) <= 2
  }

  /** Octet `k` is the third CAN. */
  predicate CancelAt(s: seq<Byte>, k: nat) {
    k < |s| && Hunting(s, k) && s[k] == 0x18 && Cans(s, k) == 2
  }

  /** Octet `k` begins the packet. */
  predicate PacketAt(s: seq<Byte>, k: nat) {
    k < |s| && Hunting(s, k) && Begins(s[k])
  }

  predicate EndsHunt(s: seq<Byte>, k: nat) {
    CancelAt(s, k) || PacketAt(s, k) || (k == 0 && s != [] && s[0] == 0x04)
  }

  lemma {:induction false} CansGrow(s: seq<Byte>, m: nat, n: nat)
    requires m <= n <= |s|
    ensures Cans(s, m) <= Cans(s, n)
    decreases n
  {
    if m < n {
      CansGrow(s, m, n - 1);
    }
  }

  lemma HuntStep(s: seq<Byte>, k: nat)
    requires Hunting(s, k) && k < |s| && !EndsHunt(s, k)
    ensures Hunting(s, k + 1)
  {
  }

  /** The hunt ends at one octet, if at all. */
  lemma OneEnd(s: seq<Byte>, j: nat, k: nat)
    requires EndsHunt(s, j) && EndsHunt(s, k)
    ensures j == k
  {
    if j < k {
      NoneBefore(s, j, k);
    } else if k < j {
      NoneBefore(s, k, j);
    }
  }

  lemma NoneBefore(s: seq<Byte>, j: nat, k: nat)
    requires j < k <= |s| && Hunting(s, k)
    ensures !EndsHunt(s, j)
  {
    CansGrow(s, j + 1, k);
  }

  /** What the hunt comes to, from octet `j` on. */
  lemma {:induction false} HuntFrom(s: seq<Byte>, j: nat) returns (k: nat)
    requires Hunting(s, j)
    ensures match Hunt(s[j..], j == 0, Cans(s, j))
      case Silence => k == |s| && Hunting(s, k)
      case Cancelled(rest) => CancelAt(s, k) && rest == s[k + 1..]
      case Ended(rest) => k == 0 && s != [] && s[0] == 0x04 && rest == s[1..]
      case Announced(n, rest) => PacketAt(s, k) && n == DataLength(s[k]) && rest == s[k + 1..]
    decreases |s| - j
  {
    k := j;
    if j < |s| {
      assert s[j..][0] == s[j] && s[j..][1..] == s[j + 1..];
      if !EndsHunt(s, j) {
        HuntStep(s, j);
        k := HuntFrom(s, j + 1);
      }
    }
  }

  lemma {:induction false} HuntEnds(s: seq<Byte>) returns (k: nat)
    ensures match Hunt(s, true, 0)
      case Silence => forall i: nat :: !EndsHunt(s, i)
      case Cancelled(rest) => CancelAt(s, k) && rest == s[k + 1..]
      case Ended(rest) => k == 0 && s != [] && s[0] == 0x04 && rest == s[1..]
      case Announced(n, rest) => PacketAt(s, k) && n == DataLength(s[k]) && rest == s[k + 1..]
    ensures !Hunt(s, true, 0).Silence? ==> EndsHunt(s, k)
  {
    k := HuntFrom(s, 0);
    assert s[0..] == s;
    if Hunt(s, true, 0).Silence? {
      forall i: nat
        ensures !EndsHunt(s, i)
      {
        if i < |s| {
          NoneBefore(s, i, |s|);
        }
      }
    }
  }

  /** The code of a packet with `n` octets of data, from what follows its first octet. */
  function PacketCode(b: seq<Byte>, n: nat): Code {
    if |b| < 2 then Timeout
    else if |b| < 2 + n then Fail
    else if |b| < 4 + n then Timeout
    else if b[0] ^ b[1] != 0xFF then FrameError
    else if MakeWord(b[3 + n], b[2 + n]) != Crc(0, b[2..2 + n]) then ChecksumError
    else Succ
  }

  /** What a packet leaves behind: its length, its data and its number, and on the line what follows it. */
  ghost predicate TakesPacket(q: Receiver, t: Receiver, n: nat, b: seq<Byte>) {
    && t == q.(packetLength := n, packet := t.packet, number := t.number, line := t.line)
    && t.line == q.line.(fifo := if |b| < 4 + n then [] else b[4 + n..])
    && (|b| >= 2 + n ==> n <= |t.packet| && t.packet[..n] == b[2..2 + n])
    && t.number == if PacketCode(b, n) == Succ then b[0] else q.number
  }

  lemma WholeBody(b: seq<Byte>, n: nat)
    requires |b| >= 4 + n
    ensures Body(n, b) ==
      if PacketCode(b, n) == FrameError then BadNumber(n, b[2..2 + n], b[4 + n..])
      else if PacketCode(b, n) == ChecksumError then BadChecksum(n, b[2..2 + n], b[4 + n..])
      else Good(b[0], b[2..2 + n], b[4 + n..])
  {
    hide CheckBytes, Crc, MakeWord;
    ChecksumComparison(b[2..2 + n], b[2 + n], b[3 + n]);
    var check := b[2 + n..4 + n];
    assert check == [b[2 + n], b[3 + n]];
  }

  lemma PacketTaken(q: Receiver, n: nat, b: seq<Byte>)
    requires Hunt(q.line.fifo, true, 0) == Announced(n, b) && n <= PACKET_SIZE
    ensures var (t, code) := Listen(q); code == PacketCode(b, n) && TakesPacket(q, t, n, b)
  {
    ParseFits(q.line.fifo);
    hide Hunt;
    if |b| >= 4 + n {
      WholeBody(b, n);
      hide Body, Crc, MakeWord;
    }
  }

  /** The receiver once a deferred acknowledgement is out. */
  function Acked(r: Receiver): Receiver {
    if r.ack then Say(r.(ack := false), 0x06) else r
  }

  /** One attempt to get a packet, for all octets that may be on the line once a deferred acknowledgement is out:
      - it ends in a cancellation if and only if a third CAN comes before any octet that begins a packet, and the
        first octet is not EOT; what follows that CAN stays on the line;
      - it sees the end of the transfer, and acknowledges it, if and only if the first octet is EOT;
      - where an octet begins a packet, that packet is taken or turned away, with its own code;
      - otherwise it hears nothing that matters, and times out. */
  lemma AttemptExactly(r: Receiver)
    ensures var q := Acked(r);
      var s, (t, code) := q.line.fifo, GetPacket(r);
      && (code == Cancel <==> exists k: nat :: CancelAt(s, k))
      && (code == Eot <==> s != [] && s[0] == 0x04)
      && (forall k: nat :: CancelAt(s, k) ==> t == Heard(q, s[k + 1..]))
      && (code == Eot ==> t == Say(Heard(q, s[1..]), 0x06))
      && (forall k: nat :: PacketAt(s, k) ==>
            code == PacketCode(s[k + 1..], DataLength(s[k])) && TakesPacket(q, t, DataLength(s[k]), s[k + 1..]))
      && ((forall k: nat :: !EndsHunt(s, k)) ==> (t, code) == (Heard(q, []), Timeout))
  {
    hide Hunt, Body, Put, CancelAt, PacketAt, Crc, MakeWord;
    var q := Acked(r);
    var s := q.line.fifo;
    var k := HuntEnds(s);
    if Hunt(s, true, 0).Silence? {
      NoEnd(s);
    } else {
      OnlyEnd(s, k);
      if Hunt(s, true, 0).Announced? {
        PacketTaken(q, Hunt(s, true, 0).length, Hunt(s, true, 0).rest);
      }
    }
  }

  lemma NoEnd(s: seq<Byte>)
    requires forall i: nat :: !EndsHunt(s, i)
    ensures forall i: nat :: !CancelAt(s, i) && !PacketAt(s, i)
    ensures s != [] ==> s[0] != 0x04
  {
    forall i: nat
      ensures !CancelAt(s, i) && !PacketAt(s, i)
    {
      assert !EndsHunt(s, i);
    }
    assert !EndsHunt(s, 0);
  }

  /** The one end of the hunt is of one kind. */
  lemma OnlyEnd(s: seq<Byte>, k: nat)
    requires EndsHunt(s, k)
    ensures forall i: nat :: CancelAt(s, i) || PacketAt(s, i) ==> i == k
    ensures !(CancelAt(s, k) && PacketAt(s, k))
    ensures CancelAt(s, k) || PacketAt(s, k) ==> s[0] != 0x04
  {
    forall i: nat | CancelAt(s, i) || PacketAt(s, i)
      ensures i == k
    {
      assert EndsHunt(s, i);
      OneEnd(s, i, k);
    }
  }

  /** Three CANs end the call at once, whichever it is: nothing more is said, and nothing more is read. */
  lemma CancelStops(r: Receiver, k: nat, retries: nat, ret: Code)
    requires CancelAt(Acked(r).line.fifo, k) && retries > 0
    ensures var t := Heard(Acked(r), Acked(r).line.fifo[k + 1..]);
      CheckLoop(r, retries, ret) == (t, Cancel) && OpenLoop(r, retries) == (t, Fail)
  {
    hide GetPacket, CancelAt, Acked;
    AttemptExactly(r);
  }

  /** The line is cleared, and `C` asks for more. */
  function AskAgain(r: Receiver): Receiver {
    Say(Heard(r, []), 0x43)
  }

  /** A packet that was there before is acknowledged; on the last try the history says so. */
  function TakeAgain(r: Receiver, last: bool): Receiver {
    if last then Note(Say(r, 0x06), LastTryDuplicate) else Say(r, 0x06)
  }

  /** A whole packet carries its number behind its first octet. */
  lemma NumberCarried(r: Receiver, k: nat)
    requires PacketAt(Acked(r).line.fifo, k) && GetPacket(r).1 == Succ
    ensures var s, t := Acked(r).line.fifo, GetPacket(r).0;
      k + 1 < |s| && t.number == s[k + 1] && t.expected == r.expected
  {
    hide Hunt, Body, Put, CancelAt, Hunting, Begins, Crc, MakeWord, GetPacket, Acked;
    AttemptExactly(r);
    GetPacketContinues(r);
    var s := Acked(r).line.fifo;
    var b := s[k + 1..];
    assert PacketCode(b, DataLength(s[k])) == Succ;
    assert b[0] == s[k + 1];
  }

  /** While a block is awaited, a whole packet is taken if it has the number awaited, and acknowledged again if it has
      the one before; with any other number the line is cleared, and it is asked for again. */
  lemma BlockTurn(r: Receiver, k: nat, retries: nat, ret: Code)
    requires PacketAt(Acked(r).line.fifo, k) && GetPacket(r).1 == Succ && retries > 0
    ensures k + 1 < |Acked(r).line.fifo|
    ensures var number, t := Acked(r).line.fifo[k + 1], GetPacket(r).0;
      CheckLoop(r, retries, ret) ==
        if number == r.expected then (Accept(t), Succ)
        else if number == r.expected - 1 then CheckLoop(TakeAgain(t, retries == 1), retries - 1, Succ)
        else CheckLoop(AskAgain(t), retries - 1, SequenceError)
  {
    hide GetPacket, Acked, PacketAt, Accept, TakeAgain, AskAgain, CheckLoop;
    NumberCarried(r, k);
    WholeTurn(r, retries, ret);
  }

  lemma WholeTurn(r: Receiver, retries: nat, ret: Code)
    requires GetPacket(r).1 == Succ && retries > 0
    ensures var t := GetPacket(r).0;
      CheckLoop(r, retries, ret) ==
        if t.number == t.expected then (Accept(t), Succ)
        else if t.number == t.expected - 1 then CheckLoop(TakeAgain(t, retries == 1), retries - 1, Succ)
        else CheckLoop(AskAgain(t), retries - 1, SequenceError)
  {
    hide GetPacket, Accept, AfterDuplicate, AfterError, TakeAgain, AskAgain;
    Replies(GetPacket(r).0, retries);
  }

  lemma Replies(r: Receiver, retries: nat)
    ensures AfterDuplicate(r, retries) == TakeAgain(r, retries == 1) && AfterError(r) == AskAgain(r)
  {
    hide Put;
  }

  /** EOT is acknowledged twice and answered with `C`; one attempt for the closing header and a last ACK follow.
      While the file is opened, EOT is acknowledged once and the next attempt begins. */
  lemma EndTurn(r: Receiver, retries: nat, ret: Code)
    requires Acked(r).line.fifo != [] && Acked(r).line.fifo[0] == 0x04 && retries > 0
    ensures var q := Acked(r);
      var t := Say(Heard(q, q.line.fifo[1..]), 0x06);
      var (u, closing) := GetPacket(Say(Say(t, 0x06), 0x43));
      && CheckLoop(r, retries, ret) == (Say(u, 0x06).(eof := true), closing)
      && OpenLoop(r, retries) == OpenLoop(t, retries - 1)
  {
    hide Put, GetPacket, Acked;
    AttemptExactly(r);
  }

  /** Silence and every kind of damage clear the line and say `C`; while the file is opened, damage says nothing. */
  lemma FailedTurn(r: Receiver, retries: nat, ret: Code)
    requires retries > 0 && GetPacket(r).1 !in {Succ, Cancel, Eot}
    ensures var (t, code) := GetPacket(r);
      && CheckLoop(r, retries, ret) == CheckLoop(AskAgain(t), retries - 1, code)
      && OpenLoop(r, retries) == OpenLoop(if code == Timeout then Say(t, 0x43) else t, retries - 1)
  {
    hide Put, GetPacket;
  }

  /** Opening forgets everything but the packet buffer, the numbers and the line, says one `C`, and tries 20 times, as
      does the wait for a block; with no try left, opening has failed, and the wait for a block ends as the last try. */
  lemma TriesExactly(r: Receiver, ret: Code)
    ensures var blank := Rx(0, r.packet, false, false, r.number, r.expected, 0, 0, r.line);
      Open(r) == OpenLoop(Say(blank, 0x43), 20)
    ensures CheckPacket(r) == CheckLoop(r, 20, Fail)
    ensures OpenLoop(r, 0) == (r, Fail) && CheckLoop(r, 0, ret) == (r, ret)
  {
  }

  /** A block that is taken is counted in 32 bits, and cut to what the file still lacks; a file that lacks nothing
      more leaves a length that has wrapped around. */
  lemma AcceptTrims(r: Receiver)
    requires r.packetLength <= PACKET_SIZE && r.fileLength < 0x1_0000_0000 && r.readLength < 0x1_0000_0000
    ensures var a := Accept(r);
      && a.ack && a.expected == r.expected + 1 && a.packet == r.packet && a.fileLength == r.fileLength
      && a.readLength == (r.readLength + r.packetLength) % 0x1_0000_0000
      && (r.readLength <= r.fileLength && r.readLength + r.packetLength < 0x1_0000_0000 ==>
            a.packetLength == Min(r.packetLength, r.fileLength - r.readLength))
      && (r.fileLength < r.readLength && r.readLength + r.packetLength < 0x1_0000_0000 ==>
            a.packetLength == 0x1_0000_0000 - (r.readLength - r.fileLength))
  {
  }
}
