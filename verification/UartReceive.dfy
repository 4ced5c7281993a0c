/** The frame receivers of the boot UART and of the command loop, and the acknowledgement frames. */
module UartReceive {
  import opened Bytes
  import opened Crc16
  import opened Crc16Table
  import CrcAlgebra
  import opened UartFrame
  import opened UartResync

  /** The receiver exists twice, with different budgets and one different condition. */
  datatype Copy = Auth | Command

  function Budget(copy: Copy): nat {
    if copy.Auth? then 33 else 101
  }

  /** The octets in which a header is looked for. */
  function Window(input: seq<Byte>, copy: Copy): seq<Byte> {
    input[..Least(|input|, Budget(copy))]
  }

  function Header(input: seq<Byte>, copy: Copy): (r: Option<nat>)
    ensures r.Some? ==> r.value + HEAD <= |input|
  {
    Search(Window(input, copy), 0, 0, copy.Command?)
  }

  // The codec -----------------------------------------------------------------------------------

  function FrameBody(kind: Byte, data: seq<Byte>): (s: seq<Byte>)
    ensures |s| == |data| + HEAD
  {
    MAGIC + Le16(|data| + 10) + [kind, !kind] + data
  }

  function Encode(kind: Byte, data: seq<Byte>): (s: seq<Byte>)
    ensures |s| == |data| + 10
  {
    var body := FrameBody(kind, data);
    body + [LowByte(Ccitt(0, body)), HighByte(Ccitt(0, body))]
  }

  /** The checksum behind a frame matches everything before it. */
  predicate Checks(frame: seq<Byte>) {
    |frame| >= 2 && MakeWord(frame[|frame| - 2], frame[|frame| - 1]) == Ccitt(0, frame[..|frame| - 2])
  }

  /** The frame that a receiver takes from `input`, and what is left then. */
  function Reception(input: seq<Byte>, copy: Copy): Option<(seq<Byte>, seq<Byte>)> {
    match Header(input, copy)
    case None => None
    case Some(at) =>
      var size := Size(input[at + 4], input[at + 5]);
      if size < 10 || at + size > |input| || !Checks(input[at..at + size]) then None
      else Some((input[at..at + size], input[at + size..]))
  }

  /** What an encoded frame looks like. */
  lemma FrameHead(kind: Byte, data: seq<Byte>)
    requires |data| + 10 <= PAYLOAD_MAX
    ensures var s := Encode(kind, data);
      && s[..4] == MAGIC == [0xEF, 0xBE, 0xAD, 0xDE]
      && Nat(s[4]) + 0x100 * Nat(s[5]) == Size(s[4], s[5]) == |data| + 10 == |s| && s[6] == kind && s[7] == !kind
      && s[8..|s| - 2] == data && s[..|s| - 2] == FrameBody(kind, data) && Checks(s)
  {
    Le16RoundTrip(|data| + 10);
    var body := FrameBody(kind, data);
    HalvesMakeWord(Ccitt(0, body));
    var s := Encode(kind, data);
    assert s[..|s| - 2] == body;
  }

  /** Every encoded frame is received, from behind anything that holds no start flag, and nothing that
      follows it is touched. */
  lemma FrameRoundTrip(before: seq<Byte>, kind: Byte, data: seq<Byte>, rest: seq<Byte>, copy: Copy)
    requires |data| + 10 <= PAYLOAD_MAX && |before| + HEAD <= Budget(copy)
    requires NoMagic(before + Encode(kind, data), 0, |before|)
    ensures Reception(before + Encode(kind, data) + rest, copy) == Some((Encode(kind, data), rest))
  {
    hide Encode, Checks, Size, Header;
    FrameHead(kind, data);
    var frame, at := Encode(kind, data), |before|;
    var input := before + frame + rest;
    HeaderBehind(before, frame, rest, copy);
    assert input[at + 4] == frame[4] && input[at + 5] == frame[5];
    assert input[at..at + |frame|] == frame && input[at + |frame|..] == rest;
  }

  /** The checksum stands low octet first: with its octets exchanged, the frame leaves no remainder. */
  lemma ChecksExactly(frame: seq<Byte>)
    requires |frame| >= 2
    ensures var n := |frame| - 2;
      Checks(frame) <==>
      CrcAlgebra.ClockAll(CrcAlgebra.Zeros(16), BitsOf(frame[..n] + [frame[n + 1], frame[n]])) == CrcAlgebra.Zeros(16)
  {
    hide MakeWord, Crc, BitsOf, CrcAlgebra.ClockAll;
    var n := |frame| - 2;
    var s := frame[..n] + [frame[n + 1], frame[n]];
    assert s[..|s| - 2] == frame[..n] && s[|s| - 1] == frame[n] && s[|s| - 2] == frame[n + 1];
    NothingToCheck();
    CodewordDivides(s);
  }

  lemma NothingToCheck()
    ensures Crc(0, []) == 0
  {
  }

  /** A header behind anything without a start flag is found if and only if its last octet is among the first 33, or
      in the command loop among the first 101. */
  lemma BudgetExactly(before: seq<Byte>, frame: seq<Byte>, rest: seq<Byte>, copy: Copy)
    requires |frame| >= 8 && frame[..4] == MAGIC && Size(frame[4], frame[5]) <= PAYLOAD_MAX
    requires NoMagic(before + frame, 0, |before|)
    ensures Header(before + frame + rest, copy)
      == if |before| + 8 <= (if copy == Auth then 33 else 101) then Some(|before|) else None
  {
    hide Size, Search, MagicAt;
    if |before| + 8 <= Budget(copy) {
      HeaderBehind(before, frame, rest, copy);
    } else {
      NotInWindow(before, frame, rest, copy);
    }
  }

  lemma NotInWindow(before: seq<Byte>, frame: seq<Byte>, rest: seq<Byte>, copy: Copy)
    requires |frame| >= 8 && NoMagic(before + frame, 0, |before|) && |before| + 8 > Budget(copy)
    ensures Header(before + frame + rest, copy) == None
  {
    hide Size, MagicAt, FindMagic;
    var t := Window(before + frame + rest, copy);
    assert forall j :: 0 <= j < |t| ==> t[j] == (before + frame + rest)[j];
    FindIsFirst(t, 0);
    var i := FindMagic(t, 0);
    if i < |before| && i < |t| {
      MagicOctets(t, i);
      MagicOctets(before + frame, i);
      assert false;
    }
  }

  lemma HeaderBehind(before: seq<Byte>, frame: seq<Byte>, rest: seq<Byte>, copy: Copy)
    requires |frame| >= HEAD && frame[..4] == MAGIC && Size(frame[4], frame[5]) <= PAYLOAD_MAX
    requires |before| + HEAD <= Budget(copy) && NoMagic(before + frame, 0, |before|)
    ensures Header(before + frame + rest, copy) == Some(|before|)
  {
    hide Size, Search, MagicAt;
    var t, at := Window(before + frame + rest, copy), |before|;
    assert forall j :: 0 <= j < HEAD ==> t[at + j] == frame[j];
    var m := frame[..4];
    assert frame[0] == m[0] && frame[1] == m[1] && frame[2] == m[2] && frame[3] == m[3];
    MagicOctets(t, at);
    forall i | 0 <= i < at
      ensures !MagicAt(t, i)
    {
      MagicOctets(before + frame, i);
      MagicOctets(t, i);
    }
    assert t[at + 4] == frame[4] && t[at + 5] == frame[5];
    GarbageSkipped(t, at, copy.Command?);
  }

  /** A frame whose header came through, but with damage inside 16 consecutive bits of what the checksum
      covers, is not taken. */
  lemma DamagedFrameFails(frame: seq<Byte>, damaged: seq<Byte>, from: nat, width: nat)
    requires Checks(frame) && |damaged| == |frame| > 2 && damaged[|frame| - 2..] == frame[|frame| - 2..]
    requires damaged != frame && width <= 16
    requires CrcAlgebra.DifferOnlyInWindow(BitsOf(frame[..|frame| - 2]), BitsOf(damaged[..|frame| - 2]), from, width)
    ensures !Checks(damaged)
  {
    var n := |frame| - 2;
    assert frame == frame[..n] + frame[n..] && damaged == damaged[..n] + damaged[n..];
    assert frame[n..][0] == damaged[n..][0] && frame[n..][1] == damaged[n..][1];
    CrcDetectsBurst(0, frame[..n], damaged[..n], from, width);
  }

  // The receivers -------------------------------------------------------------------------------

  /** `Waiting`: the command loop never gives up on a silent line. */
  datatype Code = Succ | Fail | FirstCharTimeout | Waiting

  lemma WindowFacts(input: seq<Byte>, copy: Copy)
    ensures var t := Window(input, copy);
      |t| == Least(|input|, Budget(copy)) && t == input[..|t|] && (|input| <= Budget(copy) ==> t == input)
  {
  }

  lemma HeaderInWindow(input: seq<Byte>, copy: Copy)
    ensures Header(input, copy) == Search(Window(input, copy), 0, 0, copy.Command?)
  {
  }

  lemma ScanStarts(t: seq<Byte>, early: bool)
    ensures ScanAll(t[..0], early) == START
  {
  }

  lemma ScanNext(t: seq<Byte>, k: nat, early: bool)
    requires k < |t| && ScanAll(t[..k], early).status < HEAD
    ensures ScanAll(t[..k + 1], early) == Step(ScanAll(t[..k], early), t[k], early)
  {
    hide Step;
    assert t[..k + 1][..k] == t[..k];
  }

  lemma PutNext(before: seq<Byte>, s: seq<Byte>, i: nat)
    requires i < |s| && HEAD + i < |before|
    ensures (before[..HEAD] + s[..i] + before[HEAD + i..])[HEAD + i := s[i]]
            == before[..HEAD] + s[..i + 1] + before[HEAD + i + 1..]
    ensures s[i..][1..] == s[i + 1..]
  {
  }

  lemma ChecksumCleared(frame: seq<Byte>, tail: seq<Byte>)
    requires |frame| >= 2
    ensures var n := |frame|; (frame + tail)[n - 1 := 0][n - 2 := 0] == frame[..n - 2] + [0, 0] + tail
  {
  }

  function Blank(n: nat): (s: seq<Byte>)
    ensures |s| == n && forall i :: 0 <= i < n ==> s[i] == 0
  {
    seq(n, _ => 0)
  }

  /** A packet in memory: everything but the checksum, then zeros. */
  predicate Kept(memory: seq<Byte>, frame: seq<Byte>) {
    && 2 <= |frame| <= |memory| + 2 && memory[..|frame| - 2] == frame[..|frame| - 2]
    && forall i :: |frame| - 2 <= i < |memory| ==> memory[i] == 0
  }

  /** No header on the line announces less than a header and a checksum. */
  predicate SizesFit(input: seq<Byte>, copy: Copy) {
    match Header(input, copy)
    case None => true
    case Some(at) => Size(input[at + 4], input[at + 5]) >= 10
  }

  class UartContext {
    var status: nat
    var received: nat
    const packet: array<Byte>     // header and payload
    var checkSum: Word
    var input: seq<Byte>          // what the line has still to deliver; then it is silent

    predicate Ok() {
      packet.Length == HEAD + PAYLOAD_MAX
    }

    constructor (stream: seq<Byte>)
      ensures Ok() && input == stream && fresh(packet)
    {
      packet := new Byte[HEAD + PAYLOAD_MAX](_ => 0);
      status, received, checkSum, input := 0, 0, 0, stream;
    }

    method Getc() returns (ch: Option<Byte>)
      modifies this`input
      ensures old(input) == [] ==> ch == None && input == []
      ensures old(input) != [] ==> ch == Some(old(input)[0]) && input == old(input)[1..]
    {
      if input == [] {
        return None;
      }
      ch := Some(input[0]);
      input := input[1..];
    }

    /** Find a header, octet by octet. */
    method FrameHeadRx(copy: Copy) returns (code: Code)
      requires Ok() && status == 0 && packet[..HEAD] == START.head
      modifies this`status, this`input, packet
      ensures packet[HEAD..] == old(packet[HEAD..])
      ensures code == Succ <==> Header(old(input), copy).Some?
      ensures code == Succ ==>
        var at := Header(old(input), copy).value;
        input == old(input)[at + HEAD..] && packet[..HEAD] == old(input)[at..at + HEAD]
      ensures code != Succ ==>
        && input == old(input)[Least(|old(input)|, Budget(copy))..]
        && code == if |old(input)| >= Budget(copy) then Fail
                   else if copy.Command? then Waiting
                   else if ScanAll(old(input), false).status == 0 then FirstCharTimeout else Fail
    {
      hide Search, Step, ScanAll, Window, Header;
      ghost var all, t, early := input, Window(input, copy), copy.Command?;
      WindowFacts(all, copy);
      HeaderInWindow(all, copy);
      ScanIsSearch(t, early);
      var found, silent;
      ghost var rcv;
      found, silent, rcv := ScanHeader(copy);
      if found {
        FoundAt(t, rcv, early);
        assert t[rcv - HEAD..rcv] == all[rcv - HEAD..rcv];
        return Succ;
      }
      assert t[..rcv] == t;
      if silent {
        return if copy.Command? then Waiting else if status == 0 then FirstCharTimeout else Fail;
      }
      return Fail;
    }

    /** The receiving loop: it ends with a header, in silence, or when the budget is spent. */
    method ScanHeader(copy: Copy) returns (found: bool, silent: bool, ghost used: nat)
      requires Ok() && status == 0 && packet[..HEAD] == START.head
      modifies this`status, this`input, packet
      ensures packet[HEAD..] == old(packet[HEAD..])
      ensures var t, early := Window(old(input), copy), copy.Command?;
        && used <= |t| && input == old(input)[used..]
        && ScanAll(t[..used], early).status == status && (found <==> status == HEAD)
        && (found ==> packet[..HEAD] == ScanAll(t[..used], early).head
                      && used > 0 && ScanAll(t[..used - 1], early).status < HEAD)
        && (!found ==> used == |t| && (silent <==> |old(input)| < Budget(copy)))
    {
      hide Step, ScanAll, Window;
      ghost var all, t, early := input, Window(input, copy), copy.Command?;
      WindowFacts(all, copy);
      ScanStarts(t, early);
      var reset := false;
      var rcv: nat := 0;
      while rcv < Budget(copy)
        invariant rcv <= |t| && input == all[rcv..] && status < HEAD
        invariant packet[HEAD..] == old(packet[HEAD..])
        invariant Scan(status, reset, packet[..HEAD]) == ScanAll(t[..rcv], early)
      {
        var got := Getc();
        if got.None? {
          return false, true, rcv;
        }
        rcv := rcv + 1;
        ScanNext(t, rcv - 1, early);
        reset := Take(got.value, reset, copy.Command?);
        if status == HEAD {
          return true, false, rcv;
        }
      }
      return false, false, rcv;
    }

    /** One octet for the header. */
    method Take(ch: Byte, pending: bool, early: bool) returns (reset: bool)
      requires Ok() && status < HEAD
      modifies this`status, packet
      ensures packet[HEAD..] == old(packet[HEAD..])
      ensures Scan(status, reset, packet[..HEAD]) == Step(Scan(old(status), pending, old(packet[..HEAD])), ch, early)
    {
      hide Size;
      if pending {
        packet[0], packet[1], packet[2], packet[3] := 0, 0, 0, 0;
        status := 0;
      }
      ghost var sc := Scan(status, false, packet[..HEAD]);
      assert sc == Restarted(Scan(old(status), pending, old(packet[..HEAD])));
      reset := false;
      if status <= 3 {
        if ch == MAGIC[status] {
          packet[status] := ch;
          status := status + 1;
        } else if ch == 0xEF {
          packet[0] := ch;
          status := 1;
        } else {
          reset := true;
        }
      } else {
        packet[status] := ch;
        if (early || status >= 5) && Size(packet[4], packet[5]) > PAYLOAD_MAX {
          reset := true;
        } else {
          status := status + 1;
        }
      }
    }

    /** Read what the size in the header announces, and set the checksum aside. */
    method FrameDataRx() returns (ok: bool)
      requires Ok() && 10 <= Size(packet[4], packet[5]) <= PAYLOAD_MAX
      modifies this`received, this`input, this`checkSum, packet
      ensures ok <==> |old(input)| + HEAD >= Size(old(packet[4]), old(packet[5]))
      ensures !ok ==> input == []
      ensures ok ==>
        var size, s := Size(old(packet[4]), old(packet[5])), old(input);
        var frame := old(packet[..HEAD]) + s[..size - HEAD];
        && input == s[size - HEAD..] && checkSum == MakeWord(frame[size - 2], frame[size - 1])
        && packet[..] == frame[..size - 2] + [0, 0] + old(packet[size..])
    {
      hide Size, MakeWord;
      ghost var before, s := packet[..], input;
      var size := Size(packet[4], packet[5]);
      ok := ReadPayload(size - HEAD);
      if ok {
        TakeChecksum(size, before[..HEAD] + s[..size - HEAD], before[size..]);
      }
    }

    /** The receiving loop behind the header. */
    method ReadPayload(n: nat) returns (ok: bool)
      requires Ok() && n <= PAYLOAD_MAX
      modifies this`received, this`input, packet
      ensures ok <==> |old(input)| >= n
      ensures if ok then input == old(input)[n..] else input == []
      ensures ok ==> packet[..] == old(packet[..HEAD]) + old(input)[..n] + old(packet[HEAD + n..])
    {
      ghost var before, s := packet[..], input;
      received := 0;
      while received < n
        invariant received <= |s| && received <= n && input == s[received..]
        invariant packet[..] == before[..HEAD] + s[..received] + before[HEAD + received..]
      {
        var got := Getc();
        if got.None? {
          return false;
        }
        PutNext(before, s, received);
        packet[HEAD + received] := got.value;
        received := received + 1;
      }
      ok := true;
    }

    method TakeChecksum(size: nat, ghost frame: seq<Byte>, ghost tail: seq<Byte>)
      requires 10 <= size == |frame| && packet[..] == frame + tail
      modifies this`checkSum, packet
      ensures checkSum == MakeWord(frame[size - 2], frame[size - 1]) && packet[..] == frame[..size - 2] + [0, 0] + tail
    {
      hide MakeWord;
      ChecksumCleared(frame, tail);
      assert packet[size - 2] == packet[..][size - 2] && packet[size - 1] == packet[..][size - 1];
      checkSum := MakeWord(packet[size - 2], packet[size - 1]);
      packet[size - 1] := 0;
      packet[size - 2] := 0;
    }

    method Clear()
      requires Ok()
      modifies packet
      ensures packet[..HEAD] == START.head && packet[HEAD..] == Blank(PAYLOAD_MAX)
    {
      forall i | 0 <= i < packet.Length {
        packet[i] := 0;
      }
    }

    /** `uart_frame_rx` and `loader_read_frame`. */
    method ReadFrame(copy: Copy) returns (code: Code)
      requires Ok() && SizesFit(input, copy)
      modifies this, packet
      ensures code == Succ <==> Reception(old(input), copy).Some?
      ensures code == Succ ==>
        var (frame, rest) := Reception(old(input), copy).value;
        && input == rest && 10 <= |frame| <= 1024 && packet[..|frame| - 2] == frame[..|frame| - 2]
        && forall i :: |frame| - 2 <= i < packet.Length ==> packet[i] == 0
    {
      hide Size, MakeWord, Header, Ccitt, Window, ScanAll, Checks;
      ghost var all := input;
      status, received := 0, 0;
      Clear();
      code := FrameHeadRx(copy);
      if code != Succ {
        return;
      }
      ghost var at := Header(all, copy).value;
      HeaderLegal(all, copy);
      ghost var head := packet[..HEAD];
      assert head[4] == all[at + 4] && head[5] == all[at + 5];
      code := CheckedData(all, at);
    }

    method CheckedData(ghost all: seq<Byte>, ghost at: nat) returns (code: Code)
      requires Ok() && at + HEAD <= |all| && packet[..HEAD] == all[at..at + HEAD] && input == all[at + HEAD..]
      requires 10 <= Size(all[at + 4], all[at + 5]) <= PAYLOAD_MAX
      requires packet[HEAD..] == Blank(PAYLOAD_MAX)
      modifies this, packet
      ensures var size := Size(all[at + 4], all[at + 5]);
        && (code == Succ <==> at + size <= |all| && Checks(all[at..at + size]))
        && (code == Succ ==> input == all[at + size..] && Kept(packet[..], all[at..at + size]))
    {
      hide Size, MakeWord, Ccitt;
      var size := Size(packet[4], packet[5]);
      ghost var head, before := packet[..HEAD], packet[..];
      assert before == head + Blank(PAYLOAD_MAX);
      assert head[4] == all[at + 4] && head[5] == all[at + 5];
      var ok := FrameDataRx();
      if !ok {
        return Fail;
      }
      ghost var frame := all[at..at + size];
      assert head + all[at + HEAD..][..size - HEAD] == frame;
      assert all[at + HEAD..][size - HEAD..] == all[at + size..];
      var cs := Crc16Ccitt(0, packet, 0, size - 2);
      assert packet[0..size - 2] == frame[..size - 2];
      return if cs == checkSum then Succ else Fail;
    }
  }

  lemma HeaderLegal(input: seq<Byte>, copy: Copy)
    ensures match Header(input, copy)
            case None => true
            case Some(at) => Size(input[at + 4], input[at + 5]) <= PAYLOAD_MAX
  {
    SearchLegal(Window(input, copy), 0, 0, copy.Command?);
  }

  lemma {:induction false} SearchLegal(t: seq<Byte>, from: nat, stale: Byte, early: bool)
    requires from <= |t|
    ensures match Search(t, from, stale, early) case None => true
            case Some(at) => at + HEAD <= |t| && MagicAt(t, at) && Size(t[at + 4], t[at + 5]) <= PAYLOAD_MAX
    decreases |t| - from
  {
    hide FindMagic, MagicAt, Size;
    FindIsFirst(t, from);
    var i := FindMagic(t, from);
    if i + HEAD <= |t| {
      if early && Size(t[i + 4], stale) > PAYLOAD_MAX {
        SearchLegal(t, i + 5, stale, early);
      } else if Size(t[i + 4], t[i + 5]) > PAYLOAD_MAX {
        SearchLegal(t, i + 6, t[i + 5], early);
      }
    }
  }

  // Acknowledgements ----------------------------------------------------------------------------

  const ACK_TYPE: Byte := 0xE1
  const ACK_SUCCESS: Byte := 0x5A

  lemma AckBody(first: Byte, second: Byte)
    ensures FrameBody(ACK_TYPE, [first, second]) == [0xEF, 0xBE, 0xAD, 0xDE, 0x0C, 0x00, 0xE1, 0x1E, first, second]
  {
    assert Le16(12) == [0x0C, 0x00] by {
      assert Low8(4) == 4 && Low8(8) == 8 && Low8(12) == 12;
    }
  }

  /** Fill in an acknowledgement and put it on the line. */
  method PutAck(packet: array<Byte>, first: Byte, second: Byte) returns (sent: seq<Byte>)
    requires packet.Length == HEAD + PAYLOAD_MAX
    modifies packet
    ensures sent == Encode(ACK_TYPE, [first, second])
    ensures sent[..10] == [0xEF, 0xBE, 0xAD, 0xDE, 0x0C, 0x00, 0xE1, 0x1E, first, second]
  {
    hide FrameBody, Ccitt;
    packet[0], packet[1], packet[2], packet[3] := 0xEF, 0xBE, 0xAD, 0xDE;
    packet[6] := ACK_TYPE;
    packet[7] := !ACK_TYPE;
    packet[4], packet[5] := 0x0C, 0x00;
    packet[8] := first;
    packet[9] := second;
    AckBody(first, second);
    var cs := Crc16Ccitt(0, packet, 0, 10);
    assert packet[0..10] == packet[..10] == FrameBody(ACK_TYPE, [first, second]);
    sent := packet[..10] + [LowByte(cs), HighByte(cs)];
  }

  /** `uart_ack` reuses the packet that has come in; `loader_ack` starts from an empty one. */
  method UartAck(context: UartContext, encryptFlag: Byte) returns (sent: seq<Byte>)
    requires context.Ok()
    modifies context.packet
    ensures sent == Encode(ACK_TYPE, [ACK_SUCCESS, encryptFlag])
    ensures sent[..10] == [0xEF, 0xBE, 0xAD, 0xDE, 0x0C, 0x00, 0xE1, 0x1E, 0x5A, encryptFlag]
  {
    sent := PutAck(context.packet, ACK_SUCCESS, encryptFlag);
  }

  method LoaderAck(errCode: Byte) returns (sent: seq<Byte>)
    ensures sent == Encode(ACK_TYPE, [errCode, !errCode])
    ensures sent[..10] == [0xEF, 0xBE, 0xAD, 0xDE, 0x0C, 0x00, 0xE1, 0x1E, errCode, !errCode]
  {
    var packet := new Byte[HEAD + PAYLOAD_MAX](_ => 0);
    sent := PutAck(packet, errCode, !errCode);
  }

  /** An acknowledgement at the start of a stream is received by both receivers. */
  lemma AckReceived(first: Byte, second: Byte, rest: seq<Byte>, copy: Copy)
    ensures var ack := Encode(ACK_TYPE, [first, second]);
      && Reception(ack + rest, copy) == Some((ack, rest))
      && ack[HEAD..HEAD + 2] == [first, second]
  {
    var ack := Encode(ACK_TYPE, [first, second]);
    assert [] + ack == ack;
    FrameRoundTrip([], ACK_TYPE, [first, second], rest, copy);
    FrameHead(ACK_TYPE, [first, second]);
  }
}
