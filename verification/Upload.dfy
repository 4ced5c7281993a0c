/** The sender as the boot loader runs it: one context with a packet buffer that is filled in place. */
module Upload {
  import opened Bytes
  import opened Crc16
  import opened Crc16Table
  import opened YmodemFrames
  import opened Transfer
  import opened TransferRuns

  function Reversed(s: seq<Byte>): (r: seq<Byte>)
    ensures |r| == |s|
  {
    if s == [] then [] else Reversed(s[1..]) + [s[0]]
  }

  lemma {:induction false} ReversedPick(s: seq<Byte>, k: nat)
    requires k < |s|
    ensures Reversed(s)[k] == s[|s| - 1 - k]
    decreases |s|
  {
    if k < |s| - 1 {
      ReversedPick(s[1..], k);
    }
  }

  lemma {:induction false} ReversedAppend(s: seq<Byte>, b: Byte)
    ensures Reversed(s + [b]) == [b] + Reversed(s)
    decreases |s|
  {
    if s == [] {
      assert s + [b] == [b];
      assert Reversed([b]) == Reversed([]) + [b];
    } else {
      assert (s + [b])[1..] == s[1..] + [b];
      ReversedAppend(s[1..], b);
    }
  }

  method Memset(a: array<Byte>, value: Byte, n: nat)
    requires n <= a.Length
    modifies a
    ensures a[..] == Fill(value, n) + old(a[n..])
    ensures n == a.Length ==> a[..] == Fill(value, n)
  {
    forall i | 0 <= i < n {
      a[i] := value;
    }
  }

  method Memcpy(a: array<Byte>, at: nat, s: seq<Byte>)
    requires at + |s| <= a.Length
    modifies a
    ensures a[..] == old(a[..at]) + s + old(a[at + |s|..])
  {
    forall i | at <= i < at + |s| {
      a[i] := s[i - at];
    }
  }

  lemma PrintStep(pre: seq<Byte>, printed: seq<Byte>, post: seq<Byte>, digit: Byte)
    requires post != []
    ensures (pre + printed + post)[|pre| + |printed| := digit] == pre + (printed + [digit]) + post[1..]
  {
  }

  lemma DigitStep(higher: seq<Byte>, printed: seq<Byte>, digit: Byte)
    ensures higher + Reversed(printed + [digit]) == (higher + [digit]) + Reversed(printed)
  {
    ReversedAppend(printed, digit);
  }

  /** Write the decimal digits of `n` from position `at` on, least significant first. */
  method PrintBackwards(a: array<Byte>, at: nat, n: nat) returns (count: nat)
    requires at + |Decimal(n)| <= a.Length
    modifies a
    ensures count == |Decimal(n)| && Reversed(a[at..at + count]) == Decimal(n)
    ensures a[..at] == old(a[..at]) && a[at + count..] == old(a[at + count..])
  {
    hide Reversed;
    var rest: nat := n;
    count := 0;
    ghost var pre, printed, post := a[..at], [], a[at..];
    NothingPrinted(n);
    while rest > 0
      invariant count == |printed| <= |Decimal(n)|
      invariant post == old(a[at + count..])
      invariant a[..] == pre + printed + post
      invariant Decimal(rest) + Reversed(printed) == Decimal(n)
    {
      var digit := 0x30 + Low8(rest % 10);
      PrintStep(pre, printed, post, digit);
      DigitStep(Decimal(rest / 10), printed, digit);
      a[at + count] := digit;
      printed, post := printed + [digit], post[1..];
      count := count + 1;
      rest := rest / 10;
    }
    assert a[at..at + count] == printed && a[..at] == pre && a[at + count..] == post;
  }

  lemma NothingPrinted(n: nat)
    ensures Decimal(n) + Reversed([]) == Decimal(n)
  {
  }

  /** Write the decimal digits of `n` from position `at` on: backwards, then swapped into order. */
  method PrintDecimal(a: array<Byte>, at: nat, n: nat)
    requires at + |Decimal(n)| <= a.Length
    modifies a
    ensures a[..] == old(a[..at]) + Decimal(n) + old(a[at + |Decimal(n)|..])
  {
    var count := PrintBackwards(a, at, n);
    SwapEnds(a, at, count);
  }

  /** `s` with its first and last `i` elements exchanged end for end. */
  function Swapped(s: seq<Byte>, i: nat): (t: seq<Byte>)
    requires 2 * i <= |s| + 1
    ensures |t| == |s|
  {
    seq(|s|, k requires 0 <= k < |s| => if k < i || k >= |s| - i then s[|s| - 1 - k] else s[k])
  }

  lemma SwappedNone(s: seq<Byte>)
    ensures Swapped(s, 0) == s
  {
  }

  lemma SwapStep(s: seq<Byte>, i: nat)
    requires 2 * i + 1 < |s|
    ensures var t, j := Swapped(s, i), |s| - 1 - i;
            t[i := t[j]][j := t[i]] == Swapped(s, i + 1)
  {
  }

  lemma SwappedAllAt(s: seq<Byte>, k: nat)
    requires k < |s|
    ensures Swapped(s, |s| / 2)[k] == s[|s| - 1 - k]
  {
    var h := |s| / 2;
    if h <= k < |s| - h {
      assert k == |s| - 1 - k;
    }
  }

  lemma SwappedIsReversed(s: seq<Byte>)
    ensures Swapped(s, |s| / 2) == Reversed(s)
  {
    var t, r := Swapped(s, |s| / 2), Reversed(s);
    forall k | 0 <= k < |s|
      ensures t[k] == r[k]
    {
      SwappedAllAt(s, k);
      ReversedPick(s, k);
    }
  }

  lemma SwapInside(pre: seq<Byte>, s: seq<Byte>, post: seq<Byte>, i: nat, j: nat)
    requires i < j < |s|
    ensures (pre + s + post)[|pre| + i] == s[i] && (pre + s + post)[|pre| + j] == s[j]
    ensures (pre + s + post)[|pre| + i := s[j]][|pre| + j := s[i]] == pre + s[i := s[j]][j := s[i]] + post
  {
  }

  method SwapEnds(a: array<Byte>, at: nat, count: nat)
    requires at + count <= a.Length
    modifies a
    ensures a[..] == old(a[..at]) + Reversed(old(a[at..at + count])) + old(a[at + count..])
  {
    hide Swapped, Reversed;
    ghost var pre, s, post := a[..at], a[at..at + count], a[at + count..];
    SwappedNone(s);
    assert a[..] == pre + s + post;
    var i := 0;
    while i < count / 2
      invariant 0 <= i <= count / 2
      invariant a[..] == pre + Swapped(s, i) + post
    {
      ghost var t, j := Swapped(s, i), count - 1 - i;
      SwapStep(s, i);
      SwapInside(pre, t, post, i, j);
      a[at + i], a[at + count - 1 - i] := a[at + count - 1 - i], a[at + i];
      i := i + 1;
    }
    SwappedIsReversed(s);
  }

  lemma PutTwo(s: seq<Byte>, front: seq<Byte>, rest: seq<Byte>, hi: Byte, lo: Byte)
    requires s == front + rest && |rest| >= 2
    ensures s[|front| := hi][|front| + 1 := lo] == front + [hi, lo] + rest[2..]
  {
  }

  lemma FrameAssembled(head: Byte, number: Byte, data: seq<Byte>, crc: Word)
    requires crc == Crc(0, data)
    ensures [head, number, !number] + data + [HighByte(crc), LowByte(crc)] == Frame(head, number, data)
  {
  }

  /** The header packet before its checksum: name and digits over a cleared buffer. */
  lemma InfoLayout(length: nat, blank: seq<Byte>)
    requires length < 0x1_0000_0000 && blank == Fill(0, BUFFER_LENGTH - 3)
    ensures FILE_NAME + LengthField(length) + blank[11 + |LengthField(length)|..]
            == InfoData(length) + Fill(0, BUFFER_LENGTH - 131)
  {
  }

  class Context {
    const file: seq<Byte>      // the flash contents from file_addr on, file_length octets
    const buffer: array<Byte>
    var offset: nat
    var status: Status
    var number: Byte
    var retry: nat
    var cans: nat
    var outcome: Outcome

    function Abs(): Tx
      reads this, buffer
    {
      Tx(file, offset, status, number, retry, cans, buffer[..], outcome)
    }

    ghost predicate Ok()
      reads this, buffer
    {
      Abs().Valid()
    }

    constructor (contents: seq<Byte>)
      requires |contents| < 0x1_0000_0000
      ensures Ok() && Abs() == Start(contents) && fresh(buffer)
    {
      file := contents;
      buffer := new Byte[BUFFER_LENGTH](_ => 0);
      offset, status, number, retry, cans, outcome := 0, WaitStartC, 0, 0, 0, Running;
      new;
      assert buffer[..] == Fill(0, BUFFER_LENGTH);
    }

    /** Store the header octet, the block number and its complement. */
    method PutHead(head: Byte, n: Byte)
      requires buffer.Length == BUFFER_LENGTH
      modifies buffer
      ensures buffer[..] == [head, n, !n] + old(buffer[3..])
    {
      buffer[0] := head;
      buffer[1] := n;
      buffer[2] := !buffer[1];
    }

    /** Compute the checksum over `n` data octets and store it behind them. */
    method Seal(n: nat, ghost head: Byte, ghost number: Byte, ghost data: seq<Byte>, ghost rest: seq<Byte>)
      requires |data| == n > 0 && |rest| >= 2
      requires buffer[..] == [head, number, !number] + data + rest
      modifies buffer
      ensures buffer[..] == Frame(head, number, data) + rest[2..]
    {
      ghost var before := buffer[..];
      assert before[3..3 + n] == data;
      var crc := Crc16Ccitt(0, buffer, 3, n);
      FrameAssembled(head, number, data, crc);
      PutTwo(before, [head, number, !number] + data, rest, HighByte(crc), LowByte(crc));
      buffer[3 + n] := HighByte(crc);
      buffer[4 + n] := LowByte(crc);
    }

    method SendFileInfo() returns (out: seq<Byte>)
      requires Ok()
      modifies this`status, buffer
      ensures Ok() && (Abs(), out) == Transfer.SendFileInfo(old(Abs()))
    {
      if retry > 0 {
        return buffer[..SHORT_MESSAGE];
      }
      FillInfo();
      status := WaitInitAck;
      out := buffer[..SHORT_MESSAGE];
      assert out == InfoFrame(|file|, number);
    }

    method FillInfo()
      requires Ok()
      modifies buffer
      ensures buffer[..] == InfoFrame(|file|, number) + Fill(0, BUFFER_LENGTH - SHORT_MESSAGE)
    {
      PrintInfo();
      InfoLayout(|file|, Fill(0, BUFFER_LENGTH - 3));
      Seal(128, SOH, number, InfoData(|file|), Fill(0, BUFFER_LENGTH - 131));
      assert Fill(0, BUFFER_LENGTH - 131)[2..] == Fill(0, BUFFER_LENGTH - SHORT_MESSAGE);
    }

    method PrintInfo()
      requires Ok()
      modifies buffer
      ensures buffer[..] == [SOH, number, !number]
        + (FILE_NAME + LengthField(|file|) + Fill(0, BUFFER_LENGTH - 3)[11 + |LengthField(|file|)|..])
    {
      PrintName();
      if |file| < 0x8000_0000 {
        PrintLength();
      }
    }

    method PrintName()
      requires Ok()
      modifies buffer
      ensures buffer[..] == [SOH, number, !number] + (FILE_NAME + [] + Fill(0, BUFFER_LENGTH - 3)[11..])
    {
      ghost var blank := Fill(0, BUFFER_LENGTH - 3);
      Memset(buffer, 0, BUFFER_LENGTH);
      assert buffer[3..] == blank;
      PutHead(SOH, number);
      ghost var before := buffer[..];
      Memcpy(buffer, 3, FILE_NAME);
      assert buffer[..] == before[..3] + FILE_NAME + before[14..];
      NamedLayout(buffer[..], [SOH, number, !number], blank);
    }

    method PrintLength()
      requires Ok() && |file| < 0x8000_0000
      requires buffer[..] == [SOH, number, !number] + (FILE_NAME + [] + Fill(0, BUFFER_LENGTH - 3)[11..])
      modifies buffer
      ensures buffer[..] == [SOH, number, !number]
        + (FILE_NAME + LengthField(|file|) + Fill(0, BUFFER_LENGTH - 3)[11 + |LengthField(|file|)|..])
    {
      ghost var named, d := buffer[..], LengthField(|file|);
      assert d == Decimal(|file|);
      hide Decimal, LengthField, Fill;
      PrintDecimal(buffer, 14, |file|);
      assert buffer[..] == named[..14] + d + named[14 + |d|..];
      NumberedLayout(named, [SOH, number, !number], Fill(0, BUFFER_LENGTH - 3), d);
    }

    method SendData() returns (out: seq<Byte>)
      requires Ok()
      modifies this`status, this`number, this`offset, buffer
      ensures Ok() && (Abs(), out) == Transfer.SendData(old(Abs()))
    {
      hide DataFrame;
      if retry > 0 {
        out := if buffer[0] == SOH then buffer[..SHORT_MESSAGE] else buffer[..];
      } else {
        number := number + 1;
        out := SendNew();
      }
    }

    method SendNew() returns (out: seq<Byte>)
      requires Ok()
      modifies this`status, this`offset, buffer
      ensures out == DataFrame(file, old(offset), number)
      ensures buffer[..] == out + Fill(FILLER, BUFFER_LENGTH - |out|)
      ensures status == if |file| - old(offset) > 1024 then WaitInterAck else WaitFinalAck
      ensures offset == old(offset) + Min(|file| - old(offset), 1024)
    {
      var remain := |file| - offset;
      status := WaitFinalAck;
      if remain > 1024 {
        remain := 1024;
        status := WaitInterAck;
      }
      Memset(buffer, FILLER, BUFFER_LENGTH);
      out := BuildData(offset, remain, number);
      offset := offset + remain;
    }

    method BuildData(at: nat, remain: nat, n: Byte) returns (out: seq<Byte>)
      requires at <= |file| && remain == Min(|file| - at, 1024)
      requires buffer[..] == Fill(FILLER, BUFFER_LENGTH)
      modifies buffer
      ensures out == DataFrame(file, at, n)
      ensures buffer[..] == out + Fill(FILLER, BUFFER_LENGTH - |out|)
    {
      if remain <= 128 {
        FillData(SOH, n, 128, file[at..]);
        out := buffer[..SHORT_MESSAGE];
      } else {
        FillData(STX, n, 1024, file[at..at + remain]);
        out := buffer[..];
      }
      assert out == DataFrame(file, at, n);
    }

    /** Head, file part and checksum over a buffer full of filler. */
    method FillData(head: Byte, n: Byte, size: nat, part: seq<Byte>)
      requires buffer[..] == Fill(FILLER, BUFFER_LENGTH) && |part| <= size <= 1024 && size > 0
      modifies buffer
      ensures buffer[..] == Frame(head, n, part + Fill(FILLER, size - |part|)) + Fill(FILLER, BUFFER_LENGTH - 5 - size)
    {
      ghost var blank := Fill(FILLER, BUFFER_LENGTH - 3);
      assert buffer[3..] == blank;
      PutHead(head, n);
      ghost var before := buffer[..];
      Memcpy(buffer, 3, part);
      assert buffer[..] == before[..3] + part + before[3 + |part|..];
      DataLayout(before, [head, n, !n], blank, part, size);
      Seal(size, head, n, part + Fill(FILLER, size - |part|), Fill(FILLER, BUFFER_LENGTH - 3 - size));
      assert Fill(FILLER, BUFFER_LENGTH - 3 - size)[2..] == Fill(FILLER, BUFFER_LENGTH - 5 - size);
    }

    method SendNullInfo() returns (out: seq<Byte>)
      requires Ok()
      modifies this`status, buffer
      ensures Ok() && (Abs(), out) == Transfer.SendNullInfo(old(Abs()))
    {
      hide NullFrame;
      ghost var before := buffer[..];
      FillNull();
      assert buffer[..SHORT_MESSAGE] == NullFrame(before);
      status := WaitZeroAck;
      out := buffer[..SHORT_MESSAGE];
    }

    method FillNull()
      requires buffer.Length == BUFFER_LENGTH
      modifies buffer
      ensures buffer[..] == NullFrame(old(buffer[..])) + old(buffer[SHORT_MESSAGE..])
    {
      hide Frame;
      ghost var before := buffer[..];
      Memset(buffer, 0, 128);
      assert buffer[3..] == Fill(0, 125) + before[128..];
      PutHead(SOH, 0);
      NullLayout(before);
      assert !(0 as Byte) == 0xFF;
      Seal(128, SOH, 0, Fill(0, 125) + before[128..131], before[131..]);
      assert before[131..][2..] == before[SHORT_MESSAGE..];
    }

    method CStep() returns (out: seq<Byte>)
      requires Ok()
      modifies this`status, this`number, this`offset, buffer
      ensures Ok() && (Abs(), out) == Transfer.CStep(old(Abs()))
    {
      match status {
        case WaitStartC => out := SendFileInfo();
        case WaitTransC => out := SendData();
        case WaitEotC => out := SendNullInfo();
        case _ => out := [];
      }
    }

    method AckStep() returns (out: seq<Byte>)
      requires Ok()
      modifies this`status, this`number, this`offset, buffer
      ensures Ok() && (Abs(), out) == Transfer.AckStep(old(Abs()))
    {
      match status {
        case WaitInitAck =>
          status := WaitTransC;
          out := [];
        case WaitInterAck => out := SendData();
        case WaitFinalAck =>
          out := [EOT];
          status := WaitEotC;
        case _ => out := [];
      }
    }

    method NakStep() returns (out: seq<Byte>)
      requires Ok()
      modifies this`status, this`number, this`offset, buffer
      ensures Ok() && (Abs(), out) == Transfer.NakStep(old(Abs()))
    {
      match status {
        case WaitInitAck => out := SendFileInfo();
        case WaitInterAck => out := SendData();
        case WaitFinalAck => out := SendData();
        case WaitEotC => out := [EOT];
        case WaitZeroAck => out := SendNullInfo();
        case _ => out := [];
      }
    }

    /** One octet of the event loop. */
    method Receive(ch: Byte) returns (out: seq<Byte>)
      requires Ok() && outcome.Running?
      modifies this, buffer
      ensures Ok() && (Abs(), out) == React(old(Abs()), ch)
    {
      out := [];
      if ch == CRC_REQUEST {
        cans, retry := 0, 0;
        out := CStep();
      } else if ch == ACK {
        cans, retry := 0, 0;
        if status == WaitZeroAck {
          outcome := Succeeded;
          return;
        }
        out := AckStep();
      } else if ch == NAK {
        cans := 0;
        retry := (retry + 1) % 16;
        if retry == 0 {
          outcome := Failed;
          return;
        }
        out := NakStep();
      } else if ch == CAN {
        retry := 0;
        cans := (cans + 1) % 16;
        if cans == CAN_COUNT {
          outcome := Failed;
        }
      }
    }

    /** The event loop over the octets the peer sends; it stops at success or failure. */
    method Serve(input: seq<Byte>) returns (sent: seq<seq<Byte>>)
      requires Abs() == Start(file) && 0 < |file| < 0x1_0000_0000
      modifies this, buffer
      ensures Abs() == Run(file, input)
      ensures |sent| <= |input| && forall i :: 0 <= i < |sent| ==> sent[i] == Answer(file, input[..i + 1])
      ensures |sent| < |input| ==> !outcome.Running?
    {
      hide Run, Answer, React, Start, Reachable, Tx.Valid;
      RunStart(file, input);
      sent := [];
      for i := 0 to |input|
        invariant |sent| == i && Abs() == Run(file, input[..i])
        invariant forall j :: 0 <= j < i ==> sent[j] == Answer(file, input[..j + 1])
      {
        RunStep(file, input, i);
        if !outcome.Running? {
          FinishedStays(file, input, i);
          return;
        }
        ghost var before := sent;
        var out := Receive(input[i]);
        sent := sent + [out];
        assert sent[..i] == before;
      }
      assert input[..|input|] == input;
    }
  }

  lemma RunStart(file: seq<Byte>, input: seq<Byte>)
    requires 0 < |file| < 0x1_0000_0000
    ensures Run(file, input[..0]) == Start(file)
  {
  }

  lemma RunStep(file: seq<Byte>, input: seq<Byte>, i: nat)
    requires 0 < |file| < 0x1_0000_0000 && i < |input|
    ensures (Run(file, input[..i + 1]), Answer(file, input[..i + 1])) == React(Run(file, input[..i]), input[i])
    ensures Run(file, input[..i]).Valid() && Run(file, input[..i]).file == file
  {
    var more := input[..i + 1];
    assert more[..|more| - 1] == input[..i] && more[|more| - 1] == input[i];
  }

  lemma {:induction false} FinishedStays(file: seq<Byte>, input: seq<Byte>, i: nat)
    requires 0 < |file| < 0x1_0000_0000 && i <= |input|
    requires !Run(file, input[..i]).outcome.Running?
    ensures Run(file, input) == Run(file, input[..i])
    decreases |input|
  {
    if i == |input| {
      assert input[..i] == input;
    } else {
      var front := input[..|input| - 1];
      assert front[..i] == input[..i];
      FinishedStays(file, front, i);
    }
  }

  lemma DataLayout(before: seq<Byte>, head: seq<Byte>, blank: seq<Byte>, part: seq<Byte>, size: nat)
    requires |head| == 3 && blank == Fill(FILLER, BUFFER_LENGTH - 3) && before == head + blank
    requires |part| <= size <= 1024
    ensures before[..3] + part + before[3 + |part|..]
            == head + (part + Fill(FILLER, size - |part|)) + Fill(FILLER, BUFFER_LENGTH - 3 - size)
  {
  }

  lemma NullLayout(before: seq<Byte>)
    requires |before| == BUFFER_LENGTH
    ensures Fill(0, 125) + before[128..] == (Fill(0, 125) + before[128..131]) + before[131..]
  {
  }

  lemma NamedLayout(named: seq<Byte>, head: seq<Byte>, blank: seq<Byte>)
    requires |head| == 3 && |blank| == BUFFER_LENGTH - 3
    requires named == (head + blank)[..3] + FILE_NAME + (head + blank)[14..]
    ensures named == head + (FILE_NAME + [] + blank[11..])
  {
  }

  lemma NumberedLayout(named: seq<Byte>, head: seq<Byte>, blank: seq<Byte>, d: seq<Byte>)
    requires |head| == 3 && |blank| == BUFFER_LENGTH - 3 && |d| <= 10
    requires named == head + (FILE_NAME + [] + blank[11..])
    ensures named[..14] + d + named[14 + |d|..] == head + (FILE_NAME + d + blank[11 + |d|..])
  {
  }
}
