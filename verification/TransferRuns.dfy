/** The sender against any peer: statements about every sequence of received octets. */
module TransferRuns {
  import opened Bytes
  import opened Crc16
  import opened YmodemFrames
  import opened Transfer

  function Run(file: seq<Byte>, input: seq<Byte>): (tx: Tx)
    requires 0 < |file| < 0x1_0000_0000
    ensures Reachable(tx) && tx.file == file
    decreases |input|
  {
    StartReachable(file);
    if input == [] then Start(file)
    else
      var before := Run(file, input[..|input| - 1]);
      ReactReachable(before, input[|input| - 1]);
      React(before, input[|input| - 1]).0
  }

  lemma ReactReachable(tx: Tx, ch: Byte)
    requires Reachable(tx)
    ensures Reachable(React(tx, ch).0) && React(tx, ch).0.file == tx.file
  {
    if tx.outcome.Running? {
      if ch == CRC_REQUEST {
        ReactToC(tx);
      } else if ch == ACK {
        ReactToAck(tx);
      } else if ch == NAK {
        ReactToNak(tx);
      } else {
        ReactToOther(tx, ch);
      }
    }
  }

  /** The octets sent in answer to the last octet of `input`. */
  function Answer(file: seq<Byte>, input: seq<Byte>): seq<Byte>
    requires 0 < |file| < 0x1_0000_0000 && input != []
  {
    React(Run(file, input[..|input| - 1]), input[|input| - 1]).1
  }

  // New data blocks -----------------------------------------------------------------------------

  /** The messages, in order, with which the sender moved on in the file. */
  function NewBlocks(file: seq<Byte>, input: seq<Byte>): seq<seq<Byte>>
    requires 0 < |file| < 0x1_0000_0000
    decreases |input|
  {
    if input == [] then []
    else
      var n := |input| - 1;
      NewBlocks(file, input[..n])
      + (if Run(file, input).offset != Run(file, input[..n]).offset then [Answer(file, input)] else [])
  }

  lemma MovesByOneBlock(tx: Tx, ch: Byte)
    requires Reachable(tx)
    ensures var (t, out) := React(tx, ch);
      && Sent(tx) <= Sent(t) <= Sent(tx) + 1
      && (t.offset != tx.offset <==> Sent(t) == Sent(tx) + 1)
      && (Sent(t) == Sent(tx) + 1 ==>
            1024 * Sent(tx) < |tx.file| && out == Block(tx.file, Sent(tx) + 1) && (ch == ACK || ch == CRC_REQUEST))
      && (out == [EOT] ==> t.offset == |tx.file|)
      && (ch == NAK ==> out == [] || out == LastMessage(tx))
  {
    hide Frame, DataFrame, Block, NullFrame, InfoData, Low8;
    if tx.outcome.Running? {
      if ch == CRC_REQUEST {
        ReactToC(tx);
      } else if ch == ACK {
        ReactToAck(tx);
      } else if ch == NAK {
        ReactToNak(tx);
        LastMessageIsEotAtEnd(tx);
      } else {
        ReactToOther(tx, ch);
      }
    }
  }

  lemma LastMessageIsEotAtEnd(tx: Tx)
    requires Reachable(tx)
    ensures LastMessage(tx) == [EOT] ==> tx.offset == |tx.file|
  {
  }

  /** The first `n` blocks of the file. */
  function Blocks(file: seq<Byte>, n: nat): (b: seq<seq<Byte>>)
    requires n > 0 ==> 1024 * (n - 1) < |file|
    ensures |b| == n
  {
    if n == 0 then [] else Blocks(file, n - 1) + [Block(file, n)]
  }

  lemma {:induction false} BlockOf(file: seq<Byte>, n: nat, k: nat)
    requires 1 <= k <= n && 1024 * (n - 1) < |file|
    ensures Blocks(file, n)[k - 1] == Block(file, k)
    decreases n
  {
    if k < n {
      BlockOf(file, n - 1, k);
    }
  }

  lemma SentIsCarried(tx: Tx)
    requires Reachable(tx)
    ensures Sent(tx) > 0 ==> 1024 * (Sent(tx) - 1) < |tx.file|
  {
  }

  /** Whatever the peer says, the new blocks are blocks 1, 2, 3, ... of the file, each exactly once and in order. */
  lemma {:induction false} NewBlocksAreTheFile(file: seq<Byte>, input: seq<Byte>)
    requires 0 < |file| < 0x1_0000_0000
    ensures Sent(Run(file, input)) > 0 ==> 1024 * (Sent(Run(file, input)) - 1) < |file|
    ensures NewBlocks(file, input) == Blocks(file, Sent(Run(file, input)))
    decreases |input|
  {
    hide React, Block, Reachable;
    SentIsCarried(Run(file, input));
    if input == [] {
      StartReachable(file);
    } else {
      var n := |input| - 1;
      NewBlocksAreTheFile(file, input[..n]);
      MovesByOneBlock(Run(file, input[..n]), input[n]);
    }
  }

  lemma FrameLayout(head: Byte, number: Byte, data: seq<Byte>)
    ensures var b := Frame(head, number, data);
      && b[0] == head && b[1] == number && b[2] == !number
      && b[3..] == data + CheckBytes(data) && b[3..3 + |data|] == data && IsCodeword(b[3..])
  {
    CheckBytesMakeCodeword(data);
    var b := Frame(head, number, data);
    assert b[3..] == data + CheckBytes(data);
    assert b[3..3 + |data|] == data;
  }

  function BlockSize(file: seq<Byte>, k: nat): nat {
    if |file| <= 1024 * (k - 1) + 128 then 128 else 1024
  }

  function BlockPart(file: seq<Byte>, k: nat): seq<Byte>
    requires 1 <= k && 1024 * (k - 1) < |file|
  {
    file[1024 * (k - 1)..Min(1024 * k, |file|)]
  }

  lemma BlockIsFrame(file: seq<Byte>, k: nat)
    requires 1 <= k && 1024 * (k - 1) < |file|
    ensures var size, part := BlockSize(file, k), BlockPart(file, k);
      && |part| <= size
      && Block(file, k) == Frame(if size == 128 then SOH else STX, Low8(k), part + Fill(FILLER, size - |part|))
  {
    assert BlockSize(file, k) == 128 ==> BlockPart(file, k) == file[1024 * (k - 1)..];
  }

  /** What block `k` looks like on the line: 0x01 and 128 octets of data if no more than that are left of the file,
      and 0x02 and 1024 octets otherwise; its number modulo 256, the complement, its part of the file filled up with
      0x1A, and a valid checksum. */
  lemma BlockLayout(file: seq<Byte>, k: nat)
    requires 1 <= k && 1024 * (k - 1) < |file|
    ensures var b, at := Block(file, k), 1024 * (k - 1);
      var size, n := if |file| - at <= 128 then 128 else 1024, if |file| - at <= 1024 then |file| - at else 1024;
      && |b| == size + 5 && b[0] == (if size == 128 then 0x01 else 0x02)
      && Nat(b[1]) == k % 256 && b[2] == !b[1]
      && b[3..3 + n] == file[at..at + n] && (forall i :: 3 + n <= i < 3 + size ==> b[i] == 0x1A)
      && IsCodeword(b[3..])
  {
    hide Frame, Block, IsCodeword, Low8, CheckBytes, Nat, BlockSize, BlockPart;
    Low8IsMod256(k);
    BlockIsFrame(file, k);
    BlockMeasures(file, k);
    var size, part := BlockSize(file, k), BlockPart(file, k);
    PaddedFrame(if size == 128 then SOH else STX, Low8(k), part, size - |part|);
  }

  lemma PaddedFrame(head: Byte, number: Byte, part: seq<Byte>, padding: nat)
    ensures var b, size := Frame(head, number, part + Fill(FILLER, padding)), |part| + padding;
      && |b| == size + 5 && b[0] == head && b[1] == number && b[2] == !number && b[3..3 + |part|] == part
      && (forall i :: 3 + |part| <= i < 3 + size ==> b[i] == 0x1A)
      && IsCodeword(b[3..])
  {
    hide Frame, IsCodeword, CheckBytes;
    var filler := Fill(FILLER, padding);
    FrameLayout(head, number, part + filler);
    Padded(Frame(head, number, part + filler), part, filler);
  }

  lemma BlockMeasures(file: seq<Byte>, k: nat)
    requires 1 <= k && 1024 * (k - 1) < |file|
    ensures var at := 1024 * (k - 1);
      var n := if |file| - at <= 1024 then |file| - at else 1024;
      && BlockSize(file, k) == (if |file| - at <= 128 then 128 else 1024)
      && |BlockPart(file, k)| == n && BlockPart(file, k) == file[at..at + n]
  {
  }

  lemma Padded(b: seq<Byte>, part: seq<Byte>, filler: seq<Byte>)
    requires 3 + |part + filler| <= |b| && b[3..3 + |part + filler|] == part + filler
    ensures b[3..3 + |part|] == part
    ensures forall i :: 3 + |part| <= i < 3 + |part| + |filler| ==> b[i] == filler[i - 3 - |part|]
  {
    var data, all := b[3..3 + |part + filler|], part + filler;
    forall j | 0 <= j < |all|
      ensures b[3 + j] == all[j]
    {
      assert data[j] == b[3 + j];
    }
    forall j | 0 <= j < |part|
      ensures b[3..3 + |part|][j] == part[j]
    {
      assert b[3 + j] == all[j];
    }
    forall i | 3 + |part| <= i < 3 + |part| + |filler|
      ensures b[i] == filler[i - 3 - |part|]
    {
      assert b[3 + (i - 3)] == all[i - 3];
    }
  }

  /** EOT is never sent before the whole file has been. */
  lemma EotOnlyAtTheEnd(file: seq<Byte>, input: seq<Byte>)
    requires 0 < |file| < 0x1_0000_0000 && input != [] && Answer(file, input) == [0x04]
    ensures Run(file, input).offset == |file|
    ensures |NewBlocks(file, input)| == BlockCount(|file|)
  {
    MovesByOneBlock(Run(file, input[..|input| - 1]), input[|input| - 1]);
    NewBlocksAreTheFile(file, input);
  }

  // NAK -----------------------------------------------------------------------------------------

  /** The last thing the sender put on the line. */
  function LastSaid(file: seq<Byte>, input: seq<Byte>): seq<Byte>
    requires 0 < |file| < 0x1_0000_0000
    decreases |input|
  {
    if input == [] then []
    else if Answer(file, input) != [] then Answer(file, input)
    else LastSaid(file, input[..|input| - 1])
  }

  lemma SaysItsLastMessage(tx: Tx, ch: Byte)
    requires Reachable(tx)
    ensures var (t, out) := React(tx, ch);
            Reachable(t) && LastMessage(t) == if out != [] then out else LastMessage(tx)
  {
    hide Frame, DataFrame, Block, NullFrame, InfoData, BlockCount, Low8;
    if tx.outcome.Running? {
      if ch == CRC_REQUEST {
        ReactToC(tx);
      } else if ch == ACK {
        ReactToAck(tx);
      } else if ch == NAK {
        ReactToNak(tx);
      } else {
        ReactToOther(tx, ch);
      }
    }
  }

  lemma {:induction false} LastSaidIsLastMessage(file: seq<Byte>, input: seq<Byte>)
    requires 0 < |file| < 0x1_0000_0000
    ensures LastSaid(file, input) == LastMessage(Run(file, input))
    decreases |input|
  {
    if input == [] {
      StartReachable(file);
    } else {
      var n := |input| - 1;
      LastSaidIsLastMessage(file, input[..n]);
      SaysItsLastMessage(Run(file, input[..n]), input[n]);
    }
  }

  /** A NAK only ever makes the sender repeat itself; the place in the file stays where it is. */
  lemma NakOnlyRepeats(file: seq<Byte>, input: seq<Byte>)
    requires 0 < |file| < 0x1_0000_0000
    ensures Answer(file, input + [NAK]) == [] || Answer(file, input + [NAK]) == LastSaid(file, input)
    ensures Run(file, input + [NAK]).offset == Run(file, input).offset
    ensures NewBlocks(file, input + [NAK]) == NewBlocks(file, input)
  {
    var more := input + [NAK];
    assert more[..|more| - 1] == input && more[|more| - 1] == NAK;
    var tx := Run(file, input);
    MovesByOneBlock(tx, NAK);
    LastSaidIsLastMessage(file, input);
    NewBlocksAreTheFile(file, more);
  }

  // Giving up -----------------------------------------------------------------------------------

  /** How many NAKs ended the input with no `C`, ACK or CAN between them; other octets do not count. */
  function NakRun(input: seq<Byte>): nat
    decreases |input|
  {
    if input == [] then 0
    else
      var rest, last := input[..|input| - 1], input[|input| - 1];
      if last == 0x15 then NakRun(rest) + 1
      else if last == 0x43 || last == 0x06 || last == 0x18 then 0
      else NakRun(rest)
  }

  /** How many CANs ended the input with no `C`, ACK or NAK between them. */
  function CanRun(input: seq<Byte>): nat
    decreases |input|
  {
    if input == [] then 0
    else
      var rest, last := input[..|input| - 1], input[|input| - 1];
      if last == 0x18 then CanRun(rest) + 1
      else if last == 0x43 || last == 0x06 || last == 0x15 then 0
      else CanRun(rest)
  }

  lemma CountersStep(tx: Tx, ch: Byte, naks: nat, cans: nat)
    requires Reachable(tx) && tx.outcome.Running?
    requires tx.retry == naks < 16 && tx.cans == cans < 3
    ensures var t := React(tx, ch).0;
      && (t.outcome.Failed? <==> (ch == 0x15 && naks + 1 == 16) || (ch == 0x18 && cans + 1 == 3))
      && (t.outcome.Running? ==>
        && t.retry == (if ch == 0x15 then naks + 1
                       else if ch == 0x43 || ch == 0x06 || ch == 0x18 then 0 else naks) < 16
        && t.cans == (if ch == 0x18 then cans + 1
                      else if ch == 0x43 || ch == 0x06 || ch == 0x15 then 0 else cans) < 3)
  {
    hide Frame, DataFrame, Block, NullFrame, InfoData, Low8, Reachable;
    if ch == CRC_REQUEST {
      ReactToC(tx);
    } else if ch == ACK {
      ReactToAck(tx);
    } else if ch == NAK {
      ReactToNak(tx);
    } else {
      ReactToOther(tx, ch);
    }
  }

  /** While the sender runs, its two counters are the lengths of the current runs. */
  lemma {:induction false} CountersAreRuns(file: seq<Byte>, input: seq<Byte>)
    requires 0 < |file| < 0x1_0000_0000
    requires Run(file, input).outcome.Running?
    ensures Run(file, input).retry == NakRun(input) < 16
    ensures Run(file, input).cans == CanRun(input) < 3
    decreases |input|
  {
    if input == [] {
      StartReachable(file);
    } else {
      var n := |input| - 1;
      CountersAreRuns(file, input[..n]);
      CountersStep(Run(file, input[..n]), input[n], NakRun(input[..n]), CanRun(input[..n]));
    }
  }

  /** The sender gives up on the next octet exactly when that makes 16 NAKs or 3 CANs in a run. */
  lemma GivesUpExactly(file: seq<Byte>, input: seq<Byte>, ch: Byte)
    requires 0 < |file| < 0x1_0000_0000
    requires Run(file, input).outcome.Running?
    ensures Run(file, input + [ch]).outcome.Failed? <==>
            NakRun(input + [ch]) == 16 || CanRun(input + [ch]) == 3
  {
    var more := input + [ch];
    assert more[..|more| - 1] == input && more[|more| - 1] == ch;
    CountersAreRuns(file, input);
    CountersStep(Run(file, input), ch, NakRun(input), CanRun(input));
  }

  ghost predicate GaveUpAt(file: seq<Byte>, input: seq<Byte>, i: nat)
    requires 0 < |file| < 0x1_0000_0000 && i < |input|
  {
    Run(file, input[..i]).outcome.Running? && (NakRun(input[..i + 1]) == 16 || CanRun(input[..i + 1]) == 3)
  }

  lemma DoneStays(tx: Tx, ch: Byte)
    requires Reachable(tx) && !tx.outcome.Running?
    ensures React(tx, ch) == (tx, [])
  {
  }

  lemma GaveUpEarlier(file: seq<Byte>, input: seq<Byte>, n: nat, i: nat)
    requires 0 < |file| < 0x1_0000_0000 && i < n <= |input|
    ensures GaveUpAt(file, input[..n], i) == GaveUpAt(file, input, i)
  {
    assert input[..n][..i] == input[..i] && input[..n][..i + 1] == input[..i + 1];
  }

  /** A sender has failed exactly when it gave up, while running, on one of the octets it received. */
  lemma {:induction false} FailedMeansGaveUp(file: seq<Byte>, input: seq<Byte>)
    requires 0 < |file| < 0x1_0000_0000
    ensures Run(file, input).outcome.Failed? <==> exists i: nat :: i < |input| && GaveUpAt(file, input, i)
    decreases |input|
  {
    hide React, Reachable, NakRun, CanRun;
    if input == [] {
      return;
    }
    var n := |input| - 1;
    var front := input[..n];
    FailedMeansGaveUp(file, front);
    forall i: nat | i < n
      ensures GaveUpAt(file, front, i) == GaveUpAt(file, input, i)
    {
      GaveUpEarlier(file, input, n, i);
    }
    assert front + [input[n]] == input == input[..n + 1];
    if Run(file, front).outcome.Running? {
      GivesUpExactly(file, front, input[n]);
      assert Run(file, input).outcome.Failed? == GaveUpAt(file, input, n);
    } else {
      DoneStays(Run(file, front), input[n]);
      assert !GaveUpAt(file, input, n);
    }
  }
}
