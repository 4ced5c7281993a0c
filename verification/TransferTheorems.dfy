/** The transfer as a whole: safety on a faulty line, completion on a faultless one, and the one way
    in which a transfer can go wrong. */
module TransferTheorems {
  import opened Bytes
  import opened YmodemFrames
  import opened Transfer
  import opened TransferRuns
  import opened Ymodem
  import opened FileHeader
  import opened Load
  import opened EndToEnd

  /** Loader and sender before the first octet. */
  ghost predicate AtRest(r: Receiver, file: seq<Byte>, tape: seq<Fault>) {
    0 < |file| < U32 && r.line == Line(Start(file), [], tape, [])
  }

  lemma CallOpens(r: Receiver, file: seq<Byte>, tape: seq<Fault>)
    requires AtRest(r, file, tape)
    ensures var cleared := r.(packetLength := 0, fileLength := 0, readLength := 0, ack := false, eof := false);
      Opening(cleared) && cleared.line.fifo == []
  {
    hide LastMessage, Rejected;
    StartReachable(file);
  }

  lemma OpenResult(r: Receiver, file: seq<Byte>, tape: seq<Fault>)
    requires AtRest(r, file, tape)
    ensures var (t, code) := Open(r);
      && t.line.log == [] && t.line.tx.file == file && !t.line.tx.outcome.Succeeded?
      && (code == Succ && t.fileLength != 0 ==>
            Inv(t, 0) && t.packetLength == 0 && t.fileLength == |file| <= LOAD_MAX_SIZE)
  {
    hide OpenLoop, Put, Opening, Inv;
    var cleared := r.(packetLength := 0, fileLength := 0, readLength := 0, ack := false, eof := false);
    CallOpens(r, file, tape);
    OpeningPut(cleared);
    OpenKeeps(Say(cleared, CRC_REQUEST), MAX_RETRIES);
  }

  lemma EmptyIsSound(file: seq<Byte>)
    ensures SoundSoFar(file, []) && Clean([]) && StoredBytes([]) == Carried(file, 0)
  {
  }

  /** For every file, every line and every load limits: at every moment before a duplicate is taken
      for data, flash holds a prefix of the file and the block counts of both sides are at most one
      apart; and when loader or sender reports success, and no duplicate was taken for data, flash
      holds exactly the file. */
  lemma Safety(r: Receiver, file: seq<Byte>, tape: seq<Fault>, erased: nat, min: nat, max: nat)
    requires AtRest(r, file, tape)
    ensures var (s, ok) := LoadSerial(r, erased, min, max);
      && SoundSoFar(file, s.line.log)
      && (Clean(s.line.log) && (ok || s.line.tx.outcome.Succeeded?) ==> StoredBytes(s.line.log) == file)
  {
    hide Open, Inv, SoundSoFar, Clean, StoredBytes, ReceiveFile, Carried;
    OpenResult(r, file, tape);
    EmptyIsSound(file);
    var (t, code) := Open(r);
    if code == Succ && t.fileLength != 0 {
      ReceiveKeeps(t, 0, t.fileLength);
    }
  }

  // The duplicate on the last try -----------------------------------------------------------------

  lemma PutCounts(line: Line, ch: Byte)
    ensures Tally(Put(line, ch).log, BlockAccepted) == Tally(line.log, BlockAccepted)
    ensures Tally(Put(line, ch).log, LastTryDuplicate) == Tally(line.log, LastTryDuplicate)
  {
    hide React;
    assert line.log + [] == line.log;
    assert (line.log + [BlockSent])[..|line.log|] == line.log;
  }

  lemma GetPacketCounts(r: Receiver)
    ensures var s := GetPacket(r).0;
      && Tally(s.line.log, BlockAccepted) == Tally(r.line.log, BlockAccepted)
      && Tally(s.line.log, LastTryDuplicate) == Tally(r.line.log, LastTryDuplicate)
      && s.eof == r.eof
  {
    hide Put, Parse;
    PutCounts(r.line, ACK);
    var q := if r.ack then Say(r.(ack := false), ACK) else r;
    ParseFits(q.line.fifo);
    match Parse(q.line.fifo)
    case EndRequest(rest) => PutCounts(Heard(q, rest).line, ACK);
    case _ =>
  }

  /** How the counts of the two ways to come by a packet changed. */
  predicate CountsChange(l: Line, m: Line, accepted: nat, duplicates: nat) {
    && Tally(m.log, BlockAccepted) == Tally(l.log, BlockAccepted) + accepted
    && Tally(m.log, LastTryDuplicate) == Tally(l.log, LastTryDuplicate) + duplicates
  }

  lemma NoteCounts(r: Receiver, e: Event)
    ensures CountsChange(r.line, Note(r, e).line,
                         if e == BlockAccepted then 1 else 0, if e == LastTryDuplicate then 1 else 0)
  {
    assert (r.line.log + [e])[..|r.line.log|] == r.line.log;
  }

  /** Whatever the line carries: a packet that `ymodem_check_packet` hands over is a newly accepted
      block if and only if it was not a duplicate that arrived on the last try. */
  lemma {:induction false} SuccessExactly(r: Receiver, retries: nat, ret: Code)
    requires !r.eof && (retries == 0 ==> ret != Succ)
    ensures var (s, code) := CheckLoop(r, retries, ret);
      code == Succ && !s.eof ==>
        CountsChange(r.line, s.line, 1, 0) || (CountsChange(r.line, s.line, 0, 1) && s.IsDuplicate())
    decreases retries
  {
    hide GetPacket, Put, Accept, Close, Rx.IsNext, Rx.IsDuplicate, Tally;
    if retries == 0 {
      return;
    }
    var (r1, code) := GetPacket(r);
    GetPacketCounts(r);
    if code == Succ && r1.IsNext() {
      AcceptCounts(r1);
    } else if code == Succ && r1.IsDuplicate() {
      PutCounts(r1.line, ACK);
      var r2 := Say(r1, ACK);
      NoteCounts(r2, LastTryDuplicate);
      SayKeepsNumbers(r1, ACK);
      if retries > 1 {
        SuccessExactly(AfterDuplicate(r1, retries), retries - 1, Succ);
      }
    } else if code == Cancel {
    } else if code == Eot {
      CloseEnds(r1);
    } else {
      PutCounts(Heard(r1, []).line, CRC_REQUEST);
      SuccessExactly(AfterError(r1), retries - 1, if code == Succ then SequenceError else code);
    }
  }

  lemma CloseEnds(r: Receiver)
    ensures Close(r).0.eof
  {
    hide Put, GetPacket;
  }

  lemma SayKeepsNumbers(r: Receiver, ch: Byte)
    ensures Say(r, ch).IsDuplicate() == r.IsDuplicate()
    ensures Note(Say(r, ch), LastTryDuplicate).IsDuplicate() == r.IsDuplicate()
  {
  }

  lemma AcceptCounts(r: Receiver)
    ensures CountsChange(r.line, Accept(r).line, 1, 0)
  {
    NoteCounts(r, BlockAccepted);
  }
}
