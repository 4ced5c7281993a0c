/** YMODEM packets as octet strings: how the boot loader builds them and how it takes them apart
    (XMODEM/YMODEM Protocol Reference, sections 4.1, 4.3 and 8.1, and chapter 5). */
module YmodemFrames {
  import opened Bytes
  import opened Crc16
  import CrcAlgebra

  const SOH: Byte := 0x01
  const STX: Byte := 0x02
  const EOT: Byte := 0x04
  const ACK: Byte := 0x06
  const NAK: Byte := 0x15
  const CAN: Byte := 0x18
  const CRC_REQUEST: Byte := 0x43
  const FILLER: Byte := 0x1A

  function Fill(b: Byte, n: nat): (s: seq<Byte>)
    ensures |s| == n && forall i :: 0 <= i < n ==> s[i] == b
  {
    seq(n, _ => b)
  }

  function CheckBytes(data: seq<Byte>): (s: seq<Byte>)
    ensures |s| == 2
  {
    [HighByte(Crc(0, data)), LowByte(Crc(0, data))]
  }

  /** Header octet, block number, its complement, data, checksum. */
  function Frame(head: Byte, number: Byte, data: seq<Byte>): (s: seq<Byte>)
    ensures |s| == |data| + 5
  {
    [head, number, !number] + data + CheckBytes(data)
  }

  /** The data length that a header octet announces; 0 for an octet that is not a header. */
  function PacketLength(b: Byte): nat {
    if b == SOH then 128
    else if b == STX then 1024
    else if b == 0x0a then 2048
    else if b == 0x0b then 4096
    else if b == 0x0c then 8192
    else 0
  }

  const CAN_MAX := 3

  datatype Header =
    | Silence                                   // the line fell silent before a header came
    | Cancelled(rest: seq<Byte>)
    | Ended(rest: seq<Byte>)                    // EOT as the very first octet
    | Announced(length: nat, rest: seq<Byte>)

  function Hunt(s: seq<Byte>, first: bool, cans: nat): (h: Header)
    ensures h.Announced? ==> h.length <= 8192 && |h.rest| < |s|
    ensures h.Cancelled? || h.Ended? ==> |h.rest| < |s|
    decreases |s|
  {
    if s == [] then Silence
    else if PacketLength(s[0]) > 0 then Announced(PacketLength(s[0]), s[1..])
    else if s[0] == CAN then
      if cans + 1 == CAN_MAX then Cancelled(s[1..]) else Hunt(s[1..], false, cans + 1)
    else if s[0] == EOT && first then Ended(s[1..])
    else Hunt(s[1..], false, cans)
  }

  datatype Packet =
    | NoPacket                                              // silence while hunting
    | CancelRequest(rest: seq<Byte>)
    | EndRequest(rest: seq<Byte>)
    | Cut(length: nat, inData: bool, data: seq<Byte>)       // silence inside the packet
    | BadNumber(length: nat, data: seq<Byte>, rest: seq<Byte>)
    | BadChecksum(length: nat, data: seq<Byte>, rest: seq<Byte>)
    | Good(number: Byte, data: seq<Byte>, rest: seq<Byte>)

  function Body(length: nat, s: seq<Byte>): Packet {
    if |s| < 2 then Cut(length, false, [])
    else if |s| < 2 + length then Cut(length, true, s[2..])
    else if |s| < 4 + length then Cut(length, false, s[2..2 + length])
    else
      var data, rest := s[2..2 + length], s[4 + length..];
      if s[0] ^ s[1] != 0xFF then BadNumber(length, data, rest)
      else if s[2 + length..4 + length] != CheckBytes(data) then BadChecksum(length, data, rest)
      else Good(s[0], data, rest)
  }

  /** What one attempt to receive a packet makes of the octets on the line. */
  function Parse(s: seq<Byte>): Packet {
    match Hunt(s, true, 0)
    case Silence => NoPacket
    case Cancelled(rest) => CancelRequest(rest)
    case Ended(rest) => EndRequest(rest)
    case Announced(length, rest) => Body(length, rest)
  }

  lemma ComplementSums(b: Byte)
    ensures b ^ !b == 0xFF
  {
  }

  /** The receiver recovers number and data of every packet it is sent, and leaves what follows. */
  lemma ParseFrame(head: Byte, number: Byte, data: seq<Byte>, rest: seq<Byte>)
    requires |data| == PacketLength(head) > 0
    ensures Parse(Frame(head, number, data) + rest) == Good(number, data, rest)
  {
    hide Body, CheckBytes, PacketLength;
    var s := Frame(head, number, data) + rest;
    assert s[0] == head;
    assert s[1..] == [number, !number] + data + CheckBytes(data) + rest;
    BodyOfFrame(number, data, rest);
  }

  lemma BodyOfFrame(number: Byte, data: seq<Byte>, rest: seq<Byte>)
    ensures Body(|data|, [number, !number] + data + CheckBytes(data) + rest) == Good(number, data, rest)
  {
    hide CheckBytes;
    var n, t := |data|, [number, !number] + data + CheckBytes(data) + rest;
    ComplementSums(number);
    assert t[0] == number && t[1] == !number;
    assert t[2..2 + n] == data;
    assert t[2 + n..4 + n] == CheckBytes(data);
    assert t[4 + n..] == rest;
  }

  /** What parsing leaves is shorter. */
  lemma RestShorter(s: seq<Byte>)
    ensures match Parse(s)
            case CancelRequest(rest) => |rest| < |s|
            case BadNumber(_, _, rest) => |rest| < |s|
            case BadChecksum(_, _, rest) => |rest| < |s|
            case _ => true
  {
  }

  /** Octets that the receiver's own checks turn away, and so whatever they leave on the line. */
  predicate Rejected(s: seq<Byte>)
    decreases |s|
  {
    RestShorter(s);
    match Parse(s)
    case NoPacket => true
    case CancelRequest(rest) => Rejected(rest)
    case EndRequest(_) => false
    case Cut(_, _, _) => true
    case BadNumber(_, _, rest) => Rejected(rest)
    case BadChecksum(_, _, rest) => Rejected(rest)
    case Good(_, _, _) => false
  }

  lemma SilenceRejected()
    ensures Rejected([])
  {
  }

  /** Losing any tail of a packet, or all of it, is noticed. */
  lemma TruncationRejected(head: Byte, number: Byte, data: seq<Byte>, n: nat)
    requires |data| == PacketLength(head) > 0 && n < |data| + 5
    ensures Rejected(Frame(head, number, data)[..n])
  {
    var s := Frame(head, number, data)[..n];
    if n > 0 {
      assert s[0] == head;
    }
  }

  lemma DamageParsed(s: seq<Byte>)
    requires s != [] && PacketLength(s[0]) > 0 && |s| == PacketLength(s[0]) + 5
    ensures var p := Parse(s);
      && (p.Good? || ((p.BadNumber? || p.BadChecksum?) && p.rest == []))
      && (p.Good? <==> s[1] ^ s[2] == 0xFF && IsCodeword(s[3..]))
  {
    hide MakeWord, CheckBytes, PacketLength;
    var n := PacketLength(s[0]);
    var t, sent := s[1..], s[3..];
    assert |sent| == n + 2;
    assert t[2..2 + n] == sent[..n];
    assert t[2 + n..4 + n] == sent[n..];
    assert t[4 + n..] == [];
    ChecksumComparison(sent[..n], sent[n], sent[n + 1]);
    assert sent[n..] == [sent[n], sent[n + 1]];
  }

  /** A whole packet's length of octets behind an intact header is turned away exactly when the block
      number or the checksum does not fit. */
  lemma DamageRejected(s: seq<Byte>)
    requires s != [] && PacketLength(s[0]) > 0 && |s| == PacketLength(s[0]) + 5
    ensures Rejected(s) <==> s[1] ^ s[2] != 0xFF || !IsCodeword(s[3..])
  {
    hide Parse, PacketLength, IsCodeword;
    DamageParsed(s);
    SilenceRejected();
  }

  /** Damage confined to 16 consecutive bits of data and checksum is noticed. */
  lemma BurstRejected(head: Byte, number: Byte, data: seq<Byte>, damaged: seq<Byte>, from: nat, width: nat)
    requires |data| == PacketLength(head) > 0
    requires damaged != data + CheckBytes(data) && width <= 16
    requires CrcAlgebra.DifferOnlyInWindow(BitsOf(data + CheckBytes(data)), BitsOf(damaged), from, width)
    ensures Rejected([head, number, !number] + damaged)
  {
    CheckBytesMakeCodeword(data);
    CodewordDetectsBurst(data + CheckBytes(data), damaged, from, width);
    var s := [head, number, !number] + damaged;
    assert s[3..] == damaged;
    DamageRejected(s);
  }

  lemma CheckBytesMakeCodeword(data: seq<Byte>)
    ensures IsCodeword(data + CheckBytes(data))
  {
    var s := data + CheckBytes(data);
    HalvesMakeWord(Crc(0, data));
    assert s[..|s| - 2] == data;
  }

  /** The comparison made in `ymodem_get_packet` is equality of the two checksum octets. */
  lemma ChecksumComparison(data: seq<Byte>, hi: Byte, lo: Byte)
    ensures Crc(0, data) == MakeWord(lo, hi) <==> [hi, lo] == CheckBytes(data)
  {
    HalvesMakeWord(Crc(0, data));
    WordMakesHalves(lo, hi);
  }
}
