/** The table-driven C routine of the boot loader. */
module Crc16Table {
  import opened Bytes
  import opened Crc16
  import CrcAlgebra

  // The table ---------------------------------------------------------------------------------

  /** The constants of `g_crc16_tab`, eight to a row as in the source. */
  const TABLE: seq<seq<Word>> := [
    [0x0000, 0x1021, 0x2042, 0x3063, 0x4084, 0x50a5, 0x60c6, 0x70e7],
    [0x8108, 0x9129, 0xa14a, 0xb16b, 0xc18c, 0xd1ad, 0xe1ce, 0xf1ef],
    [0x1231, 0x0210, 0x3273, 0x2252, 0x52b5, 0x4294, 0x72f7, 0x62d6],
    [0x9339, 0x8318, 0xb37b, 0xa35a, 0xd3bd, 0xc39c, 0xf3ff, 0xe3de],
    [0x2462, 0x3443, 0x0420, 0x1401, 0x64e6, 0x74c7, 0x44a4, 0x5485],
    [0xa56a, 0xb54b, 0x8528, 0x9509, 0xe5ee, 0xf5cf, 0xc5ac, 0xd58d],
    [0x3653, 0x2672, 0x1611, 0x0630, 0x76d7, 0x66f6, 0x5695, 0x46b4],
    [0xb75b, 0xa77a, 0x9719, 0x8738, 0xf7df, 0xe7fe, 0xd79d, 0xc7bc],
    [0x48c4, 0x58e5, 0x6886, 0x78a7, 0x0840, 0x1861, 0x2802, 0x3823],
    [0xc9cc, 0xd9ed, 0xe98e, 0xf9af, 0x8948, 0x9969, 0xa90a, 0xb92b],
    [0x5af5, 0x4ad4, 0x7ab7, 0x6a96, 0x1a71, 0x0a50, 0x3a33, 0x2a12],
    [0xdbfd, 0xcbdc, 0xfbbf, 0xeb9e, 0x9b79, 0x8b58, 0xbb3b, 0xab1a],
    [0x6ca6, 0x7c87, 0x4ce4, 0x5cc5, 0x2c22, 0x3c03, 0x0c60, 0x1c41],
    [0xedae, 0xfd8f, 0xcdec, 0xddcd, 0xad2a, 0xbd0b, 0x8d68, 0x9d49],
    [0x7e97, 0x6eb6, 0x5ed5, 0x4ef4, 0x3e13, 0x2e32, 0x1e51, 0x0e70],
    [0xff9f, 0xefbe, 0xdfdd, 0xcffc, 0xbf1b, 0xaf3a, 0x9f59, 0x8f78],
    [0x9188, 0x81a9, 0xb1ca, 0xa1eb, 0xd10c, 0xc12d, 0xf14e, 0xe16f],
    [0x1080, 0x00a1, 0x30c2, 0x20e3, 0x5004, 0x4025, 0x7046, 0x6067],
    [0x83b9, 0x9398, 0xa3fb, 0xb3da, 0xc33d, 0xd31c, 0xe37f, 0xf35e],
    [0x02b1, 0x1290, 0x22f3, 0x32d2, 0x4235, 0x5214, 0x6277, 0x7256],
    [0xb5ea, 0xa5cb, 0x95a8, 0x8589, 0xf56e, 0xe54f, 0xd52c, 0xc50d],
    [0x34e2, 0x24c3, 0x14a0, 0x0481, 0x7466, 0x6447, 0x5424, 0x4405],
    [0xa7db, 0xb7fa, 0x8799, 0x97b8, 0xe75f, 0xf77e, 0xc71d, 0xd73c],
    [0x26d3, 0x36f2, 0x0691, 0x16b0, 0x6657, 0x7676, 0x4615, 0x5634],
    [0xd94c, 0xc96d, 0xf90e, 0xe92f, 0x99c8, 0x89e9, 0xb98a, 0xa9ab],
    [0x5844, 0x4865, 0x7806, 0x6827, 0x18c0, 0x08e1, 0x3882, 0x28a3],
    [0xcb7d, 0xdb5c, 0xeb3f, 0xfb1e, 0x8bf9, 0x9bd8, 0xabbb, 0xbb9a],
    [0x4a75, 0x5a54, 0x6a37, 0x7a16, 0x0af1, 0x1ad0, 0x2ab3, 0x3a92],
    [0xfd2e, 0xed0f, 0xdd6c, 0xcd4d, 0xbdaa, 0xad8b, 0x9de8, 0x8dc9],
    [0x7c26, 0x6c07, 0x5c64, 0x4c45, 0x3ca2, 0x2c83, 0x1ce0, 0x0cc1],
    [0xef1f, 0xff3e, 0xcf5d, 0xdf7c, 0xaf9b, 0xbfba, 0x8fd9, 0x9ff8],
    [0x6e17, 0x7e36, 0x4e55, 0x5e74, 0x2e93, 0x3eb2, 0x0ed1, 0x1ef0]
  ]

  function Table(i: Byte): Word {
    TABLE[(i >> 3 as Byte) as int][(i & 7) as int]
  }

  function EightClocks(r: Word): Word {
    var r4 := EmptyClock(EmptyClock(EmptyClock(EmptyClock(r))));
    EmptyClock(EmptyClock(EmptyClock(EmptyClock(r4))))
  }

  lemma TableRows0(i: Byte)
    requires i & 0xe0 == 0x00
    ensures Table(i) == EightClocks((i as Word) << 8 as Word)
  {
    match i
    case 0x00 => case 0x01 => case 0x02 => case 0x03 => case 0x04 => case 0x05 => case 0x06 => case 0x07 =>
    case 0x08 => case 0x09 => case 0x0a => case 0x0b => case 0x0c => case 0x0d => case 0x0e => case 0x0f =>
    case 0x10 => case 0x11 => case 0x12 => case 0x13 => case 0x14 => case 0x15 => case 0x16 => case 0x17 =>
    case 0x18 => case 0x19 => case 0x1a => case 0x1b => case 0x1c => case 0x1d => case 0x1e => case 0x1f =>
    case _ => assert false;
  }

  lemma TableRows1(i: Byte)
    requires i & 0xe0 == 0x20
    ensures Table(i) == EightClocks((i as Word) << 8 as Word)
  {
    match i
    case 0x20 => case 0x21 => case 0x22 => case 0x23 => case 0x24 => case 0x25 => case 0x26 => case 0x27 =>
    case 0x28 => case 0x29 => case 0x2a => case 0x2b => case 0x2c => case 0x2d => case 0x2e => case 0x2f =>
    case 0x30 => case 0x31 => case 0x32 => case 0x33 => case 0x34 => case 0x35 => case 0x36 => case 0x37 =>
    case 0x38 => case 0x39 => case 0x3a => case 0x3b => case 0x3c => case 0x3d => case 0x3e => case 0x3f =>
    case _ => assert false;
  }

  lemma TableRows2(i: Byte)
    requires i & 0xe0 == 0x40
    ensures Table(i) == EightClocks((i as Word) << 8 as Word)
  {
    match i
    case 0x40 => case 0x41 => case 0x42 => case 0x43 => case 0x44 => case 0x45 => case 0x46 => case 0x47 =>
    case 0x48 => case 0x49 => case 0x4a => case 0x4b => case 0x4c => case 0x4d => case 0x4e => case 0x4f =>
    case 0x50 => case 0x51 => case 0x52 => case 0x53 => case 0x54 => case 0x55 => case 0x56 => case 0x57 =>
    case 0x58 => case 0x59 => case 0x5a => case 0x5b => case 0x5c => case 0x5d => case 0x5e => case 0x5f =>
    case _ => assert false;
  }

  lemma TableRows3(i: Byte)
    requires i & 0xe0 == 0x60
    ensures Table(i) == EightClocks((i as Word) << 8 as Word)
  {
    match i
    case 0x60 => case 0x61 => case 0x62 => case 0x63 => case 0x64 => case 0x65 => case 0x66 => case 0x67 =>
    case 0x68 => case 0x69 => case 0x6a => case 0x6b => case 0x6c => case 0x6d => case 0x6e => case 0x6f =>
    case 0x70 => case 0x71 => case 0x72 => case 0x73 => case 0x74 => case 0x75 => case 0x76 => case 0x77 =>
    case 0x78 => case 0x79 => case 0x7a => case 0x7b => case 0x7c => case 0x7d => case 0x7e => case 0x7f =>
    case _ => assert false;
  }

  lemma TableRows4(i: Byte)
    requires i & 0xe0 == 0x80
    ensures Table(i) == EightClocks((i as Word) << 8 as Word)
  {
    match i
    case 0x80 => case 0x81 => case 0x82 => case 0x83 => case 0x84 => case 0x85 => case 0x86 => case 0x87 =>
    case 0x88 => case 0x89 => case 0x8a => case 0x8b => case 0x8c => case 0x8d => case 0x8e => case 0x8f =>
    case 0x90 => case 0x91 => case 0x92 => case 0x93 => case 0x94 => case 0x95 => case 0x96 => case 0x97 =>
    case 0x98 => case 0x99 => case 0x9a => case 0x9b => case 0x9c => case 0x9d => case 0x9e => case 0x9f =>
    case _ => assert false;
  }

  lemma TableRows5(i: Byte)
    requires i & 0xe0 == 0xa0
    ensures Table(i) == EightClocks((i as Word) << 8 as Word)
  {
    match i
    case 0xa0 => case 0xa1 => case 0xa2 => case 0xa3 => case 0xa4 => case 0xa5 => case 0xa6 => case 0xa7 =>
    case 0xa8 => case 0xa9 => case 0xaa => case 0xab => case 0xac => case 0xad => case 0xae => case 0xaf =>
    case 0xb0 => case 0xb1 => case 0xb2 => case 0xb3 => case 0xb4 => case 0xb5 => case 0xb6 => case 0xb7 =>
    case 0xb8 => case 0xb9 => case 0xba => case 0xbb => case 0xbc => case 0xbd => case 0xbe => case 0xbf =>
    case _ => assert false;
  }

  lemma TableRows6(i: Byte)
    requires i & 0xe0 == 0xc0
    ensures Table(i) == EightClocks((i as Word) << 8 as Word)
  {
    match i
    case 0xc0 => case 0xc1 => case 0xc2 => case 0xc3 => case 0xc4 => case 0xc5 => case 0xc6 => case 0xc7 =>
    case 0xc8 => case 0xc9 => case 0xca => case 0xcb => case 0xcc => case 0xcd => case 0xce => case 0xcf =>
    case 0xd0 => case 0xd1 => case 0xd2 => case 0xd3 => case 0xd4 => case 0xd5 => case 0xd6 => case 0xd7 =>
    case 0xd8 => case 0xd9 => case 0xda => case 0xdb => case 0xdc => case 0xdd => case 0xde => case 0xdf =>
    case _ => assert false;
  }

  lemma TableRows7(i: Byte)
    requires i & 0xe0 == 0xe0
    ensures Table(i) == EightClocks((i as Word) << 8 as Word)
  {
    match i
    case 0xe0 => case 0xe1 => case 0xe2 => case 0xe3 => case 0xe4 => case 0xe5 => case 0xe6 => case 0xe7 =>
    case 0xe8 => case 0xe9 => case 0xea => case 0xeb => case 0xec => case 0xed => case 0xee => case 0xef =>
    case 0xf0 => case 0xf1 => case 0xf2 => case 0xf3 => case 0xf4 => case 0xf5 => case 0xf6 => case 0xf7 =>
    case 0xf8 => case 0xf9 => case 0xfa => case 0xfb => case 0xfc => case 0xfd => case 0xfe => case 0xff =>
    case _ => assert false;
  }

  lemma TableIsEightClocks(i: Byte)
    ensures Table(i) == EightClocks((i as Word) << 8 as Word)
  {
    var top := i & 0xe0;
    if top == 0x00 { TableRows0(i); }
    else if top == 0x20 { TableRows1(i); }
    else if top == 0x40 { TableRows2(i); }
    else if top == 0x60 { TableRows3(i); }
    else if top == 0x80 { TableRows4(i); }
    else if top == 0xa0 { TableRows5(i); }
    else if top == 0xc0 { TableRows6(i); }
    else { assert top == 0xe0; TableRows7(i); }
  }

  lemma EightClocksAreClocks(w: Word)
    ensures EightClocks(w) == ClockWords(w, CrcAlgebra.Zeros(8))
  {
    var w1 := EmptyClock(w);
    var w2 := EmptyClock(w1);
    var w3 := EmptyClock(w2);
    var w4 := EmptyClock(w3);
    var w5 := EmptyClock(w4);
    var w6 := EmptyClock(w5);
    var w7 := EmptyClock(w6);
    OneEmptyClock(w, 7);
    OneEmptyClock(w1, 6);
    OneEmptyClock(w2, 5);
    OneEmptyClock(w3, 4);
    OneEmptyClock(w4, 3);
    OneEmptyClock(w5, 2);
    OneEmptyClock(w6, 1);
    OneEmptyClock(w7, 0);
  }

  lemma TableIsByteRemainder(i: Byte)
    ensures Table(i) == ByteRemainder(i)
  {
    TableIsEightClocks(i);
    EightClocksAreClocks((i as Word) << 8 as Word);
  }

  lemma TurnOfLoop(r: Word, b: Byte, next: Word)
    requires next == Table(((r >> 8 as Word) as Byte) ^ b) ^ (r << 8 as Word)
    ensures next == Crc(r, [b])
  {
    TableIsByteRemainder(((r >> 8 as Word) as Byte) ^ b);
    CrcOfByte(r, b);
  }

  /** The loop over the table returns what clocking every bit through the register leaves. */
  method Crc16Ccitt(crcStart: Word, buf: array?<Byte>, start: nat, len: nat) returns (cksum: Word)
    requires buf != null ==> start + len <= buf.Length
    ensures cksum == if buf == null then 0 else Ccitt(crcStart, buf[start..start + len])
  {
    if buf == null || len == 0 {
      return 0;
    }
    cksum := crcStart;
    for i := 0 to len
      invariant cksum == Crc(crcStart, buf[start..start + i])
    {
      var b := buf[start + i];
      CrcConcat(crcStart, buf[start..start + i], [b]);
      assert buf[start..start + i + 1] == buf[start..start + i] + [b];
      cksum := OneTurn(cksum, b);
    }
  }

  method OneTurn(r: Word, b: Byte) returns (next: Word)
    ensures next == Crc(r, [b])
  {
    next := Table(((r >> 8 as Word) as Byte) ^ b) ^ (r << 8 as Word);
    TurnOfLoop(r, b, next);
  }
}
