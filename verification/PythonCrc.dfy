/** The checksum class of the packing tool. Its table entries are Python integers that are never cut
    to 16 bits; 32-bit words hold them exactly (`Initial` proves that they stay below 2^20). */
module PythonCrc {
  import opened Bytes
  import opened Crc16
  import CrcAlgebra

  type Wide = bv32

  function Low16(x: Wide): Word {
    (x & 0xffff) as Word
  }

  function Shifted(crc: Wide, c: Wide): Wide {
    if (crc ^ c) & 0x8000 != 0 then (crc << 1 as Wide) ^ 0x1021 else crc << 1 as Wide
  }

  function Turns(crc: Wide, c: Wide, n: nat): Wide
    decreases n
  {
    if n == 0 then crc else Turns(Shifted(crc, c), c << 1 as Wide, n - 1)
  }

  function Doubled(c: Wide, n: nat): Wide
    decreases n
  {
    if n == 0 then c else Doubled(c << 1 as Wide, n - 1)
  }

  lemma TurnWithFeedback(crc: Wide, c: Wide)
    requires (crc ^ c) & 0x8000 != 0
    ensures Low16(Shifted(crc, c) ^ (c << 1 as Wide)) == EmptyClock(Low16(crc ^ c))
  {
  }

  lemma TurnWithoutFeedback(crc: Wide, c: Wide)
    requires (crc ^ c) & 0x8000 == 0
    ensures Low16(Shifted(crc, c) ^ (c << 1 as Wide)) == EmptyClock(Low16(crc ^ c))
  {
  }

  lemma TurnIsClock(crc: Wide, c: Wide)
    ensures Low16(Shifted(crc, c) ^ (c << 1 as Wide)) == EmptyClock(Low16(crc ^ c))
  {
    if (crc ^ c) & 0x8000 != 0 {
      TurnWithFeedback(crc, c);
    } else {
      TurnWithoutFeedback(crc, c);
    }
  }

  lemma OneTurn(crc: Wide, c: Wide, n: nat)
    ensures Turns(crc, c, n + 1) == Turns(Shifted(crc, c), c << 1 as Wide, n)
    ensures Doubled(c, n + 1) == Doubled(c << 1 as Wide, n)
  {
  }

  /** The low half of `crc ^ c` is the division register. */
  lemma {:induction false} TurnsAreClocks(crc: Wide, c: Wide, n: nat)
    ensures Low16(Turns(crc, c, n) ^ Doubled(c, n)) == ClockWords(Low16(crc ^ c), CrcAlgebra.Zeros(n))
    decreases n
  {
    hide Low16, Shifted, Turns, Doubled, EmptyClock, ClockWords;
    if n == 0 {
      NoTurns(crc, c);
      return;
    }
    OneTurn(crc, c, n - 1);
    OneEmptyClock(Low16(crc ^ c), n - 1);
    TurnIsClock(crc, c);
    TurnsAreClocks(Shifted(crc, c), c << 1 as Wide, n - 1);
  }

  lemma NoTurns(crc: Wide, c: Wide)
    ensures Turns(crc, c, 0) == crc && Doubled(c, 0) == c
    ensures ClockWords(Low16(crc ^ c), CrcAlgebra.Zeros(0)) == Low16(crc ^ c)
  {
  }

  lemma TwiceDoubled(c: Wide, n: nat)
    ensures Doubled(c, n + 2) == Doubled(c << 2 as Wide, n)
  {
    OneTurn(0, c, n + 1);
    OneTurn(0, c << 1 as Wide, n);
    assert (c << 1 as Wide) << 1 as Wide == c << 2 as Wide;
  }

  lemma EightDoubled(c: Wide)
    ensures Doubled(c, 8) == c << 8 as Wide
  {
    TwiceDoubled(c, 6);
    TwiceDoubled(c << 2 as Wide, 4);
    TwiceDoubled(c << 4 as Wide, 2);
    TwiceDoubled(c << 6 as Wide, 0);
    assert (c << 2 as Wide) << 2 as Wide == c << 4 as Wide;
    assert (c << 4 as Wide) << 2 as Wide == c << 6 as Wide;
    assert (c << 6 as Wide) << 2 as Wide == c << 8 as Wide;
  }

  lemma LowUnaffected(x: Wide, i: Byte)
    ensures Low16(x ^ (((i as Wide) << 8 as Wide) << 8 as Wide)) == Low16(x)
    ensures Low16(0 ^ ((i as Wide) << 8 as Wide)) == (i as Word) << 8 as Word
  {
  }

  /** A table entry agrees in its low 16 bits with eight clocks of the register. */
  lemma EntryIsClocks(i: Byte)
    ensures Low16(Turns(0, (i as Wide) << 8 as Wide, 8)) == ByteRemainder(i)
  {
    var c := (i as Wide) << 8 as Wide;
    TurnsAreClocks(0, c, 8);
    EightDoubled(c);
    LowUnaffected(Turns(0, c, 8), i);
  }

  lemma MaskDistributes(x: Wide, p: Wide, q: Wide)
    requires x & q == 0 && p & q == 0
    ensures (x ^ p) & q == 0
  {
  }

  lemma MaskShifts(crc: Wide, m: Wide)
    requires crc & m == 0
    ensures (crc << 1 as Wide) & (m << 1 as Wide) == 0
  {
  }

  lemma FeedbackStaysNarrow(crc: Wide, m: Wide)
    requires crc & m == 0 && 0x1021 & (m << 1 as Wide) == 0
    ensures ((crc << 1 as Wide) ^ 0x1021) & (m << 1 as Wide) == 0
  {
    MaskShifts(crc, m);
    MaskDistributes(crc << 1 as Wide, 0x1021, m << 1 as Wide);
  }

  lemma NarrowWithFeedback(crc: Wide, c: Wide, m: Wide)
    requires (crc ^ c) & 0x8000 != 0
    requires crc & m == 0 && 0x1021 & (m << 1 as Wide) == 0
    ensures Shifted(crc, c) & (m << 1 as Wide) == 0
  {
    FeedbackStaysNarrow(crc, m);
  }

  lemma NarrowWithoutFeedback(crc: Wide, c: Wide, m: Wide)
    requires (crc ^ c) & 0x8000 == 0
    requires crc & m == 0
    ensures Shifted(crc, c) & (m << 1 as Wide) == 0
  {
    hide Shifted;
    ShiftedPlainly(crc, c);
    MaskShifts(crc, m);
  }

  lemma ShiftedPlainly(crc: Wide, c: Wide)
    requires (crc ^ c) & 0x8000 == 0
    ensures Shifted(crc, c) == crc << 1 as Wide
  {
  }

  lemma StaysNarrow(crc: Wide, c: Wide, m: Wide)
    requires crc & m == 0 && 0x1021 & (m << 1 as Wide) == 0
    ensures Shifted(crc, c) & (m << 1 as Wide) == 0
  {
    if (crc ^ c) & 0x8000 != 0 {
      NarrowWithFeedback(crc, c, m);
    } else {
      NarrowWithoutFeedback(crc, c, m);
    }
  }

  lemma MaskMoves(m: Wide)
    requires m & 0x1fff == 0 || m == 0xfffff000
    ensures 0x1021 & (m << 1 as Wide) == 0
    ensures (m << 1 as Wide) & 0x1fff == 0
  {
  }

  lemma {:induction false} TurnsStayNarrow(crc: Wide, c: Wide, m: Wide, n: nat)
    requires crc & m == 0
    requires m & 0x1fff == 0 || m == 0xfffff000
    ensures Turns(crc, c, n) & Doubled(m, n) == 0
    decreases n
  {
    if n == 0 {
      return;
    }
    MaskMoves(m);
    StaysNarrow(crc, c, m);
    OneTurn(crc, c, n - 1);
    OneTurn(0, m, n - 1);
    TurnsStayNarrow(Shifted(crc, c), c << 1 as Wide, m << 1 as Wide, n - 1);
  }

  lemma UpdateLow(crc: Wide, entry: Wide)
    ensures Low16(((crc << 8 as Wide) ^ entry) & 0xffff) == Low16(entry) ^ (Low16(crc) << 8 as Word)
    ensures (((crc << 8 as Wide) ^ entry) & 0xffff) & 0xffff0000 == 0
  {
  }

  lemma UpdateIndex(crc: Wide, b: Byte)
    requires crc & 0xffff0000 == 0
    ensures (((crc >> 8 as Wide) ^ (b as Wide)) & 0xff) as Byte == ((Low16(crc) >> 8 as Word) as Byte) ^ b
  {
  }

  lemma StepFromEntry(crc: Word, b: Byte, i: Byte, entry: Word, next: Word)
    requires i == ((crc >> 8 as Word) as Byte) ^ b && entry == ByteRemainder(i)
    requires next == entry ^ (crc << 8 as Word)
    ensures next == Crc(crc, [b])
  {
    CrcOfByte(crc, b);
  }

  lemma UpdateIsStep(crc: Wide, b: Byte, i: Byte, entry: Wide, next: Wide)
    requires crc & 0xffff0000 == 0
    requires i == (((crc >> 8 as Wide) ^ (b as Wide)) & 0xff) as Byte
    requires Low16(entry) == ByteRemainder(i)
    requires next == ((crc << 8 as Wide) ^ entry) & 0xffff
    ensures Low16(next) == Crc(Low16(crc), [b])
    ensures next & 0xffff0000 == 0
  {
    UpdateIndex(crc, b);
    UpdateLow(crc, entry);
    StepFromEntry(Low16(crc), b, i, Low16(entry), Low16(next));
  }

  class Crc16Tool {
    var tab: seq<Wide>

    ghost predicate Valid()
      reads this
    {
      |tab| == 256 && forall k :: 0 <= k < 256 ==> Low16(tab[k]) == ByteRemainder(Low8(k))
    }

    constructor ()
      ensures Valid()
    {
      hide Low16, ByteRemainder, Low8;
      var entries: seq<Wide> := [];
      for i := 0 to 256
        invariant |entries| == i && forall k :: 0 <= k < i ==> Low16(entries[k]) == ByteRemainder(Low8(k))
      {
        var entry := Initial(Low8(i));
        entries := entries + [entry];
      }
      tab := entries;
    }

    /** One table entry; it fits in 20 bits, so no bit is lost by holding it in a 32-bit word. */
    static method Initial(i: Byte) returns (crc: Wide)
      ensures Low16(crc) == ByteRemainder(i)
      ensures crc & 0xfff00000 == 0
    {
      crc := 0;
      var c := (i as Wide) << 8 as Wide;
      ghost var c0 := c;
      for j := 0 to 8
        invariant Turns(crc, c, 8 - j) == Turns(0, c0, 8)
      {
        OneTurn(crc, c, 7 - j);
        crc := Shifted(crc, c);
        c := c << 1 as Wide;
      }
      EntryIsClocks(i);
      TurnsStayNarrow(0, c0, 0xfffff000, 8);
      EightDoubled(0xfffff000);
    }

    method UpdateCrc(crc: Wide, b: Byte) returns (next: Wide)
      requires Valid() && crc & 0xffff0000 == 0
      ensures next & 0xffff0000 == 0 && Low16(next) == Crc(Low16(crc), [b])
    {
      var tmp := (crc >> 8 as Wide) ^ (b as Wide);
      var i := (tmp & 0xff) as Byte;
      Low8OfNat(i);
      NatBound(i);
      var entry := tab[Nat(i)];
      next := ((crc << 8 as Wide) ^ entry) & 0xffff;
      UpdateIsStep(crc, b, i, entry, next);
    }

    /** The Python class and the C routine with seed 0 agree on every octet string. */
    method Crcb(data: seq<Byte>) returns (crc: Wide)
      requires Valid()
      ensures crc & 0xffff0000 == 0
      ensures Low16(crc) == Ccitt(0, data)
    {
      crc := 0;
      for i := 0 to |data|
        invariant crc & 0xffff0000 == 0 && Low16(crc) == Crc(0, data[..i])
      {
        assert data[..i + 1] == data[..i] + [data[i]];
        CrcConcat(0, data[..i], [data[i]]);
        crc := UpdateCrc(crc, data[i]);
      }
      assert data[..|data|] == data;
    }
  }
}
