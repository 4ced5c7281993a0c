/** CRC-16 over octets on 16-bit words, tied bit by bit to the division register of CrcAlgebra. */
module Crc16 {
  import opened Bytes
  import CrcAlgebra

  type Word = bv16
  type Bits = CrcAlgebra.Bits

  const POLYNOMIAL: Word := 0x1021

  /** One clock of the division register on machine words. */
  function ClockWord(r: Word, b: bool): Word {
    if (r & 0x8000 != 0) != b then (r << 1 as Word) ^ POLYNOMIAL else r << 1 as Word
  }

  /** A clock that brings in nothing. */
  function EmptyClock(r: Word): Word {
    if r & 0x8000 != 0 then (r << 1 as Word) ^ POLYNOMIAL else r << 1 as Word
  }

  function ClockWords(r: Word, bits: Bits): Word
    decreases |bits|
  {
    if bits == [] then r else ClockWords(ClockWord(r, bits[0]), bits[1..])
  }

  // Words and octets as bit strings -------------------------------------------------------------

  /** Bit `k` of a word counted from the most significant. */
  predicate Bit(w: Word, k: nat)
    decreases k
  {
    if k == 0 then w & 0x8000 != 0 else Bit(w << 1 as Word, k - 1)
  }

  function BitsOfWord(w: Word): (bits: Bits)
    ensures |bits| == 16
  {
    seq(16, k requires 0 <= k < 16 => Bit(w, k))
  }

  function BitsOfByte(b: Byte): (bits: Bits)
    ensures |bits| == 8
  {
    BitsOfWord((b as Word) << 8 as Word)[..8]
  }

  /** The bits of a message in the order they enter the register: octet by octet, most significant first. */
  function BitsOf(s: seq<Byte>): (bits: Bits)
    ensures |bits| == 8 * |s|
  {
    if s == [] then [] else BitsOfByte(s[0]) + BitsOf(s[1..])
  }

  lemma {:induction false} BitsOfConcat(s: seq<Byte>, t: seq<Byte>)
    ensures BitsOf(s + t) == BitsOf(s) + BitsOf(t)
    decreases |s|
  {
    if s == [] {
      assert s + t == t;
    } else {
      assert (s + t)[1..] == s[1..] + t;
      BitsOfConcat(s[1..], t);
    }
  }

  lemma XorShifted(v: Word, w: Word)
    ensures (v ^ w) << 1 as Word == (v << 1 as Word) ^ (w << 1 as Word)
  {
  }

  lemma XorTop(v: Word, w: Word)
    ensures ((v ^ w) & 0x8000 != 0) == ((v & 0x8000 != 0) != (w & 0x8000 != 0))
  {
  }

  lemma BitStep(w: Word, k: nat)
    requires k > 0
    ensures Bit(w, k) == Bit(w << 1 as Word, k - 1)
  {
  }

  lemma BitXorTop(v: Word, w: Word)
    ensures Bit(v ^ w, 0) == (Bit(v, 0) != Bit(w, 0))
  {
    XorTop(v, w);
  }

  lemma XorDown(v: Word, w: Word, k: nat)
    requires k > 0
    ensures Bit(v ^ w, k) == Bit((v << 1 as Word) ^ (w << 1 as Word), k - 1)
  {
    XorShifted(v, w);
    BitStep(v ^ w, k);
  }

  lemma {:induction false} BitXor(v: Word, w: Word, k: nat)
    ensures Bit(v ^ w, k) == (Bit(v, k) != Bit(w, k))
    decreases k
  {
    if k == 0 {
      BitXorTop(v, w);
      return;
    }
    XorDown(v, w, k);
    BitXor(v << 1 as Word, w << 1 as Word, k - 1);
    BitStep(v, k);
    BitStep(w, k);
  }

  lemma BitsOfXor(v: Word, w: Word)
    ensures BitsOfWord(v ^ w) == CrcAlgebra.Xor(BitsOfWord(v), BitsOfWord(w))
  {
    forall k | 0 <= k < 16
      ensures BitsOfWord(v ^ w)[k] == CrcAlgebra.Xor(BitsOfWord(v), BitsOfWord(w))[k]
    {
      BitXor(v, w, k);
    }
  }

  lemma TwoShifts(w: Word, k: nat)
    ensures Bit(w, k + 2) == Bit(w << 2 as Word, k)
  {
    BitStep(w, k + 2);
    BitStep(w << 1 as Word, k + 1);
    assert (w << 1 as Word) << 1 as Word == w << 2 as Word;
  }

  lemma FourShifts(w: Word, k: nat)
    ensures Bit(w, k + 4) == Bit(w << 4 as Word, k)
  {
    TwoShifts(w, k + 2);
    TwoShifts(w << 2 as Word, k);
    assert (w << 2 as Word) << 2 as Word == w << 4 as Word;
  }

  lemma {:induction false} NoBits(k: nat)
    ensures !Bit(0, k)
  {
    if k > 0 {
      assert 0 << 1 as Word == 0 as Word;
      NoBits(k - 1);
    }
  }

  lemma EightShifts(w: Word, k: nat)
    ensures Bit(w, k + 8) == Bit(w << 8 as Word, k)
  {
    FourShifts(w, k + 4);
    FourShifts(w << 4 as Word, k);
    assert (w << 4 as Word) << 4 as Word == w << 8 as Word;
  }

  lemma NoBitsPast16(w: Word, k: nat)
    ensures !Bit(w, k + 16)
  {
    EightShifts(w, k + 8);
    EightShifts(w << 8 as Word, k);
    assert (w << 8 as Word) << 8 as Word == 0 as Word;
    NoBits(k);
  }

  lemma BitsOfShift(w: Word)
    ensures BitsOfWord(w << 1 as Word) == BitsOfWord(w)[1..] + [false]
  {
    var s := w << 1 as Word;
    forall k | 0 <= k < 16
      ensures BitsOfWord(s)[k] == (BitsOfWord(w)[1..] + [false])[k]
    {
      assert Bit(w, k + 1) == Bit(s, k);
      if k == 15 {
        NoBitsPast16(w, 0);
      }
    }
  }

  lemma BitsOfShift8(w: Word)
    ensures BitsOfWord(w << 8 as Word) == BitsOfWord(w)[8..] + CrcAlgebra.Zeros(8)
  {
    forall k | 0 <= k < 16
      ensures BitsOfWord(w << 8 as Word)[k] == (BitsOfWord(w)[8..] + CrcAlgebra.Zeros(8))[k]
    {
      EightShifts(w, k);
      if k >= 8 {
        NoBitsPast16(w, k - 8);
      }
    }
  }

  lemma FirstFourBits(w: Word)
    ensures Bit(w, 0) == (w & 0x8000 != 0) && Bit(w, 1) == (w & 0x4000 != 0)
    ensures Bit(w, 2) == (w & 0x2000 != 0) && Bit(w, 3) == (w & 0x1000 != 0)
  {
    BitStep(w, 1);
    TwoShifts(w, 0);
    TwoShifts(w, 1);
    BitStep(w << 2 as Word, 1);
  }

  lemma PolynomialBit(k: nat)
    requires k < 16
    ensures Bit(POLYNOMIAL, k) == CrcAlgebra.TAPS[k]
  {
    if k < 4 {
      FirstFourBits(0x1021);
    } else if k < 8 {
      FourShifts(0x1021, k - 4);
      FirstFourBits(0x0210);
    } else if k < 12 {
      EightShifts(0x1021, k - 8);
      FirstFourBits(0x2100);
    } else {
      EightShifts(0x1021, k - 8);
      FourShifts(0x2100, k - 12);
      FirstFourBits(0x1000);
    }
  }

  lemma BitsOfPolynomial()
    ensures BitsOfWord(POLYNOMIAL) == CrcAlgebra.TAPS
  {
    forall k | 0 <= k < 16
      ensures Bit(POLYNOMIAL, k) == CrcAlgebra.TAPS[k]
    {
      PolynomialBit(k);
    }
  }

  lemma BitsOfFeedback(s: Word)
    ensures BitsOfWord(s ^ POLYNOMIAL) == CrcAlgebra.Xor(BitsOfWord(s), CrcAlgebra.TAPS)
  {
    BitsOfXor(s, POLYNOMIAL);
    BitsOfPolynomial();
  }

  lemma BitsOfQuietClock(w: Word, b: bool)
    requires (w & 0x8000 != 0) == b
    ensures BitsOfWord(ClockWord(w, b)) == CrcAlgebra.Clock(BitsOfWord(w), b)
  {
    BitsOfShift(w);
    assert BitsOfWord(w)[0] == Bit(w, 0);
  }

  lemma ActiveClockWord(w: Word, b: bool, s: Word)
    requires (w & 0x8000 != 0) != b && s == w << 1 as Word
    ensures ClockWord(w, b) == s ^ POLYNOMIAL
  {
  }

  lemma ActiveClockBits(w: Word, b: bool, s: Bits)
    requires (w & 0x8000 != 0) != b && s == BitsOfWord(w)[1..] + [false]
    ensures CrcAlgebra.Clock(BitsOfWord(w), b) == CrcAlgebra.Xor(s, CrcAlgebra.TAPS)
  {
    assert BitsOfWord(w)[0] == Bit(w, 0);
  }

  lemma BitsOfActiveClock(w: Word, b: bool)
    requires (w & 0x8000 != 0) != b
    ensures BitsOfWord(ClockWord(w, b)) == CrcAlgebra.Clock(BitsOfWord(w), b)
  {
    var s := w << 1 as Word;
    ActiveClockWord(w, b, s);
    BitsOfShift(w);
    ActiveClockBits(w, b, BitsOfWord(s));
    BitsOfFeedback(s);
  }

  lemma BitsOfClock(w: Word, b: bool)
    ensures BitsOfWord(ClockWord(w, b)) == CrcAlgebra.Clock(BitsOfWord(w), b)
  {
    if (w & 0x8000 != 0) == b {
      BitsOfQuietClock(w, b);
    } else {
      BitsOfActiveClock(w, b);
    }
  }

  lemma OneEmptyClock(w: Word, n: nat)
    ensures ClockWords(w, CrcAlgebra.Zeros(n + 1)) == ClockWords(EmptyClock(w), CrcAlgebra.Zeros(n))
  {
    assert CrcAlgebra.Zeros(n + 1)[1..] == CrcAlgebra.Zeros(n);
  }

  lemma {:induction false} BitsOfClocks(w: Word, bits: Bits)
    ensures BitsOfWord(ClockWords(w, bits)) == CrcAlgebra.ClockAll(BitsOfWord(w), bits)
    decreases |bits|
  {
    if bits == [] {
      return;
    }
    BitsOfClock(w, bits[0]);
    BitsOfClocks(ClockWord(w, bits[0]), bits[1..]);
  }

  lemma MaskShifted(w: Word, m: Word)
    requires w & m == 0
    ensures (w << 1 as Word) & (m << 1 as Word) == 0
  {
  }

  lemma MaskTop(w: Word, m: Word)
    requires w & m == 0 && m & 0x8000 != 0
    ensures w & 0x8000 == 0
  {
  }

  /** A word has no bit inside a mask it is disjoint from. */
  lemma {:induction false} MaskedBit(w: Word, m: Word, k: nat)
    requires w & m == 0 && Bit(m, k)
    ensures !Bit(w, k)
    decreases k
  {
    if k == 0 {
      MaskTop(w, m);
    } else {
      MaskShifted(w, m);
      BitStep(m, k);
      BitStep(w, k);
      MaskedBit(w << 1 as Word, m << 1 as Word, k - 1);
    }
  }

  lemma HighMaskBit(k: nat)
    requires k < 8
    ensures Bit(0xff00, k)
  {
    if k < 4 {
      FirstFourBits(0xff00);
    } else {
      FourShifts(0xff00, k - 4);
      FirstFourBits(0xf000);
    }
  }

  lemma SplitWord(w: Word)
    ensures w == (w & 0xff00) ^ (w & 0x00ff)
    ensures (w & 0x00ff) & 0xff00 == 0
  {
  }

  lemma BitsOfTopHalf(w: Word)
    ensures BitsOfWord(w & 0xff00)[..8] == BitsOfWord(w)[..8]
  {
    SplitWord(w);
    BitsOfXor(w & 0xff00, w & 0x00ff);
    var low := w & 0x00ff;
    forall k | 0 <= k < 8
      ensures !BitsOfWord(low)[k]
    {
      HighMaskBit(k);
      MaskedBit(low, 0xff00, k);
    }
  }

  lemma TopByteXor(w: Word, b: Byte)
    ensures (((((w >> 8 as Word) as Byte) ^ b) as Word) << 8 as Word) == (w & 0xff00) ^ ((b as Word) << 8 as Word)
  {
  }

  /** The table index of the C routine holds the sum of the register's top half and the octet. */
  lemma BitsOfIndex(w: Word, b: Byte)
    ensures BitsOfByte(((w >> 8 as Word) as Byte) ^ b) == CrcAlgebra.Xor(BitsOfWord(w)[..8], BitsOfByte(b))
  {
    TopByteXor(w, b);
    BitsOfXor(w & 0xff00, (b as Word) << 8 as Word);
    BitsOfTopHalf(w);
    var x, y := BitsOfWord(w & 0xff00), BitsOfWord((b as Word) << 8 as Word);
    assert CrcAlgebra.Xor(x, y)[..8] == CrcAlgebra.Xor(x[..8], y[..8]);
  }

  lemma BitsOfHighByte(b: Byte)
    ensures BitsOfWord((b as Word) << 8 as Word) == BitsOfByte(b) + CrcAlgebra.Zeros(8)
  {
    var w := (b as Word) << 8 as Word;
    forall k | 8 <= k < 16
      ensures !BitsOfWord(w)[k]
    {
      EightShifts(w, k - 8);
      assert w << 8 as Word == 0;
      NoBits(k - 8);
    }
  }

  // Whole messages --------------------------------------------------------------------------------

  /** The checksum of a message continued from a seed: clock in every bit. */
  function Crc(seed: Word, s: seq<Byte>): Word {
    ClockWords(seed, BitsOf(s))
  }

  lemma CrcIsRegister(seed: Word, s: seq<Byte>)
    ensures BitsOfWord(Crc(seed, s)) == CrcAlgebra.ClockAll(BitsOfWord(seed), BitsOf(s))
  {
    BitsOfClocks(seed, BitsOf(s));
  }

  lemma CrcConcat(seed: Word, s: seq<Byte>, t: seq<Byte>)
    ensures Crc(seed, s + t) == Crc(Crc(seed, s), t)
  {
    BitsOfConcat(s, t);
    CrcIsRegister(seed, s + t);
    CrcIsRegister(seed, s);
    CrcIsRegister(Crc(seed, s), t);
    CrcAlgebra.ClockAllConcat(BitsOfWord(seed), BitsOf(s), BitsOf(t));
    SameBitsSameWord(Crc(seed, s + t), Crc(Crc(seed, s), t));
  }

  /** What eight clocks make of an octet in the top half of an otherwise empty register. */
  function ByteRemainder(i: Byte): Word {
    ClockWords((i as Word) << 8 as Word, CrcAlgebra.Zeros(8))
  }

  lemma BitsOfByteRemainder(i: Byte)
    ensures BitsOfWord(ByteRemainder(i)) ==
      CrcAlgebra.ClockAll(BitsOfByte(i) + CrcAlgebra.Zeros(8), CrcAlgebra.Zeros(8))
  {
    BitsOfClocks((i as Word) << 8 as Word, CrcAlgebra.Zeros(8));
    BitsOfHighByte(i);
  }

  lemma BitsAfterByte(r: Word, b: Byte, i: Byte, high: Word, low: Word)
    requires BitsOfByte(i) == CrcAlgebra.Xor(BitsOfWord(r)[..8], BitsOfByte(b))
    requires high == ByteRemainder(i) && BitsOfWord(low) == BitsOfWord(r)[8..] + CrcAlgebra.Zeros(8)
    ensures Crc(r, [b]) == high ^ low
  {
    BitsOfXor(high, low);
    BitsOfByteRemainder(i);
    CrcAlgebra.EightBitsAtOnce(BitsOfWord(r), BitsOfByte(b));
    assert BitsOf([b]) == BitsOfByte(b);
    CrcIsRegister(r, [b]);
    SameBitsSameWord(Crc(r, [b]), high ^ low);
  }

  /** One octet at a time: it meets the top half, which is clocked out; the low half moves up. */
  lemma CrcOfByte(r: Word, b: Byte)
    ensures Crc(r, [b]) == ByteRemainder(((r >> 8 as Word) as Byte) ^ b) ^ (r << 8 as Word)
  {
    BitsOfIndex(r, b);
    BitsOfShift8(r);
    var i := ((r >> 8 as Word) as Byte) ^ b;
    BitsAfterByte(r, b, i, ByteRemainder(i), r << 8 as Word);
  }

  /** What `crc16_ccitt` returns: zero without data, whatever the seed. */
  function Ccitt(seed: Word, s: seq<Byte>): Word {
    if s == [] then 0 else Crc(seed, s)
  }

  lemma SeedMatters(seed: Word, s: seq<Byte>)
    ensures Crc(seed, s) == Crc(0, s) <==> seed == 0
  {
    if seed != 0 {
      CrcIsRegister(seed, s);
      CrcIsRegister(0, s);
      if BitsOfWord(seed) == BitsOfWord(0) {
        SameBitsSameWord(seed, 0);
        assert false;
      }
      CrcAlgebra.SeedsStayApart(BitsOfWord(seed), BitsOfWord(0), BitsOf(s));
    }
  }

  /** Exactly when continuing a checksum is checksumming the whole. No octets have the checksum 0 whatever the seed,
      so an empty part breaks the chain, except where nothing but 0 had to be kept. */
  lemma CcittConcat(seed: Word, s: seq<Byte>, t: seq<Byte>)
    ensures Ccitt(seed, []) == 0
    ensures Ccitt(seed, s + t) == Ccitt(Ccitt(seed, s), t) <==>
      (s != [] && t != []) || (s == [] && seed == 0) || (t == [] && Ccitt(seed, s) == 0)
  {
    assert s + [] == s && [] + t == t;
    SeedMatters(seed, t);
    CrcConcat(seed, s, t);
  }

  // Codewords: a message followed by its checksum, high octet first ------------------------------

  function HighByte(w: Word): Byte {
    (w >> 8 as Word) as Byte
  }

  function LowByte(w: Word): Byte {
    (w & 0x00ff) as Byte
  }

  function MakeWord(lo: Byte, hi: Byte): Word {
    (lo as Word) | ((hi as Word) << 8 as Word)
  }

  lemma HalvesMakeWord(w: Word)
    ensures MakeWord(LowByte(w), HighByte(w)) == w
  {
  }

  lemma WordMakesHalves(lo: Byte, hi: Byte)
    ensures LowByte(MakeWord(lo, hi)) == lo && HighByte(MakeWord(lo, hi)) == hi
  {
  }

  ghost predicate IsCodeword(s: seq<Byte>) {
    |s| >= 2 && MakeWord(s[|s| - 1], s[|s| - 2]) == Crc(0, s[..|s| - 2])
  }

  lemma HalvesShifted(w: Word)
    ensures (HighByte(w) as Word) << 8 as Word == w & 0xff00
    ensures (LowByte(w) as Word) << 8 as Word == w << 8 as Word
  {
  }

  lemma BitsOfHalves(w: Word)
    ensures BitsOf([HighByte(w), LowByte(w)]) == BitsOfWord(w)
  {
    HalvesShifted(w);
    BitsOfTopHalf(w);
    BitsOfShift8(w);
    BitsOfConcat([HighByte(w)], [LowByte(w)]);
    assert [HighByte(w)] + [LowByte(w)] == [HighByte(w), LowByte(w)];
    assert BitsOf([HighByte(w)]) == BitsOfByte(HighByte(w));
    assert BitsOf([LowByte(w)]) == BitsOfByte(LowByte(w));
    assert BitsOfWord(w) == BitsOfWord(w)[..8] + BitsOfWord(w)[8..];
  }

  lemma ZeroWordBits()
    ensures BitsOfWord(0) == CrcAlgebra.Zeros(16)
  {
    forall k | 0 <= k < 16
      ensures !Bit(0, k)
    {
      NoBits(k);
    }
  }

  lemma CodewordBits(s: seq<Byte>)
    requires IsCodeword(s)
    ensures BitsOf(s) == BitsOf(s[..|s| - 2]) + BitsOfWord(Crc(0, s[..|s| - 2]))
  {
    hide Crc, BitsOf, BitsOfWord;
    var front, hi, lo := s[..|s| - 2], s[|s| - 2], s[|s| - 1];
    WordMakesHalves(lo, hi);
    BitsOfHalves(Crc(0, front));
    assert s == front + [hi, lo];
    BitsOfConcat(front, [hi, lo]);
  }

  lemma CodewordClears(s: seq<Byte>)
    requires IsCodeword(s)
    ensures |s| >= 2 && CrcAlgebra.ClockAll(CrcAlgebra.Zeros(16), BitsOf(s)) == CrcAlgebra.Zeros(16)
  {
    hide Crc, BitsOf, CrcAlgebra.ClockAll, MakeWord;
    var front := s[..|s| - 2];
    var r := BitsOfWord(Crc(0, front));
    CodewordBits(s);
    CrcIsRegister(0, front);
    ZeroWordBits();
    CrcAlgebra.ClockAllConcat(CrcAlgebra.Zeros(16), BitsOf(front), r);
    CrcAlgebra.OwnBitsShift(r, 16);
    assert r[..16] == r;
  }

  function Shifts(w: Word, n: nat): Word
    decreases n
  {
    if n == 0 then w else Shifts(w << 1 as Word, n - 1)
  }

  lemma {:induction false} ShiftsAdd(w: Word, m: nat, n: nat)
    ensures Shifts(w, m + n) == Shifts(Shifts(w, m), n)
    decreases m
  {
    if m > 0 {
      ShiftsAdd(w << 1 as Word, m - 1, n);
    }
  }

  lemma FourShiftsWord(w: Word)
    ensures Shifts(w, 4) == w << 4 as Word
  {
    ShiftsAdd(w, 2, 2);
    assert Shifts(w, 2) == w << 2 as Word;
    assert Shifts(w << 2 as Word, 2) == (w << 2 as Word) << 2 as Word;
  }

  lemma SixteenShiftsClear(w: Word)
    ensures Shifts(w, 16) == 0
  {
    ShiftsAdd(w, 4, 12);
    ShiftsAdd(w << 4 as Word, 4, 8);
    ShiftsAdd(w << 8 as Word, 4, 4);
    FourShiftsWord(w);
    FourShiftsWord(w << 4 as Word);
    assert (w << 4 as Word) << 4 as Word == w << 8 as Word;
    FourShiftsWord(w << 8 as Word);
    FourShiftsWord((w << 8 as Word) << 4 as Word);
    assert ((w << 8 as Word) << 4 as Word) << 4 as Word == 0;
  }

  lemma TopAndRest(w: Word)
    requires w & 0x8000 == 0 && w << 1 as Word == 0
    ensures w == 0
  {
  }

  lemma {:induction false} NoBitsNoWord(w: Word, n: nat)
    requires forall k :: 0 <= k < n ==> !Bit(w, k)
    requires Shifts(w, n) == 0
    ensures w == 0
    decreases n
  {
    if n == 0 {
      return;
    }
    assert !Bit(w, 0);
    var s := w << 1 as Word;
    forall k | 0 <= k < n - 1
      ensures !Bit(s, k)
    {
      BitStep(w, k + 1);
    }
    NoBitsNoWord(s, n - 1);
    TopAndRest(w);
  }

  lemma XorIsZero(v: Word, w: Word)
    requires v ^ w == 0
    ensures v == w
  {
  }

  lemma SameBitsSameWord(v: Word, w: Word)
    requires BitsOfWord(v) == BitsOfWord(w)
    ensures v == w
  {
    var d := v ^ w;
    forall k | 0 <= k < 16
      ensures !Bit(d, k)
    {
      assert BitsOfWord(v)[k] == BitsOfWord(w)[k];
      BitXor(v, w, k);
    }
    SixteenShiftsClear(d);
    NoBitsNoWord(d, 16);
    XorIsZero(v, w);
  }

  lemma HighBytesDiffer(a: Byte, b: Byte)
    requires (a as Word) << 8 as Word == (b as Word) << 8 as Word
    ensures a == b
  {
  }

  lemma SameBitsSameByte(a: Byte, b: Byte)
    requires BitsOfByte(a) == BitsOfByte(b)
    ensures a == b
  {
    BitsOfHighByte(a);
    BitsOfHighByte(b);
    SameBitsSameWord((a as Word) << 8 as Word, (b as Word) << 8 as Word);
    HighBytesDiffer(a, b);
  }

  lemma {:induction false} SameBitsSameMessage(s: seq<Byte>, t: seq<Byte>)
    requires BitsOf(s) == BitsOf(t)
    ensures s == t
    decreases |s|
  {
    if s == [] {
      assert t == [];
    } else {
      assert BitsOf(s)[..8] == BitsOfByte(s[0]) && BitsOf(t)[..8] == BitsOfByte(t[0]);
      assert BitsOf(s)[8..] == BitsOf(s[1..]) && BitsOf(t)[8..] == BitsOf(t[1..]);
      SameBitsSameByte(s[0], t[0]);
      SameBitsSameMessage(s[1..], t[1..]);
      assert s == [s[0]] + s[1..] && t == [t[0]] + t[1..];
    }
  }

  /** Two different messages of one length that differ only inside 16 consecutive bits have different checksums. */
  lemma CrcDetectsBurst(seed: Word, s: seq<Byte>, t: seq<Byte>, from: nat, width: nat)
    requires s != t && width <= 16
    requires CrcAlgebra.DifferOnlyInWindow(BitsOf(s), BitsOf(t), from, width)
    ensures Crc(seed, s) != Crc(seed, t)
  {
    CrcIsRegister(seed, s);
    CrcIsRegister(seed, t);
    if BitsOf(s) == BitsOf(t) {
      SameBitsSameMessage(s, t);
      assert false;
    }
    CrcAlgebra.BurstDetected(BitsOfWord(seed), BitsOf(s), BitsOf(t), from, width);
  }

  /** The same for message and checksum together: such a burst never turns a codeword into another. */
  lemma CodewordDetectsBurst(s: seq<Byte>, t: seq<Byte>, from: nat, width: nat)
    requires IsCodeword(s) && s != t && width <= 16
    requires CrcAlgebra.DifferOnlyInWindow(BitsOf(s), BitsOf(t), from, width)
    ensures !IsCodeword(t)
  {
    if IsCodeword(t) {
      CodewordClears(s);
      CodewordClears(t);
      if BitsOf(s) == BitsOf(t) {
        SameBitsSameMessage(s, t);
      }
      CrcAlgebra.BurstDetected(CrcAlgebra.Zeros(16), BitsOf(s), BitsOf(t), from, width);
    }
  }

  /** The C routine returns the remainder of the message times x^16, and nothing else is a remainder. */
  lemma CcittIsTheRemainder(s: seq<Byte>, w: Word)
    ensures CrcAlgebra.IsRemainder(BitsOf(s), BitsOfWord(w)) <==> w == Ccitt(0, s)
  {
    CrcIsRegister(0, s);
    ZeroWordBits();
    CrcAlgebra.RemainderIff(BitsOf(s), BitsOfWord(w));
    if BitsOfWord(w) == BitsOfWord(Ccitt(0, s)) {
      SameBitsSameWord(w, Ccitt(0, s));
    }
  }

  /** A message with two octets behind it leaves no remainder exactly when they are its checksum, high octet
      first. */
  lemma CodewordDivides(s: seq<Byte>)
    ensures IsCodeword(s) <==>
            |s| >= 2 && CrcAlgebra.ClockAll(CrcAlgebra.Zeros(16), BitsOf(s)) == CrcAlgebra.Zeros(16)
  {
    hide CrcAlgebra.ClockAll, BitsOf, Crc, HighByte, LowByte, IsCodeword;
    if |s| >= 2 {
      var n := |s| - 2;
      var t := Completed(s[..n]);
      CompletedIsCodeword(s[..n]);
      CodewordClears(t);
      if s == t {
        return;
      }
      if BitsOf(t) == BitsOf(s) {
        SameBitsSameMessage(t, s);
      }
      assert s[..n] + s[n..] == s && t[..n] == s[..n] && t[..n] + t[n..] == t;
      DifferAtTheEnd(s[..n], t[n..], s[n..]);
      CrcAlgebra.BurstDetected(CrcAlgebra.Zeros(16), BitsOf(t), BitsOf(s), 8 * n, 16);
    }
    if IsCodeword(s) {
      CodewordClears(s);
    }
  }

  /** A message with its checksum behind it. */
  function Completed(front: seq<Byte>): (t: seq<Byte>)
    ensures |t| == |front| + 2 && t[..|front|] == front
  {
    front + [HighByte(Crc(0, front)), LowByte(Crc(0, front))]
  }

  lemma CompletedIsCodeword(front: seq<Byte>)
    ensures IsCodeword(Completed(front))
  {
    HalvesMakeWord(Crc(0, front));
  }

  lemma DifferAtTheEnd(front: seq<Byte>, a: seq<Byte>, b: seq<Byte>)
    requires |a| == |b| == 2
    ensures CrcAlgebra.DifferOnlyInWindow(BitsOf(front + a), BitsOf(front + b), 8 * |front|, 16)
  {
    hide BitsOf;
    BitsOfConcat(front, a);
    BitsOfConcat(front, b);
    WindowAtTheEnd(BitsOf(front), BitsOf(a), BitsOf(b));
  }

  lemma WindowAtTheEnd(front: Bits, a: Bits, b: Bits)
    requires |a| == |b| == 16
    ensures CrcAlgebra.DifferOnlyInWindow(front + a, front + b, |front|, 16)
  {
  }
}
