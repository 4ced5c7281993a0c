/** The file length printed into the header by the sender and read back by the receiver. */
module FileHeader {
  import opened Bytes
  import opened Crc16
  import opened YmodemFrames
  import opened Transfer
  import opened TransferRuns
  import opened Ymodem

  predicate StartsAt(p: seq<Byte>, i: nat, s: seq<Byte>) {
    i + |s| <= |p| && p[i..i + |s|] == s
  }

  lemma DigitOctet(d: nat)
    requires d < 10
    ensures HexValue(0x30 + Low8(d)) == Some(d) && 0x30 + Low8(d) != 0
    ensures 0x30 + Low8(d) != 0x20 && 0x30 + Low8(d) != 0x78 && 0x30 + Low8(d) != 0x58
    ensures 0x30 + Low8(d) == 0x30 ==> d == 0
  {
    Low8Small(d);
    DigitNat(Low8(d), d);
  }

  lemma Low8Small(d: nat)
    requires d < 10
    ensures Low8(d) == [0, 1, 2, 3, 4, 5, 6, 7, 8, 9][d]
  {
    assert Low8(1) == 1 && Low8(2) == 2 && Low8(3) == 3;
    assert Low8(4) == 4 && Low8(5) == 5 && Low8(6) == 6;
    assert Low8(7) == 7 && Low8(8) == 8 && Low8(9) == 9;
  }

  lemma DigitNat(b: Byte, d: nat)
    requires d < 10 && b == [0, 1, 2, 3, 4, 5, 6, 7, 8, 9][d]
    ensures HexValue(0x30 + b) == Some(d) && 0x30 + b != 0 && 0x30 + b != 0x20
    ensures 0x30 + b != 0x78 && 0x30 + b != 0x58 && (0x30 + b == 0x30 ==> d == 0)
  {
    assert Nat(b) == d by {
      Low8Small(d);
      Low8IsMod256(d);
    }
    assert 0x30 + b - 0x30 == b;
  }

  lemma DigitStep(p: seq<Byte>, i: nat, d: nat, value: nat)
    requires i < |p| && d < 10 && p[i] == 0x30 + Low8(d) && value * 10 + d < U32
    ensures Digits(p, i, 10, value) == Digits(p, i + 1, 10, value * 10 + d)
  {
    hide HexValue, Low8;
    DigitOctet(d);
  }

  lemma DecimalParts(p: seq<Byte>, i: nat, m: nat)
    requires m > 0 && StartsAt(p, i, Decimal(m))
    ensures var front := Decimal(m / 10);
      && |Decimal(m)| == |front| + 1 && StartsAt(p, i, front)
      && i + |front| < |p| && p[i + |front|] == 0x30 + Low8(m % 10)
  {
    hide Low8;
    StartParts(p, i, Decimal(m / 10), 0x30 + Low8(m % 10));
  }

  lemma StartParts(p: seq<Byte>, i: nat, front: seq<Byte>, b: Byte)
    requires StartsAt(p, i, front + [b])
    ensures StartsAt(p, i, front) && i + |front| < |p| && p[i + |front|] == b
  {
    var all := front + [b];
    assert p[i..i + |front|] == p[i..i + |all|][..|front|] == front;
    assert p[i + |front|] == p[i..i + |all|][|front|];
  }

  /** The digit loop reads a decimal numeral. */
  lemma {:induction false} DigitsOfDecimal(p: seq<Byte>, i: nat, m: nat)
    requires m < U32 && StartsAt(p, i, Decimal(m))
    ensures Digits(p, i, 10, 0) == Digits(p, i + |Decimal(m)|, 10, m)
    decreases m
  {
    hide HexValue, Low8, Digits;
    if m > 0 {
      DecimalParts(p, i, m);
      DigitsOfDecimal(p, i, m / 10);
      DigitStep(p, i + |Decimal(m / 10)|, m % 10, m / 10);
    }
  }

  lemma {:induction false} NoLeadingZero(n: nat)
    requires n > 0
    ensures Decimal(n) != [] && Decimal(n)[0] != 0x30 && Decimal(n)[0] != 0x20 && Decimal(n)[0] != 0
  {
    hide HexValue, Low8;
    DigitOctet(n % 10);
    if n >= 10 {
      NoLeadingZero(n / 10);
    } else {
      assert Decimal(n / 10) == [];
    }
  }

  lemma {:induction false} SkipNonzero(p: seq<Byte>, i: nat, n: nat, counter: nat)
    requires i + n <= |p| && n <= counter && forall j :: i <= j < i + n ==> p[j] != 0
    ensures SkipName(p, i, counter) == SkipName(p, i + n, counter - n)
    decreases n
  {
    if n > 0 {
      SkipNonzero(p, i + 1, n - 1, counter - 1);
    }
  }

  lemma NameSkipped(p: seq<Byte>)
    requires StartsAt(p, 0, FILE_NAME)
    ensures SkipName(p, 0, 128) == 11
  {
    assert forall j :: 0 <= j < 11 ==> p[j] == p[0..11][j];
    SkipNonzero(p, 0, 10, 128);
  }

  lemma NumeralParsed(p: seq<Byte>, i: nat, m: nat)
    requires m < U32 && StartsAt(p, i, Decimal(m)) && CharAt(p, i + |Decimal(m)|) == 0
    ensures ParseLength(p, i, 128) == Some(m)
  {
    hide HexValue, Low8, Decimal;
    DigitsOfDecimal(p, i, m);
    if m > 0 {
      NoLeadingZero(m);
      assert p[i] == p[i..i + |Decimal(m)|][0];
    } else {
      assert Decimal(0) == [] by {
        EmptyNumeral();
      }
    }
    assert SkipSpaces(p, i, 128) == (i, 128);
  }

  lemma EmptyNumeral()
    ensures Decimal(0) == []
  {
  }

  lemma InfoParts(length: nat)
    requires length < U32
    ensures var info, d := InfoData(length), LengthField(length);
      && info[..11] == FILE_NAME && info[11..11 + |d|] == d
      && forall i :: 11 + |d| <= i < 128 ==> info[i] == 0
  {
    hide LengthField;
    var d := LengthField(length);
    InfoSplit(FILE_NAME, d, Fill(0, 117 - |d|));
  }

  lemma InfoSplit(name: seq<Byte>, d: seq<Byte>, zeros: seq<Byte>)
    ensures var info, n := name + d + zeros, |name| + |d|;
      && info[..|name|] == name && info[|name|..n] == d
      && forall i :: n <= i < |info| ==> info[i] == zeros[i - n]
  {
  }

  /** What the receiver reads from the header of a file: its length, or 0 when the length does not
      fit the sender's signed counter. */
  lemma HeaderRoundTrip(length: nat, packet: seq<Byte>)
    requires length < U32 && 128 <= |packet| && packet[..128] == InfoData(length)
    ensures ParseLength(packet, SkipName(packet, 0, 128), 128) == Some(if length < 0x8000_0000 then length else 0)
  {
    hide ParseLength, SkipName, Decimal, InfoData;
    var shown, d, info := if length < 0x8000_0000 then length else 0, LengthField(length), InfoData(length);
    EmptyNumeral();
    assert d == Decimal(shown);
    InfoParts(length);
    Front(packet, info, 0, 11);
    NameSkipped(packet);
    Front(packet, info, 11, 11 + |d|);
    assert packet[11 + |d|] == packet[..128][11 + |d|] == 0;
    NumeralParsed(packet, 11, shown);
  }

  lemma Front(packet: seq<Byte>, info: seq<Byte>, i: nat, j: nat)
    requires |info| <= |packet| && packet[..|info|] == info && i <= j <= |info|
    ensures packet[i..j] == info[i..j]
  {
    var front := packet[..|info|];
    assert forall k :: i <= k < j ==> front[k] == packet[k];
  }

  // Numbers as texts ------------------------------------------------------------------------------

  predicate IsDigit(b: Byte, radix: nat) {
    0x30 <= b <= 0x39 || (radix == 16 && (0x41 <= b <= 0x46 || 0x61 <= b <= 0x66))
  }

  /** `0` to `9`, and `A` to `F` in either case. */
  function DigitValue(b: Byte): nat {
    if b <= 0x39 then Nat(b - 0x30) else if b <= 0x46 then 10 + Nat(b - 0x41) else 10 + Nat(b - 0x61)
  }

  /** The number that a text stands for, most significant digit first. */
  function Value(text: seq<Byte>, radix: nat): nat
    decreases |text|
  {
    if text == [] then 0 else radix * Value(text[..|text| - 1], radix) + DigitValue(text[|text| - 1])
  }

  predicate IsNumber(text: seq<Byte>, radix: nat) {
    forall i :: 0 <= i < |text| ==> IsDigit(text[i], radix)
  }

  /** The sender's numeral is the decimal text of its number, without leading zeros. */
  lemma {:induction false} NumeralExactly(n: nat)
    ensures Value(Decimal(n), 10) == n && IsNumber(Decimal(n), 10)
    ensures n > 0 ==> Decimal(n) != [] && Decimal(n)[0] != 0x30
    decreases n
  {
    hide Nat, Low8, DigitValue, IsDigit;
    if n > 0 {
      NumeralExactly(n / 10);
      NoLeadingZero(n);
      DigitShown(n % 10);
      assert Decimal(n)[..|Decimal(n)| - 1] == Decimal(n / 10);
    }
  }

  lemma DigitShown(d: nat)
    requires d < 10
    ensures DigitValue(0x30 + Low8(d)) == d && IsDigit(0x30 + Low8(d), 10)
  {
    Low8Small(d);
    var b: Byte := [0, 1, 2, 3, 4, 5, 6, 7, 8, 9][d];
    DigitNat(b, d);
    assert 0x30 + b - 0x30 == b && 0x30 <= 0x30 + b <= 0x39;
    Low8IsMod256(d);
  }

  lemma DigitKnown(b: Byte, radix: nat)
    requires (radix == 10 || radix == 16) && IsDigit(b, radix)
    ensures HexValue(b) == Some(DigitValue(b)) && DigitValue(b) < radix && b != 0 && b != 0x20
  {
    var d: Byte := if b <= 0x39 then b - 0x30 else if b <= 0x46 then b - 0x41 else b - 0x61;
    NatAsInt(d);
    if b <= 0x39 {
      assert d <= 9;
    } else {
      assert d <= 5;
    }
  }

  lemma WrappedStep(v: nat, radix: nat, d: nat)
    ensures ((v % U32) * radix + d) % U32 == (radix * v + d) % U32
  {
    var q, m := v / U32, v % U32;
    assert v == q * U32 + m;
    assert radix * v + d == (m * radix + d) + (q * radix) * U32;
    AddMultiple(m * radix + d, q * radix);
  }

  lemma AddMultiple(a: nat, q: nat)
    ensures (a + q * U32) % U32 == a % U32
  {
  }

  /** The digits that count: among decimal ones those above ten are passed over. */
  function Kept(text: seq<Byte>, radix: nat): seq<Byte>
    decreases |text|
  {
    if text == [] then []
    else
      var n := |text| - 1;
      Kept(text[..n], radix) + if DigitValue(text[n]) <= radix then [text[n]] else []
  }

  /** What the digits of a text come to: nothing where an octet is no hexadecimal digit, else 32 bits of its number. */
  function Reading(text: seq<Byte>, radix: nat): Option<nat> {
    if IsNumber(text, 16) then Some(Value(Kept(text, radix), radix) % 0x1_0000_0000) else None
  }

  lemma OneDigit(p: seq<Byte>, i: nat, radix: nat, value: nat)
    requires i < |p| && IsDigit(p[i], 16)
    ensures Digits(p, i, radix, value) == Digits(p, i + 1, radix,
      if DigitValue(p[i]) <= radix then (value * radix + DigitValue(p[i])) % 0x1_0000_0000 else value)
  {
    hide DigitValue, HexValue;
    DigitKnown(p[i], 16);
  }

  lemma {:induction false} DigitsOfNumber(p: seq<Byte>, i: nat, text: seq<Byte>, radix: nat)
    requires IsNumber(text, 16) && StartsAt(p, i, text)
    ensures Digits(p, i, radix, 0) == Digits(p, i + |text|, radix, Value(Kept(text, radix), radix) % U32)
    decreases |text|
  {
    hide Nat, DigitValue, IsDigit, HexValue, Digits, Kept, Value;
    if text != [] {
      var n := |text| - 1;
      var front, b := text[..n], text[n];
      assert text == front + [b];
      StartParts(p, i, front, b);
      DigitsOfNumber(p, i, front, radix);
      OneDigit(p, i + n, radix, Value(Kept(front, radix), radix) % U32);
      KeptStep(front, b, radix);
    } else {
      NothingKept(radix);
    }
  }

  lemma KeptStep(front: seq<Byte>, b: Byte, radix: nat)
    ensures Value(Kept(front + [b], radix), radix) % U32 ==
      var value := Value(Kept(front, radix), radix) % U32;
      if DigitValue(b) <= radix then (value * radix + DigitValue(b)) % U32 else value
  {
    hide DigitValue, Value;
    var text, kept := front + [b], Kept(front, radix);
    assert text[..|text| - 1] == front;
    if DigitValue(b) <= radix {
      ValueBehind(kept, b, radix);
      WrappedStep(Value(kept, radix), radix, DigitValue(b));
    } else {
      assert Kept(text, radix) == kept;
    }
  }

  lemma ValueBehind(front: seq<Byte>, b: Byte, radix: nat)
    ensures Value(front + [b], radix) == radix * Value(front, radix) + DigitValue(b)
  {
    assert (front + [b])[..|front|] == front;
  }

  lemma NothingKept(radix: nat)
    ensures Value(Kept([], radix), radix) == 0
  {
  }

  lemma NoDigit(b: Byte)
    requires !IsDigit(b, 16)
    ensures HexValue(b) == None
  {
  }

  /** The digit loop reads a text up to its zero octet. */
  lemma {:induction false} DigitsExactly(p: seq<Byte>, i: nat, text: seq<Byte>, radix: nat, k: nat)
    requires TextAt(p, i, text) && k <= |text| && IsNumber(text[..k], 16)
    ensures Digits(p, i, radix, 0) == Reading(text, radix)
    decreases |text| - k
  {
    hide Nat, DigitValue, IsDigit, HexValue, Value, Kept, Digits;
    if k == |text| {
      assert text[..k] == text;
      DigitsOfNumber(p, i, text, radix);
      DigitsEnd(p, i + k, radix, Value(Kept(text, radix), radix) % U32);
    } else if IsDigit(text[k], 16) {
      assert IsNumber(text[..k + 1], 16);
      DigitsExactly(p, i, text, radix, k + 1);
    } else {
      StartsIndex(p, i, text, k);
      assert p[i..i + k] == text[..k] by {
        FrontStarts(p, i, text, k);
      }
      DigitsOfNumber(p, i, text[..k], radix);
      NoDigit(text[k]);
      DigitsStop(p, i + k, radix, Value(Kept(text[..k], radix), radix) % U32);
    }
  }

  lemma FrontStarts(p: seq<Byte>, i: nat, text: seq<Byte>, k: nat)
    requires StartsAt(p, i, text) && k <= |text|
    ensures StartsAt(p, i, text[..k])
  {
    assert p[i..i + k] == p[i..i + |text|][..k];
  }

  lemma DigitsStop(p: seq<Byte>, i: nat, radix: nat, value: nat)
    requires i < |p| && p[i] != 0 && HexValue(p[i]) == None
    ensures Digits(p, i, radix, value) == None
  {
  }

  lemma DigitsEnd(p: seq<Byte>, i: nat, radix: nat, value: nat)
    requires CharAt(p, i) == 0
    ensures Digits(p, i, radix, value) == Some(value)
  {
  }

  /** `text` stands at `i`, up to a zero octet. */
  predicate TextAt(p: seq<Byte>, i: nat, text: seq<Byte>) {
    StartsAt(p, i, text) && CharAt(p, i + |text|) == 0 && 0 !in text
  }

  /** `text` is a number behind `0x` or `0X`. */
  predicate IsHex(text: seq<Byte>) {
    |text| >= 2 && text[0] == 0x30 && (text[1] == 0x78 || text[1] == 0x58)
  }

  lemma {:induction false} BlanksSkipped(p: seq<Byte>, i: nat, blanks: nat, count: nat)
    requires blanks <= count && i + blanks <= |p| && forall j :: i <= j < i + blanks ==> p[j] == 0x20
    requires CharAt(p, i + blanks) != 0x20
    ensures SkipSpaces(p, i, count) == (i + blanks, count - blanks)
    decreases blanks
  {
    if blanks > 0 {
      BlanksSkipped(p, i + 1, blanks - 1, count - 1);
    }
  }

  /** The length that a text behind blanks tells: after 128 blanks it is 0, and so it is for `0x` behind 126 of
      them; otherwise a number behind `0x` is hexadecimal, and any other text decimal. */
  function Told(blanks: nat, text: seq<Byte>): Option<nat> {
    if blanks == 128 || (blanks == 126 && IsHex(text)) then Some(0)
    else if blanks < 126 && IsHex(text) then Reading(text[2..], 16)
    else Reading(text, 10)
  }

  /** What the receiver reads for any text behind any blanks, of which it passes over no more than 128. */
  lemma LengthExactly(p: seq<Byte>, i: nat, blanks: nat, text: seq<Byte>)
    requires blanks <= 128 && i + blanks <= |p| && forall j :: i <= j < i + blanks ==> p[j] == 0x20
    requires TextAt(p, i + blanks, text) && (blanks < 128 && text != [] ==> text[0] != 0x20)
    ensures ParseLength(p, i, 128) == Told(blanks, text)
  {
    hide Reading, Digits, HexValue, SkipSpaces;
    var at := i + blanks;
    if blanks == 128 {
      AllBlank(p, i, 128);
      return;
    }
    TextChars(p, at, text);
    BlanksSkipped(p, i, blanks, 128);
    DigitsExactly(p, at, text, 10, 0);
    if IsHex(text) {
      TextBehind(p, at, text);
      DigitsExactly(p, at + 2, text[2..], 16, 0);
    }
  }

  /** What a packet does that is taken for the file header: with another number than 0 it opens the transfer without
      a length; otherwise up to 128 octets of name and a zero octet are passed over, and the length behind them is
      refused if it is no number or more than 16 MiB. */
  lemma HeaderTaken(r: Receiver, name: seq<Byte>, blanks: nat, text: seq<Byte>)
    requires |name| <= 128 && StartsAt(r.packet, 0, name) && 0 !in name && (|name| < 128 ==> r.packet[|name|] == 0)
    requires blanks <= 128 && forall j :: |name| < j <= |name| + blanks ==> r.packet[j] == 0x20
    requires TextAt(r.packet, |name| + 1 + blanks, text) && (blanks < 128 && text != [] ==> text[0] != 0x20)
    ensures var open := r.(expected := 1, packetLength := 0);
      GetInfo(r) ==
        if r.number != 0 then (open, Succ)
        else match Told(blanks, text)
          case None => (r, Fail)
          case Some(n) =>
            if n > 0x100_0000 then (r.(fileLength := n), LengthError)
            else (open.(fileLength := n, ack := true), Succ)
  {
    hide ParseLength, Told, TextAt;
    var p, n := r.packet, |name|;
    forall j | 0 <= j < n
      ensures p[j] != 0
    {
      StartsIndex(p, 0, name, j);
      assert name[j] in name;
    }
    SkipNonzero(p, 0, n, 128);
    LengthExactly(p, n + 1, blanks, text);
  }

  lemma {:induction false} AllBlank(p: seq<Byte>, i: nat, count: nat)
    requires i + count <= |p| && forall j :: i <= j < i + count ==> p[j] == 0x20
    ensures SkipSpaces(p, i, count) == (i + count, 0)
    decreases count
  {
    if count > 0 {
      AllBlank(p, i + 1, count - 1);
    }
  }

  lemma TextChars(p: seq<Byte>, i: nat, text: seq<Byte>)
    requires TextAt(p, i, text)
    ensures CharAt(p, i) == if text == [] then 0 else text[0]
    ensures |text| >= 1 ==> CharAt(p, i + 1) == if |text| == 1 then 0 else text[1]
  {
    if |text| > 0 {
      StartsIndex(p, i, text, 0);
    }
    if |text| > 1 {
      StartsIndex(p, i, text, 1);
    }
  }

  lemma TextBehind(p: seq<Byte>, i: nat, text: seq<Byte>)
    requires TextAt(p, i, text) && |text| >= 2
    ensures TextAt(p, i + 2, text[2..])
  {
    assert p[i + 2..i + |text|] == p[i..i + |text|][2..];
    assert forall b :: b in text[2..] ==> b in text;
  }

  lemma StartsIndex(p: seq<Byte>, i: nat, text: seq<Byte>, j: nat)
    requires StartsAt(p, i, text) && j < |text|
    ensures p[i + j] == text[j]
  {
    var part := p[i..i + |text|];
    assert part[j] == p[i + j];
  }

  /** What the file header looks like on the line: number 0 and its complement, `upload.bin` and a zero octet, the
      length in decimal digits without leading zeros, or nothing where it does not fit a signed word, zero octets up
      to the end of the data, and a valid checksum. */
  lemma HeaderLayout(length: nat) returns (text: seq<Byte>)
    requires length < 0x1_0000_0000
    ensures var b, shown := InfoFrame(length, 0), if length < 0x8000_0000 then length else 0;
      && |b| == 133 && b[0] == 0x01 && b[1] == 0x00 && b[2] == 0xFF
      && b[3..14] == [0x75, 0x70, 0x6C, 0x6F, 0x61, 0x64, 0x2E, 0x62, 0x69, 0x6E, 0x00]
      && |text| <= 10 && b[14..14 + |text|] == text && IsNumber(text, 10) && Value(text, 10) == shown
      && (text != [] ==> text[0] != 0x30)
      && (forall i :: 14 + |text| <= i < 131 ==> b[i] == 0)
      && IsCodeword(b[3..])
  {
    hide InfoData, Decimal, Value, IsNumber, IsCodeword, CheckBytes;
    text := LengthField(length);
    EmptyNumeral();
    NumeralExactly(if length < 0x8000_0000 then length else 0);
    InfoParts(length);
    var info := InfoData(length);
    FrameLayout(SOH, 0, info);
    var b := InfoFrame(length, 0);
    Behind(b, info, 0, 11);
    Behind(b, info, 11, 11 + |text|);
    assert forall i :: 14 + |text| <= i < 131 ==> b[i] == b[3..3 + |info|][i - 3];
  }

  lemma Behind(b: seq<Byte>, info: seq<Byte>, i: nat, j: nat)
    requires 3 + |info| <= |b| && b[3..3 + |info|] == info && i <= j <= |info|
    ensures b[3 + i..3 + j] == info[i..j]
  {
    var data := b[3..3 + |info|];
    assert forall k :: i <= k < j ==> data[k] == b[3 + k];
  }
}
