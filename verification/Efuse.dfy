/** One-time-programmable fuses: burning configuration files, and the version check that relies on fuses
    never being cleared. */
module Efuse {
  import opened Bytes

  type Fuses = seq<bool>

  /** Every fuse that was blown still is. */
  predicate Grows(f: Fuses, g: Fuses) {
    |f| == |g| && forall i :: 0 <= i < |f| && f[i] ==> g[i]
  }

  // Burning -------------------------------------------------------------------------------------

  /** An octet of the configuration in memory; behind it, memory is zero. */
  function Octet(mem: seq<Byte>, at: nat): Byte {
    if at < |mem| then mem[at] else 0
  }

  function BitMask(k: nat): Byte
    requires k < 8
  {
    if k == 0 then 1 else BitMask(k - 1) << 1
  }

  /** Bit `j` of the value at `at`. */
  predicate KeyBit(mem: seq<Byte>, at: nat, j: nat) {
    Octet(mem, at + j / 8) & BitMask(j % 8) != 0
  }

  /** The driver blows a fuse only if it exists and is still whole; `broken` are those the hardware fails on. */
  predicate Writable(f: Fuses, broken: set<nat>, i: nat) {
    i < |f| && !f[i] && i !in broken
  }

  /** The fuses after bits `j` to `size` of a value, and whether all of them were written. */
  function Burn(f: Fuses, broken: set<nat>, start: nat, size: nat, mem: seq<Byte>, at: nat, j: nat): (Fuses, bool)
    requires j <= size
    decreases size - j
  {
    if j == size then (f, true)
    else if !KeyBit(mem, at, j) then Burn(f, broken, start, size, mem, at, j + 1)
    else if !Writable(f, broken, start + j) then (f, false)
    else Burn(f[start + j := true], broken, start, size, mem, at, j + 1)
  }

  /** `f` or the first `n` bits of the value, moved to `start`. */
  function Ored(f: Fuses, start: nat, n: nat, mem: seq<Byte>, at: nat): (g: Fuses)
    ensures |g| == |f|
    ensures forall i :: 0 <= i < |f| ==> g[i] == (f[i] || (start <= i < start + n && KeyBit(mem, at, i - start)))
  {
    seq(|f|, i requires 0 <= i < |f| => f[i] || (start <= i < start + n && KeyBit(mem, at, i - start)))
  }

  /** The first bit of the value, from `j` on, that cannot be written. */
  function Obstacle(f: Fuses, broken: set<nat>, start: nat, size: nat, mem: seq<Byte>, at: nat, j: nat): (k: nat)
    requires j <= size
    ensures j <= k <= size
    ensures forall i :: j <= i < k && KeyBit(mem, at, i) ==> Writable(f, broken, start + i)
    ensures k < size ==> KeyBit(mem, at, k) && !Writable(f, broken, start + k)
    decreases size - j
  {
    if j == size || (KeyBit(mem, at, j) && !Writable(f, broken, start + j)) then j
    else Obstacle(f, broken, start, size, mem, at, j + 1)
  }

  lemma {:induction false} BurnIsOred(f: Fuses, broken: set<nat>, start: nat, size: nat, mem: seq<Byte>, at: nat,
                                      j: nat)
    requires j <= size
    ensures var k := Obstacle(f, broken, start, size, mem, at, j);
      Burn(Ored(f, start, j, mem, at), broken, start, size, mem, at, j) == (Ored(f, start, k, mem, at), k == size)
    decreases size - j
  {
    hide KeyBit;
    if j < size {
      var g := Ored(f, start, j, mem, at);
      if !KeyBit(mem, at, j) {
        assert Ored(f, start, j + 1, mem, at) == g;
        BurnIsOred(f, broken, start, size, mem, at, j + 1);
      } else if Writable(f, broken, start + j) {
        assert Ored(f, start, j + 1, mem, at) == g[start + j := true];
        BurnIsOred(f, broken, start, size, mem, at, j + 1);
      }
    }
  }

  function WriteBits(f: Fuses, broken: set<nat>, start: nat, size: nat, mem: seq<Byte>, at: nat): (Fuses, bool) {
    Burn(f, broken, start, size, mem, at, 0)
  }

  /** What writing a value does: the fuses are the old ones or the value's bits up to the first obstacle, and it
      reports success exactly when every fuse to be blown exists, is still whole, and does not fail. */
  lemma WriteBitsResult(f: Fuses, broken: set<nat>, start: nat, size: nat, mem: seq<Byte>, at: nat)
    ensures var k := Obstacle(f, broken, start, size, mem, at, 0);
      WriteBits(f, broken, start, size, mem, at) == (Ored(f, start, k, mem, at), k == size)
    ensures WriteBits(f, broken, start, size, mem, at).1 <==> forall i :: 0 <= i < size && KeyBit(mem, at, i) ==>
      start + i < |f| && !f[start + i] && start + i !in broken
  {
    hide KeyBit;
    assert Ored(f, start, 0, mem, at) == f;
    BurnIsOred(f, broken, start, size, mem, at, 0);
  }

  /** A bit that is blown already counts as an obstacle, so the whole value gets into the fuses if and only
      if everything behind the first obstacle, that included, was there before. */
  lemma WriteBitsExactly(f: Fuses, broken: set<nat>, start: nat, size: nat, mem: seq<Byte>, at: nat)
    ensures var k := Obstacle(f, broken, start, size, mem, at, 0);
      WriteBits(f, broken, start, size, mem, at).0 == Ored(f, start, size, mem, at) <==>
      forall i :: k <= i < size && KeyBit(mem, at, i) && start + i < |f| ==> f[start + i]
  {
    hide KeyBit;
    WriteBitsResult(f, broken, start, size, mem, at);
    var k := Obstacle(f, broken, start, size, mem, at, 0);
    var some, all := Ored(f, start, k, mem, at), Ored(f, start, size, mem, at);
    if some == all {
      forall i | k <= i < size && KeyBit(mem, at, i) && start + i < |f|
        ensures f[start + i]
      {
        assert some[start + i] == all[start + i];
      }
    } else {
      var i :| 0 <= i < |f| && some[i] != all[i];
      assert i - start >= k && start + (i - start) == i;
    }
  }

  lemma WriteBitsGrows(f: Fuses, broken: set<nat>, start: nat, size: nat, mem: seq<Byte>, at: nat)
    ensures Grows(f, WriteBits(f, broken, start, size, mem, at).0)
  {
    WriteBitsResult(f, broken, start, size, mem, at);
  }

  /** Blowing a fuse twice is refused, and stops the rest of the value: bits 0 and 1 of the value 3, bit 0
      blown before. */
  lemma SecondBurnStops(rest: Fuses)
    ensures var f := [true, false] + rest;
      WriteBits(f, {}, 0, 2, [0x03], 0) == (f, false)
      && !f[1] && Ored(f, 0, 2, [0x03], 0)[1]
  {
    assert BitMask(0) == 1 && BitMask(1) == 2;
    assert KeyBit([0x03], 0, 0) && KeyBit([0x03], 0, 1);
  }

  // Configuration files -------------------------------------------------------------------------

  function U16(mem: seq<Byte>, at: nat): nat {
    Nat(Octet(mem, at)) + 256 * Nat(Octet(mem, at + 1))
  }

  const HEADER_STRU_SIZE := 33
  const NUMBER := 34
  const MAX_NUMBER := 19

  /** The fuses after `n` items, the first of them at `at`. A failed item does not stop the others. */
  function Walk(f: Fuses, broken: set<nat>, mem: seq<Byte>, at: nat, n: nat): Fuses
    decreases n
  {
    if n == 0 then f
    else
      var g := WriteBits(f, broken, U16(mem, at + 2), U16(mem, at + 4), mem, at + 8).0;
      Walk(g, broken, mem, at + Nat(Octet(mem, at + 1)) + U16(mem, at + 6), n - 1)
  }

  /** `efuse_burn`; `verified` says whether the file's hash is right. */
  function BurnFile(f: Fuses, broken: set<nat>, mem: seq<Byte>, verified: bool): (Fuses, bool) {
    if !verified || U16(mem, NUMBER) > MAX_NUMBER then (f, false)
    else (Walk(f, broken, mem, Nat(Octet(mem, HEADER_STRU_SIZE)), U16(mem, NUMBER)), true)
  }

  /** Bits of a value are taken octet by octet, lowest bit first. */
  lemma KeyBitExactly(mem: seq<Byte>, at: nat, j: nat)
    ensures KeyBit(mem, at, j) <==>
      at + j / 8 < |mem| && mem[at + j / 8] & [0x01, 0x02, 0x04, 0x08, 0x10, 0x20, 0x40, 0x80][j % 8] != 0
  {
    hide BitMask;
    BitMaskValue(j % 8);
    NothingSet(BitMask(j % 8));
  }

  lemma BitMaskValue(k: nat)
    requires k < 8
    ensures BitMask(k) == [0x01, 0x02, 0x04, 0x08, 0x10, 0x20, 0x40, 0x80][k]
  {
    assert BitMask(1) == 0x02;
    assert BitMask(2) == 0x04;
    assert BitMask(3) == 0x08;
    assert BitMask(4) == 0x10;
    assert BitMask(5) == 0x20;
    assert BitMask(6) == 0x40;
    assert BitMask(7) == 0x80;
  }

  lemma NothingSet(mask: Byte)
    ensures 0 & mask == 0
  {
  }

  /** The 16-bit number at `at`, low octet first. */
  function Half16(mem: seq<Byte>, at: nat): nat
    requires at + 2 <= |mem|
  {
    Nat(mem[at]) + 0x100 * Nat(mem[at + 1])
  }

  /** A file is refused if its hash is wrong or if it announces more than 19 items, and burned otherwise. */
  lemma FileExactly(f: Fuses, broken: set<nat>, mem: seq<Byte>, verified: bool)
    requires 36 <= |mem|
    ensures BurnFile(f, broken, mem, verified).1 <==> verified && Half16(mem, 34) <= 19
    ensures !BurnFile(f, broken, mem, verified).1 ==> BurnFile(f, broken, mem, verified).0 == f
    ensures BurnFile(f, broken, mem, verified).1 ==>
      BurnFile(f, broken, mem, verified).0 == Walk(f, broken, mem, Nat(mem[33]), Half16(mem, 34))
  {
    hide Walk;
  }

  /** An item says how long its head is, where in the fuses its value begins, how many bits and how many octets it
      has; the value stands eight octets behind, and the next item behind head and value. */
  lemma ItemExactly(f: Fuses, broken: set<nat>, mem: seq<Byte>, at: nat, n: nat)
    requires n > 0 && at + 8 <= |mem|
    ensures var start, width := Half16(mem, at + 2), Half16(mem, at + 4);
      var k := Obstacle(f, broken, start, width, mem, at + 8, 0);
      Walk(f, broken, mem, at, n)
      == Walk(Ored(f, start, k, mem, at + 8), broken, mem, at + Nat(mem[at + 1]) + Half16(mem, at + 6), n - 1)
  {
    hide WriteBits, Obstacle, Ored, Nat;
    WriteBitsResult(f, broken, Half16(mem, at + 2), Half16(mem, at + 4), mem, at + 8);
  }

  /** A file with one item whose fuses are all there, whole and sound: exactly the bits of its value are added. */
  lemma OneItemFile(f: Fuses, broken: set<nat>, mem: seq<Byte>, i: nat)
    requires 36 <= |mem| && Half16(mem, 34) == 1 && Nat(mem[33]) + 8 <= |mem| && i < |f|
    requires var item := Nat(mem[33]);
      var start, width := Half16(mem, item + 2), Half16(mem, item + 4);
      start + width <= |f| && forall j :: start <= j < start + width ==> !f[j] && j !in broken
    ensures var item := Nat(mem[33]);
      var start, width := Half16(mem, item + 2), Half16(mem, item + 4);
      var (g, ok) := BurnFile(f, broken, mem, true);
      && ok && |g| == |f|
      && (g[i] <==> f[i] || (start <= i < start + width && KeyBit(mem, item + 8, i - start)))
  {
    hide Walk, Obstacle, Ored, KeyBit, Nat;
    var item := Nat(mem[33]);
    var start, width := Half16(mem, item + 2), Half16(mem, item + 4);
    FileExactly(f, broken, mem, true);
    ItemExactly(f, broken, mem, item, 1);
    NoObstacle(f, broken, start, width, mem, item + 8);
    WalkOver(Ored(f, start, width, mem, item + 8), broken, mem, item + Nat(mem[item + 1]) + Half16(mem, item + 6));
  }

  lemma WalkOver(f: Fuses, broken: set<nat>, mem: seq<Byte>, at: nat)
    ensures Walk(f, broken, mem, at, 0) == f
  {
  }

  lemma NoObstacle(f: Fuses, broken: set<nat>, start: nat, width: nat, mem: seq<Byte>, at: nat)
    requires start + width <= |f| && forall j :: start <= j < start + width ==> !f[j] && j !in broken
    ensures Obstacle(f, broken, start, width, mem, at, 0) == width
  {
    hide KeyBit;
  }

  lemma GrowsTransitive(f: Fuses, g: Fuses, h: Fuses)
    requires Grows(f, g) && Grows(g, h)
    ensures Grows(f, h)
  {
  }

  lemma {:induction false} WalkGrows(f: Fuses, broken: set<nat>, mem: seq<Byte>, at: nat, n: nat)
    ensures Grows(f, Walk(f, broken, mem, at, n))
    decreases n
  {
    hide WriteBits;
    if n > 0 {
      var g := WriteBits(f, broken, U16(mem, at + 2), U16(mem, at + 4), mem, at + 8).0;
      WriteBitsGrows(f, broken, U16(mem, at + 2), U16(mem, at + 4), mem, at + 8);
      var next := at + Nat(Octet(mem, at + 1)) + U16(mem, at + 6);
      WalkGrows(g, broken, mem, next, n - 1);
      GrowsTransitive(f, g, Walk(g, broken, mem, next, n - 1));
    }
  }

  /** One attempt to burn a file. */
  datatype Attempt = Attempt(mem: seq<Byte>, verified: bool, broken: set<nat>)

  function Burns(f: Fuses, attempts: seq<Attempt>): Fuses
    decreases |attempts|
  {
    if attempts == [] then f
    else
      var a := attempts[|attempts| - 1];
      BurnFile(Burns(f, attempts[..|attempts| - 1]), a.broken, a.mem, a.verified).0
  }

  /** The attempts take effect one after the other, each on the fuses that those before it left. */
  lemma {:induction false} BurnsInTurn(f: Fuses, first: Attempt, rest: seq<Attempt>)
    ensures Burns(f, []) == f
    ensures Burns(f, [first] + rest) == Burns(BurnFile(f, first.broken, first.mem, first.verified).0, rest)
    decreases |rest|
  {
    hide BurnFile;
    var all := [first] + rest;
    if rest == [] {
      assert all[..|all| - 1] == [];
    } else {
      var front := rest[..|rest| - 1];
      assert all[..|all| - 1] == [first] + front;
      BurnsInTurn(f, first, front);
    }
  }

  lemma {:induction false} BurnsGrow(f: Fuses, attempts: seq<Attempt>)
    ensures Grows(f, Burns(f, attempts))
    decreases |attempts|
  {
    hide Walk;
    if attempts != [] {
      var front, a := Burns(f, attempts[..|attempts| - 1]), attempts[|attempts| - 1];
      BurnsGrow(f, attempts[..|attempts| - 1]);
      WalkGrows(front, a.broken, a.mem, Nat(Octet(a.mem, HEADER_STRU_SIZE)), U16(a.mem, NUMBER));
      GrowsTransitive(f, front, Burns(f, attempts));
    }
  }

  // Counting bits -------------------------------------------------------------------------------

  type Word = bv32

  function OneIf(x: Word): nat {
    if x & 1 != 0 then 1 else 0
  }

  function Half(x: Word): Word {
    x >> 1
  }

  lemma HalfSmaller(x: Word)
    requires x != 0
    ensures Half(x) < x
  {
  }

  /** The number of bits set. */
  function BitCount(x: Word): nat
    decreases x
  {
    if x == 0 then 0 else
      HalfSmaller(x);
      OneIf(x) + BitCount(Half(x))
  }

  lemma CountStep(x: Word)
    ensures BitCount(x) == OneIf(x) + BitCount(Half(x))
  {
  }

  /** The word without its lowest bit set. */
  function Cleared(x: Word): Word {
    x & (x - 1)
  }

  lemma ClearOdd(x: Word)
    requires OneIf(x) == 1
    ensures Half(Cleared(x)) == Half(x) && OneIf(Cleared(x)) == 0
  {
  }

  lemma ClearEven(x: Word)
    requires OneIf(x) == 0
    ensures Half(Cleared(x)) == Cleared(Half(x)) && OneIf(Cleared(x)) == 0
  {
  }

  /** Clearing the lowest bit set takes one from the count. */
  lemma {:induction false} ClearLowest(x: Word)
    requires x != 0
    ensures BitCount(Cleared(x)) + 1 == BitCount(x)
    decreases x
  {
    hide BitCount, Cleared, Half, OneIf;
    CountStep(x);
    CountStep(Cleared(x));
    OneOrNone(x);
    if OneIf(x) == 1 {
      ClearOdd(x);
    } else {
      ClearEven(x);
      HalfSmaller(x);
      ClearLowest(Half(x));
    }
  }

  lemma OneOrNone(x: Word)
    ensures OneIf(x) == 0 || OneIf(x) == 1
    ensures OneIf(x) == 0 && x != 0 ==> Half(x) != 0
  {
  }

  lemma ClearedSmaller(x: Word)
    requires x != 0
    ensures Cleared(x) < x
  {
  }

  /** `count_bit_num`. */
  method CountBitNum(input: Word) returns (count: nat)
    ensures count == BitCount(input)
  {
    hide BitCount, Cleared;
    var copy := input;
    count := 0;
    ZeroCount();
    while copy >= 1
      invariant count + BitCount(copy) == BitCount(input)
      decreases copy
    {
      ClearLowest(copy);
      ClearedSmaller(copy);
      copy := Cleared(copy);
      count := count + 1;
    }
  }

  lemma ZeroCount()
    ensures BitCount(0) == 0
  {
  }

  /** All bits of `a` are in `b`. */
  predicate Within(a: Word, b: Word) {
    a & b == a
  }

  lemma WithinHalves(a: Word, b: Word)
    requires Within(a, b)
    ensures Within(Half(a), Half(b)) && OneIf(a) <= OneIf(b)
    ensures b == 0 ==> a == 0
    ensures Half(a) == Half(b) && OneIf(a) == OneIf(b) ==> a == b
  {
  }

  /** More bits, larger count; and the count only stays if the bits do. */
  lemma {:induction false} CountMonotone(a: Word, b: Word)
    requires Within(a, b)
    ensures BitCount(a) <= BitCount(b) && (a != b ==> BitCount(a) < BitCount(b))
    decreases b
  {
    hide BitCount, Within, Half, OneIf;
    CountStep(a);
    CountStep(b);
    WithinHalves(a, b);
    if b != 0 {
      HalfSmaller(b);
      CountMonotone(Half(a), Half(b));
    }
  }

  // The version check ---------------------------------------------------------------------------

  datatype ImageType =
    | LoaderBoot | ParamsBoot | FlashBoot | FlashBootBackUp | SecondFlashBoot | SecondFlashBootBackUp | AppBoot
    | Invalid

  /** Start and width of fuse items 0 to 4. */
  const ITEMS: seq<(nat, nat)> := [(0, 8), (8, 160), (624, 32), (656, 8), (664, 8)]

  const VERIFY_TABLE: seq<(ImageType, nat)> := [
    (LoaderBoot, 0), (LoaderBoot, 0), (FlashBoot, 3), (FlashBoot, 3), (FlashBootBackUp, 3), (FlashBootBackUp, 3),
    (SecondFlashBoot, 3), (SecondFlashBoot, 3), (SecondFlashBootBackUp, 3), (SecondFlashBootBackUp, 3),
    (ParamsBoot, 4), (ParamsBoot, 4), (AppBoot, 2), (AppBoot, 2)]

  /** The fuse item that holds the version for an image type. */
  function VersionItem(image: ImageType): (i: nat)
    ensures i < |ITEMS| && ITEMS[i].1 <= 32
  {
    match image
    case LoaderBoot => 0
    case ParamsBoot => 4
    case AppBoot => 2
    case Invalid => 0
    case _ => 3
  }

  function Twice(w: Word): Word {
    w << 1
  }

  function WordBit(k: nat): Word
    requires k < 32
  {
    if k == 0 then 1 else Twice(WordBit(k - 1))
  }

  function Or(a: Word, b: Word): Word {
    a | b
  }

  function Masked(a: Word, mask: Word): Word {
    a & mask
  }

  predicate Blown(f: Fuses, i: nat) {
    i < |f| && f[i]
  }

  function BitIf(c: bool, k: nat): Word
    requires k < 32
  {
    if c then WordBit(k) else 0
  }

  /** Fuses `start` to `start + width` as a word; a fuse that does not exist reads as whole. */
  function FuseWord(f: Fuses, start: nat, width: nat): Word
    requires width <= 32
  {
    if width == 0 then 0
    else Or(FuseWord(f, start, width - 1), BitIf(Blown(f, start + width - 1), width - 1))
  }

  function VersionWord(f: Fuses, image: ImageType): Word {
    FuseWord(f, ITEMS[VersionItem(image)].0, ITEMS[VersionItem(image)].1)
  }

  predicate Accepts(f: Fuses, image: ImageType, version: Word, mask: Word) {
    BitCount(Masked(version, mask)) >= BitCount(Masked(VersionWord(f, image), mask))
  }

  /** The table search of `check_version`; an image type that is not in the table gets item 0. */
  method FindItem(image: ImageType) returns (index: nat)
    ensures index == VersionItem(image)
  {
    index := 0;
    var i: nat := 0;
    while i < |VERIFY_TABLE|
      invariant i <= |VERIFY_TABLE| && index == 0
      invariant forall j :: 0 <= j < i ==> VERIFY_TABLE[j].0 != image
    {
      if image == VERIFY_TABLE[i].0 {
        index := VERIFY_TABLE[i].1;
        break;
      }
      i := i + 1;
    }
    ItemOf(image, i, index);
  }

  lemma ItemOf(image: ImageType, i: nat, index: nat)
    requires i <= |VERIFY_TABLE| && forall j :: 0 <= j < i ==> VERIFY_TABLE[j].0 != image
    requires if i < |VERIFY_TABLE| then VERIFY_TABLE[i] == (image, index) else index == 0
    ensures index == VersionItem(image)
  {
    assert VERIFY_TABLE[2].0 == FlashBoot && VERIFY_TABLE[4].0 == FlashBootBackUp && VERIFY_TABLE[0].0 == LoaderBoot;
    assert VERIFY_TABLE[6].0 == SecondFlashBoot && VERIFY_TABLE[8].0 == SecondFlashBootBackUp;
    assert VERIFY_TABLE[10].0 == ParamsBoot && VERIFY_TABLE[12].0 == AppBoot;
  }

  /** `check_version`. */
  method CheckVersion(f: Fuses, image: ImageType, version: Word, mask: Word) returns (ok: bool)
    ensures ok <==> Accepts(f, image, version, mask)
  {
    hide BitCount, FuseWord, Masked, VersionItem;
    var index := FindItem(image);
    var fused := FuseWord(f, ITEMS[index].0, ITEMS[index].1);
    var offered := CountBitNum(Masked(version, mask));
    var required := CountBitNum(Masked(fused, mask));
    return offered >= required;
  }

  // The fuses behind the word -------------------------------------------------------------------

  predicate Odd(w: Word) {
    w & 1 != 0
  }

  /** Bit `k` of a word, counted from the lowest. */
  predicate BitAt(w: Word, k: nat)
    decreases k
  {
    if k == 0 then Odd(w) else BitAt(Half(w), k - 1)
  }

  lemma OrOdd(a: Word, b: Word)
    ensures Odd(Or(a, b)) <==> Odd(a) || Odd(b)
  {
  }

  lemma OrHalf(a: Word, b: Word)
    ensures Half(Or(a, b)) == Or(Half(a), Half(b))
  {
  }

  lemma {:induction false} OrBits(a: Word, b: Word, k: nat)
    ensures BitAt(Or(a, b), k) <==> BitAt(a, k) || BitAt(b, k)
    decreases k
  {
    hide Or, Half, Odd;
    OrOdd(a, b);
    OrHalf(a, b);
    if k > 0 {
      OrBits(Half(a), Half(b), k - 1);
    }
  }

  lemma MaskOdd(a: Word, b: Word)
    ensures Odd(Masked(a, b)) <==> Odd(a) && Odd(b)
  {
  }

  lemma MaskHalf(a: Word, b: Word)
    ensures Half(Masked(a, b)) == Masked(Half(a), Half(b))
  {
  }

  lemma {:induction false} MaskBits(a: Word, b: Word, k: nat)
    ensures BitAt(Masked(a, b), k) <==> BitAt(a, k) && BitAt(b, k)
    decreases k
  {
    hide Masked, Half, Odd;
    MaskOdd(a, b);
    MaskHalf(a, b);
    if k > 0 {
      MaskBits(Half(a), Half(b), k - 1);
    }
  }

  lemma {:induction false} NoBits(k: nat)
    ensures !BitAt(0, k)
    decreases k
  {
    if k > 0 {
      NoBits(k - 1);
    }
  }

  predicate TopIsClear(w: Word) {
    w & 0x8000_0000 == 0
  }

  /** Doubling loses no bit of a word whose highest bit is clear. */
  lemma TwiceHalf(w: Word)
    requires TopIsClear(w)
    ensures Half(Twice(w)) == w
  {
  }

  lemma TwiceEven(w: Word)
    ensures !Odd(Twice(w))
  {
  }

  lemma BelowTopClear(w: Word)
    requires w < 0x8000_0000
    ensures TopIsClear(w)
  {
  }

  lemma BelowTop(k: nat)
    requires k < 31
    ensures WordBit(k) < 0x8000_0000
  {
    assert WordBit(1) == 0x2;
    assert WordBit(2) == 0x4;
    assert WordBit(3) == 0x8;
    assert WordBit(4) == 0x10;
    assert WordBit(5) == 0x20;
    assert WordBit(6) == 0x40;
    assert WordBit(7) == 0x80;
    assert WordBit(8) == 0x100;
    assert WordBit(9) == 0x200;
    assert WordBit(10) == 0x400;
    assert WordBit(11) == 0x800;
    assert WordBit(12) == 0x1000;
    assert WordBit(13) == 0x2000;
    assert WordBit(14) == 0x4000;
    assert WordBit(15) == 0x8000;
    assert WordBit(16) == 0x10000;
    assert WordBit(17) == 0x20000;
    assert WordBit(18) == 0x40000;
    assert WordBit(19) == 0x80000;
    assert WordBit(20) == 0x100000;
    assert WordBit(21) == 0x200000;
    assert WordBit(22) == 0x400000;
    assert WordBit(23) == 0x800000;
    assert WordBit(24) == 0x1000000;
    assert WordBit(25) == 0x2000000;
    assert WordBit(26) == 0x4000000;
    assert WordBit(27) == 0x8000000;
    assert WordBit(28) == 0x10000000;
    assert WordBit(29) == 0x20000000;
    assert WordBit(30) == 0x40000000;
  }

  lemma NextBit(j: nat)
    requires 0 < j < 32
    ensures Half(WordBit(j)) == WordBit(j - 1) && !Odd(WordBit(j))
  {
    hide Half, Odd, Twice, TopIsClear;
    BelowTop(j - 1);
    BelowTopClear(WordBit(j - 1));
    TwiceHalf(WordBit(j - 1));
    TwiceEven(WordBit(j - 1));
  }

  lemma FirstBit()
    ensures Half(WordBit(0)) == 0 && Odd(WordBit(0))
  {
  }

  lemma {:induction false} OneBit(j: nat, k: nat)
    requires j < 32 && k < 32
    ensures BitAt(WordBit(j), k) <==> j == k
    decreases k
  {
    hide Half, Odd, WordBit;
    if j == 0 {
      FirstBit();
      if k > 0 {
        NoBits(k - 1);
      }
    } else {
      NextBit(j);
      if k > 0 {
        OneBit(j - 1, k - 1);
      }
    }
  }

  /** Bit `k` of the word is fuse `start + k`, as far as the item is wide. */
  lemma {:induction false} FuseWordExactly(f: Fuses, start: nat, width: nat, k: nat)
    requires width <= 32 && k < 32
    ensures BitAt(FuseWord(f, start, width), k) <==> k < width && start + k < |f| && f[start + k]
    decreases width
  {
    hide BitAt, WordBit, Or;
    NoBits(k);
    if width > 0 {
      FuseWordExactly(f, start, width - 1, k);
      OrBits(FuseWord(f, start, width - 1), BitIf(Blown(f, start + width - 1), width - 1), k);
      OneBit(width - 1, k);
    }
  }

  /** The first fuse that holds the version for an image type, and how many of them there are. */
  function FirstFuse(image: ImageType): nat {
    match image
    case LoaderBoot => 0
    case Invalid => 0
    case AppBoot => 624
    case ParamsBoot => 664
    case _ => 656
  }

  function FuseCount(image: ImageType): nat {
    if image == AppBoot then 32 else 8
  }

  /** The version that the check compares is read from these fuses, lowest bit first. */
  lemma VersionExactly(f: Fuses, image: ImageType, k: nat)
    requires k < 32
    ensures BitAt(VersionWord(f, image), k) <==>
      k < FuseCount(image) && FirstFuse(image) + k < |f| && f[FirstFuse(image) + k]
  {
    hide BitAt, FuseWord;
    FuseWordExactly(f, FirstFuse(image), FuseCount(image), k);
  }

  lemma OrWithin(a: Word, b: Word, p: Word, q: Word)
    requires Within(a, b) && Within(p, q)
    ensures Within(Or(a, p), Or(b, q))
  {
  }

  lemma BitWithin(c: bool, d: bool, k: nat)
    requires k < 32 && (c ==> d)
    ensures Within(BitIf(c, k), BitIf(d, k))
  {
    hide WordBit;
    SelfWithin(WordBit(k));
  }

  lemma SelfWithin(a: Word)
    ensures Within(a, a) && Within(0, a)
  {
  }

  lemma {:induction false} FuseWordGrows(f: Fuses, g: Fuses, start: nat, width: nat)
    requires Grows(f, g) && width <= 32
    ensures Within(FuseWord(f, start, width), FuseWord(g, start, width))
    decreases width
  {
    hide BitIf, Within, Or;
    if width > 0 {
      FuseWordGrows(f, g, start, width - 1);
      BitWithin(Blown(f, start + width - 1), Blown(g, start + width - 1), width - 1);
      OrWithin(FuseWord(f, start, width - 1), FuseWord(g, start, width - 1),
               BitIf(Blown(f, start + width - 1), width - 1), BitIf(Blown(g, start + width - 1), width - 1));
    } else {
      SelfWithin(0);
    }
  }

  lemma MaskWithin(a: Word, b: Word, mask: Word)
    requires Within(a, b)
    ensures Within(Masked(a, mask), Masked(b, mask))
  {
  }

  /** Over any run of burns the masked version word keeps its bits. */
  lemma VersionGrows(f: Fuses, attempts: seq<Attempt>, image: ImageType, mask: Word)
    ensures Within(Masked(VersionWord(f, image), mask), Masked(VersionWord(Burns(f, attempts), image), mask))
  {
    hide FuseWord, Burns, Within, Masked, VersionItem;
    BurnsGrow(f, attempts);
    var (start, width) := ITEMS[VersionItem(image)];
    FuseWordGrows(f, Burns(f, attempts), start, width);
    MaskWithin(VersionWord(f, image), VersionWord(Burns(f, attempts), image), mask);
  }

  /** No run of burns, successful or not, ever makes an image version acceptable again. */
  lemma AntiRollback(f: Fuses, attempts: seq<Attempt>, image: ImageType, version: Word, mask: Word)
    ensures Accepts(Burns(f, attempts), image, version, mask) ==> Accepts(f, image, version, mask)
  {
    hide BitCount, VersionWord, Burns, Within, Masked;
    VersionGrows(f, attempts, image, mask);
    CountMonotone(Masked(VersionWord(f, image), mask), Masked(VersionWord(Burns(f, attempts), image), mask));
  }

  /** And a run that blows a fuse of the version under the mask shuts out every version that was just new enough: fuse
      `k` of the image type was whole, is blown, and bit `k` of the mask is set. */
  lemma RollForward(f: Fuses, attempts: seq<Attempt>, image: ImageType, version: Word, mask: Word, k: nat)
    requires k < FuseCount(image) && FirstFuse(image) + k < |f| && !f[FirstFuse(image) + k] && BitAt(mask, k)
    requires FirstFuse(image) + k < |Burns(f, attempts)| && Burns(f, attempts)[FirstFuse(image) + k]
    requires BitCount(Masked(version, mask)) == BitCount(Masked(VersionWord(f, image), mask))
    ensures Accepts(f, image, version, mask) && !Accepts(Burns(f, attempts), image, version, mask)
  {
    hide BitCount, VersionWord, Burns, Within, BitAt, Masked;
    var g := Burns(f, attempts);
    VersionGrows(f, attempts, image, mask);
    VersionExactly(f, image, k);
    VersionExactly(g, image, k);
    MaskBits(VersionWord(f, image), mask, k);
    MaskBits(VersionWord(g, image), mask, k);
    CountMonotone(Masked(VersionWord(f, image), mask), Masked(VersionWord(g, image), mask));
  }

  // The fuse block ------------------------------------------------------------------------------

  class FuseBlock {
    const bits: array<bool>

    constructor (n: nat)
      ensures fresh(bits) && bits.Length == n && forall i :: 0 <= i < n ==> !bits[i]
    {
      bits := new bool[n](_ => false);
    }

    /** The driver's `uapi_efuse_write_bit`: it refuses a fuse that is already blown. */
    method WriteBit(broken: set<nat>, i: nat) returns (ok: bool)
      modifies bits
      ensures ok <==> i < bits.Length && !old(bits[..])[i] && i !in broken
      ensures bits[..] == if ok then old(bits[..])[i := true] else old(bits[..])
    {
      if i >= bits.Length {
        return false;
      }
      if bits[i] || i in broken {
        return false;
      }
      bits[i] := true;
      return true;
    }

    /** `efuse_write_bits`; beyond 65535 its 16-bit counter would never reach the end. */
    method EfuseWriteBits(broken: set<nat>, start: nat, size: nat, mem: seq<Byte>, at: nat) returns (ok: bool)
      requires start + size <= 65535
      modifies bits
      ensures (bits[..], ok) == WriteBits(old(bits[..]), broken, start, size, mem, at)
    {
      hide KeyBit;
      ghost var before := bits[..];
      var j: nat := 0;
      var i := start;
      while i < start + size
        invariant i == start + j && j <= size
        invariant Burn(bits[..], broken, start, size, mem, at, j) == Burn(before, broken, start, size, mem, at, 0)
      {
        if KeyBit(mem, at, j) {
          ok := WriteBit(broken, i);
          if !ok {
            return;
          }
        }
        i := i + 1;
        j := j + 1;
      }
      ok := true;
    }

    /** `efuse_burn`. */
    method EfuseBurn(broken: set<nat>, mem: seq<Byte>, verified: bool) returns (ok: bool)
      requires ItemsFit(mem, Nat(Octet(mem, HEADER_STRU_SIZE)), U16(mem, NUMBER))
      modifies bits
      ensures (bits[..], ok) == BurnFile(old(bits[..]), broken, mem, verified)
    {
      hide WriteBits, U16;
      if !verified || U16(mem, NUMBER) > MAX_NUMBER {
        return false;
      }
      ghost var before := bits[..];
      var item: nat := Nat(Octet(mem, HEADER_STRU_SIZE));
      ghost var first, n := item, U16(mem, NUMBER);
      for i := 0 to U16(mem, NUMBER)
        invariant ItemsFit(mem, item, n - i)
        invariant Walk(bits[..], broken, mem, item, n - i) == Walk(before, broken, mem, first, n)
      {
        var _ := EfuseWriteBits(broken, U16(mem, item + 2), U16(mem, item + 4), mem, item + 8);
        item := item + Nat(Octet(mem, item + 1)) + U16(mem, item + 6);
      }
      return true;
    }
  }

  /** No item reaches beyond what the source's 16-bit counter can count. */
  predicate ItemsFit(mem: seq<Byte>, at: nat, n: nat)
    decreases n
  {
    n > 0 ==>
      && U16(mem, at + 2) + U16(mem, at + 4) <= 65535
      && ItemsFit(mem, at + Nat(Octet(mem, at + 1)) + U16(mem, at + 6), n - 1)
  }
}
