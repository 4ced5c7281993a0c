/** The scanner finds what the search finds; and how both copies of it behave behind garbage and behind an
    oversized header. */
module UartResync {
  import opened Bytes
  import opened UartFrame

  lemma {:induction false} ScanKnows(t: seq<Byte>, k: nat, early: bool) returns (at: nat)
    requires k <= |t|
    ensures Knows(t, k, at, ScanAll(t[..k], early), early)
    decreases k
  {
    hide Search, MagicAt, Size, Step;
    if k == 0 {
      at := 0;
    } else {
      at := ScanKnows(t, k - 1, early);
      var front, sc := t[..k - 1], ScanAll(t[..k - 1], early);
      assert t[..k][..k - 1] == front;
      if sc.status < HEAD {
        at := StepKnows(t, k - 1, at, sc, early);
      }
    }
  }

  lemma NothingFound(t: seq<Byte>, at: nat, sc: Scan, early: bool)
    requires Knows(t, |t|, at, sc, early) && sc.status < HEAD
    ensures Search(t, 0, 0, early) == None
  {
    if sc.status <= 5 {
      var p := if sc.reset then |t| else |t| - sc.status;
      FindSkips(t, at, p);
    }
  }

  /** The scanner has found a header exactly when there is one to be found, and it is the first. */
  lemma ScanIsSearch(t: seq<Byte>, early: bool)
    ensures var sc, r := ScanAll(t, early), Search(t, 0, 0, early);
      && (sc.status == HEAD <==> r.Some?)
      && (r.Some? ==> sc.head == t[r.value..r.value + HEAD])
  {
    hide Search, MagicAt, Size, ScanAll;
    var at := ScanKnows(t, |t|, early);
    assert t[..|t|] == t;
    var sc := ScanAll(t, early);
    if sc.status < HEAD {
      NothingFound(t, at, sc, early);
    } else {
      assert sc.head == t[at..at + HEAD];
    }
  }

  /** The octet with which the scanner gets its header. */
  lemma FoundAt(t: seq<Byte>, k: nat, early: bool)
    requires 0 < k <= |t| && ScanAll(t[..k - 1], early).status < HEAD == ScanAll(t[..k], early).status
    ensures k >= HEAD && Search(t, 0, 0, early) == Some(k - HEAD) && ScanAll(t[..k], early).head == t[k - HEAD..k]
  {
    hide Search, MagicAt, Size, Step, Knows;
    var at := ScanKnows(t, k - 1, early);
    assert t[..k][..k - 1] == t[..k - 1];
    var sc := ScanAll(t[..k - 1], early);
    LastStep(t, k - 1, at, sc, early);
  }

  lemma LastStep(t: seq<Byte>, k: nat, at: nat, sc: Scan, early: bool)
    requires k < |t| && Knows(t, k, at, sc, early) && sc.status < HEAD == Step(sc, t[k], early).status
    ensures k + 1 >= HEAD && Search(t, 0, 0, early) == Some(k + 1 - HEAD)
    ensures Step(sc, t[k], early).head == t[k + 1 - HEAD..k + 1]
  {
    hide Search, MagicAt, Size;
    var at' := StepKnows(t, k, at, sc, early);
    assert sc.status == 7 && !sc.reset;
    var head := Step(sc, t[k], early).head;
    assert head == t[at..at + HEAD];
  }

  // Behind an oversized header ------------------------------------------------------------------

  /** The receiver that waits for both size octets forgets an oversized header completely. */
  lemma {:induction false} LateForgets(t: seq<Byte>, from: nat, stale: Byte, other: Byte)
    requires from <= |t|
    ensures Search(t, from, stale, false) == Search(t, from, other, false)
  {
  }

  /** The other receiver never recovers once it has seen a size of 0x500 or more. */
  lemma {:induction false} EarlyStaysStuck(t: seq<Byte>, from: nat, stale: Byte)
    requires from <= |t| && Nat(stale) >= 5
    ensures Search(t, from, stale, true) == None
    decreases |t| - from
  {
    hide FindMagic;
    var i := FindMagic(t, from);
    if i + HEAD <= |t| {
      EarlyStaysStuck(t, i + 5, stale);
    }
  }

  /** The first start flag with a zero low size octet that a search comes to; the others are skipped up to
      their low size octet. */
  function ZeroLow(t: seq<Byte>, from: nat): (r: Option<nat>)
    requires from <= |t|
    ensures r.Some? ==> from <= r.value <= |t| - HEAD && t[r.value + 4] == 0
    decreases |t| - from
  {
    var i := FindMagic(t, from);
    if i + HEAD > |t| then None else if t[i + 4] == 0 then Some(i) else ZeroLow(t, i + 5)
  }

  /** Behind a size from 0x401 to 0x4FF the other receiver takes the first size with a zero low octet, if it
      is legal, and nothing otherwise. */
  function BehindFour(t: seq<Byte>, from: nat): Option<nat>
    requires from <= |t|
  {
    var r := ZeroLow(t, from);
    if r.Some? && Nat(t[r.value + 5]) <= 4 then r else None
  }

  lemma {:induction false} EarlyBehindFour(t: seq<Byte>, from: nat)
    requires from <= |t|
    ensures Search(t, from, 4, true) == BehindFour(t, from)
    decreases |t| - from
  {
    hide FindMagic;
    var i := FindMagic(t, from);
    SmallNats();
    if i + HEAD <= |t| {
      var lo, hi := t[i + 4], t[i + 5];
      if lo != 0 {
        NotZero(lo);
        EarlyBehindFour(t, i + 5);
      } else if Nat(hi) >= 5 {
        EarlyStaysStuck(t, i + 6, hi);
      }
    }
  }

  lemma NotZero(b: Byte)
    requires b != 0
    ensures Nat(b) > 0
  {
    if Nat(b) == 0 {
      NatInjective(b, 0);
    }
  }

  /** A size that is too large has a high octet of 5 or more, or of 4 and a low one that is not zero. */
  lemma TooLarge(lo: Byte, hi: Byte)
    ensures Size(lo, 0) <= PAYLOAD_MAX
    ensures Size(lo, hi) > PAYLOAD_MAX && Nat(hi) < 5 ==> hi == 4
  {
    SmallNats();
    NatBound(lo);
    if Nat(hi) == 4 {
      NatInjective(hi, 4);
    }
  }

  /** What the other receiver finds, in every case, from what follows the first complete header. */
  lemma FirstHeaderDecides(t: seq<Byte>)
    ensures var i := FindMagic(t, 0);
      if i + HEAD > |t| then Search(t, 0, 0, true) == Search(t, 0, 0, false) == None
      else if Size(t[i + 4], t[i + 5]) <= PAYLOAD_MAX then Search(t, 0, 0, true) == Search(t, 0, 0, false) == Some(i)
      else
        && Search(t, 0, 0, false) == Search(t, i + 6, 0, false)
        && Search(t, 0, 0, true) == if Nat(t[i + 5]) >= 5 then None else BehindFour(t, i + 6)
  {
    hide FindMagic, BehindFour, Size;
    var i := FindMagic(t, 0);
    if i + HEAD <= |t| {
      var lo, hi := t[i + 4], t[i + 5];
      TooLarge(lo, hi);
      if Size(lo, hi) > PAYLOAD_MAX {
        LateForgets(t, i + 6, hi, 0);
        if Nat(hi) >= 5 {
          EarlyStaysStuck(t, i + 6, hi);
        } else {
          EarlyBehindFour(t, i + 6);
        }
      }
    }
  }

  /** For every stream: the two receivers find the same if and only if there is no complete header, or the
      first one has a legal size, or, behind the first one,
      - with a size of 0x500 or more: there is nothing to be found;
      - with a size from 0x401 to 0x4FF: the first legal header is the first with a zero low size octet, or
        there is no legal one, and the first with a zero low octet, if any, is too large as well. */
  lemma CopiesAgreeExactly(t: seq<Byte>)
    ensures var i := FindMagic(t, 0);
      Search(t, 0, 0, true) == Search(t, 0, 0, false) <==>
      || i + HEAD > |t|
      || Size(t[i + 4], t[i + 5]) <= PAYLOAD_MAX
      || (var behind, zero := Search(t, i + 6, 0, false), ZeroLow(t, i + 6);
          if Nat(t[i + 5]) >= 5 then behind == None
          else if behind.Some? then zero == behind
          else zero == None || Nat(t[zero.value + 5]) >= 5)
  {
    hide FindMagic, ZeroLow, Search;
    FirstHeaderDecides(t);
    var i := FindMagic(t, 0);
    if i + HEAD <= |t| && Size(t[i + 4], t[i + 5]) > PAYLOAD_MAX {
      var behind, zero := Search(t, i + 6, 0, false), ZeroLow(t, i + 6);
      if behind.Some? {
        FoundIsLegal(t, i + 6);
      }
    }
  }

  lemma {:induction false} FoundIsLegal(t: seq<Byte>, from: nat)
    requires from <= |t| && Search(t, from, 0, false).Some?
    ensures var j := Search(t, from, 0, false).value;
      MagicAt(t, j) && Size(t[j + 4], t[j + 5]) <= PAYLOAD_MAX && Nat(t[j + 5]) <= 4
    decreases |t| - from
  {
    FindIsFirst(t, from);
    hide FindMagic, MagicAt;
    var i := FindMagic(t, from);
    if Size(t[i + 4], t[i + 5]) > PAYLOAD_MAX {
      LateForgets(t, i + 6, t[i + 5], 0);
      FoundIsLegal(t, i + 6);
    }
  }

  /** A stream with a header of size `lo, hi`, then one of size `lo2, hi2`. */
  function TwoHeaders(lo: Byte, hi: Byte, lo2: Byte, hi2: Byte): seq<Byte> {
    MAGIC + [lo, hi] + MAGIC + [lo2, hi2, 0xE1, 0x1E]
  }

  lemma TwoHeadersFlags(lo: Byte, hi: Byte, lo2: Byte, hi2: Byte)
    ensures var t := TwoHeaders(lo, hi, lo2, hi2);
      |t| == 14 && FindMagic(t, 0) == 0 && FindMagic(t, 6) == 6
      && t[4] == lo && t[5] == hi && t[10] == lo2 && t[11] == hi2
  {
    var t := TwoHeaders(lo, hi, lo2, hi2);
    assert t[0..4] == MAGIC && t[6..10] == MAGIC;
    assert MagicAt(t, 0) && MagicAt(t, 6);
  }

  /** Behind a size of 0x500 a good header is missed, and so is one of 10 octets behind a size of 0x401; one of
      0x100 octets behind 0x401 is found by both. */
  lemma StaleSizeMatters()
    ensures Search(TwoHeaders(0x00, 0x05, 0x0A, 0x00), 0, 0, false) == Some(6)
      && Search(TwoHeaders(0x00, 0x05, 0x0A, 0x00), 0, 0, true) == None
    ensures Search(TwoHeaders(0x01, 0x04, 0x0A, 0x00), 0, 0, false) == Some(6)
      && Search(TwoHeaders(0x01, 0x04, 0x0A, 0x00), 0, 0, true) == None
    ensures Search(TwoHeaders(0x01, 0x04, 0x00, 0x01), 0, 0, false) == Some(6)
      && Search(TwoHeaders(0x01, 0x04, 0x00, 0x01), 0, 0, true) == Some(6)
  {
    hide TwoHeaders;
    SmallNats();
    SecondHeader(0x00, 0x05, 0x0A, 0x00);
    SecondHeader(0x01, 0x04, 0x0A, 0x00);
    SecondHeader(0x01, 0x04, 0x00, 0x01);
  }

  lemma SecondHeader(lo: Byte, hi: Byte, lo2: Byte, hi2: Byte)
    requires Size(lo, hi) > PAYLOAD_MAX >= Size(lo2, hi2)
    ensures var t := TwoHeaders(lo, hi, lo2, hi2);
      && Search(t, 0, 0, false) == Some(6)
      && Search(t, 0, 0, true) == if Nat(hi) >= 5 || lo2 != 0 then None else Some(6)
  {
    hide FindMagic, TwoHeaders, Search;
    var t := TwoHeaders(lo, hi, lo2, hi2);
    TwoHeadersFlags(lo, hi, lo2, hi2);
    FirstHeaderDecides(t);
    SearchHere(t, 6);
    if lo2 != 0 {
      NoneNearTheEnd(t, 11);
    }
  }

  lemma SearchHere(t: seq<Byte>, i: nat)
    requires i + HEAD <= |t| && FindMagic(t, i) == i && Size(t[i + 4], t[i + 5]) <= PAYLOAD_MAX
    ensures Search(t, i, 0, false) == Some(i)
  {
    hide Size;
  }

  lemma NoneNearTheEnd(t: seq<Byte>, from: nat)
    requires from <= |t| < from + HEAD
    ensures ZeroLow(t, from) == None
  {
  }

  lemma SmallNats()
    ensures Nat(0) == 0 && Nat(1) == 1 && Nat(4) == 4 && Nat(5) == 5 && Nat(10) == 10
  {
    assert Nat(2) == 2 && Nat(6) == 6 && Nat(8) == 8;
  }

  /** Whatever comes before the first start flag is skipped. */
  lemma GarbageSkipped(t: seq<Byte>, at: nat, early: bool)
    requires at + HEAD <= |t| && MagicAt(t, at) && NoMagic(t, 0, at)
    requires Size(t[at + 4], t[at + 5]) <= PAYLOAD_MAX
    ensures Search(t, 0, 0, early) == Some(at)
  {
    FindSkips(t, 0, at);
    NatBound(t[at + 4]);
  }
}
