/** Command frames on the boot UART: finding the header in a stream of octets, and the frame codec.
    A frame is EF BE AD DE, its size, a type, a pad octet, data, and a checksum, low octet first. */
module UartFrame {
  import opened Bytes
  import opened Crc16
  import CrcAlgebra

  /** 0xDEADBEEF as it travels. */
  const MAGIC: seq<Byte> := [0xEF, 0xBE, 0xAD, 0xDE]
  const HEAD: nat := 8
  const PAYLOAD_MAX: nat := 1024

  // The header, as the protocol means it --------------------------------------------------------

  predicate MagicAt(t: seq<Byte>, i: nat) {
    i + 4 <= |t| && t[i..i + 4] == MAGIC
  }

  /** The first place at or after `from` where the start flag is, or the end of the stream. */
  function FindMagic(t: seq<Byte>, from: nat): (i: nat)
    requires from <= |t|
    ensures from <= i <= |t|
    decreases |t| - from
  {
    if from == |t| || MagicAt(t, from) then from else FindMagic(t, from + 1)
  }

  function Size(lo: Byte, hi: Byte): nat {
    Nat(lo) + 256 * Nat(hi)
  }

  /** The first start flag with a legal size behind it. A size that is too large sends the search on
      behind the size field. One of the two receivers (`early`) also looks at the size when only its
      low octet has come, next to the high octet of the last size it saw (`stale`). */
  function Search(t: seq<Byte>, from: nat, stale: Byte, early: bool): (r: Option<nat>)
    requires from <= |t|
    ensures r.Some? ==> from <= r.value <= |t| - HEAD
    decreases |t| - from
  {
    var i := FindMagic(t, from);
    if i + HEAD > |t| then None
    else if early && Size(t[i + 4], stale) > PAYLOAD_MAX then Search(t, i + 5, stale, early)
    else if Size(t[i + 4], t[i + 5]) > PAYLOAD_MAX then Search(t, i + 6, t[i + 5], early)
    else Some(i)
  }

  lemma {:induction false} FindSkips(t: seq<Byte>, from: nat, to: nat)
    requires from <= to <= |t| && forall i :: from <= i < to ==> !MagicAt(t, i)
    ensures FindMagic(t, from) == FindMagic(t, to)
    decreases |t| - from
  {
    if from < to {
      FindSkips(t, from + 1, to);
    }
  }

  /** The result really is the first one. */
  lemma {:induction false} FindIsFirst(t: seq<Byte>, from: nat)
    requires from <= |t|
    ensures var i := FindMagic(t, from);
      (i < |t| ==> MagicAt(t, i)) && forall j :: from <= j < i ==> !MagicAt(t, j)
    decreases |t| - from
  {
    if from < |t| && !MagicAt(t, from) {
      FindIsFirst(t, from + 1);
    }
  }

  // The header, as the receivers find it: one octet at a time, with a reset that takes effect late

  /** Status of the scanner, its reset flag, and the header in memory. */
  datatype Scan = Scan(status: nat, reset: bool, head: seq<Byte>)
  {
    predicate Valid() {
      status <= HEAD && |head| == HEAD
    }
  }

  const START := Scan(0, false, [0, 0, 0, 0, 0, 0, 0, 0])

  /** Before an octet is looked at, a pending reset clears the start flag and starts over. */
  function Restarted(sc: Scan): (r: Scan)
    requires sc.Valid()
    ensures r.Valid() && !r.reset
  {
    if sc.reset then Scan(0, false, [0, 0, 0, 0] + sc.head[4..]) else sc
  }

  function Advance(sc: Scan, ch: Byte, early: bool): (r: Scan)
    requires sc.Valid() && sc.status < HEAD && !sc.reset
    ensures r.Valid()
  {
    if sc.status <= 3 then
      if ch == MAGIC[sc.status] then sc.(head := sc.head[sc.status := ch], status := sc.status + 1)
      else if ch == 0xEF then sc.(head := sc.head[0 := ch], status := 1)
      else sc.(reset := true)
    else
      var head := sc.head[sc.status := ch];
      if (early || sc.status >= 5) && Size(head[4], head[5]) > PAYLOAD_MAX then sc.(head := head, reset := true)
      else sc.(head := head, status := sc.status + 1)
  }

  function Step(sc: Scan, ch: Byte, early: bool): (r: Scan)
    requires sc.Valid() && sc.status < HEAD
    ensures r.Valid()
  {
    Advance(Restarted(sc), ch, early)
  }

  /** The scanner after the octets of `t`; once it has a header it takes no more. */
  function ScanAll(t: seq<Byte>, early: bool): (sc: Scan)
    ensures sc.Valid()
    decreases |t|
  {
    if t == [] then START
    else
      var sc := ScanAll(t[..|t| - 1], early);
      if sc.status == HEAD then sc else Step(sc, t[|t| - 1], early)
  }

  /** What the scanner knows after `k` octets. While the size is open, `at` is where it last started
      over; once the size is known to be legal, `at` is where the header begins. */
  ghost predicate Knows(t: seq<Byte>, k: nat, at: nat, sc: Scan, early: bool) {
    && at <= k <= |t| && sc.Valid()
    && if sc.status <= 5 then
         && Search(t, 0, 0, early) == Search(t, at, sc.head[5], early)
         && if sc.reset then NoMagic(t, at, k) else Tracks(t, k, at, sc, early)
       else Sized(t, k, at, sc, early)
  }

  ghost predicate NoMagic(t: seq<Byte>, from: nat, to: nat) {
    forall i :: from <= i < to ==> !MagicAt(t, i)
  }

  predicate Holds(t: seq<Byte>, at: nat, head: seq<Byte>, n: nat)
    requires n <= |head| && at + n <= |t|
  {
    forall j :: 0 <= j < n ==> head[j] == t[at + j]
  }

  /** The scanner is `status` octets into what may become a header, and no header began earlier. */
  ghost predicate Tracks(t: seq<Byte>, k: nat, at: nat, sc: Scan, early: bool)
    requires k <= |t| && sc.Valid() && sc.status <= 5
  {
    var st := sc.status;
    && at + st <= k && NoMagic(t, at, k - st)
    && Holds(t, k - st, MAGIC, Least(st, 4)) && Holds(t, k - st, sc.head, st)
    && (st == 5 && early ==> Size(sc.head[4], sc.head[5]) <= PAYLOAD_MAX)
  }

  function Least(a: nat, b: nat): nat {
    if a <= b then a else b
  }

  /** The header at `at` has a legal size. */
  ghost predicate Sized(t: seq<Byte>, k: nat, at: nat, sc: Scan, early: bool)
    requires k <= |t| && sc.Valid() && sc.status >= 6
  {
    var st := sc.status;
    && !sc.reset && (if st < HEAD then at + st == k else at + HEAD <= k)
    && Holds(t, at, sc.head, st)
    && Search(t, 0, 0, early) == (if at + HEAD <= |t| then Some(at) else None)
    && Size(sc.head[4], sc.head[5]) <= PAYLOAD_MAX
  }

  lemma MagicOctets(t: seq<Byte>, i: nat)
    ensures MagicAt(t, i) <==> i + 4 <= |t| && forall j :: 0 <= j < 4 ==> t[i + j] == MAGIC[j]
  {
    if i + 4 <= |t| {
      var m := t[i..i + 4];
      assert forall j :: 0 <= j < 4 ==> m[j] == t[i + j];
    }
  }

  /** A mismatch rules out every start that was still open. */
  lemma MismatchRulesOut(t: seq<Byte>, k: nat, st: nat)
    requires st <= 3 && st <= k < |t| && t[k] != MAGIC[st]
    requires forall j :: 0 <= j < st ==> t[k - st + j] == MAGIC[j]
    ensures forall i :: k - st <= i < k ==> !MagicAt(t, i)
    ensures t[k] != 0xEF ==> !MagicAt(t, k)
  {
    forall i | k - st <= i <= k && (i < k || t[k] != 0xEF)
      ensures !MagicAt(t, i)
    {
      MagicOctets(t, i);
      if i + 4 <= |t| {
        var d := i - (k - st);
        if d == 0 {
          assert t[i + st] != MAGIC[st];
        } else {
          assert d < st ==> t[k - st + d] == MAGIC[d];
          assert t[i + 0] != MAGIC[0];
        }
      }
    }
  }

  lemma {:induction false} NearTheEnd(t: seq<Byte>, from: nat, stale: Byte, early: bool)
    requires from <= |t| < from + HEAD
    ensures Search(t, from, stale, early) == None
  {
  }

  lemma RestartKnows(t: seq<Byte>, k: nat, at: nat, sc: Scan, early: bool)
    requires Knows(t, k, at, sc, early)
    ensures sc.Valid() && Knows(t, k, at, Restarted(sc), early) && Restarted(sc).status <= sc.status
  {
    hide Search;
  }

  /** An octet of the start flag, or one that is not. */
  lemma FlagStep(t: seq<Byte>, k: nat, at: nat, sc: Scan, early: bool)
    requires k < |t| && Knows(t, k, at, sc, early) && !sc.reset && sc.status <= 3
    ensures Knows(t, k + 1, at, Advance(sc, t[k], early), early)
  {
    hide Search, MagicAt;
    var st := sc.status;
    if t[k] != MAGIC[st] {
      MismatchRulesOut(t, k, st);
    }
  }

  /** The start flag is complete: this is the first header since `at`. */
  lemma FirstHeader(t: seq<Byte>, k: nat, at: nat, sc: Scan, early: bool)
    requires k < |t| && Knows(t, k, at, sc, early) && !sc.reset && 4 <= sc.status <= 5
    ensures var p := k - sc.status; p >= at && p + 4 <= |t| && FindMagic(t, at) == p
  {
    hide Search;
    var p := k - sc.status;
    MagicOctets(t, p);
    FindSkips(t, at, p);
  }

  /** The low octet of the size. */
  lemma LowSizeStep(t: seq<Byte>, k: nat, at: nat, sc: Scan, early: bool) returns (next: nat)
    requires k < |t| && Knows(t, k, at, sc, early) && !sc.reset && sc.status == 4
    ensures Knows(t, k + 1, next, Advance(sc, t[k], early), early)
  {
    hide MagicAt, Size;
    FirstHeader(t, k, at, sc, early);
    if early && Size(t[k], sc.head[5]) > PAYLOAD_MAX {
      next := k + 1;
      LowSizeRejected(t, at, sc.head[5]);
    } else {
      next := at;
    }
  }

  lemma LowSizeRejected(t: seq<Byte>, at: nat, stale: Byte)
    requires at <= |t| && FindMagic(t, at) + 5 <= |t|
    requires Size(t[FindMagic(t, at) + 4], stale) > PAYLOAD_MAX
    ensures Search(t, at, stale, true) == Search(t, FindMagic(t, at) + 5, stale, true)
  {
    hide FindMagic, Size;
    var i := FindMagic(t, at);
    if i + HEAD > |t| {
      NearTheEnd(t, i + 5, stale, true);
    }
  }

  /** The high octet of the size: the header stands, or the search goes on behind it. */
  lemma HighSizeStep(t: seq<Byte>, k: nat, at: nat, sc: Scan, early: bool) returns (next: nat)
    requires k < |t| && Knows(t, k, at, sc, early) && !sc.reset && sc.status == 5
    ensures Knows(t, k + 1, next, Advance(sc, t[k], early), early)
  {
    hide MagicAt, Size;
    FirstHeader(t, k, at, sc, early);
    SizeSettles(t, at, sc.head[5], early);
    next := if Size(sc.head[4], t[k]) > PAYLOAD_MAX then k + 1 else k - 5;
    assert t[k - 5 + 4] == sc.head[4];
  }

  lemma SizeSettles(t: seq<Byte>, at: nat, stale: Byte, early: bool)
    requires at <= |t| && FindMagic(t, at) + 6 <= |t|
    requires early ==> Size(t[FindMagic(t, at) + 4], stale) <= PAYLOAD_MAX
    ensures var i := FindMagic(t, at);
      Search(t, at, stale, early) ==
      if Size(t[i + 4], t[i + 5]) > PAYLOAD_MAX then Search(t, i + 6, t[i + 5], early)
      else if i + HEAD <= |t| then Some(i) else None
  {
    hide FindMagic, Size;
    var i := FindMagic(t, at);
    if i + HEAD > |t| {
      NearTheEnd(t, i + 6, t[i + 5], early);
    }
  }

  /** Type and pad. */
  lemma TailStep(t: seq<Byte>, k: nat, at: nat, sc: Scan, early: bool)
    requires k < |t| && Knows(t, k, at, sc, early) && 6 <= sc.status < HEAD
    ensures !sc.reset && Knows(t, k + 1, at, Advance(sc, t[k], early), early)
  {
    hide Search, MagicAt, Size;
  }

  lemma StepKnows(t: seq<Byte>, k: nat, at: nat, sc: Scan, early: bool) returns (next: nat)
    requires k < |t| && Knows(t, k, at, sc, early) && sc.status < HEAD
    ensures Knows(t, k + 1, next, Step(sc, t[k], early), early)
  {
    hide Search, MagicAt, Size, Knows, Advance;
    RestartKnows(t, k, at, sc, early);
    var r := Restarted(sc);
    next := at;
    if r.status <= 3 {
      FlagStep(t, k, at, r, early);
    } else if r.status == 4 {
      next := LowSizeStep(t, k, at, r, early);
    } else if r.status == 5 {
      next := HighSizeStep(t, k, at, r, early);
    } else {
      TailStep(t, k, at, r, early);
    }
  }
}
