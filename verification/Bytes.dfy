/** Octets as the C sources see them, and their passage to and from unbounded numbers. */
module Bytes {

  type Byte = bv8

  datatype Option<+T> = None | Some(value: T)

  /** The low eight bits of `n`: what storing a counter into a `uint8_t` keeps. */
  function Low8(n: nat): Byte {
    if n == 0 then 0 else Low8(n - 1) + 1
  }

  /** The number an octet stands for. */
  function Nat(b: Byte): nat
    decreases b
  {
    if b == 0 then 0 else Nat(b - 1) + 1
  }

  lemma PredAsInt(b: Byte)
    requires b != 0
    ensures (b - 1) as int + 1 == b as int
  {
  }

  lemma {:induction false} NatAsInt(b: Byte)
    ensures Nat(b) == b as int
    decreases b
  {
    if b != 0 {
      NatAsInt(b - 1);
      PredAsInt(b);
    }
  }

  lemma NatBound(b: Byte)
    ensures Nat(b) < 256
    ensures b == 0xFF <==> Nat(b) == 255
  {
    NatAsInt(b);
  }

  lemma {:induction false} Low8IsMod256(n: nat)
    ensures Nat(Low8(n)) == n % 256
  {
    if n > 0 {
      Low8IsMod256(n - 1);
      var p := Low8(n - 1);
      NatBound(p);
      assert Low8(n) == p + 1;
      if p != 0xFF {
        assert p + 1 - 1 == p && p + 1 != 0;
        assert Nat(p + 1) == Nat(p) + 1;
      }
    }
  }

  lemma {:induction false} NatInjective(a: Byte, b: Byte)
    requires Nat(a) == Nat(b)
    ensures a == b
    decreases a
  {
    if a != 0 && b != 0 {
      NatInjective(a - 1, b - 1);
      assert a - 1 + 1 == b - 1 + 1;
    }
  }

  /** Storing a byte's own number gives the byte back. */
  lemma Low8OfNat(b: Byte)
    ensures Low8(Nat(b)) == b
  {
    Low8IsMod256(Nat(b));
    NatBound(b);
    NatInjective(Low8(Nat(b)), b);
  }

  /** Two counters agree in their low byte exactly when they agree modulo 256. */
  lemma Low8Equal(m: nat, n: nat)
    ensures Low8(m) == Low8(n) <==> m % 256 == n % 256
  {
    Low8IsMod256(m);
    Low8IsMod256(n);
    if m % 256 == n % 256 {
      NatInjective(Low8(m), Low8(n));
    }
  }

  /** Little-endian fields of two and four octets. */
  function Le16(n: nat): (s: seq<Byte>)
    ensures |s| == 2
  {
    [Low8(n), Low8(n / 256)]
  }

  function Le32(n: nat): (s: seq<Byte>)
    ensures |s| == 4
  {
    [Low8(n), Low8(n / 0x100), Low8(n / 0x1_0000), Low8(n / 0x100_0000)]
  }

  function FromLe16(s: seq<Byte>): nat
    requires |s| == 2
  {
    Nat(s[0]) + 0x100 * Nat(s[1])
  }

  function FromLe32(s: seq<Byte>): nat
    requires |s| == 4
  {
    Nat(s[0]) + 0x100 * Nat(s[1]) + 0x1_0000 * Nat(s[2]) + 0x100_0000 * Nat(s[3])
  }

  lemma Le16RoundTrip(n: nat)
    requires n < 0x1_0000
    ensures FromLe16(Le16(n)) == n
  {
    Low8IsMod256(n);
    Low8IsMod256(n / 256);
  }

  lemma FourDigits(n: nat)
    requires n < 0x1_0000_0000
    ensures n == n % 0x100 + 0x100 * (n / 0x100 % 0x100) + 0x1_0000 * (n / 0x1_0000 % 0x100)
      + 0x100_0000 * (n / 0x100_0000 % 0x100)
  {
    var a, b := n / 0x100, n / 0x1_0000;
    assert b == a / 0x100 && n / 0x100_0000 == b / 0x100;
  }

  lemma Le32RoundTrip(n: nat)
    requires n < 0x1_0000_0000
    ensures FromLe32(Le32(n)) == n
  {
    hide Low8, Nat;
    Low8IsMod256(n);
    Low8IsMod256(n / 0x100);
    Low8IsMod256(n / 0x1_0000);
    Low8IsMod256(n / 0x100_0000);
    FourDigits(n);
  }
}
