/** Binary polynomials and the CRC division register, bit by bit (XMODEM/YMODEM Protocol Reference,
    section 8.1). A polynomial is its coefficient string, highest power first. */
module CrcAlgebra {

  type Bits = seq<bool>

  function Zeros(n: nat): (z: Bits)
    ensures |z| == n && forall i :: 0 <= i < n ==> !z[i]
  {
    seq(n, _ => false)
  }

  /** Addition of polynomials of equal length. */
  function Xor(a: Bits, b: Bits): (c: Bits)
    requires |a| == |b|
    ensures |c| == |a| && forall i :: 0 <= i < |a| ==> c[i] == (a[i] != b[i])
  {
    seq(|a|, i requires 0 <= i < |a| => a[i] != b[i])
  }

  /** x^16 + x^12 + x^5 + 1, and the same without its leading term. */
  const TAPS: Bits := [false, false, false, true, false, false, false, false,
                       false, false, true, false, false, false, false, true]
  const GENERATOR: Bits := [true] + TAPS

  /** One clock of the division register: `b` is added at the top, then the register shifts out its top bit. */
  function Clock(r: Bits, b: bool): (s: Bits)
    requires |r| == 16
    ensures |s| == 16
  {
    var shifted := r[1..] + [false];
    if r[0] != b then Xor(shifted, TAPS) else shifted
  }

  function ClockAll(r: Bits, bits: Bits): (s: Bits)
    requires |r| == 16
    ensures |s| == 16
    decreases |bits|
  {
    if bits == [] then r else ClockAll(Clock(r, bits[0]), bits[1..])
  }

  lemma {:induction false} ClockAllConcat(r: Bits, a: Bits, b: Bits)
    requires |r| == 16
    ensures ClockAll(r, a + b) == ClockAll(ClockAll(r, a), b)
    decreases |a|
  {
    if a == [] {
      assert a + b == b;
    } else {
      assert (a + b)[1..] == a[1..] + b;
      ClockAllConcat(Clock(r, a[0]), a[1..], b);
    }
  }

  // Linearity -----------------------------------------------------------------------------------

  lemma ClockLinear(r: Bits, s: Bits, a: bool, b: bool)
    requires |r| == |s| == 16
    ensures Clock(Xor(r, s), a != b) == Xor(Clock(r, a), Clock(s, b))
  {
  }

  lemma {:induction false} ClockAllLinear(r: Bits, s: Bits, a: Bits, b: Bits)
    requires |r| == |s| == 16 && |a| == |b|
    ensures ClockAll(Xor(r, s), Xor(a, b)) == Xor(ClockAll(r, a), ClockAll(s, b))
    decreases |a|
  {
    if a != [] {
      ClockLinear(r, s, a[0], b[0]);
      assert Xor(a, b)[1..] == Xor(a[1..], b[1..]);
      ClockAllLinear(Clock(r, a[0]), Clock(s, b[0]), a[1..], b[1..]);
    }
  }

  lemma {:induction false} ZeroStaysZero(n: nat)
    ensures ClockAll(Zeros(16), Zeros(n)) == Zeros(16)
  {
    if n > 0 {
      assert Clock(Zeros(16), false) == Zeros(16);
      assert Zeros(n)[1..] == Zeros(n - 1);
      ZeroStaysZero(n - 1);
    }
  }

  // Bursts --------------------------------------------------------------------------------------

  /** Undoing clocks: with fewer than 17 arbitrary bits to come, a register that ends at zero
      has had nothing in its low end. */
  lemma {:induction false} ZeroAfterwards(r: Bits, w: Bits)
    requires |r| == 16 && |w| <= 16
    requires ClockAll(r, w) == Zeros(16)
    ensures forall i :: |w| <= i < 16 ==> !r[i]
    decreases |w|
  {
    if w != [] {
      var s := Clock(r, w[0]);
      ZeroAfterwards(s, w[1..]);
      assert !s[15];
      assert TAPS[15];
      assert s == r[1..] + [false];
      forall i | |w| <= i < 16
        ensures !r[i]
      {
        assert s[i - 1] == r[i];
      }
    }
  }

  lemma OnlyZeroClearsToZero(r: Bits)
    requires |r| == 16 && Clock(r, false) == Zeros(16)
    ensures r == Zeros(16)
  {
    var s := Clock(r, false);
    assert !s[15] && TAPS[15];
    assert s == r[1..] + [false];
    assert forall i :: 1 <= i < 16 ==> r[i] == s[i - 1];
  }

  /** A clock without input can be undone, so a nonzero register stays nonzero. */
  lemma {:induction false} NonzeroStaysNonzero(r: Bits, n: nat)
    requires |r| == 16 && r != Zeros(16)
    ensures ClockAll(r, Zeros(n)) != Zeros(16)
    decreases n
  {
    if n > 0 {
      if Clock(r, false) == Zeros(16) {
        OnlyZeroClearsToZero(r);
        assert false;
      }
      assert Zeros(n)[1..] == Zeros(n - 1);
      NonzeroStaysNonzero(Clock(r, false), n - 1);
    }
  }

  lemma XorSelf(r: Bits, s: Bits)
    requires |r| == |s|
    ensures r == s ==> Xor(r, s) == Zeros(|r|)
  {
  }

  /** The start value is never forgotten: over any message, different ones end differently. */
  lemma SeedsStayApart(r: Bits, s: Bits, a: Bits)
    requires |r| == |s| == 16 && r != s
    ensures ClockAll(r, a) != ClockAll(s, a)
  {
    var i :| 0 <= i < 16 && r[i] != s[i];
    assert Xor(r, s)[i];
    XorSelf(a, a);
    ClockAllLinear(r, s, a, a);
    NonzeroStaysNonzero(Xor(r, s), |a|);
    XorSelf(ClockAll(r, a), ClockAll(s, a));
  }

  /** The bits that differ lie in a window of `width` consecutive positions starting at `from`. */
  ghost predicate DifferOnlyInWindow(a: Bits, b: Bits, from: nat, width: nat)
  {
    |a| == |b| && from + width <= |a| &&
    forall i :: 0 <= i < |a| && a[i] != b[i] ==> from <= i < from + width
  }

  lemma {:induction false} WindowNeverCancels(w: Bits, i: nat)
    requires i < |w| <= 16 && w[i]
    ensures ClockAll(Zeros(16), w) != Zeros(16)
    decreases |w|
  {
    var s := Clock(Zeros(16), w[0]);
    if w[0] {
      assert s[15] == TAPS[15];
      if ClockAll(Zeros(16), w) == Zeros(16) {
        ZeroAfterwards(s, w[1..]);
        assert false;
      }
    } else {
      assert s == Zeros(16);
      WindowNeverCancels(w[1..], i - 1);
    }
  }

  /** Two different messages of one length that differ only inside a window of at most 16 bits
      leave different remainders, whatever the length and wherever the window is. */
  lemma BurstDetected(seed: Bits, a: Bits, b: Bits, from: nat, width: nat)
    requires |seed| == 16 && width <= 16
    requires DifferOnlyInWindow(a, b, from, width)
    requires a != b
    ensures ClockAll(seed, a) != ClockAll(seed, b)
  {
    var d := Xor(a, b);
    var w := d[from..from + width];
    var rest := |a| - from - width;
    assert d == Zeros(from) + w + Zeros(rest);
    var i :| 0 <= i < |a| && a[i] != b[i];
    assert w[i - from];
    ZeroStaysZero(from);
    ClockAllConcat(Zeros(16), Zeros(from), w);
    ClockAllConcat(Zeros(16), Zeros(from) + w, Zeros(rest));
    WindowNeverCancels(w, i - from);
    NonzeroStaysNonzero(ClockAll(Zeros(16), w), rest);
    ClockAllLinear(seed, seed, a, b);
    XorSelf(seed, seed);
    XorSelf(ClockAll(seed, a), ClockAll(seed, b));
  }

  /** Feeding a register its own leading bits only shifts it; all 16 of them clear it. */
  lemma {:induction false} OwnBitsShift(r: Bits, n: nat)
    requires |r| == 16 && n <= 16
    ensures ClockAll(r, r[..n]) == r[n..] + Zeros(n)
    decreases n
  {
    if n == 0 {
      assert r[0..] + Zeros(0) == r;
    } else {
      var m := n - 1;
      OwnBitsShift(r, m);
      assert r[..n] == r[..m] + [r[m]];
      ClockAllConcat(r, r[..m], [r[m]]);
      var s := r[m..] + Zeros(m);
      assert s[0] == r[m];
      assert Clock(s, r[m]) == s[1..] + [false] == r[n..] + Zeros(n);
    }
  }

  /** Eight message bits act through the top half of the register; the low half is only shifted. */
  lemma EightBitsAtOnce(r: Bits, c: Bits)
    requires |r| == 16 && |c| == 8
    ensures ClockAll(r, c) == Xor(ClockAll(Xor(r[..8], c) + Zeros(8), Zeros(8)), r[8..] + Zeros(8))
  {
    var u, v := Xor(r[..8], c) + Zeros(8), c + r[8..];
    assert Xor(u, v) == r;
    assert Xor(Zeros(8), c) == c;
    ClockAllLinear(u, v, Zeros(8), c);
    assert v[..8] == c && v[8..] == r[8..];
    OwnBitsShift(v, 8);
  }

  // The register computes the remainder of polynomial division ----------------------------------

  /** The product of `q` and the generator, by shifting and adding. */
  function TimesGenerator(q: Bits): (p: Bits)
    ensures |p| == |q| + 16
    decreases |q|
  {
    if q == [] then Zeros(16)
    else
      var n := |q| - 1;
      Xor(TimesGenerator(q[..n]) + [false], Zeros(n) + (if q[n] then GENERATOR else Zeros(17)))
  }

  /** `r` is a remainder of `m` * x^16 on division by the generator. */
  ghost predicate IsRemainder(m: Bits, r: Bits)
  {
    |r| == 16 && exists q: Bits :: |q| == |m| && m + Zeros(16) == Xor(TimesGenerator(q), Zeros(|m|) + r)
  }

  lemma {:induction false} RegisterIsRemainder(m: Bits)
    ensures IsRemainder(m, ClockAll(Zeros(16), m))
  {
    var q := Quotient(m);
  }

  lemma {:induction false} Quotient(m: Bits) returns (q: Bits)
    ensures |q| == |m|
    ensures m + Zeros(16) == Xor(TimesGenerator(q), Zeros(|m|) + ClockAll(Zeros(16), m))
    decreases |m|
  {
    hide Clock, ClockAll, TimesGenerator, Subtrahend;
    if m == [] {
      q := [];
      NoBits();
    } else {
      var n := |m| - 1;
      var m', b := m[..n], m[n];
      var q' := Quotient(m');
      var r := ClockAll(Zeros(16), m');
      assert m == m' + [b];
      ClockOneMore(m', b);
      q := q' + [r[0] != b];
      TimesGeneratorOneMore(q', r, b);
      DivisionStep(m', b, TimesGenerator(q'), r);
    }
  }

  lemma NoBits()
    ensures TimesGenerator([]) == Zeros(16) && ClockAll(Zeros(16), []) == Zeros(16)
  {
  }

  lemma ClockOneMore(m: Bits, b: bool)
    ensures ClockAll(Zeros(16), m + [b]) == Clock(ClockAll(Zeros(16), m), b)
  {
    hide Clock;
    ClockAllConcat(Zeros(16), m, [b]);
    assert [b][1..] == [];
  }

  lemma TimesGeneratorOneMore(q: Bits, r: Bits, b: bool)
    requires |r| == 16
    ensures TimesGenerator(q + [r[0] != b]) == Xor(TimesGenerator(q) + [false], Zeros(|q|) + Subtrahend(r, b))
  {
    var p := q + [r[0] != b];
    assert p[..|q|] == q && p[|q|] == (r[0] != b);
  }

  /** The multiple of the generator subtracted in one step of long division. */
  function Subtrahend(r: Bits, b: bool): (g: Bits)
    requires |r| == 16
    ensures |g| == 17
  {
    if r[0] != b then GENERATOR else Zeros(17)
  }

  /** Bringing down one more bit and clocking the register keep `message = multiple + register`. */
  lemma DivisionStep(m: Bits, b: bool, p: Bits, r: Bits)
    requires |p| == |m| + 16 && |r| == 16
    requires m + Zeros(16) == Xor(p, Zeros(|m|) + r)
    ensures m + [b] + Zeros(16)
            == Xor(Xor(p + [false], Zeros(|m|) + Subtrahend(r, b)), Zeros(|m| + 1) + Clock(r, b))
  {
    var n := |m|;
    var g, c := Subtrahend(r, b), Clock(r, b);
    var product := Xor(p + [false], Zeros(n) + g);
    var whole := Xor(product, Zeros(n + 1) + c);
    var longer := m + [b] + Zeros(16);
    StepOfRegister(r, b);
    forall i | 0 <= i < n + 17
      ensures whole[i] == longer[i]
    {
      if i < n + 16 {
        assert (m + Zeros(16))[i] == (p[i] != (Zeros(n) + r)[i]);
      }
      if i >= n {
        assert (Zeros(n) + g)[i] == g[i - n];
        assert (Zeros(n + 1) + c)[i] == ([false] + c)[i - n];
      }
    }
  }

  lemma StepOfRegister(r: Bits, b: bool)
    requires |r| == 16
    ensures forall j :: 0 <= j < 17 ==>
      (Subtrahend(r, b)[j] != ([false] + Clock(r, b))[j]) == ((r + [false])[j] != ([b] + Zeros(16))[j])
  {
    var top := r[0] != b;
    var taps := if top then TAPS else Zeros(16);
    var shifted := r[1..] + [false];
    assert Subtrahend(r, b) == [top] + taps;
    assert Clock(r, b) == Xor(shifted, taps);
  }

  lemma {:induction false} TimesGeneratorLinear(p: Bits, q: Bits)
    requires |p| == |q|
    ensures TimesGenerator(Xor(p, q)) == Xor(TimesGenerator(p), TimesGenerator(q))
    decreases |p|
  {
    if p != [] {
      var n := |p| - 1;
      assert Xor(p, q)[..n] == Xor(p[..n], q[..n]);
      TimesGeneratorLinear(p[..n], q[..n]);
    }
  }

  /** A nonzero multiple of the generator has a term of degree 16 or more. */
  lemma {:induction false} MultipleReachesDegree16(q: Bits)
    requires forall i :: 0 <= i < |q| ==> !TimesGenerator(q)[i]
    ensures q == Zeros(|q|) && TimesGenerator(q) == Zeros(|q| + 16)
    decreases |q|
  {
    if q != [] {
      var n := |q| - 1;
      var p := TimesGenerator(q[..n]);
      assert forall i :: 0 <= i < n ==> TimesGenerator(q)[i] == p[i];
      MultipleReachesDegree16(q[..n]);
      assert TimesGenerator(q)[n] == q[n];
      assert q == q[..n] + [q[n]];
    }
  }

  /** The remainder is unique, so `ClockAll` computes the remainder. */
  lemma RemainderUnique(m: Bits, r: Bits, s: Bits)
    requires IsRemainder(m, r) && IsRemainder(m, s)
    ensures r == s
  {
    var p :| |p| == |m| && m + Zeros(16) == Xor(TimesGenerator(p), Zeros(|m|) + r);
    var q :| |q| == |m| && m + Zeros(16) == Xor(TimesGenerator(q), Zeros(|m|) + s);
    var n := |m|;
    TimesGeneratorLinear(p, q);
    var d := TimesGenerator(Xor(p, q));
    forall i | 0 <= i < n + 16
      ensures d[i] == (i >= n && r[i - n] != s[i - n])
    {
      assert (m + Zeros(16))[i] == (TimesGenerator(p)[i] != (Zeros(n) + r)[i]);
      assert (m + Zeros(16))[i] == (TimesGenerator(q)[i] != (Zeros(n) + s)[i]);
    }
    MultipleReachesDegree16(Xor(p, q));
    forall j | 0 <= j < 16
      ensures r[j] == s[j]
    {
      assert !d[n + j];
    }
  }

  /** The remainder is what the register holds, and nothing else. */
  lemma RemainderIff(m: Bits, r: Bits)
    ensures IsRemainder(m, r) <==> r == ClockAll(Zeros(16), m)
  {
    RegisterIsRemainder(m);
    if IsRemainder(m, r) {
      RemainderUnique(m, r, ClockAll(Zeros(16), m));
    }
  }
}
