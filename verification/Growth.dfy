/** The arithmetic of buffer growth: rounding a size up by smearing its bits. */
module Growth {

  const WORD := 0x1_0000_0000_0000_0000

  function Pow2(n: nat): (p: nat)
    ensures p >= 1
  {
    if n == 0 then 1 else 2 * Pow2(n - 1)
  }

  ghost predicate IsPow2(x: nat) { exists n: nat :: x == Pow2(n) }

  // ---------------------------------------------------------------- bits

  /** Bit i of x. */
  predicate Bit(x: nat, i: nat) {
    if i == 0 then x % 2 == 1 else Bit(x / 2, i - 1)
  }

  /** x | y on unsigned words. */
  function Or(x: nat, y: nat): nat {
    if x == 0 && y == 0 then 0 else 2 * Or(x / 2, y / 2) + if x % 2 == 1 || y % 2 == 1 then 1 else 0
  }

  /** x >> k on unsigned words. */
  function Shr(x: nat, k: nat): nat {
    if k == 0 then x else Shr(x / 2, k - 1)
  }

  lemma {:induction false} BitOfZero(i: nat)
    ensures !Bit(0, i)
  {
    if i > 0 { BitOfZero(i - 1); }
  }

  lemma {:induction false} BitOfOr(x: nat, y: nat, i: nat)
    ensures Bit(Or(x, y), i) <==> Bit(x, i) || Bit(y, i)
  {
    if x == 0 && y == 0 {
      BitOfZero(i);
    } else if i > 0 {
      BitOfOr(x / 2, y / 2, i - 1);
    }
  }

  lemma {:induction false} BitOfShr(x: nat, k: nat, i: nat)
    ensures Bit(Shr(x, k), i) <==> Bit(x, i + k)
  {
    if k > 0 { BitOfShr(x / 2, k - 1, i); }
  }

  lemma {:induction false} OrAtLeast(x: nat, y: nat)
    ensures Or(x, y) >= x
    decreases x + y
  {
    if x + y > 0 { OrAtLeast(x / 2, y / 2); }
  }

  /** No bit at n or above. */
  ghost predicate NoBitFrom(x: nat, n: nat) { forall i: nat | i >= n :: !Bit(x, i) }

  lemma {:induction false} BelowPow2(x: nat, n: nat)
    ensures x < Pow2(n) <==> NoBitFrom(x, n)
    decreases n
  {
    if n == 0 {
      if x == 0 {
        forall i: nat ensures !Bit(x, i) { BitOfZero(i); }
      } else {
        var i := SomeBit(x);
      }
    } else {
      BelowPow2(x / 2, n - 1);
      if NoBitFrom(x / 2, n - 1) {
        forall i: nat | i >= n ensures !Bit(x, i) { assert !Bit(x / 2, i - 1); }
      } else {
        var i: nat :| i >= n - 1 && Bit(x / 2, i);
        assert Bit(x, i + 1);
      }
    }
  }

  lemma {:induction false} SomeBit(x: nat) returns (i: nat)
    requires x > 0
    ensures Bit(x, i)
  {
    if x % 2 == 1 { i := 0; } else { var j := SomeBit(x / 2); i := j + 1; }
  }

  /** Exactly the bits lo..hi - 1 are set. */
  ghost predicate IsRun(x: nat, lo: nat, hi: nat) { forall i: nat :: Bit(x, i) <==> lo <= i < hi }

  lemma {:induction false} RunValue(x: nat, lo: nat, hi: nat)
    requires lo <= hi && IsRun(x, lo, hi)
    ensures x == Pow2(hi) - Pow2(lo)
    decreases hi
  {
    if hi == 0 {
      BelowPow2(x, 0);
    } else {
      var lo' := if lo == 0 then 0 else lo - 1;
      forall i: nat ensures Bit(x / 2, i) <==> lo' <= i < hi - 1 { assert Bit(x / 2, i) == Bit(x, i + 1); }
      RunValue(x / 2, lo', hi - 1);
      assert Bit(x, 0) <==> lo <= 0 < hi;
    }
  }

  // ---------------------------------------------------------------- smearing

  function Smear(x: nat, k: nat): nat { Or(x, Shr(x, k)) }

  /** The unsigned word one less, which wraps at zero. */
  function Pred(x: nat): nat { if x == 0 then WORD - 1 else x - 1 }

  /** The source's rounding, one masked shift after the other. */
  method NextPOTSize(size: nat) returns (x: nat)
    requires size < WORD
    ensures x == Rounded(size)
  {
    x := Pred(size);
    x := Or(x, Shr(x, 1));
    x := Or(x, Shr(x, 2));
    x := Or(x, Shr(x, 4));
    x := Or(x, Shr(x, 8));
    x := Or(x, Shr(x, 16));
    x := (x + 1) % WORD;
  }

  function Smeared(x: nat): nat { Smear(Smear(Smear(Smear(Smear(x, 1), 2), 4), 8), 16) }

  function Rounded(size: nat): nat
    requires size < WORD
  {
    (Smeared(Pred(size)) + 1) % WORD
  }

  /** No bit at hi or above, and the t bits below hi (or all of them) set. */
  ghost predicate TopOnes(x: nat, hi: nat, t: nat) {
    && NoBitFrom(x, hi)
    && (forall i: nat | i < hi <= i + t :: Bit(x, i))
  }

  lemma SmearDoubles(x: nat, hi: nat, t: nat)
    requires TopOnes(x, hi, t)
    ensures TopOnes(Smear(x, t), hi, 2 * t)
  {
    hide Bit;
    forall i: nat | i >= hi ensures !Bit(Smear(x, t), i) {
      SmearBit(x, t, i);
    }
    forall i: nat | i < hi <= i + 2 * t ensures Bit(Smear(x, t), i) {
      SmearBit(x, t, i);
      if hi > i + t { assert i + t < hi <= (i + t) + t; }
    }
  }

  lemma SmearBit(x: nat, t: nat, i: nat)
    ensures Bit(Smear(x, t), i) <==> Bit(x, i) || Bit(x, i + t)
  {
    BitOfOr(x, Shr(x, t), i);
    BitOfShr(x, t, i);
  }

  lemma SmearedTop(x: nat, hi: nat)
    requires TopOnes(x, hi, 1)
    ensures TopOnes(Smeared(x), hi, 32)
  {
    hide TopOnes, Smear;
    SmearDoubles(x, hi, 1);
    SmearDoubles(Smear(x, 1), hi, 2);
    SmearDoubles(Smear(Smear(x, 1), 2), hi, 4);
    SmearDoubles(Smear(Smear(Smear(x, 1), 2), 4), hi, 8);
    SmearDoubles(Smear(Smear(Smear(Smear(x, 1), 2), 4), 8), hi, 16);
  }

  lemma SmearedAtLeast(x: nat)
    ensures Smeared(x) >= x
  {
    var a := Smear(x, 1);
    var b := Smear(a, 2);
    var c := Smear(b, 4);
    var d := Smear(c, 8);
    OrAtLeast(x, Shr(x, 1));
    OrAtLeast(a, Shr(a, 2));
    OrAtLeast(b, Shr(b, 4));
    OrAtLeast(c, Shr(c, 8));
    OrAtLeast(d, Shr(d, 16));
  }

  /** The length of x in bits: its top bit sits just below. */
  lemma {:induction false} TopBit(x: nat, limit: nat) returns (hi: nat)
    requires x < Pow2(limit)
    ensures hi <= limit && TopOnes(x, hi, 1) && x < Pow2(hi) && (hi > 0 ==> Pow2(hi - 1) <= x)
    decreases limit
  {
    if limit > 0 && x < Pow2(limit - 1) {
      hi := TopBit(x, limit - 1);
    } else {
      hi := limit;
      BelowPow2(x, hi);
      if hi > 0 {
        BelowPow2(x, hi - 1);
        var i: nat :| i >= hi - 1 && Bit(x, i);
        assert !(i >= hi);
      }
    }
  }

  lemma Pow2Zero()
    ensures Pow2(0) == 1
  {
  }

  lemma Pow2Double(n: nat)
    ensures Pow2(n + 1) == 2 * Pow2(n)
  {
  }

  lemma {:induction false} Pow2Monotone(m: nat, n: nat)
    requires m <= n
    ensures Pow2(m) <= Pow2(n)
  {
    if m < n { Pow2Monotone(m, n - 1); }
  }

  lemma Doubled(a: nat, b: nat)
    ensures 2 * (a * b) == (2 * a) * b
  {
  }

  lemma {:induction false} Pow2Add(m: nat, n: nat)
    ensures Pow2(m + n) == Pow2(m) * Pow2(n)
  {
    if m > 0 {
      Pow2Add(m - 1, n);
      Pow2Double(m - 1);
      Pow2Double(m - 1 + n);
      hide Pow2;
      Doubled(Pow2(m - 1), Pow2(n));
    } else {
      Pow2Zero();
    }
  }

  lemma Pow2Square(n: nat, value: nat)
    requires Pow2(n) == value
    ensures Pow2(2 * n) == value * value
  {
    Pow2Add(n, n);
  }

  lemma Pow2Values()
    ensures Pow2(32) == 0x1_0000_0000 && Pow2(33) == 0x2_0000_0000
    ensures Pow2(63) == 0x8000_0000_0000_0000 && Pow2(64) == WORD
  {
    assert Pow2(4) == 16 by { assert Pow2(2) == 4; }
    hide Pow2;
    Pow2Square(4, 16);
    Pow2Square(8, 0x100);
    Pow2Square(16, 0x1_0000);
    Pow2Square(32, 0x1_0000_0000);
    Pow2Double(63);
    Pow2Double(32);
  }

  /** Up to 2^32 the result is the least power of two not below the argument. */
  lemma RoundedIsLeastPow2(size: nat)
    requires 1 <= size <= 0x1_0000_0000
    ensures IsPow2(Rounded(size)) && size <= Rounded(size) < 2 * size
    ensures forall n: nat :: size <= Pow2(n) ==> Rounded(size) <= Pow2(n)
  {
    hide Pow2, Smeared, Bit;
    Pow2Values();
    var x := size - 1;
    var hi := TopBit(x, 32);
    SmearedTop(x, hi);
    var y := Smeared(x);
    assert IsRun(y, 0, hi);
    RunValue(y, 0, hi);
    Pow2Monotone(hi, 32);
    Pow2Zero();
    assert Rounded(size) == Pow2(hi);
    assert hi > 0 ==> Pow2(hi) == 2 * Pow2(hi - 1) by { if hi > 0 { Pow2Double(hi - 1); } }
    forall n: nat | size <= Pow2(n) ensures Pow2(hi) <= Pow2(n) {
      if n < hi { Pow2Monotone(n, hi - 1); }
      else { Pow2Monotone(hi, n); }
    }
  }

  /** Up to 2^63 the result is at least the argument, so a buffer that must grow does grow. */
  lemma RoundedAtLeast(size: nat)
    requires 1 <= size <= 0x8000_0000_0000_0000
    ensures size <= Rounded(size) <= 0x8000_0000_0000_0000
  {
    hide Pow2, Smeared, Bit;
    Pow2Values();
    var x := size - 1;
    SmearedAtLeast(x);
    var hi := TopBit(x, 63);
    SmearedTop(x, hi);
    BelowPow2(Smeared(x), hi);
    Pow2Monotone(hi, 63);
  }

  /** Zero is rounded to zero; above 2^63 the result is at least the argument or has wrapped to zero. */
  lemma RoundedWraps(size: nat)
    requires size < WORD && (size == 0 || size > 0x8000_0000_0000_0000)
    ensures size <= Rounded(size) || Rounded(size) == 0
    ensures size == 0 ==> Rounded(size) == 0
  {
    hide Pow2, Smeared, Bit;
    Pow2Values();
    var x := Pred(size);
    SmearedAtLeast(x);
    var hi := TopBit(x, 64);
    SmearedTop(x, hi);
    BelowPow2(Smeared(x), hi);
    Pow2Monotone(hi, 64);
  }

  /** The bound 2^32 is sharp: the smallest argument above it fails. */
  lemma RoundedFailsAbove()
    ensures Rounded(0x1_0000_0001) == 0x1_FFFF_FFFF
    ensures !IsPow2(Rounded(0x1_0000_0001))
  {
    hide Pow2, Bit, Smear, IsRun;
    Pow2Values();
    var x := 0x1_0000_0000;
    Pow2Bits(32);
    var a := Smear(x, 1);
    var b := Smear(a, 2);
    var c := Smear(b, 4);
    var d := Smear(c, 8);
    RunSmears(x, 32, 33, 1);
    RunSmears(a, 31, 33, 2);
    RunSmears(b, 29, 33, 4);
    RunSmears(c, 25, 33, 8);
    RunSmears(d, 17, 33, 16);
    RunValue(Smeared(x), 1, 33);
    Pow2Zero();
    Pow2Double(0);
    forall n: nat ensures Pow2(n) != 0x1_FFFF_FFFF {
      if n <= 32 { Pow2Monotone(n, 32); } else { Pow2Monotone(33, n); }
    }
  }

  lemma RunSmears(x: nat, lo: nat, hi: nat, t: nat)
    requires t <= lo && lo + t <= hi && IsRun(x, lo, hi)
    ensures IsRun(Smear(x, t), lo - t, hi)
  {
    forall i: nat ensures Bit(Smear(x, t), i) <==> lo - t <= i < hi {
      SmearBit(x, t, i);
    }
  }

  lemma {:induction false} Pow2Bits(n: nat)
    ensures IsRun(Pow2(n), n, n + 1)
  {
    if n == 0 {
      forall i: nat ensures Bit(1, i) <==> i == 0 {
        if i > 0 { BitOfZero(i - 1); }
      }
    } else {
      Pow2Bits(n - 1);
      forall i: nat ensures Bit(Pow2(n), i) <==> i == n {
        if i > 0 { assert Bit(Pow2(n), i) == Bit(Pow2(n - 1), i - 1); }
      }
    }
  }

  // ---------------------------------------------------------------- above 2^32

  /** One of the w bits of x from i on is set. */
  ghost predicate BitWithin(x: nat, i: nat, w: nat) { exists j: nat :: i <= j < i + w && Bit(x, j) }

  /** Below the top bit of x no 32 bits in a row are clear. */
  ghost predicate NoLongGap(x: nat) { forall i: nat | Pow2(i) <= x :: BitWithin(x, i, 32) }

  ghost predicate IsWindow(y: nat, x: nat, w: nat) { forall i: nat :: Bit(y, i) <==> BitWithin(x, i, w) }

  lemma WindowDoubles(y: nat, x: nat, w: nat)
    requires IsWindow(y, x, w)
    ensures IsWindow(Smear(y, w), x, 2 * w)
  {
    hide Bit, Smear;
    forall i: nat ensures Bit(Smear(y, w), i) <==> BitWithin(x, i, 2 * w) {
      SmearBit(y, w, i);
      if BitWithin(x, i, 2 * w) {
        var j: nat :| i <= j < i + 2 * w && Bit(x, j);
        assert if j < i + w then BitWithin(x, i, w) else BitWithin(x, i + w, w);
      }
      if BitWithin(x, i, w) {
        var j: nat :| i <= j < i + w && Bit(x, j);
        assert j < i + 2 * w;
      }
      if BitWithin(x, i + w, w) {
        var j: nat :| i + w <= j < i + w + w && Bit(x, j);
        assert j < i + 2 * w;
      }
    }
  }

  /** The five shifts set exactly the bits with a bit of x among the 32 from there on. */
  lemma SmearedWindow(x: nat)
    ensures IsWindow(Smeared(x), x, 32)
  {
    assert IsWindow(x, x, 1) by {
      forall i: nat ensures Bit(x, i) <==> BitWithin(x, i, 1) {}
    }
    hide IsWindow, Smear;
    var a := Smear(x, 1);
    var b := Smear(a, 2);
    var c := Smear(b, 4);
    var d := Smear(c, 8);
    WindowDoubles(x, x, 1);
    WindowDoubles(a, x, 2);
    WindowDoubles(b, x, 4);
    WindowDoubles(c, x, 8);
    WindowDoubles(d, x, 16);
  }

  lemma {:induction false} OnesBits(n: nat)
    ensures IsRun(Pow2(n) - 1, 0, n)
  {
    if n == 0 {
      forall i: nat ensures !Bit(0, i) { BitOfZero(i); }
    } else {
      OnesBits(n - 1);
      var x := Pow2(n) - 1;
      assert x / 2 == Pow2(n - 1) - 1 && x % 2 == 1;
      forall i: nat ensures Bit(x, i) <==> i < n {
        if i > 0 { assert Bit(x, i) == Bit(x / 2, i - 1); }
      }
    }
  }

  lemma Pow2Below(m: nat, n: nat)
    ensures Pow2(m) < Pow2(n) <==> m < n
  {
    if m < n { Pow2Monotone(m + 1, n); } else { Pow2Monotone(n, m); }
  }

  /** Up to 2^63 the result is a power of two exactly when the argument less one has no long gap in its bits. */
  lemma RoundedIsPow2Iff(size: nat)
    requires 1 <= size <= 0x8000_0000_0000_0000
    ensures IsPow2(Rounded(size)) <==> NoLongGap(size - 1)
  {
    hide Pow2, Smeared, Bit, BitWithin;
    Pow2Values();
    var x, y := size - 1, Smeared(size - 1);
    SmearedAtLeast(x);
    SmearedWindow(x);
    var hi := TopBit(x, 63);
    SmearedTop(x, hi);
    BelowPow2(y, hi);
    Pow2Monotone(hi, 63);
    assert Rounded(size) == y + 1;
    Pow2Zero();
    if NoLongGap(x) {
      forall i: nat ensures Bit(y, i) <==> 0 <= i < hi {
        if i < hi { Pow2Monotone(i, hi - 1); }
      }
      RunValue(y, 0, hi);
    }
    if IsPow2(y + 1) {
      var n: nat :| y + 1 == Pow2(n);
      if hi > 0 { Pow2Below(hi - 1, n); }
      Pow2Below(hi, n);
      OnesBits(n);
      forall i: nat | Pow2(i) <= x ensures BitWithin(x, i, 32) {
        Pow2Below(i, hi);
      }
    }
  }

  /** Of two powers of two the larger is at least twice the smaller. */
  lemma LargerPow2Doubles(x: nat, y: nat)
    requires IsPow2(x) && IsPow2(y) && x < y
    ensures 2 * x <= y
  {
    var m: nat :| x == Pow2(m);
    var n: nat :| y == Pow2(n);
    if n <= m { Pow2Monotone(n, m); } else { Pow2Monotone(m + 1, n); }
  }
}
