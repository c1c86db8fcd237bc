/** 32-bit unsigned numbers, and the shift-or cascade that rounds one up to a power of two. */
module XnUInt32 {
  const UINT32_VALUES: nat := 0x1_0000_0000

  type UInt32 = n: nat | n < UINT32_VALUES

  type Byte = n: nat | n < 256

  /** What a 32-bit register keeps of a result. */
  function Wrap(n: int): UInt32 {
    n % 0x1_0000_0000
  }

  function Pow2(e: nat): (r: nat)
    ensures r >= 1
  {
    if e == 0 then 1 else 2 * Pow2(e - 1)
  }

  /** `x >> k`. */
  function Shr(x: nat, k: nat): (r: nat)
    ensures r <= x
  {
    if k == 0 then x else Shr(x / 2, k - 1)
  }

  /** `x | y`. */
  function Or(x: nat, y: nat): nat
    decreases x + y
  {
    if x == 0 then y
    else if y == 0 then x
    else 2 * Or(x / 2, y / 2) + (if x % 2 == 1 || y % 2 == 1 then 1 else 0)
  }

  /** Five shift-or steps. */
  function Smear(m: nat): nat {
    var a := Or(Shr(m, 1), m);
    var b := Or(Shr(a, 2), a);
    var c := Or(Shr(b, 4), b);
    var d := Or(Shr(c, 8), c);
    Or(Shr(d, 16), d)
  }

  /** What XnArray::Reserve computes from the size asked for, wrap-around included. */
  function NextPowerOfTwo(n: UInt32): UInt32
    requires n >= 1
  {
    Wrap(Smear(n - 1) + 1)
  }

  /** The number of binary digits of `m`. */
  function BitLength(m: nat): nat {
    if m == 0 then 0 else 1 + BitLength(m / 2)
  }

  /** The leading `w` of the `l` binary digits of `x` are ones. */
  predicate LeadingOnes(x: nat, l: nat, w: nat) {
    if l <= w then x == Pow2(l) - 1 else LeadingOnes(x / 2, l - 1, w)
  }

  /** The smallest power of two that is at least `n`. */
  function Capacity(n: nat): nat
    requires n >= 1
  {
    Pow2(BitLength(n - 1))
  }

  lemma {:induction false} BitLengthBounds(m: nat)
    ensures m < Pow2(BitLength(m))
    ensures m > 0 ==> Pow2(BitLength(m) - 1) <= m
  {
    if m > 1 {
      BitLengthBounds(m / 2);
    }
  }

  lemma {:induction false} Pow2Monotone(a: nat, b: nat)
    requires a <= b
    ensures Pow2(a) <= Pow2(b)
    ensures a < b ==> Pow2(a) < Pow2(b)
  {
    if a < b {
      Pow2Monotone(a, b - 1);
    }
  }

  lemma WordPowers()
    ensures Pow2(31) == 0x8000_0000 && Pow2(32) == UINT32_VALUES
  {
    assert Pow2(2) == 4;
    assert Pow2(4) == 16;
    assert Pow2(6) == 64;
    assert Pow2(8) == 256;
    assert Pow2(10) == 0x400;
    assert Pow2(12) == 0x1000;
    assert Pow2(14) == 0x4000;
    assert Pow2(16) == 0x10000;
    assert Pow2(18) == 0x40000;
    assert Pow2(20) == 0x100000;
    assert Pow2(22) == 0x400000;
    assert Pow2(24) == 0x1000000;
    assert Pow2(26) == 0x4000000;
    assert Pow2(28) == 0x10000000;
    assert Pow2(30) == 0x40000000;
  }

  lemma {:induction false} OneLeadingOne(m: nat)
    ensures LeadingOnes(m, BitLength(m), 1)
  {
    if m > 1 {
      OneLeadingOne(m / 2);
    }
  }

  lemma {:induction false} ShrVanishes(x: nat, k: nat)
    requires x < Pow2(k)
    ensures Shr(x, k) == 0
  {
    if k > 0 {
      ShrVanishes(x / 2, k - 1);
    }
  }

  /** Digit `k` is one when it is among the leading ones. */
  lemma {:induction false} OneAt(x: nat, l: nat, w: nat, k: nat)
    requires LeadingOnes(x, l, w) && k < l && l - w <= k
    ensures Shr(x, k) % 2 == 1
  {
    if k > 0 {
      assert l <= w ==> x / 2 == Pow2(l - 1) - 1;
      assert LeadingOnes(x / 2, l - 1, w);
      OneAt(x / 2, l - 1, w, k - 1);
    }
  }

  lemma ShrHalf(x: nat, k: nat)
    ensures Shr(x, k) / 2 == Shr(x / 2, k)
  {
  }

  lemma OrHalf(x: nat, y: nat)
    ensures Or(x, y) / 2 == Or(x / 2, y / 2)
    ensures Or(x, y) % 2 == 1 <==> x % 2 == 1 || y % 2 == 1
  {
  }

  /** One shift-or step doubles the number of leading ones. */
  lemma {:induction false} SmearStep(x: nat, l: nat, w: nat)
    requires LeadingOnes(x, l, w)
    ensures LeadingOnes(Or(Shr(x, w), x), l, 2 * w)
    decreases l
  {
    if l <= w {
      Pow2Monotone(l, w);
      ShrVanishes(x, w);
    } else {
      SmearStep(x / 2, l - 1, w);
      ShrHalf(x, w);
      OrHalf(Shr(x, w), x);
      if l <= 2 * w {
        OneAt(x, l, w, w);
      }
    }
  }

  /** Smearing turns every digit into a one. */
  lemma SmearFills(m: UInt32)
    ensures Smear(m) == Pow2(BitLength(m)) - 1
  {
    var l := BitLength(m);
    OneLeadingOne(m);
    SmearStep(m, l, 1);
    var a := Or(Shr(m, 1), m);
    SmearStep(a, l, 2);
    var b := Or(Shr(a, 2), a);
    SmearStep(b, l, 4);
    var c := Or(Shr(b, 4), b);
    SmearStep(c, l, 8);
    var d := Or(Shr(c, 8), c);
    SmearStep(d, l, 16);
    UInt32Length(m);
  }

  lemma UInt32Length(m: UInt32)
    ensures BitLength(m) <= 32
  {
    BitLengthBounds(m);
    if BitLength(m) > 32 {
      Pow2Monotone(32, BitLength(m) - 1);
      WordPowers();
    }
  }

  lemma NextPowerModulo(n: UInt32)
    requires n >= 1
    ensures NextPowerOfTwo(n) == Wrap(Capacity(n))
  {
    SmearFills(n - 1);
  }

  lemma LengthOfUInt32(n: UInt32)
    requires n >= 1
    ensures n <= Capacity(n) <= UINT32_VALUES
    ensures n <= 0x8000_0000 <==> Capacity(n) <= 0x8000_0000
    ensures n <= 0x8000_0000 <==> BitLength(n - 1) <= 31
    ensures BitLength(n - 1) <= 32
  {
    var l := BitLength(n - 1);
    BitLengthBounds(n - 1);
    UInt32Length(n - 1);
    WordPowers();
    if l <= 31 {
      Pow2Monotone(l, 31);
    }
  }

  lemma PowerAbove(n: nat, e: nat)
    requires 1 <= n <= Pow2(e)
    ensures Capacity(n) <= Pow2(e)
  {
    var l := BitLength(n - 1);
    BitLengthBounds(n - 1);
    if e < l {
      Pow2Monotone(e, l - 1);
    } else {
      Pow2Monotone(l, e);
    }
  }

  lemma WrappedPower(n: UInt32)
    requires n >= 1
    ensures n <= 0x8000_0000 ==> Wrap(Capacity(n)) == Capacity(n) && n <= Capacity(n)
    ensures n > 0x8000_0000 ==> Wrap(Capacity(n)) == 0
  {
    LengthOfUInt32(n);
    if n > 0x8000_0000 {
      assert BitLength(n - 1) == 32;
      WordPowers();
    }
  }

  /** Up to 2^31 the cascade yields the smallest power of two that is large enough. */
  lemma NextPowerIsLeast(n: UInt32)
    requires 1 <= n <= 0x8000_0000
    ensures exists e: nat :: e <= 31 && NextPowerOfTwo(n) == Pow2(e)
    ensures n <= NextPowerOfTwo(n)
    ensures forall e: nat :: n <= Pow2(e) ==> NextPowerOfTwo(n) <= Pow2(e)
  {
    NextPowerModulo(n);
    WrappedPower(n);
    LengthOfUInt32(n);
    forall e: nat | n <= Pow2(e)
      ensures NextPowerOfTwo(n) <= Pow2(e)
    {
      PowerAbove(n, e);
    }
  }

  /** The result covers the size asked for exactly up to 2^31; above, the increment wraps to 0. */
  lemma NextPowerCovers(n: UInt32)
    requires n >= 1
    ensures NextPowerOfTwo(n) >= n <==> n <= 0x8000_0000
    ensures n > 0x8000_0000 ==> NextPowerOfTwo(n) == 0
  {
    NextPowerModulo(n);
    WrappedPower(n);
  }

  // ----- single binary digits -----

  /** Binary digit `k` of `x`. */
  predicate Digit(x: nat, k: nat) {
    Shr(x, k) % 2 == 1
  }

  /** `x & y`. */
  function And(x: nat, y: nat): nat
    decreases x + y
  {
    if x == 0 || y == 0 then 0
    else 2 * And(x / 2, y / 2) + (if x % 2 == 1 && y % 2 == 1 then 1 else 0)
  }

  /** `x & ~y`. */
  function AndNot(x: nat, y: nat): (r: nat)
    ensures r <= x
    decreases x + y
  {
    if x == 0 || y == 0 then x
    else 2 * AndNot(x / 2, y / 2) + (if x % 2 == 1 && y % 2 == 0 then 1 else 0)
  }

  /** `x << k`, before anything is cut off. */
  function Shl(x: nat, k: nat): nat {
    if k == 0 then x else 2 * Shl(x, k - 1)
  }

  lemma {:induction false} ZeroDigit(k: nat)
    ensures !Digit(0, k)
  {
    if k > 0 {
      ZeroDigit(k - 1);
    }
  }

  lemma {:induction false} OrDigit(x: nat, y: nat, k: nat)
    ensures Digit(Or(x, y), k) <==> Digit(x, k) || Digit(y, k)
  {
    OrHalf(x, y);
    if k > 0 {
      OrDigit(x / 2, y / 2, k - 1);
    }
  }

  lemma {:induction false} AndNotDigit(x: nat, y: nat, k: nat)
    ensures Digit(AndNot(x, y), k) <==> Digit(x, k) && !Digit(y, k)
  {
    if y == 0 {
      ZeroDigit(k);
    } else if x == 0 {
      ZeroDigit(k);
    } else if k > 0 {
      AndNotDigit(x / 2, y / 2, k - 1);
    }
  }

  lemma {:induction false} PowerDigit(e: nat, k: nat)
    ensures Digit(Pow2(e), k) <==> k == e
  {
    if e == 0 {
      if k > 0 {
        ZeroDigit(k - 1);
      }
    } else if k > 0 {
      PowerDigit(e - 1, k - 1);
    }
  }

  /** Masking with one bit tests that digit. */
  lemma {:induction false} MaskTests(x: nat, e: nat)
    ensures And(x, Pow2(e)) != 0 <==> Digit(x, e)
  {
    if e > 0 {
      MaskTests(x / 2, e - 1);
    } else {
      assert Pow2(0) / 2 == 0;
      assert And(x / 2, 0) == 0;
    }
    if x == 0 {
      ZeroDigit(e);
    }
  }

  lemma {:induction false} ShlDigit(x: nat, s: nat, k: nat)
    ensures Digit(Shl(x, s), k) <==> k >= s && Digit(x, k - s)
  {
    if s > 0 && k > 0 {
      ShlDigit(x, s - 1, k - 1);
    }
  }

  lemma NoDigitAbove(x: nat, k: nat)
    requires x < Pow2(k)
    ensures !Digit(x, k)
  {
    ShrVanishes(x, k);
  }

  lemma {:induction false} OrBound(x: nat, y: nat, l: nat)
    requires x < Pow2(l) && y < Pow2(l)
    ensures Or(x, y) < Pow2(l)
  {
    if l > 0 {
      OrBound(x / 2, y / 2, l - 1);
    }
  }

  lemma {:induction false} ShlBound(x: nat, l: nat, s: nat)
    requires x < Pow2(l)
    ensures Shl(x, s) < Pow2(l + s)
  {
    if s > 0 {
      ShlBound(x, l, s - 1);
    }
  }

  /** `~x`. */
  function Complement(x: UInt32): UInt32 {
    UINT32_VALUES - 1 - x
  }

  /** `~x` has exactly the digits that `x` has not. */
  lemma {:induction false} ComplementDigit(x: nat, l: nat, k: nat)
    requires x < Pow2(l) && k < l
    ensures Digit(Pow2(l) - 1 - x, k) <==> !Digit(x, k)
  {
    assert (Pow2(l) - 1 - x) / 2 == Pow2(l - 1) - 1 - x / 2;
    if k > 0 {
      ComplementDigit(x / 2, l - 1, k - 1);
    }
  }

  /** Masking with one more low one keeps one more digit. */
  lemma AndOneMore(x: nat, m: nat)
    ensures And(x, 2 * m + 1) == 2 * And(x / 2, m) + x % 2
  {
  }

  lemma AndLowNext(x: nat, m: nat)
    requires And(x / 2, m) == (x / 2) % (m + 1)
    requires x % (2 * (m + 1)) == 2 * ((x / 2) % (m + 1)) + x % 2
    ensures And(x, 2 * m + 1) == x % (2 * (m + 1))
  {
    AndOneMore(x, m);
  }

  lemma AndLowOne(x: nat)
    ensures And(x, 1) == x % 2
  {
    AndLowNext(x, 0);
  }

  lemma AndLowTwo(x: nat)
    ensures And(x, 3) == x % 4
  {
    AndLowOne(x / 2);
    AndLowNext(x, 1);
  }

  lemma AndLowThree(x: nat)
    ensures And(x, 7) == x % 8
  {
    AndLowTwo(x / 2);
    AndLowNext(x, 3);
  }

  lemma AndLowFour(x: nat)
    ensures And(x, 15) == x % 16
  {
    AndLowThree(x / 2);
    AndLowNext(x, 7);
  }

  lemma AndLowFive(x: nat)
    ensures And(x, 31) == x % 32
  {
    AndLowFour(x / 2);
    AndLowNext(x, 15);
  }

  lemma {:induction false} ShlOne(k: nat)
    ensures Shl(1, k) == Pow2(k)
  {
    if k > 0 {
      ShlOne(k - 1);
    }
  }

  /** `(~i) & 0x1F` counts the low five bits of `i` from the other end. */
  lemma ComplementMasked(i: UInt32)
    ensures And(Complement(i), 0x1F) == 31 - i % 32
  {
    AndLowFive(Complement(i));
    ComplementLow(i);
  }

  lemma ComplementLow(i: UInt32)
    ensures Complement(i) % 32 == 31 - i % 32
  {
    var q := i / 32;
    assert Complement(i) == 32 * (0x7FF_FFFF - q) + (31 - i % 32);
  }
}
