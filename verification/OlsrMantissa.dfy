module OlsrMantissa {
  import opened Powers

  type Uint32 = n: nat | n < 0x1_0000_0000

  type Uint8 = n: nat | n < 256

  lemma {:induction false} PowersOfTwo()
    ensures Pow2(0) == 1 && Pow2(1) == 2 && Pow2(2) == 4 && Pow2(3) == 8 && Pow2(4) == 16 && Pow2(5) == 32
    ensures Pow2(6) == 64 && Pow2(7) == 128 && Pow2(8) == 256 && Pow2(9) == 512 && Pow2(10) == 1024 && Pow2(11) == 2048
    ensures Pow2(12) == 4096 && Pow2(13) == 8192 && Pow2(14) == 16384 && Pow2(15) == 32768 && Pow2(16) == 65536
  {
    assert Pow2(4) == 16;
    assert Pow2(8) == 256;
    assert Pow2(12) == 4096;
  }

  // ----- the code byte: mantissa in the high half, exponent in the low half

  function Mantissa(me: Uint8): nat { me / 16 }

  function Exponent(me: Uint8): nat { me % 16 }

  function CodeOf(a: nat, b: nat): Uint8
    requires a < 16 && b < 16
  {
    a * 16 + b
  }

  lemma {:induction false} CodeParts(a: nat, b: nat)
    requires a < 16 && b < 16
    ensures Mantissa(CodeOf(a, b)) == a && Exponent(CodeOf(a, b)) == b
  {
  }

  /** 32 times the value of a code in milliseconds: `(1 + a/16) * 2^b` sixteenths of a second. */
  function Scaled(a: nat, b: nat): nat { (16 + a) * (125 * Pow2(b)) }

  /** The code of an interval: the largest value with a normalised mantissa that does not exceed it. */
  ghost predicate Codes(t: nat, me: Uint8) {
    if t < 125 then me == CodeOf(1, 0)
    else if t >= 4_096_000 then me == CodeOf(15, 15)
    else Exponent(me) >= 1 && Scaled(Mantissa(me), Exponent(me)) <= 32 * t < Scaled(Mantissa(me) + 1, Exponent(me))
  }

  // ----- encoding

  /** The position of the highest bit, counted from one. */
  method BitLength(u: Uint32) returns (b: nat)
    requires u < 0x8000_0000
    ensures u < Pow2(b) && (b > 0 ==> Pow2(b - 1) <= u)
  {
    b := 0;
    while u >= Pow2(b)
      invariant b > 0 ==> Pow2(b - 1) <= u
      decreases u - Pow2(b)
    {
      b := b + 1;
    }
  }

  method ReltimeToMe(interval: Uint32) returns (me: Uint8)
    ensures Codes(interval, me)
  {
    var a: Uint8, b: nat := 0, 0;
    var unscaledInterval := interval / 125 * 2;
    b := BitLength(unscaledInterval);
    if b == 0 {
      a, b := 1, 0;
    } else {
      b := b - 1;
      BitRange(interval, b);
      if b > 15 {
        a, b := 15, 15;
      } else {
        MantissaRange(interval, b);
        a := DivideMantissa(interval, b);
        // The carry never happens.
        b := b + a / 16;
        a := a % 16;
      }
    }
    CodesFrom(interval, a, b);
    me := CodeOf(a, b);
  }

  method DivideMantissa(interval: Uint32, b: nat) returns (a: Uint8)
    requires 1 <= b <= 15 && interval >= 125 * Pow2(b - 1) && MantissaAt(interval, b) < 16
    ensures a == MantissaAt(interval, b)
  {
    if b >= 5 {
      a := (interval - 125 * Pow2(b - 1)) / (125 * Pow2(b - 5));
    } else {
      a := (interval - 125 * Pow2(b - 1)) * Pow2(5 - b) / 125;
    }
  }

  lemma {:induction false} CodesFrom(t: Uint32, a: nat, b: nat)
    requires a < 16 && b < 16
    requires t < 125 ==> a == 1 && b == 0
    requires t >= 4_096_000 ==> a == 15 && b == 15
    requires 125 <= t < 4_096_000 ==> b >= 1 && Scaled(a, b) <= 32 * t < Scaled(a + 1, b)
    ensures Codes(t, CodeOf(a, b))
  {
    CodeParts(a, b);
  }

  /** The highest bit of the scaled interval gives the exponent. */
  lemma {:induction false} BitRange(t: Uint32, b: nat)
    requires Pow2(b) <= t / 125 * 2 < Pow2(b + 1)
    ensures b >= 1 && 125 * Pow2(b - 1) <= t < 125 * Pow2(b)
    ensures b > 15 <==> t >= 4_096_000
  {
    PowersOfTwo();
    if b > 15 { PowGrows(16, b); } else { PowGrows(b, 15); }
  }

  function MantissaAt(t: Uint32, b: nat): nat
    requires b >= 1 && t >= 125 * Pow2(b - 1)
  {
    if b >= 5 then (t - 125 * Pow2(b - 1)) / (125 * Pow2(b - 5)) else (t - 125 * Pow2(b - 1)) * Pow2(5 - b) / 125
  }

  /** With the exponent fixed the mantissa stays below 16 in both forms of the division. */
  lemma {:induction false} MantissaRange(t: Uint32, b: nat)
    requires 1 <= b <= 15 && 125 * Pow2(b - 1) <= t < 125 * Pow2(b)
    ensures MantissaAt(t, b) < 16 && Scaled(MantissaAt(t, b), b) <= 32 * t < Scaled(MantissaAt(t, b) + 1, b)
  {
    if b >= 5 {
      var q := 125 * Pow2(b - 5);
      FourMore(b);
      DivideBy(t - 16 * q, q);
    } else {
      SmallExponent(t, b);
    }
  }

  lemma {:induction false} FourMore(b: nat)
    requires b >= 5
    ensures Pow2(b - 1) == 16 * Pow2(b - 5) && Pow2(b) == 32 * Pow2(b - 5)
  {
    assert Pow2(b - 4) == 2 * Pow2(b - 5) && Pow2(b - 3) == 2 * Pow2(b - 4) && Pow2(b - 2) == 2 * Pow2(b - 3);
    assert Pow2(b - 1) == 2 * Pow2(b - 2) && Pow2(b) == 2 * Pow2(b - 1);
  }

  lemma {:induction false} SmallExponent(t: Uint32, b: nat)
    requires 1 <= b < 5 && 125 * Pow2(b - 1) <= t < 125 * Pow2(b)
    ensures MantissaAt(t, b) < 16 && Scaled(MantissaAt(t, b), b) <= 32 * t < Scaled(MantissaAt(t, b) + 1, b)
  {
    PowersOfTwo();
    var x := (t - 125 * Pow2(b - 1)) * Pow2(5 - b);
    var a := x / 125;
    assert 125 * a <= x < 125 * a + 125;
    if b == 1 {
      assert x == 16 * t - 2000;
    } else if b == 2 {
      assert x == 8 * t - 2000;
    } else if b == 3 {
      assert x == 4 * t - 2000;
    } else {
      assert x == 2 * t - 2000;
    }
  }

  lemma {:induction false} DivideBy(x: nat, q: nat)
    requires q > 0 && x < 16 * q
    ensures x / q < 16 && (16 + x / q) * (32 * q) <= 32 * (x + 16 * q) < (17 + x / q) * (32 * q)
  {
    var a := x / q;
    assert x == a * q + x % q;
    assert (16 + a) * (32 * q) == 512 * q + 32 * (a * q);
    assert (17 + a) * (32 * q) == 544 * q + 32 * (a * q);
    if a >= 16 { Times(16, a, q); }
  }

  lemma {:induction false} Times(a: nat, b: nat, q: nat)
    requires a <= b
    ensures a * q <= b * q
  {
  }

  // ----- decoding

  function MeToReltime(me: Uint8): (r: Uint32)
    ensures r == Scaled(Mantissa(me), Exponent(me)) / 32
  {
    var a, b := Mantissa(me), Exponent(me);
    DecodeSteps(a, b);
    if b >= 8 then (16 + a) * Pow2(b - 8) * 1000 else (16 + a) * 1000 / Pow2(8 - b)
  }

  lemma {:induction false} DecodeSteps(a: nat, b: nat)
    requires a < 16 && b < 16
    ensures b >= 8 ==> (16 + a) * Pow2(b - 8) * 1000 == Scaled(a, b) / 32 < 0x1_0000_0000
    ensures b < 8 ==> (16 + a) * 1000 / Pow2(8 - b) == Scaled(a, b) / 32 < 0x1_0000_0000
  {
    PowersOfTwo();
    var n := 16 + a;
    if b >= 8 {
      assert 125 * Pow2(b) == 32 * (1000 * Pow2(b - 8));
      assert n * (32 * (1000 * Pow2(b - 8))) == 32 * (n * Pow2(b - 8) * 1000);
      Times(Pow2(b - 8), 128, n);
      PowGrows(b - 8, 7);
    } else {
      DecodeSmall(n, b);
    }
  }

  lemma {:induction false} DecodeSmall(n: nat, b: nat)
    requires b < 8 && n < 32
    ensures n * 1000 / Pow2(8 - b) == n * (125 * Pow2(b)) / 32 < 0x1_0000_0000
  {
    PowersOfTwo();
    if b < 5 {
      var m := n * 125;
      assert n * (125 * Pow2(b)) == m * Pow2(b) && n * 1000 == m * 8;
    }
  }

  // ----- what the two promise together

  lemma {:induction false} ScaledOrder(a: nat, b: nat, a': nat, b': nat)
    requires a < 16 && a' < 16
    ensures b < b' ==> Scaled(a + 1, b) <= Scaled(a', b')
    ensures b == b' && a < a' ==> Scaled(a + 1, b) <= Scaled(a', b')
  {
    if b < b' {
      PowGrows(b + 1, b');
      Times(17 + a, 32, 125 * Pow2(b));
      Times(16, 16 + a', 125 * Pow2(b'));
      assert 16 * (125 * Pow2(b')) >= 16 * (250 * Pow2(b));
    } else if b == b' && a < a' {
      Times(17 + a, 16 + a', 125 * Pow2(b));
    }
  }

  /** Compared by exponent, then mantissa. */
  predicate CodeLeq(m: Uint8, n: Uint8) {
    Exponent(m) < Exponent(n) || (Exponent(m) == Exponent(n) && Mantissa(m) <= Mantissa(n))
  }

  /** A longer interval never has a smaller code; in particular an interval has one code only. */
  lemma {:induction false} EncodingMonotone(t: Uint32, u: Uint32, m: Uint8, n: Uint8)
    requires t <= u && Codes(t, m) && Codes(u, n)
    ensures CodeLeq(m, n)
    ensures t == u ==> m == n
  {
    if 125 <= t && u < 4_096_000 {
      ScaledOrder(Mantissa(n), Exponent(n), Mantissa(m), Exponent(m));
      if t == u { ScaledOrder(Mantissa(m), Exponent(m), Mantissa(n), Exponent(n)); }
    }
  }

  /** From 3968000 milliseconds on, and only then, the code is the largest one. */
  lemma {:induction false} Saturates(t: Uint32, me: Uint8)
    requires Codes(t, me)
    ensures me == CodeOf(15, 15) <==> t >= 3_968_000
  {
    PowersOfTwo();
    if 125 <= t < 4_096_000 {
      ScaledOrder(Mantissa(me), Exponent(me), 15, 15);
    }
  }

  /** Encoding loses less than a sixteenth of the interval and a millisecond, and never rounds up. */
  lemma {:induction false} EncodingError(t: Uint32, me: Uint8)
    requires 125 <= t < 4_096_000 && Codes(t, me)
    ensures MeToReltime(me) <= t && 16 * (t - MeToReltime(me)) < t + 16
  {
    var a, b := Mantissa(me), Exponent(me);
    var q := 125 * Pow2(b);
    assert Scaled(a + 1, b) == Scaled(a, b) + q;
    Times(16, 16 + a, q);
    assert 16 * q <= 32 * t;
  }

  /** Below 125 milliseconds the code decodes to 66, above the interval when that is shorter. */
  lemma {:induction false} ShortIntervals(t: Uint32, me: Uint8)
    requires t < 125 && Codes(t, me)
    ensures MeToReltime(me) == 66
  {
    PowersOfTwo();
  }

  /** A code comes back from its own value exactly if that value is a whole number of milliseconds and the exponent is
      not zero, or if it is the code of the short intervals. */
  lemma {:induction false} DecodeEncode(me: Uint8, back: Uint8)
    requires Codes(MeToReltime(me), back)
    ensures back == me <==> me == CodeOf(1, 0) || (Exponent(me) >= 1 && Scaled(Mantissa(me), Exponent(me)) % 32 == 0)
  {
    var a, b := Mantissa(me), Exponent(me);
    if b == 0 {
      ZeroExponent(a);
    } else {
      ValueRange(a, b);
      if Scaled(a, b) % 32 == 0 {
        Whole(Scaled(a, b), a, b);
        EncodingMonotone(MeToReltime(me), MeToReltime(me), me, back);
      }
    }
  }

  lemma {:induction false} ZeroExponent(a: nat)
    requires a < 16
    ensures Scaled(a, 0) / 32 < 125
  {
    assert Pow2(0) == 1;
  }

  lemma {:induction false} Whole(n: nat, a: nat, b: nat)
    requires n == Scaled(a, b) && n % 32 == 0
    ensures n <= 32 * (n / 32) < Scaled(a + 1, b)
  {
    assert Scaled(a + 1, b) == Scaled(a, b) + 125 * Pow2(b);
  }

  lemma {:induction false} ValueRange(a: nat, b: nat)
    requires a < 16 && 1 <= b < 16
    ensures 125 <= Scaled(a, b) / 32 < 4_096_000
  {
    PowersOfTwo();
    PowGrows(1, b);
    PowGrows(b, 15);
    Times(16, 16 + a, 125 * Pow2(b));
    Times(16 + a, 31, 125 * Pow2(b));
  }

  /** The hold times that the program announces, three intervals each, arrive as they are. */
  lemma {:induction false} HoldTimes(hello: Uint8, tc: Uint8)
    requires Codes(3 * 500, hello) && Codes(3 * 1250, tc)
    ensures MeToReltime(hello) == 3 * 500 && MeToReltime(tc) == 3 * 1250
  {
    PowersOfTwo();
    assert Codes(1500, CodeOf(8, 4));
    assert Codes(3750, CodeOf(14, 5));
    EncodingMonotone(1500, 1500, hello, CodeOf(8, 4));
    EncodingMonotone(3750, 3750, tc, CodeOf(14, 5));
  }
}
