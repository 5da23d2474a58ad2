/** Validity times on the wire: one byte holding a mantissa `a` and an exponent `b`, standing for
    `(16 + a) * 2^b / 256` seconds. */
module TimeCodec {
  import opened Basics
  import opened Bitmap

  /** `me_to_reltime`, in milliseconds. */
  function Decode(me: nat): nat
    requires me < 256
  {
    var a, b := me / 16, me % 16;
    if b >= 8 then (16 + a) * Pow2(b - 8) * 1000 else (Pow2Grows(8 - b); (16 + a) * 1000 / Pow2(8 - b))
  }

  /** A sixteenth of the values with exponent `b`, in 32nds of a millisecond. */
  function Unit(b: nat): nat {
    125 * Pow2(b)
  }

  /** The code whose value comes next below `t`: `32 t` lies between `16 + a` units and the next
      multiple. */
  predicate Below(t: nat, a: nat, b: nat) {
    1 <= b <= 15 && a <= 15 && (16 + a) * Unit(b) <= 32 * t < (17 + a) * Unit(b)
  }

  /** Times under 125 milliseconds and from 4096 seconds on have a fixed code. */
  predicate IsCode(t: nat, me: nat) {
    me < 256
    && if t < 125 then me == 0x10 else if t >= 4096000 then me == 0xff else Below(t, me / 16, me % 16)
  }

  lemma Powers(b: nat)
    requires b <= 15
    ensures (b == 0 && Pow2(b) == 1) || (b == 1 && Pow2(b) == 2) || (b == 2 && Pow2(b) == 4) || (b == 3 && Pow2(b) == 8)
         || (b == 4 && Pow2(b) == 16) || (b == 5 && Pow2(b) == 32) || (b == 6 && Pow2(b) == 64) || (b == 7 && Pow2(b) == 128)
         || (b == 8 && Pow2(b) == 256) || (b == 9 && Pow2(b) == 512) || (b == 10 && Pow2(b) == 1024)
         || (b == 11 && Pow2(b) == 2048) || (b == 12 && Pow2(b) == 4096) || (b == 13 && Pow2(b) == 8192)
         || (b == 14 && Pow2(b) == 16384) || (b == 15 && Pow2(b) == 32768)
  {
    assert Pow2(4) == 16;
    assert Pow2(8) == 256;
    assert Pow2(12) == 4096;
  }

  lemma {:induction false} Pow2Grows(b: nat)
    ensures Pow2(b) > b
  {
    if b > 0 {
      Pow2Grows(b - 1);
    }
  }

  function Quotient(x: nat, d: nat): (q: nat)
    requires d > 0
    ensures d * q <= x < d * (q + 1)
  {
    x / d
  }

  /** The mantissa for a coarse exponent. */
  lemma CoarseMantissa(t: nat, d: nat)
    requires 0 < d && 16 * d <= t < 32 * d
    ensures var a := Quotient(t - 16 * d, d); a <= 15 && (16 + a) * (32 * d) <= 32 * t < (17 + a) * (32 * d)
  {
    var a := Quotient(t - 16 * d, d);
    Distribute(a, d);
    Distribute(a + 1, d);
    if a > 15 {
      Order(d, 16, a);
    }
  }

  lemma Distribute(a: nat, d: nat)
    ensures (16 + a) * (32 * d) == 32 * (d * a) + 512 * d
  {
  }

  lemma Order(d: nat, a: nat, b: nat)
    requires a <= b
    ensures d * a <= d * b
  {
  }

  lemma Shifted(k: nat)
    ensures Pow2(k + 4) == 16 * Pow2(k) && Pow2(k + 5) == 32 * Pow2(k)
  {
    assert Pow2(k + 1) == 2 * Pow2(k);
    assert Pow2(k + 2) == 2 * Pow2(k + 1);
    assert Pow2(k + 3) == 2 * Pow2(k + 2);
    assert Pow2(k + 4) == 2 * Pow2(k + 3);
    assert Pow2(k + 5) == 2 * Pow2(k + 4);
  }

  lemma CoarseBelow(t: nat, b: nat, d: nat, a: nat)
    requires 5 <= b <= 15 && 125 * Pow2(b - 1) <= t < 125 * Pow2(b)
    requires d == 125 * Pow2(b - 5) > 0 && a == Quotient(t - 125 * Pow2(b - 1), d)
    ensures Below(t, a, b)
  {
    Shifted(b - 5);
    assert Unit(b) == 32 * d && 125 * Pow2(b - 1) == 16 * d;
    CoarseMantissa(t, d);
  }

  /** The mantissa for a fine exponent. */
  lemma FineMantissa(t: nat, h: nat, q: nat)
    requires (h == 1 && q == 16) || (h == 2 && q == 8) || (h == 4 && q == 4) || (h == 8 && q == 2)
    requires 125 * h <= t < 250 * h
    ensures var a := (t - 125 * h) * q / 125; a <= 15 && (16 + a) * (250 * h) <= 32 * t < (17 + a) * (250 * h)
  {
    var a := (t - 125 * h) * q / 125;
    if h == 1 {
      assert a == (t - 125) * 16 / 125;
    } else if h == 2 {
      assert a == (t - 250) * 8 / 125;
    } else if h == 4 {
      assert a == (t - 500) * 4 / 125;
    } else {
      assert a == (t - 1000) * 2 / 125;
    }
  }

  lemma FineBelow(t: nat, b: nat, a: nat)
    requires 1 <= b < 5 && 125 * Pow2(b - 1) <= t < 125 * Pow2(b) && a == (t - 125 * Pow2(b - 1)) * Pow2(5 - b) / 125
    ensures Below(t, a, b)
  {
    Powers(b - 1);
    Powers(5 - b);
    assert Unit(b) == 250 * Pow2(b - 1);
    FineMantissa(t, Pow2(b - 1), Pow2(5 - b));
  }

  method CoarsePart(interval: nat, b: nat) returns (a: nat)
    requires 5 <= b <= 15 && 125 * Pow2(b - 1) <= interval < 125 * Pow2(b)
    ensures Below(interval, a, b)
  {
    var d := 125 * Pow2(b - 5);
    Pow2Grows(b - 5);
    a := Quotient(interval - 125 * Pow2(b - 1), d);
    CoarseBelow(interval, b, d, a);
  }

  method FinePart(interval: nat, b: nat) returns (a: nat)
    requires 1 <= b < 5 && 125 * Pow2(b - 1) <= interval < 125 * Pow2(b)
    ensures Below(interval, a, b)
  {
    a := (interval - 125 * Pow2(b - 1)) * Pow2(5 - b) / 125;
    FineBelow(interval, b, a);
  }

  /** The mantissa of `reltime_to_me`: it fits four bits, so the carry into the exponent is never taken. */
  method Mantissa(interval: nat, b: nat) returns (a: nat)
    requires 1 <= b <= 15 && 125 * Pow2(b - 1) <= interval < 125 * Pow2(b)
    ensures Below(interval, a, b)
  {
    if b >= 5 {
      a := CoarsePart(interval, b);
    } else {
      a := FinePart(interval, b);
    }
    a := a % 256;
  }

  method Parts(interval: nat) returns (a: nat, b: nat)
    ensures a <= 15 && b <= 15
    ensures if interval < 125 then a == 1 && b == 0 else if interval >= 4096000 then a == b == 15 else Below(interval, a, b)
  {
    var unscaled := interval / 125 * 2;
    b := 0;
    while unscaled >= Pow2(b)
      invariant b == 0 || Pow2(b - 1) <= unscaled
      decreases unscaled + 1 - b
    {
      Pow2Grows(b);
      b := b + 1;
    }
    if b == 0 {
      a, b := 1, 0;
    } else {
      b := b - 1;
      BitLength(interval, b);
      if b > 15 {
        a, b := 15, 15;
      } else {
        a := Mantissa(interval, b);
        assert a / 16 == 0 && a % 16 == a;
        b := b + a / 16;
        a := a % 16;
      }
    }
  }

  /** `reltime_to_me` */
  method Encode(interval: nat) returns (me: nat)
    requires interval < 0x1_0000_0000
    ensures IsCode(interval, me)
  {
    var a, b := Parts(interval);
    me := a * 16 % 256 + b % 16;
    Packed(a, b);
  }

  lemma Packed(a: nat, b: nat)
    requires a <= 15 && b <= 15
    ensures var me := a * 16 % 256 + b % 16; me == 16 * a + b < 256 && me / 16 == a && me % 16 == b
  {
  }

  lemma BitLength(t: nat, b: nat)
    requires Pow2(b) <= t / 125 * 2 < Pow2(b + 1)
    ensures b >= 1 && 125 * Pow2(b - 1) <= t < 125 * Pow2(b)
    ensures b > 15 <==> t >= 4096000
  {
    Powers(15);
    if b > 15 {
      Pow2Order(15, b - 1);
    } else {
      Pow2Order(b, 15);
    }
  }

  lemma {:induction false} Pow2Order(a: nat, b: nat)
    requires a <= b
    ensures Pow2(a) <= Pow2(b)
  {
    if a < b {
      Pow2Order(a, b - 1);
    }
  }

  // ---------------------------------------------------------------- what the codes mean

  /** The exact value of a code, in 32nds of a millisecond. */
  function Value(a: nat, b: nat): nat {
    (16 + a) * Unit(b)
  }

  lemma LargeValue(n: nat, p: nat)
    ensures 32 * (n * p * 1000) == n * (125 * (256 * p))
  {
  }

  lemma SmallValue(n: nat, q: nat, r: nat)
    requires (q == 2 && r == 128) || (q == 4 && r == 64) || (q == 8 && r == 32) || (q == 16 && r == 16)
          || (q == 32 && r == 8) || (q == 64 && r == 4) || (q == 128 && r == 2) || (q == 256 && r == 1)
    ensures 32 * (n * 1000 / q) <= n * (125 * r) < 32 * (n * 1000 / q + 1)
    ensures r >= 32 ==> 32 * (n * 1000 / q) == n * (125 * r)
  {
    var v := n * 1000 / q;
    if q == 2 {
      assert v == n * 500;
    } else if q == 4 {
      assert v == n * 250;
    } else if q == 8 {
      assert v == n * 125;
    } else if q == 16 {
      assert v == n * 1000 / 16;
    } else if q == 32 {
      assert v == n * 1000 / 32;
    } else if q == 64 {
      assert v == n * 1000 / 64;
    } else if q == 128 {
      assert v == n * 1000 / 128;
    } else {
      assert v == n * 1000 / 256;
    }
  }

  /** Decoding rounds down, and only for exponents below five. */
  lemma DecodeMeaning(me: nat)
    requires me < 256
    ensures var v := Value(me / 16, me % 16); 32 * Decode(me) <= v < 32 * (Decode(me) + 1)
    ensures me % 16 >= 5 ==> 32 * Decode(me) == Value(me / 16, me % 16)
  {
    var a, b := me / 16, me % 16;
    if b >= 8 {
      Shifted(b - 8);
      Shifted(b - 5);
      LargeValue(16 + a, Pow2(b - 8));
      assert Pow2(b) == 8 * Pow2(b - 3) == 8 * (32 * Pow2(b - 8)) by {
        Shifted(b - 8);
        Tripled(b - 3);
      }
    } else {
      Powers(b);
      Powers(8 - b);
      SmallValue(16 + a, Pow2(8 - b), Pow2(b));
    }
  }

  lemma Tripled(k: nat)
    ensures Pow2(k + 3) == 8 * Pow2(k)
  {
    assert Pow2(k + 1) == 2 * Pow2(k);
    assert Pow2(k + 2) == 2 * Pow2(k + 1);
  }

  /** The values are ordered by exponent, then mantissa, and there is nothing between neighbours. */
  lemma ValueOrder(a: nat, b: nat, c: nat, d: nat)
    requires a <= 15 && c <= 15 && Value(a, b) < (17 + c) * Unit(d)
    ensures (b < d || (b == d && a <= c)) && Value(a, b) <= Value(c, d)
  {
    if b > d {
      Pow2Order(d + 1, b);
      Products(17 + c, 32, Unit(d), Unit(d));
      Products(16, 16 + a, 2 * Unit(d), Unit(b));
    } else if b == d {
      if a > c {
        Products(17 + c, 16 + a, Unit(d), Unit(d));
      } else {
        Products(16 + a, 16 + c, Unit(d), Unit(d));
      }
    } else {
      Pow2Order(b + 1, d);
      Products(16 + a, 32, Unit(b), Unit(b));
      Products(16, 16 + c, 2 * Unit(b), Unit(d));
    }
  }

  lemma CodeParts(t: nat, me: nat)
    requires IsCode(t, me) && 125 <= t < 4096000
    ensures Value(me / 16, me % 16) <= 32 * t < (17 + me / 16) * Unit(me % 16)
    ensures t >= 2000 ==> me % 16 >= 5
  {
    if me % 16 < 5 {
      Pow2Order(me % 16, 4);
      Powers(4);
      Products(17 + me / 16, 32, Unit(me % 16), 2000);
    }
  }

  /** A time has one code. */
  lemma CodeUnique(t: nat, me: nat, other: nat)
    requires IsCode(t, me) && IsCode(t, other)
    ensures me == other
  {
    if 125 <= t < 4096000 {
      CodeParts(t, me);
      CodeParts(t, other);
      ValueOrder(me / 16, me % 16, other / 16, other % 16);
      ValueOrder(other / 16, other % 16, me / 16, me % 16);
    }
  }

  /** Encoding rounds down, by less than a sixteenth of the decoded value from two seconds on. */
  lemma EncodingError(t: nat, me: nat)
    requires IsCode(t, me) && t >= 125
    ensures Decode(me) <= t
    ensures 2000 <= t < 4096000 ==> 16 * t < 17 * Decode(me)
  {
    DecodeMeaning(me);
    if t >= 4096000 {
      Largest();
    } else {
      CodeParts(t, me);
      Slack(me / 16, Unit(me % 16));
    }
  }

  lemma Largest()
    ensures Decode(255) == 3968000
  {
    Powers(7);
  }

  lemma Slack(a: nat, u: nat)
    ensures 16 * ((17 + a) * u) <= 17 * ((16 + a) * u)
  {
    assert (17 + a) * u == 17 * u + a * u;
    assert (16 + a) * u == 16 * u + a * u;
  }

  /** From two seconds on the chosen code is the best one that does not exceed the time. */
  lemma BestCode(t: nat, me: nat, other: nat)
    requires IsCode(t, me) && 2000 <= t < 4096000 && other < 256 && Decode(other) <= t
    ensures Decode(other) <= Decode(me)
  {
    DecodeMeaning(me);
    DecodeMeaning(other);
    CodeParts(t, me);
    if other % 16 >= 5 {
      ValueOrder(other / 16, other % 16, me / 16, me % 16);
    } else {
      Pow2Order(other % 16, 4);
      Pow2Order(5, me % 16);
      Powers(4);
      Products(16 + other / 16, 31, Unit(other % 16), 2000);
      Products(16, 16 + me / 16, 4000, Unit(me % 16));
    }
  }

  /** A longer time never decodes to less. */
  lemma Monotone(t: nat, me: nat, later: nat, code: nat)
    requires IsCode(t, me) && IsCode(later, code) && t <= later
    ensures Decode(me) <= Decode(code)
  {
    Largest();
    Shortest();
    if later >= 125 {
      EncodingError(later, code);
      if later >= 4096000 {
        AtMostLargest(me);
      } else {
        CodeParts(later, code);
        DecodeMeaning(code);
        if t >= 125 {
          CodeParts(t, me);
          DecodeMeaning(me);
          ValueOrder(me / 16, me % 16, code / 16, code % 16);
        } else {
          Pow2Order(1, code % 16);
          Products(16, 16 + code / 16, 250, Unit(code % 16));
        }
      }
    }
  }

  lemma Shortest()
    ensures Decode(0x10) == 66
  {
    Powers(8);
  }

  lemma AtMostLargest(me: nat)
    requires me < 256
    ensures Decode(me) <= 3968000
  {
    DecodeMeaning(me);
    Pow2Order(me % 16, 15);
    Powers(15);
    Products(16 + me / 16, 31, Unit(me % 16), 4096000);
  }

  lemma ExactCode(me: nat)
    requires me < 256 && me % 16 >= 1 && 32 * Decode(me) == Value(me / 16, me % 16)
    ensures IsCode(Decode(me), me)
  {
    var a, b := me / 16, me % 16;
    AtMostLargest(me);
    Pow2Order(1, b);
    Products(16, 16 + a, 250, Unit(b));
    NextValue(16 + a, Unit(b));
  }

  lemma NextValue(n: nat, u: nat)
    ensures (n + 1) * u == n * u + u
  {
  }

  /** A code survives decoding and encoding exactly when it is the shortest one, or decodes without
      rounding to at least 125 milliseconds. */
  lemma RoundTrip(me: nat, again: nat)
    requires me < 256 && IsCode(Decode(me), again)
    ensures again == me <==> me == 0x10 || (me % 16 >= 1 && Value(me / 16, me % 16) % 32 == 0)
  {
    var b, t := me % 16, Decode(me);
    DecodeMeaning(me);
    AtMostLargest(me);
    Shortest();
    if b == 0 {
      Powers(0);
    } else if 32 * t == Value(me / 16, b) {
      ExactCode(me);
      CodeUnique(t, me, again);
    } else if 125 <= t {
      CodeParts(t, again);
    }
  }
}
