/** An unsigned 32-bit word as a number below 2^32, with the three bit operations the
    duplicate set applies to it. Bits are counted from the least significant one. */
module Bitmap {

  const WORD := 0x1_0000_0000

  type Word = n: int | 0 <= n < 0x1_0000_0000

  /** `w & (1u << k)` is non-zero. */
  predicate Bit(w: nat, k: nat) {
    if k == 0 then w % 2 == 1 else Bit(w / 2, k - 1)
  }

  /** `w | (1u << k)`. */
  function SetBit(w: nat, k: nat): nat {
    if k == 0 then w + 1 - w % 2 else 2 * SetBit(w / 2, k - 1) + w % 2
  }

  /** `w << d`: the bits pushed out of the word are lost. */
  function ShiftLeft(w: Word, d: nat): Word {
    if d == 0 then w else 2 * ShiftLeft(w, d - 1) % WORD
  }

  function Pow2(k: nat): nat {
    if k == 0 then 1 else 2 * Pow2(k - 1)
  }

  lemma {:induction false} BitOfZero(k: nat)
    ensures !Bit(0, k)
    ensures Bit(1, k) <==> k == 0
  {
    if k > 0 {
      BitOfZero(k - 1);
    }
  }

  lemma {:induction false} BitAfterSet(w: nat, d: nat, k: nat)
    ensures Bit(SetBit(w, d), k) <==> k == d || Bit(w, k)
  {
    if d > 0 && k > 0 {
      BitAfterSet(w / 2, d - 1, k - 1);
    } else if d > 0 {
      assert SetBit(w, d) % 2 == w % 2;
    }
  }

  /** Setting one of the low `n` bits stays below 2^n. */
  lemma {:induction false} SetBitBound(w: nat, d: nat, n: nat)
    requires d < n && w < Pow2(n)
    ensures SetBit(w, d) < Pow2(n)
  {
    var half, low, p := w / 2, w % 2, Pow2(n - 1);
    assert w == 2 * half + low && half < p;
    if d == 0 {
      assert SetBit(w, d) == 2 * half + 1;
    } else {
      SetBitBound(half, d - 1, n - 1);
      assert SetBit(w, d) == 2 * SetBit(half, d - 1) + low;
    }
  }

  /** Reducing modulo 2^n keeps the low `n` bits. */
  lemma {:induction false} BitAfterMod(w: nat, n: nat, k: nat)
    requires k < n
    ensures Pow2(n) > 0
    ensures Bit(w % Pow2(n), k) <==> Bit(w, k)
  {
    Pow2Positive(n);
    ModHalf(w, Pow2(n - 1));
    if k > 0 {
      BitAfterMod(w / 2, n - 1, k - 1);
    }
  }

  lemma {:induction false} Pow2Positive(n: nat)
    ensures Pow2(n) > 0
    ensures n > 0 ==> Pow2(n - 1) > 0
  {
    if n > 0 {
      Pow2Positive(n - 1);
    }
  }

  lemma ModHalf(w: nat, p: nat)
    requires p > 0
    ensures w % (2 * p) % 2 == w % 2
    ensures w % (2 * p) / 2 == w / 2 % p
  {
    var q, r := w / 2 / p, w / 2 % p;
    var b := w % 2;
    assert w == (2 * p) * q + (2 * r + b) by {
      assert w / 2 == p * q + r;
    }
    RemainderUnique(w, 2 * p, q, 2 * r + b);
  }

  lemma RemainderUnique(w: int, m: int, q: int, r: int)
    requires w == m * q + r && 0 <= r < m
    ensures w % m == r
  {
    var d := w / m - q;
    assert m * d == r - w % m by {
      assert w == m * (w / m) + w % m;
    }
    assert d >= 1 ==> m * d >= m;
    assert d <= -1 ==> m * d <= -m;
  }

  lemma WordIsPow2()
    ensures Pow2(32) == WORD
  {
    assert Pow2(8) == 0x100;
    assert Pow2(16) == 0x1_0000;
    assert Pow2(24) == 0x100_0000;
  }

  /** Shifting left by `d` moves bit `k - d` to bit `k` and clears the low `d` bits. */
  lemma {:induction false} BitAfterShift(w: Word, d: nat, k: nat)
    requires k < 32
    ensures Bit(ShiftLeft(w, d), k) <==> d <= k && Bit(w, k - d)
  {
    if d > 0 {
      var v: nat := ShiftLeft(w, d - 1);
      WordIsPow2();
      BitAfterMod(2 * v, 32, k);
      if k > 0 {
        BitAfterShift(w, d - 1, k - 1);
      }
    }
  }
}
