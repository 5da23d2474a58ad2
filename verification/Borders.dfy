/** Addresses as byte sequences, the two ways hosts compare them, and the one-byte border
    flags with which a split LQ_TC tells its receivers where one fragment ends. */
module Borders {
  import opened Basics
  import opened Bitmap

  type Address = seq<Byte>

  // ---------------------------------------------------------------- order of addresses

  /** How `avl_comp_default` reads an address: IPv6 addresses are compared byte by byte, IPv4
      addresses as the raw 32-bit number, which depends on the host. */
  datatype Order = BigEndian | LittleEndian

  function BigValue(a: Address): nat {
    if a == [] then 0 else 256 * BigValue(a[..|a| - 1]) + a[|a| - 1]
  }

  function LittleValue(a: Address): nat {
    if a == [] then 0 else a[0] + 256 * LittleValue(a[1..])
  }

  function Key(o: Order, a: Address): nat {
    match o
    case BigEndian => BigValue(a)
    case LittleEndian => LittleValue(a)
  }

  function Fill(n: nat, b: Byte): Address {
    seq(n, i => b)
  }

  lemma {:induction false} BigFirstDifference(a: Address, b: Address, p: nat)
    requires |a| == |b| && p < |a| && a[..p] == b[..p] && a[p] < b[p]
    ensures BigValue(a) < BigValue(b)
  {
    var n := |a| - 1;
    if p == n {
      assert a[..n] == b[..n];
    } else {
      assert a[..n][..p] == a[..p] && b[..n][..p] == b[..p];
      BigFirstDifference(a[..n], b[..n], p);
    }
  }

  lemma {:induction false} LittleLastDifference(a: Address, b: Address, p: nat)
    requires |a| == |b| && p < |a| && a[p + 1..] == b[p + 1..] && a[p] < b[p]
    ensures LittleValue(a) < LittleValue(b)
  {
    if p == 0 {
      assert a[1..] == b[1..];
    } else {
      assert a[1..][p..] == a[p + 1..] && b[1..][p..] == b[p + 1..];
      LittleLastDifference(a[1..], b[1..], p - 1);
    }
  }

  /** The first byte in which two addresses differ. */
  function FirstDifference(a: Address, b: Address): (p: nat)
    requires |a| == |b| && a != b
    ensures p < |a| && a[..p] == b[..p] && a[p] != b[p]
  {
    if a[0] != b[0] then 0
    else
      assert a == [a[0]] + a[1..] && b == [b[0]] + b[1..];
      var p := FirstDifference(a[1..], b[1..]) + 1;
      assert a[..p] == [a[0]] + a[1..][..p - 1] && b[..p] == [b[0]] + b[1..][..p - 1];
      p
  }

  /** The last byte in which two addresses differ. */
  function LastDifference(a: Address, b: Address): (p: nat)
    requires |a| == |b| && a != b
    ensures p < |a| && a[p + 1..] == b[p + 1..] && a[p] != b[p]
  {
    var n := |a| - 1;
    if a[n] != b[n] then n
    else
      assert a == a[..n] + [a[n]] && b == b[..n] + [b[n]];
      var p := LastDifference(a[..n], b[..n]);
      assert a[p + 1..] == a[..n][p + 1..] + [a[n]] && b[p + 1..] == b[..n][p + 1..] + [b[n]];
      p
  }

  /** Both readings order addresses totally: distinct addresses have distinct keys. */
  lemma KeyInjective(o: Order, a: Address, b: Address)
    requires |a| == |b| && Key(o, a) == Key(o, b)
    ensures a == b
  {
    if a != b {
      var f, l := FirstDifference(a, b), LastDifference(a, b);
      if o == BigEndian {
        if a[f] < b[f] { BigFirstDifference(a, b, f); } else { BigFirstDifference(b, a, f); }
      } else {
        if a[l] < b[l] { LittleLastDifference(a, b, l); } else { LittleLastDifference(b, a, l); }
      }
    }
  }

  lemma {:induction false} KeyOfFill(o: Order, a: Address)
    ensures Key(o, Fill(|a|, 0)) <= Key(o, a) <= Key(o, Fill(|a|, 255))
  {
    if a != [] {
      var n := |a| - 1;
      assert Fill(|a|, 0)[..n] == Fill(n, 0) == Fill(|a|, 0)[1..];
      assert Fill(|a|, 255)[..n] == Fill(n, 255) == Fill(|a|, 255)[1..];
      KeyOfFill(o, if o == BigEndian then a[..n] else a[1..]);
    }
  }

  // ---------------------------------------------------------------- bits inside a byte

  /** `x & (0xff << k)`: the low `k` bits cleared. */
  function ClearLow(x: nat, k: nat): (r: nat)
    ensures r <= x
  {
    if k == 0 then x else 2 * ClearLow(x / 2, k - 1)
  }

  /** `(x & (0xff << q)) | (1 << q)`: keep the bits above `q`, set bit `q`, clear the rest. */
  function CutByte(x: nat, q: nat): nat {
    if q == 0 then x / 2 * 2 + 1 else 2 * CutByte(x / 2, q - 1)
  }

  lemma {:induction false} CutStaysBelow(x: nat, q: nat, n: nat)
    requires x < Pow2(n) && q < n
    ensures CutByte(x, q) < Pow2(n)
  {
    var half := x / 2;
    assert Pow2(n) == 2 * Pow2(n - 1);
    if q > 0 {
      CutStaysBelow(half, q - 1, n - 1);
      assert CutByte(x, q) == 2 * CutByte(half, q - 1);
    }
  }

  lemma CutByteFits(x: Byte, q: nat)
    requires q < 8
    ensures CutByte(x, q) < 256
  {
    assert Pow2(8) == 2 * 2 * 2 * 2 * Pow2(4) == 256;
    CutStaysBelow(x, q, 8);
  }

  /** `q` is the most significant bit in which two bytes differ. */
  predicate TopBit(x: nat, y: nat, q: nat) {
    q < 8 && ClearLow(x, q + 1) == ClearLow(y, q + 1) && ClearLow(x, q) != ClearLow(y, q)
  }

  /** The cut lies strictly above the smaller byte and not above the larger one, and it is
      the same seen from either byte. */
  lemma {:induction false} CutByteBetween(x: nat, y: nat, q: nat)
    requires ClearLow(x, q + 1) == ClearLow(y, q + 1) && ClearLow(x, q) != ClearLow(y, q)
    ensures CutByte(x, q) == CutByte(y, q)
    ensures x < y ==> x < CutByte(x, q) <= y
    ensures y < x ==> y < CutByte(x, q) <= x
    ensures x != y
  {
    if q > 0 {
      CutByteBetween(x / 2, y / 2, q - 1);
    }
  }

  lemma {:induction false} AllCleared(x: nat, k: nat)
    requires x < Pow2(k)
    ensures ClearLow(x, k) == 0
  {
    if k > 0 {
      AllCleared(x / 2, k - 1);
    }
  }

  // ---------------------------------------------------------------- flags and cuts

  /** Bit `g`, counted from the last bit of the address, is the most significant bit in which
      two addresses differ. */
  predicate TopDifference(a: Address, b: Address, g: nat)
    requires |a| == |b|
  {
    g < 8 * |a| && var p := |a| - 1 - g / 8;
      a[..p] == b[..p] && TopBit(a[p], b[p], g % 8)
  }

  /** What a border flag between two addresses means. */
  predicate IsFlag(a: Address, b: Address, flag: nat)
    requires |a| == |b|
  {
    if a == b then flag == 0 else flag >= 1 && TopDifference(a, b, flag - 1)
  }

  /** The second loop of `calculate_border_flag`: clear ever more low bits until the bytes agree. */
  method TopDifferingBit(x: Byte, y: Byte) returns (bitpos: nat)
    requires x != y
    ensures TopBit(x, y, bitpos)
  {
    bitpos := 0;
    while bitpos < 8 && ClearLow(x, bitpos + 1) != ClearLow(y, bitpos + 1)
      invariant 0 <= bitpos < 8
      invariant ClearLow(x, bitpos) != ClearLow(y, bitpos)
    {
      assert Pow2(8) == 2 * 2 * 2 * 2 * Pow2(4) == 256;
      AllCleared(x, 8);
      AllCleared(y, 8);
      bitpos := bitpos + 1;
    }
  }

  /** `calculate_border_flag`. */
  method CalculateBorderFlag(lower: Address, higher: Address) returns (flag: nat)
    requires 0 < |lower| == |higher| <= 16
    ensures IsFlag(lower, higher, flag)
    ensures flag <= 128
  {
    var n := |lower|;
    var part := 0;
    while part < n && lower[part] == higher[part]
      invariant 0 <= part <= n && lower[..part] == higher[..part]
    {
      part := part + 1;
    }
    if part == n {
      return 0;
    }
    var bitpos := TopDifferingBit(lower[part], higher[part]);
    bitpos := bitpos + 8 * (n - part - 1);
    assert bitpos / 8 == n - part - 1;
    return bitpos + 1;
  }

  /** The address with everything below bit `g` cleared and bit `g` set. */
  function Cut(a: Address, g: nat): (s: Address)
    requires g < 8 * |a|
    ensures |s| == |a|
  {
    var p := |a| - 1 - g / 8;
    CutByteFits(a[p], g % 8);
    a[..p] + [CutByte(a[p], g % 8)] + Fill(g / 8, 0)
  }

  /** The update of one border address in `olsr_calculate_tc_border`. The code takes any flag, in an
      unsigned byte; `inside` says whether it then stays within the address. */
  method CutAddress(a: array<Byte>, flag: Byte) returns (inside: bool)
    requires a.Length <= 16
    modifies a
    ensures inside <==> 1 <= flag <= 8 * a.Length
    ensures a[..] == if inside then Cut(old(a[..]), flag - 1) else old(a[..])
  {
    var g := (flag + 255) % 256;
    FlagInside(flag, a.Length);
    inside := g / 8 < a.Length;
    if inside {
      CutAt(a, g);
    }
  }

  lemma FlagInside(flag: Byte, n: nat)
    requires n <= 16
    ensures var g := (flag + 255) % 256; (g / 8 < n <==> 1 <= flag <= 8 * n) && (flag > 0 ==> g == flag - 1)
  {
  }

  method CutAt(a: array<Byte>, g: nat)
    requires g < 8 * a.Length
    modifies a
    ensures a[..] == Cut(old(a[..]), g)
  {
    var p, c := a.Length - 1 - g / 8, g / 8;
    ClearTail(a, c);
    CutByteFits(a[p], g % 8);
    a[p] := CutByte(a[p], g % 8);
    assert a[..] == old(a[..])[..p] + [a[p]] + Fill(c, 0);
  }

  /** Its loop: the last `c` bytes are cleared. */
  method ClearTail(a: array<Byte>, c: nat)
    requires c <= a.Length
    modifies a
    ensures forall k :: 0 <= k < a.Length - c ==> a[k] == old(a[k])
    ensures forall k :: a.Length - c <= k < a.Length ==> a[k] == 0
  {
    var n, i := a.Length, 0;
    while i < c
      invariant 0 <= i <= c
      invariant forall k :: 0 <= k < n - i ==> a[k] == old(a[k])
      invariant forall k :: n - i <= k < n ==> a[k] == 0
    {
      a[n - i - 1] := 0;
      i := i + 1;
    }
  }

  /** The cut seen from both sides of a border is the same address. */
  lemma CutAgrees(a: Address, b: Address, g: nat)
    requires |a| == |b| && TopDifference(a, b, g)
    ensures Cut(a, g) == Cut(b, g)
  {
    var p := |a| - 1 - g / 8;
    CutByteBetween(a[p], b[p], g % 8);
  }

  /** Read byte by byte, the cut separates the two addresses in exactly the order in which
      they stand: above the smaller one and not above the larger one. */
  lemma CutSeparates(a: Address, b: Address, g: nat)
    requires |a| == |b| && TopDifference(a, b, g)
    requires BigValue(a) < BigValue(b)
    ensures BigValue(a) < BigValue(Cut(a, g)) <= BigValue(b)
  {
    CutAgrees(a, b, g);
    var p, s := |a| - 1 - g / 8, Cut(a, g);
    CutByteBetween(a[p], b[p], g % 8);
    if b[p] < a[p] {
      BigFirstDifference(b, a, p);
    }
    assert s[..p] == a[..p];
    BigFirstDifference(a, s, p);
    CutNotAbove(BigEndian, a, b, g);
  }

  lemma BigCutNotAbove(a: Address, b: Address, g: nat)
    requires |a| == |b| && TopDifference(a, b, g)
    requires BigValue(a) < BigValue(b)
    ensures BigValue(Cut(a, g)) <= BigValue(b)
  {
    CutAgrees(a, b, g);
    var p, s := |a| - 1 - g / 8, Cut(a, g);
    CutByteBetween(a[p], b[p], g % 8);
    assert s[..p] == a[..p] == b[..p];
    if b[p] < a[p] {
      BigFirstDifference(b, a, p);
    }
    if s != b {
      var f := FirstDifference(s, b);
      assert f >= p by {
        assert forall i :: 0 <= i < p ==> s[i] == s[..p][i] == b[..p][i] == b[i];
      }
      BigFirstDifference(s, b, f);
    }
  }

  lemma LittleCutNotAbove(a: Address, b: Address, g: nat)
    requires |a| == |b| && TopDifference(a, b, g)
    requires LittleValue(a) < LittleValue(b)
    ensures LittleValue(Cut(a, g)) <= LittleValue(b)
  {
    CutAgrees(a, b, g);
    var p, s := |a| - 1 - g / 8, Cut(a, g);
    CutByteBetween(a[p], b[p], g % 8);
    if s != b {
      var l := LastDifference(s, b);
      assert l >= p by {
        assert forall i :: 0 <= i < p ==> s[i] == a[..p][i] == b[..p][i] == b[i];
      }
      if l == p {
        SameTail(s, b, p + 1);
        LittleAgreeBehind(a, b, p);
      }
      LittleLastDifference(s, b, l);
    }
  }

  lemma SameTail(a: Address, b: Address, p: nat)
    requires |a| == |b| && p <= |a| && a[p..] == b[p..]
    ensures forall i :: p <= i < |a| ==> a[i] == b[i]
  {
    forall i | p <= i < |a| ensures a[i] == b[i] {
      assert a[i] == a[p..][i - p] == b[p..][i - p];
    }
  }

  /** With nothing but zeroes behind the first differing byte, the later address is larger in it. */
  lemma LittleAgreeBehind(a: Address, b: Address, p: nat)
    requires |a| == |b| && p < |a| && LittleValue(a) < LittleValue(b) && a[..p] == b[..p] && a[p] != b[p]
    requires forall i :: p < i < |b| ==> b[i] == 0
    ensures a[p] < b[p]
  {
    var r := LastDifference(a, b);
    assert r >= p by {
      assert forall i :: 0 <= i < p ==> a[i] == a[..p][i] == b[..p][i] == b[i];
    }
    if b[r] < a[r] {
      LittleLastDifference(b, a, r);
    }
  }

  /** In either reading the cut is not above the larger address. */
  lemma CutNotAbove(o: Order, a: Address, b: Address, g: nat)
    requires |a| == |b| && TopDifference(a, b, g)
    requires Key(o, a) < Key(o, b)
    ensures Key(o, Cut(a, g)) <= Key(o, b)
  {
    if o == BigEndian {
      BigCutNotAbove(a, b, g);
    } else {
      LittleCutNotAbove(a, b, g);
    }
  }

  lemma CutShape(a: Address, g: nat)
    requires g < 8 * |a|
    ensures var p, s := |a| - 1 - g / 8, Cut(a, g);
      s[..p] == a[..p] && s[p] == CutByte(a[p], g % 8) && forall i :: p < i < |s| ==> s[i] == 0
  {
  }

  /** Comparing raw numbers when one of them is zero behind byte `p` and both agree before it. */
  lemma RawCompare(a: Address, s: Address, p: nat)
    requires |a| == |s| && p < |a| && s[..p] == a[..p] && forall i :: p < i < |s| ==> s[i] == 0
    ensures LittleValue(a) < LittleValue(s) <==> a[p] < s[p] && forall i :: p < i < |a| ==> a[i] == 0
  {
    if a == s {
      return;
    }
    var l := LastDifference(s, a);
    assert l >= p by {
      assert forall i :: 0 <= i < p ==> s[i] == s[..p][i] == a[..p][i] == a[i];
    }
    assert forall i :: l < i < |a| ==> s[i] == s[l + 1..][i - l - 1] == a[l + 1..][i - l - 1] == a[i];
    if s[l] < a[l] {
      LittleLastDifference(s, a, l);
    } else {
      assert a[l + 1..] == s[l + 1..];
      LittleLastDifference(a, s, l);
    }
  }
}
