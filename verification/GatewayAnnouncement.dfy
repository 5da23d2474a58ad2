/** How a smart gateway announces itself: uplink and downlink speed and its flags are packed into the
    netmask of the announcement of the default route. */
module GatewayAnnouncement {
  import opened Basics
  import opened Bitmap

  const MAX_SPEED := 320_000_000

  function Pow10(e: nat): nat {
    if e == 0 then 1 else 10 * Pow10(e - 1)
  }

  /** `deserialize_gw_speed`: five bits of mantissa, three bits of exponent. */
  function Speed(code: nat): nat {
    if code == 0 then 0 else if code == 255 then MAX_SPEED else (code / 8 + 1) * Pow10(code % 8)
  }

  /** A mantissa that is not a multiple of ten, or the exponent is exhausted. */
  predicate Done(speed: nat, exp: nat) {
    (speed <= 32 && speed % 10 != 0) || exp >= 7
  }

  /** `serialize_gw_speed` without its loop: where dividing by ten ends up. */
  function Normal(speed: nat, exp: nat): (r: (nat, nat))
    decreases 7 - exp
  {
    if Done(speed, exp) then (speed, exp) else Normal(speed / 10, exp + 1)
  }

  function SpeedCode(speed: nat): nat {
    if speed == 0 then 0
    else if speed >= MAX_SPEED then 255
    else var (m, e) := Normal(if speed == 1 then 2 else speed, 0); if m == 0 then 0 else (m - 1) * 8 % 256 + e
  }

  /** `serialize_gw_speed` */
  method SerializeSpeed(speed: nat) returns (code: nat)
    ensures code == SpeedCode(speed)
  {
    if speed == 0 {
      return 0;
    }
    var s := speed;
    if s == 1 {
      s := s + 1;
    }
    if s >= MAX_SPEED {
      return 255;
    }
    ghost var start := s;
    var exp := 0;
    while (s > 32 || s % 10 == 0) && exp < 7
      invariant s > 0 && exp <= 7 && Normal(s, exp) == Normal(start, 0)
      decreases 7 - exp
    {
      s := s / 10;
      exp := exp + 1;
    }
    code := (s - 1) * 8 % 256 + exp;
  }

  /** What the divisions keep: the value from below, within a third. */
  predicate Near(start: nat, s: nat, p: nat) {
    s > 0 && s * p <= start < (s + 1) * p && 3 * start < 4 * (s * p)
  }

  lemma NearNext(start: nat, s: nat, p: nat)
    requires Near(start, s, p) && (s > 32 || s % 10 == 0)
    ensures Near(start, s / 10, 10 * p)
  {
    var q := s / 10;
    assert s == 10 * q + s % 10;
    assert q * (10 * p) == 10 * q * p;
    assert 10 * q * p <= s * p by { Scale(10 * q, s, p); }
    assert (q + 1) * (10 * p) == (10 * q + 10) * p;
    assert (s + 1) * p <= (10 * q + 10) * p by { Scale(s + 1, 10 * q + 10, p); }
    if s > 32 {
      assert 3 * ((q + 1) * (10 * p)) <= 4 * (q * (10 * p)) by { Third(q, 10 * p); }
    }
  }

  lemma Third(q: nat, p: nat)
    requires q >= 3
    ensures 3 * ((q + 1) * p) <= 4 * (q * p)
  {
    assert (q + 1) * p == q * p + p;
    Scale(3, q, p);
  }

  lemma Scale(a: nat, b: nat, p: nat)
    requires a <= b
    ensures a * p <= b * p
  {
  }

  lemma {:induction false} NormalNear(start: nat, s: nat, e: nat)
    requires e <= 7 && Near(start, s, Pow10(e)) && start < MAX_SPEED
    ensures var (m, f) := Normal(s, e); Near(start, m, Pow10(f)) && f <= 7 && m <= 32 && (f == 0 ==> m == s && e == 0)
    decreases 7 - e
  {
    if Done(s, e) {
      if e == 7 {
        assert Pow10(7) == 10 * Pow10(6) == 100 * Pow10(5);
        assert Pow10(5) == 10 * Pow10(4) == 100 * Pow10(3);
        assert Pow10(3) == 1000;
        assert s * Pow10(7) < MAX_SPEED;
      }
    } else {
      NearNext(start, s, Pow10(e));
      NormalNear(start, s / 10, e + 1);
    }
  }

  lemma CodeParts(m: nat, e: nat)
    requires 1 <= m <= 32 && e <= 7
    ensures var code := (m - 1) * 8 % 256 + e;
      code <= 255 && code / 8 + 1 == m && code % 8 == e && (code == 0 <==> m == 1 && e == 0) && (code == 255 <==> m == 32 && e == 7)
  {
  }

  lemma Pow10Of7()
    ensures Pow10(7) == 10_000_000
  {
    assert Pow10(3) == 1000;
    assert Pow10(5) == 100 * Pow10(3);
    assert Pow10(7) == 100 * Pow10(5);
  }

  /** The announced speed is zero only for zero, the maximum for anything from it on, and otherwise
      never above the configured speed and more than three quarters of it; one counts as two. */
  lemma Quantised(speed: nat)
    ensures SpeedCode(speed) <= 255
    ensures Speed(SpeedCode(speed)) == 0 <==> speed == 0
    ensures speed == 1 ==> Speed(SpeedCode(speed)) == 2
    ensures speed >= MAX_SPEED ==> SpeedCode(speed) == 255 && Speed(SpeedCode(speed)) == MAX_SPEED
    ensures 2 <= speed < MAX_SPEED ==>
              SpeedCode(speed) != 255 && Speed(SpeedCode(speed)) <= speed && 3 * speed < 4 * Speed(SpeedCode(speed))
  {
    if 0 < speed < MAX_SPEED {
      QuantisedWithin(if speed == 1 then 2 else speed);
    }
  }

  lemma QuantisedWithin(speed: nat)
    requires 2 <= speed < MAX_SPEED
    ensures 0 < SpeedCode(speed) < 255 && Speed(SpeedCode(speed)) <= speed && 3 * speed < 4 * Speed(SpeedCode(speed))
    ensures speed == 2 ==> Speed(SpeedCode(speed)) == 2
  {
    NormalNear(speed, speed, 0);
    var (m, e) := Normal(speed, 0);
    CodeParts(m, e);
    NotTheMaximum(speed, m, e);
    assert Speed(SpeedCode(speed)) == m * Pow10(e);
  }

  lemma NotTheMaximum(speed: nat, m: nat, e: nat)
    requires m * Pow10(e) <= speed < MAX_SPEED
    ensures !(m == 32 && e == 7)
  {
    Pow10Of7();
  }

  /** `s` is `m` followed by `j` zeroes. */
  lemma {:induction false} NormalExact(d: nat, s: nat, e: nat, m: nat, j: nat)
    requires 0 < s && s * Pow10(e) == d && e <= 7
    requires s <= 32 || (j >= 1 && s == m * Pow10(j) && j + e <= 7 && m <= 32)
    ensures var (n, f) := Normal(s, e); n * Pow10(f) == d && 0 < n <= 32 && f <= 7 && (f == 0 ==> n == s)
    decreases 7 - e
  {
    if !Done(s, e) {
      var q := s / 10;
      if s > 32 {
        TimesTen(m, Pow10(j - 1));
        assert q == m * Pow10(j - 1);
      }
      Tenth(s, Pow10(e));
      NormalExact(d, q, e + 1, m, if s > 32 then j - 1 else 0);
    }
  }

  lemma TimesTen(m: nat, p: nat)
    ensures m * (10 * p) == 10 * (m * p)
  {
  }

  lemma Tenth(s: nat, p: nat)
    requires s % 10 == 0
    ensures s / 10 * (10 * p) == s * p
  {
    TimesTen(s / 10, p);
    assert 10 * (s / 10) == s;
    Reassociate(10, s / 10, p);
  }

  /** Speeds that can be announced are announced exactly. */
  lemma SpeedRoundTrip(code: nat)
    requires code < 256
    ensures Speed(SpeedCode(Speed(code))) == Speed(code)
  {
    if 0 < code < 255 {
      var m, k, d := code / 8 + 1, code % 8, Speed(code);
      SpeedRange(m, k);
      NormalExact(d, d, 0, m, k);
      var (n, f) := Normal(d, 0);
      CodeParts(n, f);
      Pow10Of7();
    }
  }

  lemma SpeedRange(m: nat, k: nat)
    requires 1 <= m <= 32 && k <= 7 && !(m == 1 && k == 0) && !(m == 32 && k == 7)
    ensures 2 <= m * Pow10(k) < MAX_SPEED && (m * Pow10(k) <= 32 || k >= 1)
  {
    Pow10Of7();
    assert Pow10(6) == 1_000_000;
    Pow10Order(k, 7);
    if k == 0 {
    } else if k == 7 {
      Scale(m, 31, Pow10(7));
      Scale(1, m, Pow10(7));
    } else {
      Pow10Order(1, k);
      Pow10Order(k, 6);
      Scale(m, 32, Pow10(k));
      Scale(1, m, Pow10(k));
    }
  }

  lemma {:induction false} Pow10Order(a: nat, b: nat)
    requires a <= b
    ensures 0 < Pow10(a) <= Pow10(b)
  {
    if a < b {
      Pow10Order(a, b - 1);
    } else if a > 0 {
      Pow10Order(a - 1, b - 1);
    }
  }

  // ---------------------------------------------------------------- netmasks

  /** `0xff << (8 - bits)` in a byte. */
  function TopBits(bits: nat): int
    requires bits <= 8
  {
    256 - Pow2(8 - bits)
  }

  /** Byte `i` of the netmask with `p` leading ones. */
  function MaskByte(i: nat, p: nat): int {
    if p >= 8 * i + 8 then 255 else if p <= 8 * i then 0 else TopBits(p - 8 * i)
  }

  lemma TopBitsValues()
    ensures TopBits(0) == 0 && TopBits(1) == 128 && TopBits(2) == 192 && TopBits(3) == 224 && TopBits(4) == 240
    ensures TopBits(5) == 248 && TopBits(6) == 252 && TopBits(7) == 254 && TopBits(8) == 255
  {
    assert Pow2(2) == 4 && Pow2(4) == 4 * Pow2(2) && Pow2(6) == 4 * Pow2(4) && Pow2(8) == 4 * Pow2(6);
  }

  /** `prefix_to_netmask` */
  method PrefixToNetmask(a: array<int>, prefixLen: nat) returns (ok: bool)
    modifies a
    ensures ok == (0 < a.Length && prefixLen <= 8 * a.Length)
    ensures forall i :: 0 <= i < a.Length ==> a[i] == MaskByte(i, prefixLen)
  {
    if a.Length == 0 {
      return false;
    }
    TopBitsValues();
    var i, p := 0, prefixLen;
    while i < a.Length && p > 8
      invariant i <= a.Length && p == prefixLen - 8 * i && (i > 0 ==> p > 0)
      invariant forall k :: 0 <= k < i ==> a[k] == 255
    {
      a[i] := 255;
      i, p := i + 1, p - 8;
    }
    if i >= a.Length {
      return false;
    }
    a[i] := TopBits(p);
    var last := i;
    i := i + 1;
    while i < a.Length
      invariant last < i <= a.Length
      invariant forall k :: 0 <= k < last ==> a[k] == 255
      invariant a[last] == TopBits(p)
      invariant forall k :: last < k < i ==> a[k] == 0
    {
      a[i] := 0;
      i := i + 1;
    }
    return true;
  }

  /** The bits of the first byte that is not all ones; 255 for a byte that is no netmask. */
  function LastBits(b: int): nat {
    if b == 0 then 0 else if b == 128 then 1 else if b == 192 then 2 else if b == 224 then 3 else if b == 240 then 4
    else if b == 248 then 5 else if b == 252 then 6 else if b == 254 then 7 else 255
  }

  function PrefixOf(mask: seq<int>, i: nat): nat
    requires i <= |mask|
    decreases |mask| - i
  {
    if i == |mask| then 8 * i
    else if mask[i] == 255 then PrefixOf(mask, i + 1)
    else if LastBits(mask[i]) == 255 then 255 else 8 * i + LastBits(mask[i])
  }

  /** `netmask_to_prefix`; later bytes are not looked at. */
  method NetmaskToPrefix(mask: seq<int>) returns (prefix: nat)
    ensures prefix == PrefixOf(mask, 0)
  {
    prefix := 0;
    var i := 0;
    while i < |mask| && mask[i] == 255
      invariant i <= |mask| && prefix == 8 * i && PrefixOf(mask, i) == PrefixOf(mask, 0)
    {
      prefix, i := prefix + 8, i + 1;
    }
    if i < |mask| {
      var bits := LastBits(mask[i]);
      if bits == 255 {
        prefix := 255;
      } else {
        prefix := prefix + bits;
      }
    }
  }

  /** The two are inverse for every prefix length that fits. */
  lemma {:induction false} NetmaskRoundTrip(mask: seq<int>, p: nat, i: nat)
    requires 8 * i <= p <= 8 * |mask| && i <= |mask|
    requires forall k :: 0 <= k < |mask| ==> mask[k] == MaskByte(k, p)
    ensures PrefixOf(mask, i) == p
    decreases |mask| - i
  {
    TopBitsValues();
    if i < |mask| && p >= 8 * i + 8 {
      NetmaskRoundTrip(mask, p, i + 1);
    }
  }

  /** A byte of leading ones followed by zeroes. */
  predicate MaskLike(b: int) {
    exists p: nat :: p <= 8 && b == TopBits(p)
  }

  /** The other direction, for any bytes: the result is 255 exactly if the first byte that is not all ones is no byte of a
      netmask; any other result is a prefix length whose netmask agrees up to that byte. */
  lemma {:induction false} PrefixMeans(mask: seq<int>, i: nat)
    requires i <= |mask| <= 16 && forall k :: 0 <= k < i ==> mask[k] == 255
    ensures var p := PrefixOf(mask, i);
      if p == 255 then exists k :: i <= k < |mask| && !MaskLike(mask[k]) && forall j :: 0 <= j < k ==> mask[j] == 255
      else 8 * i <= p <= 8 * |mask| && forall k :: 0 <= k < |mask| && 8 * k <= p ==> mask[k] == MaskByte(k, p)
    decreases |mask| - i
  {
    TopBitsValues();
    if i < |mask| {
      if mask[i] == 255 {
        PrefixMeans(mask, i + 1);
      } else {
        LastBitsMean(mask[i]);
      }
    }
  }

  lemma LastBitsMean(b: int)
    ensures LastBits(b) == 255 || (LastBits(b) < 8 && b == TopBits(LastBits(b)))
    ensures b != 255 ==> (LastBits(b) == 255 <==> !MaskLike(b))
  {
    TopBitsValues();
    if LastBits(b) < 8 {
      assert b == TopBits(LastBits(b));
    } else if MaskLike(b) {
      var p: nat :| p <= 8 && b == TopBits(p);
      assert p == 0 || p == 1 || p == 2 || p == 3 || p == 4 || p == 5 || p == 6 || p == 7 || p == 8;
    }
  }

  // ---------------------------------------------------------------- the announcement

  /** What the operator configured, for an IPv4 network with smart gateways switched on. */
  datatype Config = Config(hasIpv4: bool, hasIpv6: bool, uplinkNat: bool, uplink: nat, downlink: nat)

  /** What a receiver learns. */
  datatype Offer = Offer(ipv4: bool, ipv4nat: bool, uplink: nat, downlink: nat)

  function Raised(flags: nat, bit: nat, on: bool): nat {
    if on then SetBit(flags, bit) else flags
  }

  /** `refresh_smartgw_netmask` and `olsr_modifiy_inetgw_netmask` for the default route: padding,
      flags, uplink and downlink. */
  function Announced(c: Config): seq<int> {
    var flags := Raised(Raised(Raised(SetBit(0, 0), 1, c.hasIpv4), 2, c.hasIpv4 && c.uplinkNat), 3, c.hasIpv6);
    [0, flags, SpeedCode(c.uplink), SpeedCode(c.downlink)]
  }

  /** `olsr_is_smart_gateway` */
  predicate IsSmartGateway(mask: seq<int>)
    requires |mask| == 4
  {
    mask[0] == 0 && mask[1] != 0
  }

  /** The first part of `olsr_update_gateway_entry`. */
  function Received(mask: seq<int>): Offer
    requires |mask| == 4 && mask[1] >= 0 && mask[2] >= 0 && mask[3] >= 0
  {
    var withSpeed := Bit(mask[1], 0);
    Offer(Bit(mask[1], 1), Bit(mask[1], 2),
          if withSpeed then Speed(mask[2]) else 0, if withSpeed then Speed(mask[3]) else 0)
  }

  lemma FlagsSet(c: Config, k: nat)
    ensures var flags := Announced(c)[1];
      flags > 0 && (Bit(flags, k) <==> k == 0 || (k == 1 && c.hasIpv4) || (k == 2 && c.hasIpv4 && c.uplinkNat) || (k == 3 && c.hasIpv6))
  {
    var a := SetBit(0, 0);
    var b := Raised(a, 1, c.hasIpv4);
    var d := Raised(b, 2, c.hasIpv4 && c.uplinkNat);
    BitAfterSet(0, 0, k);
    BitOfZero(k);
    BitAfterSet(a, 1, k);
    BitAfterSet(b, 2, k);
    BitAfterSet(d, 3, k);
    BitAfterSet(0, 0, 0);
    BitAfterSet(a, 1, 0);
    BitAfterSet(b, 2, 0);
    BitAfterSet(d, 3, 0);
    assert Bit(Announced(c)[1], 0);
  }

  /** A receiver takes the announcement for the default route, recognises the gateway, and learns its
      flags and its speeds as far as they can be announced. */
  lemma AnnouncementReceived(c: Config)
    ensures var mask := Announced(c);
      && PrefixOf(mask, 0) == 0 && IsSmartGateway(mask)
      && Received(mask) == Offer(c.hasIpv4, c.hasIpv4 && c.uplinkNat, Speed(SpeedCode(c.uplink)), Speed(SpeedCode(c.downlink)))
  {
    FlagsSet(c, 0);
    FlagsSet(c, 1);
    FlagsSet(c, 2);
  }
}
