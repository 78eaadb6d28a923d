/** The inline conversions between channel values of the protocol (172..1811, centre
    992), servo pulse widths in microseconds, 10-bit values and switch bits.

    `fmap` takes `uint16_t` arguments, so the floating-point literals its callers pass
    (`172.0`, `1811.0`, ...) are converted to integers, and its body is evaluated in C
    `int` arithmetic: the operands are promoted to signed 32-bit `int`, `/` truncates
    toward zero, and the result is narrowed to `uint16_t` on return. The `round()`
    around each call receives that integer and gives it back unchanged. */
module Conversions {
  import opened CTypes

  /** `CRSF_CHANNEL_VALUE_MIN`, `CRSF_CHANNEL_VALUE_MID`, `CRSF_CHANNEL_VALUE_MAX` */
  const ChannelValueMin: uint16 := 172
  const ChannelValueMid: uint16 := 992
  const ChannelValueMax: uint16 := 1811

  function Abs(x: int): nat
  {
    if x < 0 then -x else x
  }

  /** C's `/` on `int`: the quotient of the magnitudes, rounded down, carrying the sign
      of the product of the operands (truncation toward zero). */
  function CDiv(a: int, b: int): (q: int)
    requires b != 0
    ensures Abs(q) <= Abs(a)
    ensures a >= 0 && b > 0 ==> q == a / b
    ensures Abs(a - q * b) < Abs(b)
    ensures a - q * b == 0 || ((a - q * b < 0) <==> (a < 0))
  {
    var m := Abs(a) / Abs(b);
    assert 0 <= m <= Abs(a) by { DivAtMost(Abs(a), Abs(b)); }
    var q := if (a < 0) == (b < 0) then m else -m;
    assert 0 <= Abs(a) - m * Abs(b) < Abs(b) by { FloorDiv(Abs(a), Abs(b)); }
    CDivRemainder(a, b, m, q);
    q
  }

  /** The remainder of the truncated quotient is that of the magnitudes, with the sign
      of the dividend. */
  lemma CDivRemainder(a: int, b: int, m: int, q: int)
    requires b != 0 && q == (if (a < 0) == (b < 0) then m else -m)
    ensures a - q * b == (if a < 0 then -(Abs(a) - m * Abs(b)) else Abs(a) - m * Abs(b))
  {
    if b > 0 {
      assert Abs(b) == b;
      if a < 0 { assert q * b == -(m * b); } else { assert q * b == m * b; }
    } else {
      assert Abs(b) == -b;
      if a < 0 { assert q * b == -(m * Abs(b)); } else { assert q * b == m * Abs(b); }
    }
  }

  lemma DivAtMost(n: nat, d: nat)
    requires d > 0
    ensures 0 <= n / d <= n
  {
    var q := n / d;
    MulLe(1, d, q);
  }

  lemma MulLe(a: int, b: int, c: nat)
    requires a <= b
    ensures a * c <= b * c
  {
  }

  /** The quotient of `n` by `d` is the largest `q` with `q * d <= n`. */
  lemma FloorDiv(n: nat, d: nat)
    requires d > 0
    ensures (n / d) * d <= n < (n / d) * d + d
  {
  }

  /** A quotient of something at most `d * m` by `d` is at most `m`. */
  lemma QuotientBound(n: nat, d: nat, m: nat)
    requires d > 0 && n <= m * d
    ensures n / d <= m
  {
    var q := n / d;
    FloorDiv(n, d);
    if q > m {
      MulLe(m + 1, q, d);
    }
  }

  /** Scaling `t` in `0..d` by `w / d` and rounding down lands in `0..w`. */
  lemma Interpolation(t: nat, d: nat, w: nat)
    requires 0 < d && t <= d
    ensures 0 <= (t * w) / d <= w
    ensures ((t * w) / d) * d <= t * w < ((t * w) / d) * d + d
  {
    FloorDiv(t * w, d);
    MulLe(t, d, w);
    QuotientBound(t * w, d, w);
  }

  predicate InInt32(x: int)
  {
    -0x8000_0000 <= x < 0x8000_0000
  }

  /** The integer `fmap`: `(x - in_min) * (out_max - out_min) / (in_max - in_min) + out_min`.
      Its callers must keep the intermediate `int` values from overflowing and must not
      pass an empty input range; every caller in the header does both for every
      `uint16_t` argument. On its input range, with an increasing output range, the
      result is the linear interpolation rounded down. */
  function Fmap(x: uint16, inMin: uint16, inMax: uint16, outMin: uint16, outMax: uint16): (r: uint16)
    requires inMax != inMin
    requires InInt32((x - inMin) * (outMax - outMin))
    requires InInt32(CDiv((x - inMin) * (outMax - outMin), inMax - inMin) + outMin)
    ensures inMin <= x <= inMax && outMin <= outMax ==>
              outMin <= r <= outMax &&
              (r - outMin) * (inMax - inMin) <= (x - inMin) * (outMax - outMin) < (r - outMin + 1) * (inMax - inMin)
  {
    var q := CDiv((x - inMin) * (outMax - outMin), inMax - inMin);
    var r := NarrowToUint16(q + outMin);
    assert inMin <= x <= inMax && outMin <= outMax ==>
             outMin <= r <= outMax &&
             (r - outMin) * (inMax - inMin) <= (x - inMin) * (outMax - outMin) < (r - outMin + 1) * (inMax - inMin) by {
      if inMin <= x <= inMax && outMin <= outMax {
        FmapQuotient(x - inMin, inMax - inMin, outMax - outMin, q);
        assert r == q + outMin;
        FmapShift(q, r - outMin, inMax - inMin, (x - inMin) * (outMax - outMin));
      }
    }
    r
  }

  /** The quotient `q` of `t * w` by `d`, for `t` in `0..d`, lies in `0..w` and rounds down. */
  lemma FmapQuotient(t: nat, d: nat, w: nat, q: int)
    requires 0 < d && t <= d && q == CDiv(t * w, d)
    ensures 0 <= q <= w && q * d <= t * w < (q + 1) * d
  {
    Interpolation(t, d, w);
  }

  lemma FmapShift(q: int, s: int, d: int, n: int)
    requires s == q && q * d <= n < (q + 1) * d
    ensures s * d <= n < (s + 1) * d
  {
  }

  /** `fmap` is monotone in `x` over its input range. */
  lemma FmapMonotone(x: uint16, y: uint16, inMin: uint16, inMax: uint16, outMin: uint16, outMax: uint16)
    requires inMin <= x <= y <= inMax && inMin < inMax && outMin <= outMax
    requires InInt32((inMax - inMin) * (outMax - outMin))
    ensures InInt32((x - inMin) * (outMax - outMin)) && InInt32((y - inMin) * (outMax - outMin))
    ensures InInt32(CDiv((x - inMin) * (outMax - outMin), inMax - inMin) + outMin)
    ensures InInt32(CDiv((y - inMin) * (outMax - outMin), inMax - inMin) + outMin)
    ensures Fmap(x, inMin, inMax, outMin, outMax) <= Fmap(y, inMin, inMax, outMin, outMax)
  {
    var d: nat := inMax - inMin;
    var w: nat := outMax - outMin;
    Interpolation(x - inMin, d, w);
    Interpolation(y - inMin, d, w);
    var nx: nat := (x - inMin) * w;
    var ny: nat := (y - inMin) * w;
    MulLe(x - inMin, y - inMin, w);
    MulLe(y - inMin, d, w);
    assert CDiv(nx, d) == nx / d && CDiv(ny, d) == ny / d;
    DivMonotone(nx, ny, d);
  }

  lemma DivMonotone(n: nat, m: nat, d: nat)
    requires n <= m && d > 0
    ensures n / d <= m / d
  {
    FloorDiv(n, d);
    FloorDiv(m, d);
    if n / d > m / d {
      MulLe(m / d + 1, n / d, d);
    }
  }

  /** `CRSF_to_US`: channel value to pulse width, 172..1811 onto 988..2012 µs. */
  function CrsfToUs(v: uint16): (r: uint16)
    ensures ChannelValueMin <= v <= ChannelValueMax ==> 988 <= r <= 2012
  {
    Fmap(v, 172, 1811, 988, 2012)
  }

  /** Pulse widths keep the order of the channel values they come from. */
  lemma CrsfToUsMonotone(x: uint16, y: uint16)
    requires ChannelValueMin <= x <= y <= ChannelValueMax
    ensures CrsfToUs(x) <= CrsfToUs(y)
  {
    FmapMonotone(x, y, 172, 1811, 988, 2012);
  }

  /** `UINT10_to_CRSF`: a 10-bit value (0..1024) onto the channel range 172..1811. */
  function Uint10ToCrsf(v: uint16): (r: uint16)
    ensures v <= 1024 ==> ChannelValueMin <= r <= ChannelValueMax
  {
    Fmap(v, 0, 1024, 172, 1811)
  }

  /** `CRSF_to_UINT10` as written: a channel value onto 0..1023. Below `172` the
      difference `Val - 172` is negative, the truncated quotient may be negative, and the
      narrowing to `uint16_t` wraps it round to a value near 65535. */
  function CrsfToUint10AsWritten(v: uint16): (r: uint16)
    ensures ChannelValueMin <= v <= ChannelValueMax ==> r <= 1023
  {
    Fmap(v, 172, 1811, 0, 1023)
  }

  /** With its argument limited, `CRSF_to_UINT10` keeps the order of all its inputs. */
  lemma CrsfToUint10Monotone(x: uint16, y: uint16)
    requires x <= y
    ensures CrsfToUint10(x) <= CrsfToUint10(y)
  {
    var cx := if x < ChannelValueMin then ChannelValueMin else if x > ChannelValueMax then ChannelValueMax else x;
    var cy := if y < ChannelValueMin then ChannelValueMin else if y > ChannelValueMax then ChannelValueMax else y;
    FmapMonotone(cx, cy, 172, 1811, 0, 1023);
  }

  /** `UINT10_to_CRSF` keeps the order of its inputs. */
  lemma Uint10ToCrsfMonotone(x: uint16, y: uint16)
    requires x <= y <= 1024
    ensures Uint10ToCrsf(x) <= Uint10ToCrsf(y)
  {
    FmapMonotone(x, y, 0, 1024, 172, 1811);
  }

  /** `CRSF_to_UINT10` with its argument first limited to the channel range, so that
      every input lands in 0..1023; on the channel range it is the function as written. */
  function CrsfToUint10(v: uint16): (r: uint16)
    ensures r <= 1023
    ensures ChannelValueMin <= v <= ChannelValueMax ==> r == CrsfToUint10AsWritten(v)
    ensures v <= ChannelValueMin ==> r == 0
    ensures v >= ChannelValueMax ==> r == 1023
  {
    var c := if v < ChannelValueMin then ChannelValueMin else if v > ChannelValueMax then ChannelValueMax else v;
    CrsfToUint10AsWritten(c)
  }

  /** The channel value 170, two below the minimum, comes out of the conversion as
      written as 65535 instead of a 10-bit value. */
  lemma CrsfToUint10Wraps()
    ensures CrsfToUint10AsWritten(170) == 65535 > CrsfToUint10AsWritten(ChannelValueMin)
    ensures CrsfToUint10(170) == 0
  {
  }

  /** `CRSF_to_BIT`: a switch channel is on above 1000. */
  function CrsfToBit(v: uint16): (r: uint8)
    ensures r == 0 || r == 1
    ensures r == 1 <==> v > 1000
  {
    if v > 1000 then 1 else 0
  }

  /** `BIT_to_CRSF`: a switch bit as the channel value 1795 (on) or 188 (off). */
  function BitToCrsf(b: uint8): (r: uint16)
    ensures ChannelValueMin <= r <= ChannelValueMax
    ensures CrsfToBit(r) == if b != 0 then 1 else 0
  {
    if b != 0 then 1795 else 188
  }

  /** `CRSF_to_US` at the ends and the centre of the channel range. */
  lemma CrsfToUsExamples()
    ensures CrsfToUs(172) == 988 && CrsfToUs(992) == 1500 && CrsfToUs(1811) == 2012
  {
    assert CDiv(820 * 1024, 1639) == 512;
  }

  /** `UINT10_to_CRSF` at the ends of the 10-bit range. */
  lemma Uint10ToCrsfExamples()
    ensures Uint10ToCrsf(0) == 172 && Uint10ToCrsf(1024) == 1811
  {
  }

  /** `CRSF_to_UINT10` at the ends of the channel range. */
  lemma CrsfToUint10Examples()
    ensures CrsfToUint10(172) == 0 && CrsfToUint10(1811) == 1023
  {
  }

  /** A 10-bit value sent as a channel value and read back loses at most 2. */
  lemma Uint10RoundTrip(v: uint16)
    requires v <= 1023
    ensures v - 2 <= CrsfToUint10(Uint10ToCrsf(v)) <= v
  {
    var q := (v * 1639) / 1024;
    assert q * 1024 <= v * 1639 < q * 1024 + 1024;
    var c := Uint10ToCrsf(v);
    assert c == q + 172;
    var u := CrsfToUint10(c);
    assert u == (q * 1023) / 1639;
    assert u * 1639 <= q * 1023 < u * 1639 + 1639;
    assert q <= 1637;
    assert u * 1639 <= v * 1639;
    assert (u + 1) * 1639 > v * 1639 - 1024 - q;
  }
}
