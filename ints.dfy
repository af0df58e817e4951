/** The fixed-width integer behaviour of the keymap's C code, written out.
    C evaluates `int16_t` and `int8_t` arithmetic in `int` and converts the
    result back on assignment; the conversion keeps the low bits (two's
    complement), which is what Wrap8 and Wrap16 state. */
module Ints {

  type int8 = x: int | -0x80 <= x < 0x80
  type int16 = x: int | -0x8000 <= x < 0x8000
  type uint16 = x: int | 0 <= x < 0x1_0000

  /** Euclidean division is determined by its quotient and remainder. */
  lemma DivModUnique(a: int, b: int, q: int, r: int)
    requires 0 < b && 0 <= r < b && a == q * b + r
    ensures a / b == q && a % b == r
  {
    var q', r' := a / b, a % b;
    assert a == q' * b + r' && 0 <= r' < b;
    assert (q' - q) * b == r - r' by {
      assert q' * b - q * b == (q' - q) * b;
    }
    if q' > q {
      assert (q' - q) * b >= b by { MulAtLeast(q' - q, b); }
    } else if q' < q {
      assert (q - q') * b >= b by { MulAtLeast(q - q', b); }
    }
  }

  lemma MulAtLeast(d: int, b: int)
    requires 1 <= d && 0 < b
    ensures d * b >= b
  {
    assert d * b == (d - 1) * b + b;
    if d > 1 {
      MulAtLeast(d - 1, b);
    }
  }

  /** Conversion of an `int` value to `int8_t`. */
  function Wrap8(n: int): (r: int8)
    ensures -0x80 <= n < 0x80 ==> r == n
  {
    (n + 0x80) % 0x100 - 0x80
  }

  /** Conversion of an `int` value to `int16_t`. */
  function Wrap16(n: int): (r: int16)
    ensures -0x8000 <= n < 0x8000 ==> r == n
  {
    (n + 0x8000) % 0x1_0000 - 0x8000
  }

  /** Adding to a wrapped `int8_t` and wrapping again is the same as
      wrapping once at the end: the value a step-by-step `int8_t`
      accumulator holds is the wrapped mathematical sum. */
  lemma {:induction false} Wrap8Add(a: int, b: int)
    ensures Wrap8(Wrap8(a) + b) == Wrap8(a + b)
  {
    var q, m := (a + 0x80) / 0x100, (a + 0x80) % 0x100;
    assert a + 0x80 == q * 0x100 + m;
    var s := m + b;
    var q', m' := s / 0x100, s % 0x100;
    assert s == q' * 0x100 + m' && 0 <= m' < 0x100;
    DivModUnique(a + b + 0x80, 0x100, q' + q, m');
  }

  /** `my_abs` (keymap.c): negation of an `int16_t` stored back into an
      `int16_t`; for -32768 the negation does not fit and wraps back to
      -32768 (MyAbsWraps). */
  function MyAbs(n: int16): (r: int16)
    ensures n != -0x8000 ==> r >= 0 && (r == n || r == -n)
  {
    if n == -0x8000 then n else if n < 0 then -n else n
  }

  /** MyAbs is the C code's `num = -num` on a negative `int16_t`. */
  lemma MyAbsWraps(n: int16)
    ensures n < 0 ==> MyAbs(n) == Wrap16(-(n as int))
    ensures MyAbs(-0x8000) == -0x8000
  {
  }

  /** C's `/` on `int` by a positive divisor: the quotient is truncated
      toward zero, so it has the dividend's sign and is no larger in
      magnitude. Written as repeated subtraction of the divisor from the
      dividend's magnitude; CDivTruncates states the remainder. */
  function CDiv(a: int, b: int): (q: int)
    requires 0 < b
    ensures 0 <= a ==> 0 <= q <= a
    ensures a <= 0 ==> a <= q <= 0
    decreases if a < 0 then 1 - a else a
  {
    if a < 0 then -CDiv(-a, b)
    else if a < b then 0
    else 1 + CDiv(a - b, b)
  }

  /** The remainder of a C division has the dividend's sign and is smaller
      than the divisor in magnitude. */
  lemma {:induction false} CDivTruncates(a: int, b: int)
    requires 0 < b
    ensures 0 <= a ==> 0 <= a - CDiv(a, b) * b < b
    ensures a < 0 ==> -b < a - CDiv(a, b) * b <= 0
    decreases if a < 0 then 1 - a else a
  {
    if a < 0 {
      CDivTruncates(-a, b);
      MulNegLeft(CDiv(-a, b), b);
    } else if a >= b {
      CDivTruncates(a - b, b);
      MulStep(CDiv(a - b, b), b);
    }
  }

  lemma MulStep(k: int, b: int)
    ensures (k + 1) * b == k * b + b
  {
  }

  /** A C quotient of an exact multiple is the multiplier. */
  lemma {:induction false} CDivExact(k: int, b: int)
    requires 0 < b
    ensures CDiv(k * b, b) == k
    decreases if k < 0 then 1 - k else k
  {
    if k < 0 {
      CDivExact(-k, b);
      MulNegLeft(k, b);
    } else if k > 0 {
      CDivExact(k - 1, b);
      MulStep(k - 1, b);
      MulAtLeast(k, b);
    }
  }

  lemma CDivExactNeg(k: int, b: int)
    requires 0 < b
    ensures CDiv(-(k * b), b) == -k
  {
    CDivExact(-k, b);
    MulNegLeft(k, b);
  }

  lemma MulNegLeft(k: int, b: int)
    ensures (-k) * b == -(k * b)
  {
  }

  /** `timer_elapsed` on the 16-bit timer: the time since `since`, taken
      modulo 2^16 so that a timer that wrapped around still counts up. */
  function Elapsed(now: uint16, since: uint16): (r: uint16)
    ensures (since + r) % 0x1_0000 == now
    ensures since <= now ==> r == now - since
  {
    (now - since) % 0x1_0000
  }
}
