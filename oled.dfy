/** `format_4u`, the OLED panel's number formatter: it writes the value
    into the four text slots of a static five-character buffer, units
    digit last, and pads with spaces once the remaining quotient is zero. */
module Oled {
  import opened Ints

  function DigitChar(d: int): (c: char)
    requires 0 <= d < 10
    ensures IsDigit(c)
  {
    ('0' as int + d) as char
  }

  predicate IsDigit(c: char)
  {
    '0' <= c <= '9'
  }

  function DigitValue(c: char): (d: nat)
    requires IsDigit(c)
    ensures d < 10
  {
    c as int - '0' as int
  }

  /** The decimal numeral of `n`, without leading zeros ("0" for 0). */
  function Decimal(n: nat): (s: seq<char>)
    ensures 1 <= |s|
    ensures forall i :: 0 <= i < |s| ==> IsDigit(s[i])
  {
    if n < 10 then [DigitChar(n)] else Decimal(n / 10) + [DigitChar(n % 10)]
  }

  /** The last `k` decimal digits of `n`, zero-padded to width `k`. */
  function LowDigits(n: nat, k: nat): (s: seq<char>)
    ensures |s| == k
    ensures forall i :: 0 <= i < |s| ==> IsDigit(s[i])
  {
    if k == 0 then [] else LowDigits(n / 10, k - 1) + [DigitChar(n % 10)]
  }

  function Spaces(k: nat): (s: seq<char>)
    ensures |s| == k && forall i :: 0 <= i < k ==> s[i] == ' '
  {
    if k == 0 then [] else [' '] + Spaces(k - 1)
  }

  /** The numeral read back: the value of a string of digits. */
  function ParseDecimal(s: seq<char>): nat
    requires forall i :: 0 <= i < |s| ==> IsDigit(s[i])
  {
    if s == [] then 0 else ParseDecimal(s[..|s| - 1]) * 10 + DigitValue(s[|s| - 1])
  }

  /** The string without its leading spaces. */
  function TrimLeft(s: seq<char>): (t: seq<char>)
    ensures |t| <= |s|
  {
    if s != [] && s[0] == ' ' then TrimLeft(s[1..]) else s
  }

  /** What `format_4u(v)` leaves in the four text slots: below 10000 the
      numeral of `v`, right-aligned and padded with spaces; from 10000 on
      the quotient never reaches zero within four slots, so the low four
      digits appear zero-padded. */
  function Format4uText(v: uint16): seq<char>
  {
    if v < 10000 then DecimalShort(v); Spaces(4 - |Decimal(v)|) + Decimal(v) else LowDigits(v, 4)
  }

  /** The numerals of values below 10000 have at most four digits. */
  lemma DecimalShort(n: nat)
    requires n < 10000
    ensures |Decimal(n)| <= 4
    ensures n < 10 <==> |Decimal(n)| == 1
    ensures 10 <= n < 100 <==> |Decimal(n)| == 2
    ensures 100 <= n < 1000 <==> |Decimal(n)| == 3
  {
    if n >= 10 {
      DecimalShort(n / 10);
    }
  }

  /** `format_4u`: fills `buf[3]`, `buf[2]`, `buf[1]`, `buf[0]` in that
      order, dividing by ten between slots; the terminator `buf[4]` is never
      written. */
  method Format4u(v: uint16, buf: array<char>)
    requires buf.Length == 5
    modifies buf
    ensures buf[..4] == Format4uText(v)
    ensures buf[4] == old(buf[4])
  {
    var w := v;
    buf[3] := DigitChar(w % 10);
    w := w / 10;
    buf[2] := if w != 0 then DigitChar(w % 10) else ' ';
    w := w / 10;
    buf[1] := if w != 0 then DigitChar(w % 10) else ' ';
    w := w / 10;
    buf[0] := if w != 0 then DigitChar(w % 10) else ' ';
    Format4uSlots(v);
  }

  /** Format4uText slot by slot, as the C code computes the slots. */
  lemma Format4uSlots(v: uint16)
    ensures Format4uText(v) == [Slot(v / 1000), Slot(v / 100), Slot(v / 10), DigitChar(v % 10)]
  {
    if v < 1000 {
      ShortSlots(v);
    } else if v < 10000 {
      FourDigitSlots(v);
    } else {
      LongSlots(v);
    }
  }

  lemma ShortSlots(v: uint16)
    requires v < 1000
    ensures Format4uText(v) == [Slot(v / 1000), Slot(v / 100), Slot(v / 10), DigitChar(v % 10)]
  {
    DivTen(v);
    if v < 10 {
      assert Spaces(3) == [' ', ' ', ' '];
    } else if v < 100 {
      DecimalTwo(v);
      assert Spaces(2) == [' ', ' '];
    } else {
      DecimalThree(v);
      assert Spaces(1) == [' '];
    }
  }

  lemma FourDigitSlots(v: uint16)
    requires 1000 <= v < 10000
    ensures Format4uText(v) == [Slot(v / 1000), Slot(v / 100), Slot(v / 10), DigitChar(v % 10)]
  {
    DecimalFour(v);
    assert Spaces(0) == [];
  }

  /** The numerals of two, three and four digits, digit by digit. */
  lemma DecimalTwo(n: nat)
    requires 10 <= n < 100
    ensures Decimal(n) == [DigitChar(n / 10 % 10), DigitChar(n % 10)]
  {
  }

  lemma DecimalThree(n: nat)
    requires 100 <= n < 1000
    ensures Decimal(n) == [DigitChar(n / 100 % 10), DigitChar(n / 10 % 10), DigitChar(n % 10)]
  {
    DivTen(n);
    DecimalTwo(n / 10);
  }

  lemma DecimalFour(n: nat)
    requires 1000 <= n < 10000
    ensures Decimal(n) == [DigitChar(n / 1000 % 10), DigitChar(n / 100 % 10), DigitChar(n / 10 % 10), DigitChar(n % 10)]
  {
    DivTen(n);
    DecimalThree(n / 10);
  }

  lemma LongSlots(v: uint16)
    requires 10000 <= v
    ensures Format4uText(v) == [Slot(v / 1000), Slot(v / 100), Slot(v / 10), DigitChar(v % 10)]
  {
    DivTen(v);
    DivTen(v / 10);
    assert LowDigits(v, 4) == LowDigits(v / 10, 3) + [DigitChar(v % 10)];
    assert LowDigits(v / 10, 3) == LowDigits(v / 100, 2) + [DigitChar(v / 10 % 10)];
    assert LowDigits(v / 100, 2) == LowDigits(v / 1000, 1) + [DigitChar(v / 100 % 10)];
    assert LowDigits(v / 1000, 1) == [DigitChar(v / 1000 % 10)];
    assert v / 1000 != 0;
  }

  /** Dividing by ten twice is dividing by a hundred, and so on. */
  lemma DivTen(n: nat)
    ensures n / 10 / 10 == n / 100 && n / 10 / 100 == n / 1000
  {
    DivModUnique(n, 100, n / 10 / 10, n / 10 % 10 * 10 + n % 10);
    DivModUnique(n, 1000, n / 10 / 100, n / 10 % 100 * 10 + n % 10);
  }

  function Slot(q: nat): char
  {
    if q != 0 then DigitChar(q % 10) else ' '
  }

  /** The layout: four characters, digits or spaces, spaces only before
      the first digit, and a digit in the units slot ("   0" for 0). */
  lemma Format4uLayout(v: uint16)
    ensures var s := Format4uText(v);
      && |s| == 4
      && IsDigit(s[3])
      && (forall i :: 0 <= i < 4 ==> IsDigit(s[i]) || s[i] == ' ')
      && (forall i, j :: 0 <= i < j < 4 && IsDigit(s[i]) ==> IsDigit(s[j]))
  {
    if v < 10000 {
      DecimalShort(v);
    }
  }

  /** Leading zeros do not change a numeral's value. */
  lemma {:induction false} ParseDecimalLow(n: nat, k: nat)
    ensures ParseDecimal(LowDigits(n, k)) == n % Pow10(k)
  {
    if k > 0 {
      var s := LowDigits(n, k);
      assert s[..|s| - 1] == LowDigits(n / 10, k - 1);
      ParseDecimalLow(n / 10, k - 1);
      ModPow10(n, k - 1);
    }
  }

  function Pow10(k: nat): (p: nat)
    ensures p >= 1
  {
    if k == 0 then 1 else 10 * Pow10(k - 1)
  }

  /** The low k+1 digits are the low k digits of the quotient by ten,
      followed by the units digit. */
  lemma ModPow10(n: nat, k: nat)
    ensures (n / 10) % Pow10(k) * 10 + n % 10 == n % Pow10(k + 1)
  {
    var p := Pow10(k);
    var q, r := (n / 10) / p, (n / 10) % p;
    assert n / 10 == q * p + r && 0 <= r < p;
    assert n == q * (10 * p) + (r * 10 + n % 10);
    DivModUnique(n, 10 * p, q, r * 10 + n % 10);
  }

  lemma {:induction false} ParseDecimalOf(n: nat)
    ensures ParseDecimal(Decimal(n)) == n
  {
    if n >= 10 {
      var s := Decimal(n);
      assert s[..|s| - 1] == Decimal(n / 10);
      ParseDecimalOf(n / 10);
    }
  }

  lemma {:induction false} TrimSpaces(k: nat, t: seq<char>)
    requires t != [] && t[0] != ' '
    ensures TrimLeft(Spaces(k) + t) == t
  {
    if k > 0 {
      assert (Spaces(k) + t)[1..] == Spaces(k - 1) + t;
      TrimSpaces(k - 1, t);
    }
  }

  /** Reading the slots back, leading spaces dropped, gives the value
      modulo 10000: the formatter loses nothing below 10000. */
  lemma Format4uRoundTrip(v: uint16)
    ensures var t := TrimLeft(Format4uText(v));
      (forall i :: 0 <= i < |t| ==> IsDigit(t[i])) && ParseDecimal(t) == v % 10000
  {
    if v < 10000 {
      ShortRoundTrip(v);
    } else {
      LongRoundTrip(v);
    }
  }

  lemma ShortRoundTrip(v: uint16)
    requires v < 10000
    ensures TrimLeft(Format4uText(v)) == Decimal(v)
    ensures ParseDecimal(Decimal(v)) == v
  {
    DecimalShort(v);
    TrimSpaces(4 - |Decimal(v)|, Decimal(v));
    ParseDecimalOf(v);
  }

  lemma LongRoundTrip(v: uint16)
    requires v >= 10000
    ensures TrimLeft(Format4uText(v)) == LowDigits(v, 4)
    ensures ParseDecimal(LowDigits(v, 4)) == v % 10000
  {
    ParseDecimalLow(v, 4);
    assert Pow10(4) == 10000;
  }
}
