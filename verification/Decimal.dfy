/** Decimal digit strings and the double-precision numbers JavaScript reads from them. */
module Decimal {
  import opened Wrappers
  import opened Powers

  predicate IsDigit(c: char) {
    '0' <= c <= '9'
  }

  predicate AllDigits(s: string) {
    forall i | 0 <= i < |s| :: IsDigit(s[i])
  }

  /** The shape `[1-9]\d*`. */
  predicate NoLeadingZero(s: string) {
    s != "" && AllDigits(s) && s[0] != '0'
  }

  function DigitValue(c: char): (n: nat)
    requires IsDigit(c)
    ensures n < 10
  {
    c as int - '0' as int
  }

  function Value(s: string): nat
    requires AllDigits(s)
  {
    if s == "" then 0 else Value(s[..|s| - 1]) * 10 + DigitValue(s[|s| - 1])
  }

  function Pow10(k: nat): (n: nat)
    ensures n >= 1
  {
    if k == 0 then 1 else 10 * Pow10(k - 1)
  }

  lemma {:induction false} ValueBelow(s: string)
    requires AllDigits(s)
    ensures Value(s) < Pow10(|s|)
  {
    if s != "" { ValueBelow(s[..|s| - 1]); }
  }

  lemma {:induction false} ValueAtLeast(s: string)
    requires NoLeadingZero(s)
    ensures Value(s) >= Pow10(|s| - 1)
  {
    if |s| == 1 {
      assert s[..0] == "";
    } else {
      ValueAtLeast(s[..|s| - 1]);
    }
  }

  lemma {:induction false} ValueInjective(s: string, t: string)
    requires AllDigits(s) && AllDigits(t) && |s| == |t|
    ensures Value(s) == Value(t) <==> s == t
  {
    if s != "" {
      ValueInjective(s[..|s| - 1], t[..|t| - 1]);
      assert s == s[..|s| - 1] + [s[|s| - 1]] && t == t[..|t| - 1] + [t[|t| - 1]];
    }
  }

  lemma {:induction false} Pow10Grows(a: nat, b: nat)
    requires a <= b
    ensures Pow10(a) <= Pow10(b)
  {
    if a < b { Pow10Grows(a, b - 1); }
  }

  /** Without leading zeros a number has one spelling. */
  lemma OneSpelling(s: string, t: string)
    requires NoLeadingZero(s) && NoLeadingZero(t)
    ensures Value(s) == Value(t) <==> s == t
  {
    ValueBelow(s);
    ValueBelow(t);
    ValueAtLeast(s);
    ValueAtLeast(t);
    if |s| == |t| {
      ValueInjective(s, t);
    } else if |s| < |t| {
      Pow10Grows(|s|, |t| - 1);
    } else {
      Pow10Grows(|t|, |s| - 1);
    }
  }

  lemma {:induction false} ValueAppend(s: string, t: string)
    requires AllDigits(s) && AllDigits(t)
    ensures AllDigits(s + t)
    ensures Value(s + t) == Value(s) * Pow10(|t|) + Value(t)
  {
    if t == "" {
      assert s + t == s;
    } else {
      var init := t[..|t| - 1];
      ValueAppend(s, init);
      assert (s + t)[..|s + t| - 1] == s + init;
      assert Value(s) * Pow10(|t|) == Value(s) * Pow10(|init|) * 10;
    }
  }

  // ---- printing --------------------------------------------------------------------------------

  function Digit(n: nat): (c: char)
    requires n < 10
    ensures IsDigit(c) && DigitValue(c) == n
  {
    ('0' as int + n) as char
  }

  /** `String(n)` for a non-negative integer. */
  function Print(n: nat): (s: string)
    ensures s != "" && AllDigits(s) && Value(s) == n
  {
    if n < 10 then
      assert [Digit(n)][..0] == "";
      [Digit(n)]
    else
      var s := Print(n / 10);
      assert (s + [Digit(n % 10)])[..|s|] == s;
      s + [Digit(n % 10)]
  }

  /** `String(n).padStart(2, "0")` */
  function Pad2(n: nat): (s: string)
    ensures AllDigits(s) && Value(s) == n && (n < 100 ==> |s| == 2)
  {
    if n < 10 then
      ValueAppend("0", Print(n));
      PrintLength(n);
      "0" + Print(n)
    else
      PrintLength(n);
      Print(n)
  }

  lemma PrintLength(n: nat)
    ensures n < 10 ==> |Print(n)| == 1
    ensures 10 <= n < 100 ==> |Print(n)| == 2
  {
  }

  /** Writing two digits after a number multiplies it by a hundred. */
  lemma AppendTwo(s: string, n: nat)
    requires AllDigits(s) && n < 100
    ensures AllDigits(s + Pad2(n)) && Value(s + Pad2(n)) == Value(s) * 100 + n
  {
    ValueAppend(s, Pad2(n));
    assert Pow10(2) == 100;
  }

  // ---- doubles ---------------------------------------------------------------------------------

  const EXACT := 0x20_0000_0000_0000  // 2^53

  function Scaled(k: nat, e: nat): nat {
    k * Pow2(e)
  }

  /** A whole number with a significand of at most 53 bits. */
  ghost predicate IsDouble(m: nat) {
    exists k: nat, e: nat :: k < EXACT && m == Scaled(k, e)
  }

  /** The distance between neighbouring doubles at `n`. */
  function Ulp(n: nat): (u: nat)
    ensures u >= 1 && (n >= EXACT ==> u >= 2)
  {
    if n < EXACT then 1 else 2 * Ulp(n / 2)
  }

  /** Round to the nearest double, ties to the one with an even significand. */
  function Round(n: nat): nat {
    var u := Ulp(n);
    var r := n % u;
    if 2 * r < u || (2 * r == u && n / u % 2 == 0) then n - r else n - r + u
  }

  function BitLength(n: nat): (bits: nat)
    ensures n > 0 ==> bits > 0
  {
    if n == 0 then 0 else 1 + BitLength(n / 2)
  }

  const MAX_BITS := 1024

  /** `Number.parseInt(s, 10)`; None stands for Infinity, which is not an integer: what 2^1024 or more
      rounds to. */
  function ParseInt(s: string): Option<nat>
    requires AllDigits(s)
  {
    var n := Round(Value(s));
    if BitLength(n) <= MAX_BITS then Some(n) else None
  }

  /** A number has at most `bits` bits exactly when it is below that power of two. */
  lemma {:induction false} BitLengthIsPower(n: nat, bits: nat)
    ensures BitLength(n) <= bits <==> n < Pow2(bits)
  {
    if n > 0 && bits > 0 { BitLengthIsPower(n / 2, bits - 1); }
  }

  lemma TenBits(n: nat)
    ensures BitLength(n) <= 10 + BitLength(n / 1024)
  {
    FiveBits(n);
    FiveBits(n / 32);
    assert n / 32 / 32 == n / 1024;
  }

  lemma FiveBits(n: nat)
    ensures BitLength(n) <= 5 + BitLength(n / 32)
  {
    var a := n / 2;
    var b := a / 2;
    var c := b / 2;
    var d := c / 2;
    assert d / 2 == n / 32;
    assert BitLength(n) <= 1 + BitLength(a) && BitLength(a) <= 1 + BitLength(b) && BitLength(b) <= 1 + BitLength(c);
    assert BitLength(c) <= 1 + BitLength(d) && BitLength(d) <= 1 + BitLength(d / 2);
  }

  /** Nothing near 2^53 is out of range. */
  lemma SmallIsFinite(n: nat)
    requires n <= EXACT
    ensures BitLength(n) <= MAX_BITS
  {
    var a := n / 1024;
    var b := a / 1024;
    var c := b / 1024;
    var d := c / 1024;
    var e := d / 1024;
    TenBits(n);
    TenBits(a);
    TenBits(b);
    TenBits(c);
    TenBits(d);
    TenBits(e);
    assert e / 1024 == 0;
  }

  /** At `n` the spacing leaves a significand of exactly 53 bits, or `n` itself is below 2^53. */
  lemma {:induction false} SignificandIsWide(n: nat) returns (e: nat)
    ensures Ulp(n) == Pow2(e) && n / Ulp(n) < EXACT
    ensures n >= EXACT ==> e > 0 && n / Ulp(n) >= EXACT / 2
  {
    if n < EXACT {
      e := 0;
    } else {
      e := SignificandIsWide(n / 2);
      e := e + 1;
      DivTwice(n, Ulp(n / 2));
      if n / 2 < EXACT { assert Ulp(n / 2) == 1; }
    }
  }

  lemma DivTwice(n: nat, u: nat)
    requires u >= 1
    ensures n / 2 / u == n / (2 * u)
  {
    var q := n / 2 / u;
    var r := n / 2 % u;
    assert n / 2 == q * u + r;
    assert n == q * (2 * u) + (2 * r + n % 2);
    DivUnique(n, 2 * u, q, 2 * r + n % 2);
  }

  lemma MultipleIsFar(k: int, d: int)
    requires d >= 0
    ensures k >= 1 ==> k * d >= d
    ensures k <= -1 ==> k * d <= -d
  {
    if k >= 1 {
      assert k * d == (k - 1) * d + d && (k - 1) * d >= 0;
    } else if k <= -1 {
      assert -k * d == (-k - 1) * d + d && (-k - 1) * d >= 0;
    }
  }

  lemma DivUnique(n: nat, d: nat, q: nat, r: nat)
    requires n == q * d + r && r < d
    ensures n / d == q
  {
    var p := n / d;
    assert n == p * d + n % d;
    assert (p - q) * d == r - n % d;
    MultipleIsFar(p - q, d);
  }

  /** A larger multiple of `u` is larger by at least `u`. */
  lemma MultiplesApart(c: int, q: int, u: int)
    requires u >= 0
    ensures c <= q ==> c * u <= q * u
    ensures c > q ==> c * u >= q * u + u
  {
    MultipleIsFar(c - q, u);
    assert (c - q) * u == c * u - q * u;
  }

  lemma ProductGrows(a: nat, b: nat, c: nat, d: nat)
    requires a <= b && c <= d
    ensures a * c <= b * d
  {
    MultiplesApart(a, b, c);
    MultiplesApart(c, d, b);
  }

  /** A double of the same or a coarser spacing is a multiple of the spacing. */
  lemma CoarseDouble(k: nat, f: nat, e: nat, q: nat)
    requires f >= e
    ensures Scaled(k, f) <= Scaled(q, e) || Scaled(k, f) >= Scaled(q + 1, e)
  {
    Pow2Splits(f - e, e);
    MulAssociates(k, Pow2(f - e), Pow2(e));
    MultiplesApart(k * Pow2(f - e), q, Pow2(e));
    MultiplesApart(k * Pow2(f - e), q + 1, Pow2(e));
  }

  lemma MulAssociates(a: int, b: int, c: int)
    ensures a * b * c == a * (b * c)
  {
  }

  /** A double of a finer spacing is too small. */
  lemma FineDouble(k: nat, f: nat, e: nat, q: nat)
    requires f < e && k < EXACT && EXACT <= 2 * q
    ensures Scaled(k, f) <= Scaled(q, e)
  {
    Pow2Grows(f, e - 1);
    ProductGrows(k, 2 * q, Pow2(f), Pow2(e - 1));
    assert 2 * q * Pow2(e - 1) == q * Pow2(e) by { MulAssociates(q, 2, Pow2(e - 1)); }
  }

  /** The multiple of the spacing at or below `n`. */
  function Floor(n: nat): nat {
    n - n % Ulp(n)
  }

  lemma Division(n: nat, u: nat)
    requires u >= 1
    ensures n / u * u == n - n % u && (n / u + 1) * u == n - n % u + u
  {
  }

  lemma QuotientOf(q: nat, u: nat)
    requires u >= 1
    ensures q * u / u == q
  {
    DivUnique(q * u, u, q, 0);
  }

  /** It and the next one have significands of at most 53 bits, or 2^53. */
  lemma FloorIsScaled(n: nat) returns (q: nat, e: nat)
    ensures Floor(n) == Scaled(q, e) && Floor(n) + Ulp(n) == Scaled(q + 1, e)
    ensures q == n / Ulp(n) < EXACT && (n >= EXACT ==> EXACT <= 2 * q) && (n < EXACT ==> e == 0)
  {
    e := SignificandIsWide(n);
    q := n / Ulp(n);
    Division(n, Ulp(n));
  }

  /** Ulp is the spacing: no double lies strictly between the two multiples of it around `n`. */
  lemma NoDoubleBetween(n: nat, m: nat)
    requires IsDouble(m)
    ensures m <= Floor(n) || m >= Floor(n) + Ulp(n)
  {
    var q, e := FloorIsScaled(n);
    var k: nat, f: nat :| k < EXACT && m == Scaled(k, f);
    if f >= e {
      CoarseDouble(k, f, e, q);
    } else {
      FineDouble(k, f, e, q);
    }
  }

  /** Those two multiples are doubles themselves. */
  lemma NeighboursAreDoubles(n: nat)
    ensures IsDouble(Floor(n)) && IsDouble(Floor(n) + Ulp(n))
  {
    var q, e := FloorIsScaled(n);
    if q + 1 == EXACT { FullSignificand(e); }
  }

  lemma FullSignificand(e: nat)
    ensures Scaled(EXACT, e) == Scaled(EXACT / 2, e + 1)
  {
    MulAssociates(EXACT / 2, 2, Pow2(e));
  }

  function Distance(a: nat, b: nat): nat {
    if a < b then b - a else a - b
  }

  /** A tie goes to the multiple with the even quotient. */
  lemma TieIsEven(n: nat)
    requires 2 * (n % Ulp(n)) == Ulp(n)
    ensures Round(n) / Ulp(n) % 2 == 0
  {
    Division(n, Ulp(n));
    QuotientOf(n / Ulp(n), Ulp(n));
    QuotientOf(n / Ulp(n) + 1, Ulp(n));
  }

  /** Reading rounds to a double, no double is nearer, and of two equally near ones the result is the one
      with the even significand. */
  lemma RoundIsNearest(n: nat)
    ensures IsDouble(Round(n))
    ensures forall m: nat | IsDouble(m) :: Distance(Round(n), n) <= Distance(m, n)
    ensures forall m: nat | IsDouble(m) && m != Round(n) && Distance(m, n) == Distance(Round(n), n) :: Round(n) / Ulp(n) % 2 == 0
  {
    NeighboursAreDoubles(n);
    forall m: nat | IsDouble(m)
      ensures Distance(Round(n), n) <= Distance(m, n)
      ensures m != Round(n) && Distance(m, n) == Distance(Round(n), n) ==> Round(n) / Ulp(n) % 2 == 0
    {
      NoDoubleBetween(n, m);
      if 2 * (n % Ulp(n)) == Ulp(n) { TieIsEven(n); }
    }
  }

  /** Rounding is exact below 2^53 and never comes back below it. */
  lemma RoundIsExactBelow(n: nat)
    ensures n < EXACT ==> Round(n) == n
    ensures n >= EXACT ==> Round(n) >= EXACT
  {
    if n >= EXACT {
      RoundIsNearest(n);
      assert IsDouble(EXACT) by { FullSignificand(0); assert EXACT == Scaled(EXACT / 2, 1); }
      NoDoubleBetween(n, EXACT);
    }
  }

  /** Digit strings below 2^53 read as their value. */
  lemma ReadsExactly(s: string)
    requires AllDigits(s) && Value(s) < EXACT
    ensures ParseInt(s) == Some(Value(s))
  {
    RoundIsExactBelow(Value(s));
    SmallIsFinite(Value(s));
  }
}
