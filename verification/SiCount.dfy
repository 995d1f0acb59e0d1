/**
 * The compact counts of packages/cli/src/commands/command-helpers.ts. `toPrecision(3)` (section 21.1.3.5 of ECMA-262)
 * is a relation here, so that every claim holds whichever way a tie is rounded.
 */
module SiCount {

  function Pow10(k: int): (r: real)
    ensures r > 0.0
    decreases if k < 0 then -k else k
  {
    if k == 0 then 1.0 else if k > 0 then 10.0 * Pow10(k - 1) else Pow10(k + 1) / 10.0
  }

  function Abs(x: real): real {
    if x < 0.0 then -x else x
  }

  /** `d * p`, by repeated addition. */
  function Times(d: nat, p: real): real {
    if d == 0 then 0.0 else p + Times(d - 1, p)
  }

  predicate IsDecimal(w: real, d: int, k: int) {
    100 <= d < 1000 && w == Times(d, Pow10(k))
  }

  /** A number with three significant digits. */
  ghost predicate ThreeDigits(w: real) {
    exists d, k :: IsDecimal(w, d, k)
  }

  /** `u` is what `Number(x.toPrecision(3))` may be: no number of three significant digits is closer to `x`. */
  ghost predicate ToPrecision3(x: real, u: real) {
    ThreeDigits(u) && forall w :: ThreeDigits(w) ==> Abs(x - u) <= Abs(x - w)
  }

  datatype Shown = Plain(n: int) | Short(u: real, suffix: char)

  /** `Math.max(0, Math.round(value))` */
  function Rounded(value: real): int {
    var n := (value + 0.5).Floor;
    if n < 0 then 0 else n
  }

  /** `siCount` may show `s` for `value`. */
  ghost predicate Shows(value: real, s: Shown) {
    var n := Rounded(value);
    if n < 1000 then s == Plain(n)
    else if n < 1_000_000 then s.Short? && s.suffix == 'K' && ToPrecision3(n as real / 1000.0, s.u)
    else s.Short? && s.suffix == 'M' && ToPrecision3(n as real / 1_000_000.0, s.u)
  }

  /** The count that is read off what is shown. */
  function Amount(s: Shown): real {
    match s
    case Plain(n) => n as real
    case Short(u, suffix) => if suffix == 'K' then u * 1000.0 else u * 1_000_000.0
  }

  /** The count shown is the whole number nearest to the value, the upper one of two, and nothing is shown below zero.
      */
  lemma RoundedIsNearest(value: real, n: int)
    ensures value >= 0.0 ==> (Rounded(value) == n <==> value - 0.5 < n as real <= value + 0.5)
    ensures value < 0.0 ==> Rounded(value) == 0
  {
  }

  // ---------------------------------------------------------------- powers of ten

  lemma Pow10Next(k: int)
    ensures Pow10(k + 1) == 10.0 * Pow10(k)
  {
  }

  lemma {:induction false} Pow10Grows(j: int, k: int)
    requires j <= k
    ensures Pow10(j) <= Pow10(k)
    decreases k - j
  {
    if j < k {
      Pow10Grows(j, k - 1);
      Pow10Next(k - 1);
    }
  }

  // ---------------------------------------------------------------- multiples

  lemma {:induction false} TimesIsProduct(d: nat, p: real)
    ensures Times(d, p) == d as real * p
  {
    if d > 0 {
      TimesIsProduct(d - 1, p);
      assert d as real * p == (d - 1) as real * p + p;
    }
  }

  lemma {:induction false} TimesScales(d: nat, p: real, q: real)
    requires q == 10.0 * p
    ensures Times(d, q) == 10.0 * Times(d, p)
  {
    if d > 0 {
      TimesScales(d - 1, p, q);
    }
  }

  lemma {:induction false} TimesAdds(a: nat, b: nat, p: real)
    ensures Times(a + b, p) == Times(a, p) + Times(b, p)
  {
    if a > 0 {
      TimesAdds(a - 1, b, p);
    }
  }

  lemma {:induction false} TimesIsMonotone(a: nat, b: nat, p: real)
    requires a <= b && p > 0.0
    ensures Times(a, p) <= Times(b, p)
    decreases b
  {
    if a < b {
      TimesIsMonotone(a, b - 1, p);
    }
  }

  /** A multiple of ten times a step is a multiple of the step. */
  lemma {:induction false} TimesFiner(n: nat, p: real, q: real)
    requires p == 10.0 * q
    ensures Times(n, p) == Times(10 * n, q)
  {
    if n > 0 {
      TimesFiner(n - 1, p, q);
      TimesAdds(10, 10 * n - 10, q);
      TimesIsProduct(10, q);
    }
  }

  // ---------------------------------------------------------------- scale does not matter

  lemma ScaledDecimal(w: real, d: int, k: int)
    requires IsDecimal(w, d, k)
    ensures IsDecimal(10.0 * w, d, k + 1) && IsDecimal(w / 10.0, d, k - 1)
  {
    Pow10Next(k);
    Pow10Next(k - 1);
    TimesScales(d, Pow10(k), Pow10(k + 1));
    TimesScales(d, Pow10(k - 1), Pow10(k));
  }

  lemma TenTimesThreeDigits(w: real)
    ensures ThreeDigits(w) <==> ThreeDigits(10.0 * w)
  {
    if ThreeDigits(w) {
      var d, k :| IsDecimal(w, d, k);
      ScaledDecimal(w, d, k);
    }
    if ThreeDigits(10.0 * w) {
      var d, k :| IsDecimal(10.0 * w, d, k);
      ScaledDecimal(10.0 * w, d, k);
    }
  }

  /** Rounding to three digits commutes with moving the decimal point. */
  lemma TenTimes(x: real, u: real)
    ensures ToPrecision3(x, u) <==> ToPrecision3(10.0 * x, 10.0 * u)
  {
    TenTimesThreeDigits(u);
    if ToPrecision3(x, u) {
      forall w | ThreeDigits(w)
        ensures Abs(10.0 * x - 10.0 * u) <= Abs(10.0 * x - w)
      {
        TenTimesThreeDigits(w / 10.0);
        assert Abs(x - u) <= Abs(x - w / 10.0);
      }
    }
    if ToPrecision3(10.0 * x, 10.0 * u) {
      forall w | ThreeDigits(w)
        ensures Abs(x - u) <= Abs(x - w)
      {
        TenTimesThreeDigits(w);
        assert Abs(10.0 * x - 10.0 * u) <= Abs(10.0 * x - 10.0 * w);
      }
    }
  }

  lemma ThousandTimes(x: real, u: real)
    ensures ToPrecision3(x, u) <==> ToPrecision3(1000.0 * x, 1000.0 * u)
  {
    TenTimes(x, u);
    TenTimes(10.0 * x, 10.0 * u);
    TenTimes(100.0 * x, 100.0 * u);
    assert 10.0 * (10.0 * x) == 100.0 * x && 10.0 * (100.0 * x) == 1000.0 * x;
    assert 10.0 * (10.0 * u) == 100.0 * u && 10.0 * (100.0 * u) == 1000.0 * u;
  }

  /** Whether K or M is shown, the amount is the count itself rounded to three digits. */
  lemma SuffixDoesNotMatter(value: real, s: Shown)
    requires Shows(value, s) && Rounded(value) >= 1000
    ensures ToPrecision3(Rounded(value) as real, Amount(s))
  {
    var n := Rounded(value) as real;
    ThousandTimes(n / 1000.0, s.u);
    ThousandTimes(n / 1_000_000.0, s.u);
    ThousandTimes(n / 1000.0, 1000.0 * s.u);
    assert 1000.0 * (n / 1_000_000.0) == n / 1000.0;
    assert 1000.0 * (n / 1000.0) == n;
  }

  // ---------------------------------------------------------------- monotone

  lemma CloserIsMonotone(x: real, y: real, u: real, v: real)
    requires x < y && Abs(x - u) <= Abs(x - v) && Abs(y - v) <= Abs(y - u)
    ensures u <= v
  {
  }

  lemma RoundingIsMonotone(x: real, y: real, u: real, v: real)
    requires x < y && ToPrecision3(x, u) && ToPrecision3(y, v)
    ensures u <= v
  {
    CloserIsMonotone(x, y, u, v);
  }

  lemma ThousandIsADecimal()
    ensures ThreeDigits(1000.0)
  {
    assert Pow10(1) == 10.0 * Pow10(0);
    TimesIsProduct(100, Pow10(1));
    assert IsDecimal(1000.0, 100, 1);
  }

  /** A greater count never shows as a smaller amount, across digits and suffixes and however ties are rounded. */
  lemma ShownAmountsGrow(value: real, other: real, s: Shown, t: Shown)
    requires Rounded(value) < Rounded(other) && Shows(value, s) && Shows(other, t)
    ensures Amount(s) <= Amount(t)
  {
    if Rounded(value) >= 1000 {
      SuffixDoesNotMatter(value, s);
      SuffixDoesNotMatter(other, t);
      RoundingIsMonotone(Rounded(value) as real, Rounded(other) as real, Amount(s), Amount(t));
    } else if Rounded(other) >= 1000 {
      SuffixDoesNotMatter(other, t);
      ThousandIsADecimal();
      assert Abs(Rounded(other) as real - Amount(t)) <= Abs(Rounded(other) as real - 1000.0);
    }
  }

  // ---------------------------------------------------------------- accurate

  lemma {:induction false} Pow10Exceeds(m: nat)
    ensures Pow10(m) > m as real
  {
    if m > 0 {
      Pow10Exceeds(m - 1);
      Pow10Next(m - 1);
    }
  }

  /** The power of ten of the third significant digit, at most `m` above `k`. */
  lemma {:induction false} ThirdDigit(x: real, k: int, m: nat) returns (e: int)
    requires 100.0 * Pow10(k) <= x < Pow10(k + 2 + m)
    ensures 100.0 * Pow10(e) <= x < 1000.0 * Pow10(e)
    decreases m
  {
    e := k;
    Pow10Next(k);
    Pow10Next(k + 1);
    if x >= 1000.0 * Pow10(k) {
      e := ThirdDigit(x, k + 1, m - 1);
    }
  }

  /** The last multiple of `p` that is not above `x`. */
  lemma {:induction false} LastMultiple(x: real, p: real, from: nat) returns (d: nat)
    requires p > 0.0 && from < 1000 && Times(from, p) <= x < Times(1000, p)
    ensures from <= d < 1000 && Times(d, p) <= x < Times(d, p) + p
    decreases 1000 - from
  {
    d := from;
    assert Times(from + 1, p) == Times(from, p) + p;
    if Times(from + 1, p) <= x {
      d := LastMultiple(x, p, from + 1);
    }
  }

  /** A whole multiple of a power of ten is one of every lower power. */
  lemma {:induction false} OnFinerGrid(c: nat, k: int, e: int) returns (n: nat)
    requires e <= k
    ensures Times(c, Pow10(k)) == Times(n, Pow10(e))
    decreases k - e
  {
    n := c;
    if e < k {
      Pow10Next(k - 1);
      TimesFiner(c, Pow10(k), Pow10(k - 1));
      n := OnFinerGrid(10 * c, k - 1, e);
    }
  }

  /** Between neighbouring multiples of the third digit's power there is no number of three digits. */
  lemma NothingBetween(d: nat, e: int, w: real)
    requires d >= 100 && ThreeDigits(w)
    ensures w <= Times(d, Pow10(e)) || w >= Times(d, Pow10(e)) + Pow10(e)
  {
    var c, k :| IsDecimal(w, c, k);
    if e <= k {
      var n := OnFinerGrid(c, k, e);
      if n <= d {
        TimesIsMonotone(n, d, Pow10(e));
      } else {
        TimesIsMonotone(d + 1, n, Pow10(e));
        assert Times(d + 1, Pow10(e)) == Times(d, Pow10(e)) + Pow10(e);
      }
    } else {
      Pow10Grows(k + 1, e);
      Pow10Next(k);
      TimesIsMonotone(c, 1000, Pow10(k));
      TimesIsProduct(1000, Pow10(k));
      TimesIsMonotone(100, d, Pow10(e));
      TimesIsProduct(100, Pow10(e));
    }
  }

  /** After the last multiple comes a multiple of the next power. */
  lemma CarryIsDecimal(d: nat, h: nat, e: int)
    requires d + 1 == 10 * h && 100 <= h < 1000
    ensures ThreeDigits(Times(d, Pow10(e)) + Pow10(e))
  {
    assert Times(d + 1, Pow10(e)) == Times(d, Pow10(e)) + Pow10(e);
    Pow10Next(e);
    TimesFiner(h, Pow10(e + 1), Pow10(e));
    assert IsDecimal(Times(d, Pow10(e)) + Pow10(e), h, e + 1);
  }

  lemma MultipleIsDecimal(d: nat, e: int)
    requires 100 <= d < 1000
    ensures ThreeDigits(Times(d, Pow10(e)))
  {
    assert IsDecimal(Times(d, Pow10(e)), d, e);
  }

  lemma StepBelow(d: nat, e: int)
    requires 100 <= d && d + 1 < 1000
    ensures ThreeDigits(Times(d, Pow10(e)) + Pow10(e))
  {
    MultipleIsDecimal(d + 1, e);
    assert Times(d + 1, Pow10(e)) == Times(d, Pow10(e)) + Pow10(e);
  }

  lemma StepIsDecimal(d: nat, e: int)
    requires 100 <= d < 1000
    ensures ThreeDigits(Times(d, Pow10(e)) + Pow10(e))
  {
    if d + 1 < 1000 {
      StepBelow(d, e);
    } else {
      CarryIsDecimal(d, 100, e);
    }
  }

  lemma Start(x: real)
    requires x >= 1.0
    ensures 100.0 * Pow10(-2) <= x < Pow10(x.Floor + 1)
  {
    assert Pow10(-2) == Pow10(-1) / 10.0 && Pow10(-1) == Pow10(0) / 10.0;
    Pow10Exceeds(x.Floor + 1);
  }

  /** The neighbours of `x` among the numbers of three digits are at most a hundredth apart. */
  lemma Neighbours(x: real) returns (low: real, high: real)
    requires x >= 1.0
    ensures low <= x < high && 100.0 * (high - low) <= low
    ensures ThreeDigits(low) && ThreeDigits(high)
    ensures forall w :: ThreeDigits(w) ==> w <= low || w >= high
  {
    Start(x);
    var e := ThirdDigit(x, -2, x.Floor + 1);
    TimesIsProduct(100, Pow10(e));
    TimesIsProduct(1000, Pow10(e));
    var d := LastMultiple(x, Pow10(e), 100);
    low := Times(d, Pow10(e));
    high := low + Pow10(e);
    TimesIsMonotone(100, d, Pow10(e));
    MultipleIsDecimal(d, e);
    StepIsDecimal(d, e);
    forall w | ThreeDigits(w)
      ensures w <= low || w >= high
    {
      NothingBetween(d, e, w);
    }
  }

  /** A number of three digits closest to any number from one up exists, so `siCount` always shows something. */
  lemma SomethingIsShown(value: real) returns (s: Shown)
    ensures Shows(value, s)
  {
    var n := Rounded(value);
    if n < 1000 {
      s := Plain(n);
    } else if n < 1_000_000 {
      var u := Closest(n as real / 1000.0);
      s := Short(u, 'K');
    } else {
      var u := Closest(n as real / 1_000_000.0);
      s := Short(u, 'M');
    }
  }

  lemma Closest(x: real) returns (u: real)
    requires x >= 1.0
    ensures ToPrecision3(x, u)
  {
    var low, high := Neighbours(x);
    u := if x - low < high - x then low else high;
  }

  /** Rounding to three digits is off by at most half a percent. */
  lemma HalfAPercent(x: real, u: real)
    requires x >= 1.0 && ToPrecision3(x, u)
    ensures 200.0 * Abs(x - u) <= x
  {
    var low, high := Neighbours(x);
    assert Abs(x - u) <= Abs(x - low) && Abs(x - u) <= Abs(x - high);
  }

  /** Below 1000 the count is exact; from there on it is within half a percent. */
  lemma ShownIsAccurate(value: real, s: Shown)
    requires Shows(value, s)
    ensures Rounded(value) < 1000 ==> s == Plain(Rounded(value))
    ensures 200.0 * Abs(Rounded(value) as real - Amount(s)) <= Rounded(value) as real
  {
    if Rounded(value) >= 1000 {
      SuffixDoesNotMatter(value, s);
      HalfAPercent(Rounded(value) as real, Amount(s));
    }
  }

  /** A count of three significant digits is shown as it is. */
  lemma ThreeDigitsAreExact(value: real, s: Shown)
    requires Shows(value, s) && Rounded(value) >= 1000 && ThreeDigits(Rounded(value) as real)
    ensures Amount(s) == Rounded(value) as real
  {
    SuffixDoesNotMatter(value, s);
  }

  lemma OneIsADecimal()
    ensures ThreeDigits(1.0)
  {
    assert Pow10(-2) == Pow10(-1) / 10.0 && Pow10(-1) == Pow10(0) / 10.0;
    TimesIsProduct(100, Pow10(-2));
    assert IsDecimal(1.0, 100, -2);
  }

  /** The suffix fits the count: the figure shown is at least 1 and, with the smaller suffix, at most 1000; M is used
      exactly from a million on. */
  lemma SuffixFits(value: real, s: Shown)
    requires Shows(value, s)
    ensures s.Plain? <==> Rounded(value) < 1000
    ensures s.Short? ==> s.u >= 1.0 && s.suffix in {'K', 'M'} && (s.suffix == 'K' ==> s.u <= 1000.0)
    ensures s.Short? ==> (s.suffix == 'M' <==> Rounded(value) >= 1_000_000)
  {
    if s.Short? {
      OneIsADecimal();
      ThousandIsADecimal();
      var x := Rounded(value) as real / if s.suffix == 'K' then 1000.0 else 1_000_000.0;
      assert Abs(x - s.u) <= Abs(x - 1.0);
      assert Abs(x - s.u) <= Abs(x - 1000.0);
    }
  }
}
