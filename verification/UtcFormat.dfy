/** Time intervals to four significant figures (utc_format_ns() in platform/utc.c). */
module UtcFormat {
  import opened MachineWords

  /** What is printed: sign, whole part, a point and `decimals` digits if any,
      and the unit: 0 ns, 1 us, 2 ms, 3 s. */
  datatype Shown = Shown(sign: string, whole: u32, decimals: nat, fraction: nat, unit: nat)

  function Scale(unit: nat): (s: nat)
    ensures s > 0 && (s == 1 || s % 2 == 0)
  {
    if unit == 0 then 1 else if unit == 1 then 1000 else if unit == 2 then 1000000 else 1000000000
  }

  function Power(decimals: nat): (p: nat)
    ensures 1 <= p <= 1000
  {
    if decimals == 3 then 1000 else if decimals == 2 then 100 else if decimals == 1 then 10 else 1
  }

  /** The value printed, in units of its last place. */
  function LastPlaces(r: Shown): nat {
    r.whole * Power(r.decimals) + r.fraction
  }

  predicate FourFigures(r: Shown) {
    1000 <= LastPlaces(r) < 10000 && r.fraction < Power(r.decimals)
  }

  /** The value printed is the nearest there is: within half a unit of its last place. */
  predicate Nearest(size: nat, r: Shown) {
    var scale: int, error: int := Scale(r.unit), LastPlaces(r) * Scale(r.unit) - size * Power(r.decimals);
    -scale <= 2 * error <= scale
  }

  function Rounded(size: nat, power: nat, scale: nat): int
    requires scale > 0
  {
    (size * power + scale / 2) / scale
  }

  lemma RoundedNearest(size: nat, power: nat, scale: int)
    requires scale > 0 && (scale == 1 || scale % 2 == 0)
    ensures -scale <= 2 * (Rounded(size, power, scale) * scale - size * power) <= scale
  {
    var sum := size * power + scale / 2;
    assert sum == sum / scale * scale + sum % scale;
  }

  lemma QuotientBounds(n: nat, d: nat, low: nat, high: nat)
    requires d > 0 && low * d <= n < (high + 1) * d
    ensures low <= n / d <= high
  {
    var q := n / d;
    assert q < low ==> (q + 1) * d <= low * d;
    assert q > high ==> (high + 1) * d <= q * d;
  }

  /** Where the loop may be: the value is at least 999.5 of its last place and,
      with a decimal, below a fifth figure. */
  predicate InRange(size: nat, unit: nat, decimals: nat) {
    && 1 <= unit <= 3 && decimals <= 3
    && 2 * size * Power(decimals) + Scale(unit) >= 2000 * Scale(unit)
    && (decimals > 0 ==> size * Power(decimals) < 10000 * Scale(unit))
    && (decimals == 0 ==> unit == 3)
  }

  lemma RoundedRange(size: nat, unit: nat, decimals: nat)
    requires InRange(size, unit, decimals)
    ensures var rounded := Rounded(size, Power(decimals), Scale(unit));
      && rounded >= 1000
      && (decimals > 0 ==> rounded <= 10000)
      && (rounded >= 10000 <==> 2 * size * Power(decimals) + Scale(unit) >= 20000 * Scale(unit))
  {
    var scale, value := Scale(unit), size * Power(decimals);
    assert scale / 2 * 2 == scale;
    hide Scale, Power;
    var sum := value + scale / 2;
    if decimals > 0 {
      QuotientBounds(sum, scale, 1000, 10000);
    } else {
      QuotientBounds(sum, scale, 1000, sum);
    }
    if 2 * value + scale >= 20000 * scale {
      QuotientBounds(sum, scale, 10000, sum);
    } else {
      QuotientBounds(sum, scale, 0, 9999);
    }
  }

  /** A carry out of the figures: into another digit before the point, or the
      next unit. */
  lemma Carries(size: nat, unit: nat, decimals: nat)
    requires InRange(size, unit, decimals) && decimals > 0
    requires Rounded(size, Power(decimals), Scale(unit)) == 10000
    ensures decimals > 1 ==> InRange(size, unit, decimals - 1)
    ensures decimals == 1 && unit < 3 ==> InRange(size, unit + 1, 3)
  {
    RoundedRange(size, unit, decimals);
    hide Rounded;
  }

  /** Which unit and how many decimals: the figures before any carry. */
  lemma StartInRange(size: nat, unit: nat)
    requires 1 <= unit <= 3 && size >= Scale(unit) && (unit < 3 ==> size < 1000 * Scale(unit))
    ensures var whole := size / Scale(unit);
      InRange(size, unit, if whole >= 1000 then 0 else if whole >= 100 then 1 else if whole >= 10 then 2 else 3)
  {
    var whole := size / Scale(unit);
    assert whole * Scale(unit) <= size < (whole + 1) * Scale(unit);
    if whole < 1000 {
      if whole < 10 {
        assert size < 10 * Scale(unit);
      } else if whole < 100 {
        assert size < 100 * Scale(unit) && size >= 10 * Scale(unit);
      } else {
        assert size < 1000 * Scale(unit) && size >= 100 * Scale(unit);
      }
    } else {
      assert size >= 1000 * Scale(unit);
    }
  }

  lemma SplitFigures(rounded: nat, decimals: nat)
    requires decimals <= 3
    ensures rounded / Power(decimals) * Power(decimals) + rounded % Power(decimals) == rounded
    ensures rounded % Power(decimals) < Power(decimals)
    ensures 1 <= decimals && rounded == 10000 ==>
      rounded / Power(decimals) == if decimals == 3 then 10 else if decimals == 2 then 100 else 1000
    ensures decimals == 0 ==> rounded / Power(decimals) == rounded
    ensures 1 <= decimals && 1000 <= rounded < 10000 ==>
      var w := rounded / Power(decimals);
      if decimals == 3 then 1 <= w < 10 else if decimals == 2 then 10 <= w < 100 else 100 <= w < 1000
  {
  }

  /** One pass of the second loop: a carry moves to one decimal fewer or to the
      next unit, and where the loop stops the figures are right. */
  lemma Pass(size: nat, unit: nat, decimals: nat, rounded: int, whole: int)
    requires InRange(size, unit, decimals) && rounded == Rounded(size, Power(decimals), Scale(unit))
    requires whole == rounded / Power(decimals)
    ensures whole >= 1
    ensures whole >= 1000 && unit < 3 ==> InRange(size, unit + 1, 3) && decimals > 0
    ensures (whole < 1000 || unit == 3) && decimals > 0 && Digits(whole) + decimals > 4 ==>
      decimals > 1 && InRange(size, unit, decimals - 1)
    ensures (whole < 1000 || unit == 3) && 0 < decimals && Digits(whole) + decimals <= 4 ==>
      rounded < 10000 || (decimals == 1 && unit == 3)
    ensures rounded >= 1000
  {
    RoundedRange(size, unit, decimals);
    SplitFigures(rounded, decimals);
    if decimals > 0 && rounded == 10000 {
      Carries(size, unit, decimals);
    }
    hide InRange, Rounded, Scale;
  }

  function Digits(whole: int): nat {
    if whole >= 100 then 3 else if whole >= 10 then 2 else 1
  }

  lemma Finish(size: nat, unit: nat, decimals: nat, rounded: int)
    requires InRange(size, unit, decimals) && rounded == Rounded(size, Power(decimals), Scale(unit))
    requires 0 < decimals && (rounded < 10000 || (decimals == 1 && unit == 3))
    ensures rounded < 10000 <==> size < 999_950_000_000
  {
    RoundedRange(size, unit, decimals);
    hide Rounded;
  }

  lemma NextScale(unit: nat)
    requires unit < 3
    ensures Scale(unit + 1) == Scale(unit) * 1000
  {
  }

  lemma PowerIs(decimals: nat)
    ensures Power(decimals) == if decimals == 3 then 1000 else if decimals == 2 then 100 else if decimals == 1 then 10 else 1
  {
  }

  /** utc_format_ns(), for every interval but the one whose negation does not exist. */
  method FormatNs(ns: i64, plus: bool) returns (r: Shown)
    requires ns > -0x8000_0000_0000_0000
    ensures r.sign == if ns < 0 then "-" else if plus then "+" else ""
    ensures var size := if ns < 0 then -ns else ns;
      && (size < 1000 ==> r == Shown(r.sign, size, 0, 0, 0))
      && (1000 <= size < 1_000_000_000_000 ==> Nearest(size, r))
      // Four figures: but the last 50 ms below 1000 s print as five, 1000.0 s.
      && (1000 <= size < 1_000_000_000_000 ==> (FourFigures(r) <==> size < 999_950_000_000))
      // In a unit of which there is at least one, and under a thousand.
      && (1000 <= size < 1_000_000_000_000 ==> 1 <= r.unit <= 3 && r.whole >= 1 && (r.unit < 3 ==> r.whole < 1000))
      // Digits and decimals are four.
      && (1000 <= size < 1_000_000_000_000 ==> r.decimals == 4 - Digits(r.whole) && r.fraction < Power(r.decimals))
      // Whole seconds beyond, modulo the 32 bits printed.
      && (size >= 1_000_000_000_000 ==>
            r.unit == 3 && r.decimals == 0 && r.whole == Wrap32((size + 500_000_000) / 1_000_000_000))
  {
    hide Power, Rounded, InRange;
    var size: int := if ns < 0 then -ns else ns;
    var sign := if ns < 0 then "-" else if plus then "+" else "";
    var unit := 0;
    var scale := 1;
    while unit < 3 && size >= scale * 1000
      invariant unit <= 3 && scale == Scale(unit) && (unit > 0 ==> size >= scale)
    {
      scale := scale * 1000;
      unit := unit + 1;
    }
    if unit == 0 {
      return Shown(sign, size, 0, 0, 0);
    }
    var whole := size / scale;
    var decimals := if whole >= 1000 then 0 else if whole >= 100 then 1 else if whole >= 10 then 2 else 3;
    StartInRange(size, unit);
    WholeSeconds(size, unit);
    r := FitFigures(sign, size, unit, scale, decimals);
  }

  // The second loop of utc_format_ns(), and what it prints.
  method FitFigures(sign: string, size: nat, unit0: nat, scale0: nat, decimals0: nat) returns (r: Shown)
    requires InRange(size, unit0, decimals0) && scale0 == Scale(unit0)
    requires 1 <= unit0 <= 3 && decimals0 <= 3
    requires decimals0 == 0 <==> size >= 1_000_000_000_000
    ensures r.sign == sign && 1 <= r.unit <= 3 && r.decimals <= 3
    ensures r.decimals > 0 <==> size < 1_000_000_000_000
    ensures r.decimals > 0 ==> r.whole >= 1 && Nearest(size, r) && (r.unit < 3 ==> r.whole < 1000)
    ensures r.decimals > 0 ==> (FourFigures(r) <==> size < 999_950_000_000)
    ensures r.decimals > 0 ==> r.decimals == 4 - Digits(r.whole) && r.fraction < Power(r.decimals)
    ensures r.decimals == 0 ==> r.unit == 3 && r.whole == Wrap32((size + 500_000_000) / 1_000_000_000)
  {
    hide Scale, Power, InRange, Rounded;
    var unit, scale, decimals := unit0, scale0, decimals0;
    var power: int, rounded: int, whole: int;
    while true
      invariant scale == Scale(unit) && scale > 0 && InRange(size, unit, decimals)
      invariant 1 <= unit <= 3 && decimals <= 3
      invariant decimals == 0 <==> size >= 1_000_000_000_000
      decreases 3 - unit, decimals
    {
      power := if decimals == 3 then 1000 else if decimals == 2 then 100 else if decimals == 1 then 10 else 1;
      rounded := (size * power + scale / 2) / scale;
      whole := rounded / power;
      PowerIs(decimals);
      RoundedIs(size, power, scale);
      Pass(size, unit, decimals, rounded, whole);
      if whole >= 1000 && unit < 3 {
        NextScale(unit);
        scale := scale * 1000;
        unit := unit + 1;
        decimals := 3;
        continue;
      }
      var digits := if whole >= 100 then 3 else if whole >= 10 then 2 else 1;
      if decimals > 0 && digits + decimals > 4 {
        decimals := decimals - 1;
        continue;
      }
      break;
    }
    r := Shown(sign, Wrap32(whole), decimals, rounded % power, unit);
    Printed(size, unit, decimals, rounded, r);
    DecimalsLeft(rounded, decimals, whole);
  }

  lemma DecimalsLeft(rounded: nat, decimals: nat, whole: int)
    requires rounded >= 1000 && decimals <= 3 && whole == rounded / Power(decimals)
    ensures rounded % Power(decimals) < Power(decimals)
    ensures 0 < decimals && Digits(whole) + decimals <= 4 ==> decimals == 4 - Digits(whole)
  {
  }

  lemma RoundedIs(size: nat, power: nat, scale: nat)
    requires scale > 0
    ensures Rounded(size, power, scale) == (size * power + scale / 2) / scale
  {
  }

  lemma Printed(size: nat, unit: nat, decimals: nat, rounded: int, r: Shown)
    requires InRange(size, unit, decimals) && rounded == Rounded(size, Power(decimals), Scale(unit))
    requires r.whole == Wrap32(rounded / Power(decimals)) && r.fraction == rounded % Power(decimals)
    requires r.decimals == decimals && r.unit == unit
    requires decimals > 0 ==> rounded < 10000 || (decimals == 1 && unit == 3)
    ensures decimals > 0 ==> r.whole == rounded / Power(decimals) && Nearest(size, r)
    ensures decimals > 0 ==> (FourFigures(r) <==> size < 999_950_000_000)
    ensures decimals == 0 ==> unit == 3 && r.whole == Wrap32((size + 500_000_000) / 1_000_000_000)
  {
    RoundedRange(size, unit, decimals);
    SplitFigures(rounded, decimals);
    RoundedNearest(size, Power(decimals), Scale(unit));
    if decimals > 0 {
      Finish(size, unit, decimals, rounded);
      hide Rounded, InRange, Scale, Power;
    }
  }

  lemma WholeSeconds(size: nat, unit: nat)
    requires 1 <= unit <= 3 && size >= Scale(unit) && (unit < 3 ==> size < 1000 * Scale(unit))
    ensures size / Scale(unit) >= 1000 <==> size >= 1_000_000_000_000
  {
  }

  /** 999.96 s is shown as 1000.0 s: five figures. */
  method FiveFigures() returns (r: Shown)
    ensures r == Shown("", 1000, 1, 0, 3) && !FourFigures(r)
  {
    r := FormatNs(999_960_000_000, false);
    Pinned(r);
  }

  lemma Pinned(r: Shown)
    requires Nearest(999_960_000_000, r) && !FourFigures(r) && 1 <= r.unit <= 3 && (r.unit < 3 ==> r.whole < 1000)
    requires r.decimals == 4 - Digits(r.whole) && r.fraction < Power(r.decimals)
    ensures r.whole == 1000 && r.decimals == 1 && r.fraction == 0 && r.unit == 3
  {
    if r.unit == 1 {} else if r.unit == 2 {} else {}
  }
}
