/** Reckoning time from the RTC (sync/source_rtc.c): its second counted on at its
    rate, and its offset from UTC predicted within a bound. Searching for the
    second, setting the RTC and the bus transactions are not part of this model. */
module RtcReckoning {
  import opened MachineWords

  const SECOND_TICKS: int := 40_000_000
  const NS_PER_TICK: int := 25
  const NS_PER_SECOND: int := 1_000_000_000
  const RATE_LIMIT_PPM: int := 500
  const ALLOWANCE_PPM: int := 10
  const RATE_LIMIT_Q8: int := 500 * 40 * 256
  const BOUND_MAX_NS: u32 := 0xFFFF_FFFE
  const UNCERTAINTY_NS: u32 := 999_000_000
  const RATE_MIN_SECONDS: nat := 300
  const RATE_MAX_SECONDS: nat := 200_000
  const CHECK_EPOCHS: nat := 21600
  const CHECK_MIN_EPOCHS: nat := 600
  const DRIFT_LIMIT_TICKS: nat := 500 * 40_000

  type Rate = r: int | -RATE_LIMIT_Q8 <= r <= RATE_LIMIT_Q8

  // ---- Division ---------------------------------------------------------------

  /** floor_div() and floor_div64(), in C's truncating division: they round down,
      as / does here. */
  function FloorDiv(a: int, b: int): (q: int)
    requires b > 0
    ensures q * b <= a < (q + 1) * b
    ensures q == a / b
  {
    FloorIsUnique(a, b);
    if a >= 0 then a / b else -((-a + b - 1) / b)
  }

  lemma FloorIsUnique(a: int, b: int)
    requires b > 0
    ensures a < 0 ==> -((-a + b - 1) / b) == a / b
    ensures a / b * b <= a < (a / b + 1) * b
  {
    if a < 0 {
      var up := (-a + b - 1) / b;
      assert up * b <= -a + b - 1 < (up + 1) * b;
      Quotient(a, b, -up);
    }
  }

  lemma TruncClose(a: int, b: int)
    requires b > 0
    ensures -b < a - TruncDiv(a, b) * b < b
    ensures a >= 0 ==> a - TruncDiv(a, b) * b >= 0
  {
    var q := if a >= 0 then a / b else (-a) / b;
    assert a >= 0 ==> q * b <= a < (q + 1) * b;
    assert a < 0 ==> q * b <= -a < (q + 1) * b;
  }

  // ---- Counting the second on ----------------------------------------------------

  /** next_second(): its length, and the fraction carried to the next. */
  function NextSecond(fractionQ8: int, rateQ8: int): (int, int) {
    var q := fractionQ8 + rateQ8;
    var whole := FloorDiv(q, 256);
    (SECOND_TICKS + whole, q - whole * 256)
  }

  /** n seconds on, with no rounding accumulated. */
  function Reckoned(start: int, seconds: nat, rateQ8: int): int {
    start + seconds * SECOND_TICKS + seconds * rateQ8 / 256
  }

  /** ... and the fraction of a tick left over, Q8. */
  function Fraction(seconds: nat, rateQ8: int): int {
    seconds * rateQ8 % 256
  }

  lemma ReckonedNext(start: int, seconds: nat, rateQ8: int)
    ensures var (length, fraction) := NextSecond(Fraction(seconds, rateQ8), rateQ8);
      && Reckoned(start, seconds, rateQ8) + length == Reckoned(start, seconds + 1, rateQ8)
      && fraction == Fraction(seconds + 1, rateQ8)
    ensures Reckoned(start, 0, rateQ8) == start && Fraction(0, rateQ8) == 0
  {
    var done := seconds * rateQ8;
    assert (seconds + 1) * rateQ8 == done + rateQ8;
    Carry(done, rateQ8);
  }

  lemma Carry(done: int, rateQ8: int)
    ensures done / 256 + (done % 256 + rateQ8) / 256 == (done + rateQ8) / 256
    ensures done % 256 + rateQ8 - (done % 256 + rateQ8) / 256 * 256 == (done + rateQ8) % 256
  {
    assert done == done / 256 * 256 + done % 256;
    var rest := done % 256 + rateQ8;
    assert done + rateQ8 == done / 256 * 256 + rest;
  }

  // ---- The rate --------------------------------------------------------------------

  /** The ticks between the second found and the one counted on from the baseline. */
  function RateError(baseline: u32, stamp: u32, seconds: nat, rateQ8: Rate): i32 {
    Signed32(Wrap32(stamp - Wrap32(baseline + seconds * SECOND_TICKS + TruncDiv(seconds * rateQ8, 256))))
  }

  /** The rate corrected by that error. */
  function CorrectedRate(baseline: u32, stamp: u32, seconds: nat, rateQ8: Rate): int
    requires seconds > 0
  {
    rateQ8 + TruncDiv(RateError(baseline, stamp, seconds, rateQ8) * 256, seconds)
  }

  /** learn_rate() takes a rate: over a time neither too short nor too long, and
      only one the RTC can have. */
  predicate TakesRate(baseline: u32, stamp: u32, seconds: nat, rateQ8: Rate) {
    && RATE_MIN_SECONDS <= seconds <= RATE_MAX_SECONDS
    && -RATE_LIMIT_Q8 <= CorrectedRate(baseline, stamp, seconds, rateQ8) <= RATE_LIMIT_Q8
  }

  function LearnedRate(baseline: u32, stamp: u32, seconds: nat, rateQ8: Rate): (r: Rate) {
    if TakesRate(baseline, stamp, seconds, rateQ8) then CorrectedRate(baseline, stamp, seconds, rateQ8) else rateQ8
  }

  /** The new rate, counted on from the baseline, leads to where the second was
      found, to within the resolution of the rate itself. */
  lemma LearnedRateFits(start: int, finish: int, seconds: nat, rateQ8: Rate)
    requires RATE_MIN_SECONDS <= seconds <= RATE_MAX_SECONDS
    requires -0x8000_0000 <= finish - (start + seconds * SECOND_TICKS + TruncDiv(seconds * rateQ8, 256)) < 0x8000_0000
    ensures var error := RateError(Wrap32(start), Wrap32(finish), seconds, rateQ8);
      && error == finish - (start + seconds * SECOND_TICKS + TruncDiv(seconds * rateQ8, 256))
      && var rate := rateQ8 + TruncDiv(error * 256, seconds);
         -(seconds + 512) < 256 * (Reckoned(start, seconds, rate) - finish) < seconds + 512
  {
    var drift := TruncDiv(seconds * rateQ8, 256);
    var error := finish - (start + seconds * SECOND_TICKS + drift);
    Congruent(start, finish, seconds * SECOND_TICKS + drift);
    TruncClose(error * 256, seconds);
    TruncClose(seconds * rateQ8, 256);
    hide Wrap32, Signed32, TruncDiv;
    Fits(error, seconds, rateQ8, TruncDiv(error * 256, seconds), drift);
  }

  lemma Fits(error: int, seconds: int, rateQ8: int, change: int, drift: int)
    requires -seconds < error * 256 - change * seconds < seconds && -256 < seconds * rateQ8 - drift * 256 < 256
    ensures -(seconds + 512) < 256 * (seconds * (rateQ8 + change) / 256 - drift - error) < seconds + 512
  {
    assert seconds * (rateQ8 + change) == seconds * rateQ8 + change * seconds;
    RoundedDown(seconds * rateQ8 + change * seconds);
  }

  /** A rate that the RTC has kept since the baseline is learnt, to within two of its
      units, unless it is that close to the limit; from 300 to 200,000 seconds on,
      and if it is not half the timebase off the rate before. */
  lemma SteadyRateLearned(start: int, finish: int, seconds: nat, rateQ8: Rate, actualQ8: Rate)
    requires 300 <= seconds <= 200_000 && finish == Reckoned(start, seconds, actualQ8)
    requires -0x8000_0000 <= finish - (start + seconds * SECOND_TICKS + TruncDiv(seconds * rateQ8, 256)) < 0x8000_0000
    requires -RATE_LIMIT_Q8 + 2 <= actualQ8 <= RATE_LIMIT_Q8 - 2
    ensures TakesRate(Wrap32(start), Wrap32(finish), seconds, rateQ8)
    ensures -2 <= LearnedRate(Wrap32(start), Wrap32(finish), seconds, rateQ8) - actualQ8 <= 2
  {
    var drift := TruncDiv(seconds * rateQ8, 256);
    var error := finish - (start + seconds * SECOND_TICKS + drift);
    Congruent(start, finish, seconds * SECOND_TICKS + drift);
    TruncClose(error * 256, seconds);
    TruncClose(seconds * rateQ8, 256);
    hide Wrap32, Signed32, TruncDiv;
    NearActual(error, seconds, rateQ8, TruncDiv(error * 256, seconds), drift, actualQ8);
  }

  lemma NearActual(error: int, seconds: int, rateQ8: int, change: int, drift: int, actualQ8: int)
    requires -seconds < error * 256 - change * seconds < seconds && -256 < seconds * rateQ8 - drift * 256 < 256
    requires error == seconds * actualQ8 / 256 - drift && seconds >= 300
    ensures -2 <= rateQ8 + change - actualQ8 <= 2
  {
    var off := rateQ8 + change - actualQ8;
    RoundedDown(seconds * actualQ8);
    assert off * seconds == seconds * rateQ8 + change * seconds - seconds * actualQ8;
    assert -seconds - 512 < off * seconds < seconds + 512;
    ThreeTimes(off, seconds);
  }

  lemma ThreeTimes(a: int, n: int)
    requires n >= 0
    ensures a >= 3 ==> a * n >= 3 * n
    ensures a <= -3 ==> a * n <= -3 * n
  {
  }

  lemma RoundedDown(a: int)
    ensures a - 256 < a / 256 * 256 <= a
  {
  }

  lemma Congruent(start: int, finish: int, expected: int)
    requires -0x8000_0000 <= finish - start - expected < 0x8000_0000
    ensures Signed32(Wrap32(Wrap32(finish) - Wrap32(Wrap32(start) + expected))) == finish - start - expected
  {
  }

  /** source_rtc_check_interval() */
  function CheckInterval(rateValid: bool, rateQ8: Rate): (seconds: nat)
    ensures CHECK_MIN_EPOCHS <= seconds <= CHECK_EPOCHS
  {
    var ticksPerSecond := (if rateQ8 < 0 then -rateQ8 else rateQ8) / 256;
    if !rateValid || ticksPerSecond == 0 then CHECK_EPOCHS
    else
      var seconds := DRIFT_LIMIT_TICKS / ticksPerSecond;
      if seconds > CHECK_EPOCHS then CHECK_EPOCHS
      else if seconds < CHECK_MIN_EPOCHS then CHECK_MIN_EPOCHS
      else seconds
  }

  /** How far it drifts between checks, Q8. */
  function DriftQ8(rateQ8: Rate): nat {
    CheckInterval(true, rateQ8) * (if rateQ8 < 0 then -rateQ8 else rateQ8)
  }

  /** The rates at which it stays within the limit: the interval is of whole ticks a
      second, so the fraction left out must fit in what its rounding leaves. */
  predicate StaysWithin(rateQ8: Rate) {
    var size := if rateQ8 < 0 then -rateQ8 else rateQ8;
    var whole := size / 256;
    if whole <= DRIFT_LIMIT_TICKS / CHECK_EPOCHS then size <= DRIFT_LIMIT_TICKS * 256 / CHECK_EPOCHS
    else size % 256 * (DRIFT_LIMIT_TICKS / whole) <= DRIFT_LIMIT_TICKS % whole * 256
  }

  /** Checked that often, exactly these rates stay within the limit; no other goes
      past it by more than a tick for each second of the interval, 0.54 ms in all. */
  lemma DriftLimited(rateQ8: Rate)
    ensures DriftQ8(rateQ8) <= DRIFT_LIMIT_TICKS * 256 <==> StaysWithin(rateQ8)
    ensures DriftQ8(rateQ8) < (DRIFT_LIMIT_TICKS + CHECK_EPOCHS) * 256
  {
    var size: nat := if rateQ8 < 0 then -rateQ8 else rateQ8;
    var whole, fraction, interval := size / 256, size % 256, CheckInterval(true, rateQ8);
    WholeDrift(whole, interval);
    Times(fraction, 255, interval);
    SplitDrift(interval, whole, fraction);
    Interval(whole, interval);
    hide CheckInterval;
  }

  lemma SplitDrift(interval: nat, whole: nat, fraction: nat)
    ensures interval * (256 * whole + fraction) == 256 * (interval * whole) + fraction * interval
  {
  }

  // A slow one is checked as seldom as any, a faster one as often as its whole ticks ask.
  lemma Interval(whole: nat, interval: nat)
    requires whole <= 20000
    requires interval ==
      if whole == 0 then CHECK_EPOCHS
      else if DRIFT_LIMIT_TICKS / whole > CHECK_EPOCHS then CHECK_EPOCHS
      else if DRIFT_LIMIT_TICKS / whole < CHECK_MIN_EPOCHS then CHECK_MIN_EPOCHS
      else DRIFT_LIMIT_TICKS / whole
    ensures whole <= DRIFT_LIMIT_TICKS / CHECK_EPOCHS ==> interval == CHECK_EPOCHS
    ensures whole > DRIFT_LIMIT_TICKS / CHECK_EPOCHS ==>
              interval == DRIFT_LIMIT_TICKS / whole && DRIFT_LIMIT_TICKS == interval * whole + DRIFT_LIMIT_TICKS % whole
  {
    if whole > 0 {
      Bounds(whole);
    }
  }

  lemma Bounds(whole: nat)
    requires 0 < whole <= 20000
    ensures CHECK_MIN_EPOCHS <= DRIFT_LIMIT_TICKS / whole
    ensures if whole <= DRIFT_LIMIT_TICKS / CHECK_EPOCHS then DRIFT_LIMIT_TICKS / whole >= CHECK_EPOCHS
            else DRIFT_LIMIT_TICKS / whole < CHECK_EPOCHS
    ensures DRIFT_LIMIT_TICKS == DRIFT_LIMIT_TICKS / whole * whole + DRIFT_LIMIT_TICKS % whole
  {
    AtLeast(DRIFT_LIMIT_TICKS, whole, CHECK_MIN_EPOCHS);
    if whole <= DRIFT_LIMIT_TICKS / CHECK_EPOCHS {
      AtLeast(DRIFT_LIMIT_TICKS, whole, CHECK_EPOCHS);
    } else {
      Below(DRIFT_LIMIT_TICKS, whole, CHECK_EPOCHS);
    }
  }

  lemma AtLeast(n: nat, d: nat, k: nat)
    requires d > 0 && k * d <= n
    ensures n / d >= k
  {
    assert n < (n / d + 1) * d;
    Multiples(n / d + 1, k, d);
  }

  lemma Below(n: nat, d: nat, k: nat)
    requires d > 0 && n < k * d
    ensures n / d < k
  {
    assert n / d * d <= n;
    Multiples(k, n / d, d);
  }

  /** An instance: 925.98 ticks a second, 23.15 ppm, is checked every 6 h and drifts
      38 us past the limit in them. */
  lemma DriftsPast()
    ensures CheckInterval(true, 237_050) == CHECK_EPOCHS
    ensures DriftQ8(237_050) == DRIFT_LIMIT_TICKS * 256 + 280_000
  {
  }

  lemma WholeDrift(whole: nat, interval: nat)
    requires whole <= 20000
    requires interval ==
      if whole == 0 then CHECK_EPOCHS
      else if DRIFT_LIMIT_TICKS / whole > CHECK_EPOCHS then CHECK_EPOCHS
      else if DRIFT_LIMIT_TICKS / whole < CHECK_MIN_EPOCHS then CHECK_MIN_EPOCHS
      else DRIFT_LIMIT_TICKS / whole
    ensures interval * whole <= DRIFT_LIMIT_TICKS && interval <= CHECK_EPOCHS
  {
    if whole > 0 {
      var exact := DRIFT_LIMIT_TICKS / whole;
      assert exact * whole <= DRIFT_LIMIT_TICKS;
      if interval > exact {
        Times(whole, 20000, CHECK_MIN_EPOCHS);
      } else {
        Times(interval, exact, whole);
      }
    } else {
      assert interval * whole == 0;
    }
  }

  lemma Times(a: nat, b: nat, c: nat)
    requires a <= b
    ensures a * c <= b * c && c * a <= c * b
  {
  }

  // ---- The offset from UTC ------------------------------------------------------------

  /** Where one of its seconds started, against UTC's: + is the RTC late. */
  datatype Anchor = Anchor(valid: bool, utc: u32, offsetNs: int, boundNs: u32)

  const NO_ANCHOR: Anchor := Anchor(false, 0, 0, 0)

  datatype Prediction = None | Predicted(offsetNs: int, boundNs: u32)

  /** saturate_bound() */
  function SaturateBound(ns: nat): u32 {
    if ns > BOUND_MAX_NS then BOUND_MAX_NS else ns
  }

  /** Its rate against true seconds: ours is oscillatorQ16 off. */
  function TrueRate(rateQ8: Rate, oscillatorQ16: i32): int {
    rateQ8 - TruncDiv(oscillatorQ16, 256)
  }

  /** ns a second that the rate may be off by. */
  function AllowanceNs(rateValid: bool): nat {
    1000 * (if rateValid then ALLOWANCE_PPM else RATE_LIMIT_PPM)
  }

  /** predict() */
  function Predict(anchor: Anchor, rateValid: bool, rateQ8: Rate, oscillatorQ16: i32, at: u32): Prediction {
    var elapsed := Signed32(Wrap32(at - anchor.utc));
    if !anchor.valid || elapsed < 0 then None
    else
      var moved := if rateValid then TruncDiv(elapsed * TrueRate(rateQ8, oscillatorQ16) * NS_PER_TICK, 256) else 0;
      Predicted(anchor.offsetNs + moved, SaturateBound(anchor.boundNs + elapsed * AllowanceNs(rateValid)))
  }

  /** The learnt rate, in ns a second. */
  function LearntNs(rateValid: bool, rateQ8: Rate, oscillatorQ16: i32): real {
    if rateValid then (TrueRate(rateQ8, oscillatorQ16) * NS_PER_TICK) as real / 256.0 else 0.0
  }

  /** How far its seconds have really moved against UTC's, in all. */
  function Total(drifts: seq<real>): real {
    if drifts == [] then 0.0 else Total(drifts[..|drifts| - 1]) + drifts[|drifts| - 1]
  }

  predicate Near(x: real, y: real, margin: real) {
    -margin <= x - y <= margin
  }

  lemma {:induction false} TotalNear(drifts: seq<real>, rate: real, margin: real)
    requires forall i :: 0 <= i < |drifts| ==> Near(drifts[i], rate, margin)
    ensures Near(Total(drifts), |drifts| as real * rate, |drifts| as real * margin)
  {
    var n := |drifts|;
    if n > 0 {
      TotalNear(drifts[..n - 1], rate, margin);
      OneMore(n - 1, rate);
      OneMore(n - 1, margin);
    } else {
      assert n as real * rate == 0.0 && n as real * margin == 0.0;
    }
  }

  lemma OneMore(n: nat, x: real)
    ensures (n + 1) as real * x == n as real * x + x
  {
    assert (n + 1) as real == n as real + 1.0;
  }

  /** 10 ppm of n seconds, or 500 until the rate has been learnt. */
  function Allowed(rateValid: bool, n: nat): nat {
    if rateValid then 10_000 * n else 500_000 * n
  }

  lemma AllowedIs(rateValid: bool, n: nat)
    ensures n * AllowanceNs(rateValid) == Allowed(rateValid, n)
  {
  }

  /** The bound grows by exactly that much. */
  lemma PredictedBound(anchor: Anchor, rateValid: bool, rateQ8: Rate, oscillatorQ16: i32, n: i32)
    requires n >= 0 && anchor.valid
    ensures var p, exact := Predict(anchor, rateValid, rateQ8, oscillatorQ16, Wrap32(anchor.utc + n)), anchor.boundNs + Allowed(rateValid, n);
      p.Predicted? && p.boundNs == if exact <= 0xFFFF_FFFE then exact else 0xFFFF_FFFE
  {
    Apart(anchor.utc, n);
    AllowedIs(rateValid, n);
    hide Wrap32, Signed32, TrueRate, AllowanceNs, Allowed;
  }

  /** If the anchor was within its bound, and each of its seconds since has been
      within a margin of the learnt rate, then so is its second now within the
      bound predicted, until that saturates: all of the allowance may be used, but
      for 1 ns in all, which truncating the movement may take. */
  lemma PredictionSound(anchor: Anchor, rateValid: bool, rateQ8: Rate, oscillatorQ16: i32, at: u32,
                        start: real, drifts: seq<real>, margin: real)
    requires Predict(anchor, rateValid, rateQ8, oscillatorQ16, at).Predicted?
    requires |drifts| == Signed32(Wrap32(at - anchor.utc))
    requires Near(start, anchor.offsetNs as real, anchor.boundNs as real)
    requires forall i :: 0 <= i < |drifts| ==> Near(drifts[i], LearntNs(rateValid, rateQ8, oscillatorQ16), margin)
    requires |drifts| as real * margin + Truncated(rateValid, |drifts|) as real <= Allowed(rateValid, |drifts|) as real
    ensures var p := Predict(anchor, rateValid, rateQ8, oscillatorQ16, at);
      p.boundNs < BOUND_MAX_NS ==> Near(start + Total(drifts), p.offsetNs as real, p.boundNs as real)
  {
    hide Predict, Total, LearntNs, Near, AllowanceNs, Movement, Truncated, Allowed;
    var n := |drifts|;
    AllowedIs(rateValid, n);
    TotalNear(drifts, LearntNs(rateValid, rateQ8, oscillatorQ16), margin);
    PredictedFrom(anchor, rateValid, rateQ8, oscillatorQ16, at, n);
    MovementNear(rateValid, rateQ8, oscillatorQ16, n);
    Combined(start, anchor, Total(drifts), n as real * LearntNs(rateValid, rateQ8, oscillatorQ16), n as real * margin,
             Movement(rateValid, rateQ8, oscillatorQ16, n), Truncated(rateValid, n), n * AllowanceNs(rateValid));
  }

  /** What truncating the movement may take. */
  function Truncated(rateValid: bool, n: nat): nat {
    if rateValid && n > 0 then 1 else 0
  }

  /** How far the rate moves its second in n of them. */
  function Movement(rateValid: bool, rateQ8: Rate, oscillatorQ16: i32, n: nat): int {
    if rateValid then TruncDiv(n * TrueRate(rateQ8, oscillatorQ16) * NS_PER_TICK, 256) else 0
  }

  lemma PredictedFrom(anchor: Anchor, rateValid: bool, rateQ8: Rate, oscillatorQ16: i32, at: u32, n: nat)
    requires Predict(anchor, rateValid, rateQ8, oscillatorQ16, at).Predicted? && n == Signed32(Wrap32(at - anchor.utc))
    ensures var p := Predict(anchor, rateValid, rateQ8, oscillatorQ16, at);
      && p.offsetNs == anchor.offsetNs + Movement(rateValid, rateQ8, oscillatorQ16, n)
      && (p.boundNs < BOUND_MAX_NS ==> p.boundNs == anchor.boundNs + n * AllowanceNs(rateValid))
  {
    hide TrueRate, AllowanceNs;
  }

  lemma MovementNear(rateValid: bool, rateQ8: Rate, oscillatorQ16: i32, n: nat)
    ensures Near(Movement(rateValid, rateQ8, oscillatorQ16, n) as real, n as real * LearntNs(rateValid, rateQ8, oscillatorQ16),
                 Truncated(rateValid, n) as real)
  {
    var rate := LearntNs(rateValid, rateQ8, oscillatorQ16);
    if rateValid {
      Moved(n, TrueRate(rateQ8, oscillatorQ16), n * TrueRate(rateQ8, oscillatorQ16) * NS_PER_TICK, rate);
    } else {
      assert n as real * rate == 0.0;
    }
  }

  lemma Combined(start: real, anchor: Anchor, total: real, expected: real, margin: real, moved: int, slack: nat,
                 allowance: nat)
    requires Near(start, anchor.offsetNs as real, anchor.boundNs as real)
    requires Near(total, expected, margin) && Near(moved as real, expected, slack as real)
    requires margin + slack as real <= allowance as real
    ensures Near(start + total, (anchor.offsetNs + moved) as real, (anchor.boundNs + allowance) as real)
  {
  }

  lemma Moved(n: nat, trueRate: int, whole: int, rate: real)
    requires whole == n * trueRate * NS_PER_TICK && rate == (trueRate * NS_PER_TICK) as real / 256.0
    ensures n as real * rate == whole as real / 256.0
    ensures n == 0 ==> whole == 0
    ensures -256 < whole - TruncDiv(whole, 256) * 256 < 256 && (n == 0 ==> TruncDiv(whole, 256) == 0)
    ensures Near(TruncDiv(whole, 256) as real, n as real * rate, if n == 0 then 0.0 else 1.0)
  {
    TruncClose(whole, 256);
    assert n * (trueRate * NS_PER_TICK) == whole;
    assert n as real * (trueRate * NS_PER_TICK) as real == whole as real;
  }

  /** anchor_found(): its second found at stamp, against our epoch's time. */
  function FoundAnchor(utc: u32, epochStamp: u32, found: u32, stamp: u32, clockBoundNs: u32, resolution: u32): Anchor {
    Anchor(true, found,
           Signed32(Wrap32(utc - found)) * NS_PER_SECOND + Signed32(Wrap32(stamp - epochStamp)) * NS_PER_TICK,
           SaturateBound(clockBoundNs + resolution * NS_PER_TICK / 2))
  }

  /** Its second found, starting d ticks after our epoch, which is j seconds later by
      UTC, is late by the two together: its start is at found + j seconds and
      d ticks by UTC. */
  lemma FoundLate(utc: u32, epochStamp: u32, found: u32, stamp: u32, clockBoundNs: u32, resolution: u32, j: i32, d: i32)
    requires utc == Wrap32(found + j) && stamp == Wrap32(epochStamp + d)
    ensures var a := FoundAnchor(utc, epochStamp, found, stamp, clockBoundNs, resolution);
      a.valid && a.utc == found && a.offsetNs == j * NS_PER_SECOND + d * NS_PER_TICK
  {
    Apart(found, j);
    Apart(epochStamp, d);
    hide Wrap32, Signed32;
  }

  lemma Apart(from: u32, d: i32)
    ensures Signed32(Wrap32(Wrap32(from + d) - from)) == d
  {
  }

  /** Its rate against true seconds, to within 1/256 of a tick: the ticks its second
      has over the nominal, less those that a true second has. */
  lemma TrueRateIs(rateQ8: Rate, oscillatorQ16: i32)
    ensures var ticks := rateQ8 as real / 256.0 - oscillatorQ16 as real / 65536.0;
      -1.0 / 256.0 < TrueRate(rateQ8, oscillatorQ16) as real / 256.0 - ticks < 1.0 / 256.0
  {
    var q := TruncDiv(oscillatorQ16, 256);
    TruncClose(oscillatorQ16, 256);
    assert -256 < oscillatorQ16 - q * 256 < 256;
    assert -256.0 < oscillatorQ16 as real - q as real * 256.0 < 256.0;
  }

  /** The bound with what its second is known to besides, to either side. */
  function Widened(boundNs: u32, resolution: u32): u32 {
    SaturateBound(boundNs + resolution * NS_PER_TICK / 2)
  }

  /** A second within the bound predicted, that starts x ns from where it is shown. */
  predicate Starts(late: real, x: real, offsetNs: int, boundNs: u32, resolution: u32) {
    Near(late, offsetNs as real, boundNs as real) && Near(x, 0.0, resolution as real / 2.0 * NS_PER_TICK as real)
  }

  predicate Covers(late: real, x: real, offsetNs: int, widened: u32) {
    Near(late + x, offsetNs as real, widened as real)
  }

  /** The bound reported covers a start anywhere within half the resolution of the one
      shown, if and only if that is even and the bound not past the greatest. */
  lemma WidenedSound(offsetNs: int, boundNs: u32, resolution: u32)
    ensures resolution % 2 == 0 && boundNs + resolution * NS_PER_TICK / 2 <= BOUND_MAX_NS
            <==> forall late: real, x: real :: Starts(late, x, offsetNs, boundNs, resolution) ==>
                   Covers(late, x, offsetNs, Widened(boundNs, resolution))
  {
    var half, widened := resolution / 2, Widened(boundNs, resolution);
    assert resolution * NS_PER_TICK / 2 == 25 * half + (if resolution % 2 == 0 then 0 else 12);
    assert resolution as real == 2.0 * half as real + (if resolution % 2 == 0 then 0.0 else 1.0);
    if resolution % 2 != 0 || boundNs + resolution * NS_PER_TICK / 2 > BOUND_MAX_NS {
      var late, x := (offsetNs + boundNs) as real, resolution as real / 2.0 * NS_PER_TICK as real;
      assert Starts(late, x, offsetNs, boundNs, resolution);
      assert !Covers(late, x, offsetNs, widened);
    }
  }

  /** No step of the prediction overflows 64 bits. */
  lemma PredictionFits(utc: u32, epochStamp: u32, found: u32, stamp: u32, clockBoundNs: u32, resolution: u32,
                       elapsed: i32, rateQ8: Rate, oscillatorQ16: i32)
    requires elapsed >= 0
    ensures var anchor := FoundAnchor(utc, epochStamp, found, stamp, clockBoundNs, resolution);
      var product := elapsed * TrueRate(rateQ8, oscillatorQ16) * NS_PER_TICK;
      && -0x4000_0000_0000_0000 <= anchor.offsetNs <= 0x4000_0000_0000_0000
      && -0x2000_0000_0000_0000 <= product <= 0x2000_0000_0000_0000
      && anchor.boundNs + elapsed * AllowanceNs(false) < 0x1_0000_0000_0000_0000
  {
    var rate := TrueRate(rateQ8, oscillatorQ16);
    TruncClose(oscillatorQ16, 256);
    assert -20_000_000 <= rate <= 20_000_000;
    assert -20_000_000 * elapsed <= rate * elapsed <= 20_000_000 * elapsed by {
      if rate >= 0 {
        Times(rate, 20_000_000, elapsed);
        Times(0, rate, elapsed);
      } else {
        Times(-rate, 20_000_000, elapsed);
        Times(0, -rate, elapsed);
      }
    }
  }

  /** An increment x ticks after the read before it, of a gap of them, with our
      clock e ns off: whether the anchor, its stamp in the middle, is in bounds. */
  predicate InBounds(x: real, e: real, gap: nat, boundNs: nat) {
    Near(e + (x - (gap / 2) as real) * 25.0, 0.0, boundNs as real)
  }

  predicate Possible(x: real, e: real, gap: nat, clockBoundNs: nat) {
    0.0 <= x <= gap as real && Near(e, 0.0, clockBoundNs as real)
  }

  /** The bound of an anchor holds wherever in the gap the increment was, if and only
      if the gap is even and the bound is not past the greatest: the middle of an
      odd gap is half a tick off, which half the resolution, rounded down, leaves out. */
  lemma AnchorSound(utc: u32, epochStamp: u32, found: u32, stamp: u32, clockBoundNs: u32, gap: u32)
    ensures var bound := FoundAnchor(utc, epochStamp, found, stamp, clockBoundNs, gap).boundNs;
      (gap % 2 == 0 && clockBoundNs + gap * NS_PER_TICK / 2 <= BOUND_MAX_NS <==>
         forall x: real, e: real :: Possible(x, e, gap, clockBoundNs) ==> InBounds(x, e, gap, bound))
  {
    var half: nat, bound := gap / 2, SaturateBound(clockBoundNs + gap * NS_PER_TICK / 2);
    assert gap * NS_PER_TICK / 2 == 25 * half + (if gap % 2 == 0 then 0 else 12);
    if gap % 2 == 0 && clockBoundNs + gap * NS_PER_TICK / 2 <= BOUND_MAX_NS {
      forall x: real, e: real | Possible(x, e, gap, clockBoundNs)
        ensures InBounds(x, e, gap, bound)
      {
        assert gap as real == 2.0 * half as real;
        assert bound as real == clockBoundNs as real + 25.0 * half as real;
      }
    } else {
      assert Possible(gap as real, clockBoundNs as real, gap, clockBoundNs);
      assert (gap - half) as real * 25.0 + clockBoundNs as real > bound as real;
      assert gap as real - (gap / 2) as real == (gap - half) as real;
      assert !InBounds(gap as real, clockBoundNs as real, gap, bound);
    }
  }

  // ---- The source ---------------------------------------------------------------------

  /** A second reported: its stamp, the UTC second it is labelled, what is left over,
      and the bound. */
  datatype Edge = Edge(sequence: u32, stamp: u32, utc: u32, offsetNs: int, uncertaintyNs: u32)

  datatype Reported = Nothing(uncertaintyNs: u32) | Lost | Seen(edge: Edge)

  class RtcSource {
    var secondValid: bool
    var secondStamp: u32
    var secondLabel: u32
    var secondEdges: u32
    var fractionQ8: int
    var resolution: u32
    var rateValid: bool
    var rateQ8: Rate
    var baselineValid: bool
    var baselineStamp: u32
    var baselineLabel: u32
    var anchor: Anchor
    var oscillatorQ16: i32
    // Where its second was last found, and the seconds counted since.
    ghost var foundStamp: u32
    ghost var foundLabel: u32
    ghost var counted: nat

    /** The second is where it was found, counted on at the rate, exactly. */
    ghost predicate Valid()
      reads this
    {
      secondValid ==>
        && secondStamp == Wrap32(Reckoned(foundStamp, counted, rateQ8))
        && fractionQ8 == Fraction(counted, rateQ8)
        && secondLabel == Wrap32(foundLabel + counted)
    }

    constructor ()
      ensures Valid() && !secondValid
    {
      secondValid, secondStamp, secondLabel, secondEdges, fractionQ8, resolution := false, 0, 0, 0, 0, 0;
      rateValid, rateQ8, baselineValid, baselineStamp, baselineLabel := false, 0, false, 0, 0;
      anchor, oscillatorQ16 := NO_ANCHOR, 0;
      foundStamp, foundLabel, counted := 0, 0, 0;
    }

    /** learn_rate(), before the second is moved. */
    method LearnRate(stamp: u32, at: u32)
      modifies this`rateQ8, this`rateValid
      ensures rateQ8 == if !baselineValid then old(rateQ8)
                        else LearnedRate(baselineStamp, stamp, Wrap32(at - baselineLabel), old(rateQ8))
      ensures rateValid <==>
                old(rateValid) || (baselineValid && TakesRate(baselineStamp, stamp, Wrap32(at - baselineLabel), old(rateQ8)))
    {
      hide TruncDiv, Wrap32, Signed32;
      var seconds := Wrap32(at - baselineLabel);
      if !baselineValid || seconds < RATE_MIN_SECONDS || seconds > RATE_MAX_SECONDS {
        return;
      }
      var predicted := Wrap32(baselineStamp + seconds * SECOND_TICKS + TruncDiv(seconds * rateQ8, 256));
      var error: int := Signed32(Wrap32(stamp - predicted));
      var rate := rateQ8 + TruncDiv(error * 256, seconds);
      if rate > RATE_LIMIT_Q8 || rate < -RATE_LIMIT_Q8 {
        return;
      }
      rateQ8 := rate;
      rateValid := true;
    }

    // The edges run on from the second it replaces.
    method CountEdges(stamp: u32)
      modifies this`secondEdges
      ensures !secondValid ==> secondEdges == Wrap32(old(secondEdges) + 1)
      ensures var apart: int := Signed32(Wrap32(stamp - secondStamp));
        secondValid && apart + SECOND_TICKS / 2 < 0x8000_0000 ==>
          secondEdges == Wrap32(SecondsApart(apart) + old(secondEdges))
    {
      hide Wrap32, Signed32, SecondsApart, TruncDiv;
      if secondValid {
        var apart: int := Signed32(Wrap32(stamp - secondStamp));
        var seconds: int := TruncDiv(Signed32(Wrap32(apart + SECOND_TICKS / 2)), SECOND_TICKS);
        if apart + SECOND_TICKS / 2 < 0x8000_0000 {
          ToNearest(apart);
        }
        secondEdges := Wrap32((if seconds > 0 then seconds else 0) + secondEdges);
      } else {
        secondEdges := Wrap32(secondEdges + 1);
      }
    }

    /** found() */
    method Found(stamp: u32, at: u32, gap: u32, confirming: bool)
      requires Valid()
      modifies this
      ensures Valid() && secondValid && counted == 0 && secondStamp == stamp && secondLabel == at
      ensures baselineValid && baselineStamp == stamp && baselineLabel == at && resolution == gap
      ensures confirming ==> rateQ8 == old(rateQ8)
      ensures anchor == old(anchor)
      // The edges run on by the whole seconds since the last one placed.
      ensures !old(secondValid) ==> secondEdges == Wrap32(old(secondEdges) + 1)
      ensures var apart: int := Signed32(Wrap32(stamp - old(secondStamp)));
        old(secondValid) && apart + SECOND_TICKS / 2 < 0x8000_0000 ==>
          secondEdges == Wrap32(SecondsApart(apart) + old(secondEdges))
    {
      hide LearnedRate, RateError, Reckoned, Fraction, Wrap32, Signed32, SecondsApart, TruncDiv;
      CountEdges(stamp);
      if !confirming {
        LearnRate(stamp, at);
      }
      Place(stamp, at, gap);
    }

    // Counted on from here, and the baseline for the next rate.
    method Place(stamp: u32, at: u32, gap: u32)
      modifies this`baselineValid, this`baselineStamp, this`baselineLabel, this`fractionQ8, this`secondValid,
        this`secondStamp, this`secondLabel, this`resolution, this`foundStamp, this`foundLabel, this`counted
      ensures Valid() && secondValid && counted == 0 && secondStamp == stamp && secondLabel == at
      ensures baselineValid && baselineStamp == stamp && baselineLabel == at && resolution == gap
    {
      hide Reckoned, Fraction, Wrap32;
      baselineValid, baselineStamp, baselineLabel := true, stamp, at;
      fractionQ8 := 0;
      secondValid, secondStamp, secondLabel, resolution := true, stamp, at, gap;
      foundStamp, foundLabel, counted := stamp, at, 0;
      ReckonedNext(stamp, 0, rateQ8);
      WrapSame(stamp);
      WrapSame(at);
    }

    /** The loop of source_rtc_report(): counted on to the latest of its seconds at
        or before our epoch, or lost after more than three. */
    method CountOn(capture: u32)
      requires Valid() && secondValid
      modifies this`secondValid, this`secondStamp, this`secondLabel, this`secondEdges, this`fractionQ8, this`counted
      ensures Valid() && old(counted) <= counted <= old(counted) + 4
      ensures secondValid <==> counted <= old(counted) + 3
      ensures secondLabel == Wrap32(old(secondLabel) + (counted - old(counted)))
      ensures secondEdges == Wrap32(old(secondEdges) + (counted - old(counted)))
      // The next second is after our epoch, and this one, if counted on to, is not.
      ensures secondValid ==> Signed32(Wrap32(capture - Wrap32(Reckoned(foundStamp, counted + 1, rateQ8)))) < 0
      ensures counted > old(counted) ==> Signed32(Wrap32(capture - secondStamp)) >= 0
    {
      hide Reckoned, Fraction, NextSecond, Wrap32, Signed32;
      var steps: nat := 0;
      WrapSame(secondLabel);
      WrapSame(secondEdges);
      while true
        invariant steps <= 3 && counted == old(counted) + steps && secondValid
        invariant secondStamp == Wrap32(Reckoned(foundStamp, counted, rateQ8)) && fractionQ8 == Fraction(counted, rateQ8)
        invariant secondLabel == Wrap32(foundLabel + counted)
        invariant secondLabel == Wrap32(old(secondLabel) + steps) && secondEdges == Wrap32(old(secondEdges) + steps)
        invariant steps > 0 ==> Signed32(Wrap32(capture - secondStamp)) >= 0
        decreases 4 - steps
      {
        var (length, fraction) := NextSecond(fractionQ8, rateQ8);
        ReckonedNext(foundStamp, counted, rateQ8);
        StampNext(Reckoned(foundStamp, counted, rateQ8), length);
        LabelNext(foundLabel, counted);
        LabelNext(old(secondLabel), steps);
        LabelNext(old(secondEdges), steps);
        if Signed32(Wrap32(capture - Wrap32(secondStamp + length))) < 0 {
          break;
        }
        fractionQ8 := fraction;
        secondStamp := Wrap32(secondStamp + length);
        secondLabel := Wrap32(secondLabel + 1);
        secondEdges := Wrap32(secondEdges + 1);
        counted := counted + 1;
        steps := steps + 1;
        if steps > 3 {
          secondValid := false;
          return;
        }
      }
    }

    /** bound_at() */
    function BoundAt(at: u32): u32
      reads this
    {
      match Predict(anchor, rateValid, rateQ8, oscillatorQ16, at)
      case None => UNCERTAINTY_NS
      case Predicted(_, bound) =>
        if secondValid then Widened(bound, resolution) else bound
    }

    /** source_rtc_report(), once the second is known and our epoch captured, and
        nothing is being written. */
    method Report(capture: u32) returns (r: Reported)
      requires Valid() && secondValid
      modifies this`secondValid, this`secondStamp, this`secondLabel, this`secondEdges, this`fractionQ8, this`counted
      ensures Valid() && (r == Lost <==> !secondValid) && !r.Nothing?
      ensures r.Seen? ==>
                && r.edge.stamp == Wrap32(Reckoned(foundStamp, counted, rateQ8)) && r.edge.sequence == secondEdges
                && -NS_PER_SECOND / 2 <= r.edge.offsetNs < NS_PER_SECOND / 2
                && r.edge.uncertaintyNs == BoundAt(secondLabel)
      ensures r.Seen? ==>
                match Predict(anchor, rateValid, rateQ8, oscillatorQ16, secondLabel)
                case None => r.edge.utc == secondLabel && r.edge.offsetNs == 0 && r.edge.uncertaintyNs == 999_000_000
                // The second shown, moved by the offset predicted, in whole seconds and the rest.
                case Predicted(offset, bound) =>
                  && r.edge.uncertaintyNs == Widened(bound, resolution)
                  && exists seconds: int :: r.edge.utc == Wrap32(secondLabel + seconds)
                       && offset == seconds * NS_PER_SECOND + r.edge.offsetNs
    {
      hide Reckoned, Predict, FloorDiv;
      CountOn(capture);
      if !secondValid {
        return Lost;
      }
      var utc: u32, offsetNs: int := secondLabel, 0;
      match Predict(anchor, rateValid, rateQ8, oscillatorQ16, secondLabel) {
        case None =>
        case Predicted(offset, _) =>
          var seconds := FloorDiv(offset + NS_PER_SECOND / 2, NS_PER_SECOND);
          utc := Wrap32(secondLabel + seconds);
          offsetNs := offset - seconds * NS_PER_SECOND;
      }
      r := Seen(Edge(secondEdges, secondStamp, utc, offsetNs, BoundAt(secondLabel)));
    }
  }

  /** Whole seconds from one second to another, to the nearest; none if it is before. */
  function SecondsApart(apart: int): int {
    if apart < 0 then 0 else (apart + SECOND_TICKS / 2) / SECOND_TICKS
  }

  lemma ToNearest(apart: int)
    requires -0x8000_0000 <= apart < 0x8000_0000 - SECOND_TICKS / 2
    ensures var seconds := TruncDiv(Signed32(Wrap32(apart + SECOND_TICKS / 2)), SECOND_TICKS);
      (if seconds > 0 then seconds else 0) == SecondsApart(apart)
  {
  }

  lemma WrapSame(x: u32)
    ensures Wrap32(x) == x
  {
  }

  lemma LabelNext(at: u32, n: nat)
    ensures Wrap32(Wrap32(at + n) + 1) == Wrap32(at + (n + 1))
  {
  }

  lemma StampNext(at: int, length: int)
    ensures Wrap32(Wrap32(at) + length) == Wrap32(at + length)
  {
  }
}
