/**
The capacity forecast: a least-squares line through the samples (time, bytes used), its
coefficient of determination, and the predictions read off it, over exact reals.
 */
module Forecast {
  import opened Common

  datatype Sample = Sample(time: real, used: real)

  // ---------------------------------------------------------------- sums

  function Count(h: seq<Sample>): real { |h| as real }

  function SumT(h: seq<Sample>): real { if |h| == 0 then 0.0 else h[0].time + SumT(h[1..]) }

  function SumU(h: seq<Sample>): real { if |h| == 0 then 0.0 else h[0].used + SumU(h[1..]) }

  function SumTU(h: seq<Sample>): real { if |h| == 0 then 0.0 else h[0].time * h[0].used + SumTU(h[1..]) }

  function SumTT(h: seq<Sample>): real { if |h| == 0 then 0.0 else h[0].time * h[0].time + SumTT(h[1..]) }

  function Square(x: real): real { x * x }

  function Line(slope: real, intercept: real, time: real): real { intercept + slope * time }

  // Squared distance of the samples from a line.
  function Residuals(h: seq<Sample>, slope: real, intercept: real): real {
    if |h| == 0 then 0.0
    else Square(h[0].used - Line(slope, intercept, h[0].time)) + Residuals(h[1..], slope, intercept)
  }

  // ---------------------------------------------------------------- the fit

  function Determinant(n: real, st: real, stt: real): real { n * stt - st * st }

  function Denominator(h: seq<Sample>): real { Determinant(Count(h), SumT(h), SumTT(h)) }

  function SlopeOf(n: real, st: real, su: real, stu: real, stt: real): real {
    if Determinant(n, st, stt) == 0.0 then 0.0 else (n * stu - st * su) / Determinant(n, st, stt)
  }

  function Slope(h: seq<Sample>): real {
    SlopeOf(Count(h), SumT(h), SumU(h), SumTU(h), SumTT(h))
  }

  function InterceptOf(n: real, st: real, su: real, slope: real): real
    requires n > 0.0
  {
    (su - slope * st) / n
  }

  function Intercept(h: seq<Sample>): real
    requires |h| > 0
  {
    InterceptOf(Count(h), SumT(h), SumU(h), Slope(h))
  }

  // ---------------------------------------------------------------- the denominator

  // The squared values of a line at the samples' times, summed.
  function Spread(h: seq<Sample>, slope: real, intercept: real): real {
    if |h| == 0 then 0.0 else Square(Line(slope, intercept, h[0].time)) + Spread(h[1..], slope, intercept)
  }

  function SpreadForm(n: real, st: real, stt: real, m: real, b: real): real {
    n * b * b + 2.0 * m * b * st + m * m * stt
  }

  lemma PositiveProduct(x: real, y: real, product: real)
    requires x > 0.0 && y > 0.0 && product == x * y
    ensures product > 0.0
  {
  }

  lemma SquareSign(x: real)
    ensures Square(x) >= 0.0
    ensures x != 0.0 ==> Square(x) > 0.0
  {
    if x > 0.0 {
      PositiveProduct(x, x, Square(x));
    } else if x < 0.0 {
      PositiveProduct(0.0 - x, 0.0 - x, Square(x));
    }
  }

  lemma {:induction false} SpreadSign(h: seq<Sample>, m: real, b: real)
    ensures Spread(h, m, b) >= 0.0
    ensures Spread(h, m, b) == 0.0 ==> forall i | 0 <= i < |h| :: Line(m, b, h[i].time) == 0.0
  {
    hide Square; hide Line;
    if |h| > 0 {
      SpreadSign(h[1..], m, b);
      SquareSign(Line(m, b, h[0].time));
      assert forall i | 1 <= i < |h| :: h[i] == h[1..][i - 1];
    }
  }

  lemma SpreadTerm(m: real, b: real, t: real, n: real, st: real, stt: real)
    ensures Square(Line(m, b, t)) + SpreadForm(n, st, stt, m, b) == SpreadForm(1.0 + n, t + st, t * t + stt, m, b)
  {
    assert Square(b + m * t) == b * b + 2.0 * m * b * t + m * m * t * t;
  }

  lemma EmptySpread(m: real, b: real)
    ensures SpreadForm(0.0, 0.0, 0.0, m, b) == 0.0
  {
  }

  lemma {:induction false} SpreadExpands(h: seq<Sample>, m: real, b: real)
    ensures Spread(h, m, b) == SpreadForm(Count(h), SumT(h), SumTT(h), m, b)
  {
    hide Square; hide Line; hide SpreadForm;
    if |h| > 0 {
      SpreadExpands(h[1..], m, b);
      var t, rest := h[0].time, h[1..];
      SpreadTerm(m, b, t, Count(rest), SumT(rest), SumTT(rest));
      assert Count(h) == 1.0 + Count(rest) && SumT(h) == t + SumT(rest) && SumTT(h) == t * t + SumTT(rest);
    } else {
      EmptySpread(m, b);
    }
  }

  // The line with slope n through the centre of the times spreads by n times the determinant.
  lemma CentredSpread(n: real, st: real, stt: real)
    requires n > 0.0
    ensures SpreadForm(n, st, stt, n, 0.0 - st) >= 0.0 ==> Determinant(n, st, stt) >= 0.0
    ensures Determinant(n, st, stt) == 0.0 ==> SpreadForm(n, st, stt, n, 0.0 - st) == 0.0
  {
    var d := Determinant(n, st, stt);
    assert SpreadForm(n, st, stt, n, 0.0 - st) == n * d;
    if d < 0.0 {
      assert n * (0.0 - d) > 0.0;
    }
  }

  ghost predicate SameTimes(h: seq<Sample>) {
    forall i, j | 0 <= i < |h| && 0 <= j < |h| :: h[i].time == h[j].time
  }

  lemma {:induction false} SumsOfSameTimes(h: seq<Sample>, t: real)
    requires forall i | 0 <= i < |h| :: h[i].time == t
    ensures SumT(h) == Count(h) * t && SumTT(h) == Count(h) * t * t && SumTU(h) == t * SumU(h)
  {
    if |h| > 0 {
      assert forall i | 0 <= i < |h[1..]| :: h[1..][i] == h[i + 1];
      SumsOfSameTimes(h[1..], t);
      assert Count(h) == Count(h[1..]) + 1.0;
    }
  }

  lemma CentreIsUnique(n: real, st: real, x: real, y: real)
    requires n > 0.0 && Line(n, 0.0 - st, x) == 0.0 && Line(n, 0.0 - st, y) == 0.0
    ensures x == y
  {
    Cancel(n, x, y);
  }

  lemma Cancel(n: real, x: real, y: real)
    requires n > 0.0 && n * x == n * y
    ensures x == y
  {
    assert x == (n * x) / n && y == (n * y) / n;
  }

  lemma EqualTimesVanish(n: real, t: real)
    ensures Determinant(n, n * t, n * t * t) == 0.0
  {
  }

  // The regression denominator is never negative, and zero exactly when all samples were
  // taken at one time.
  lemma DenominatorSign(h: seq<Sample>)
    requires |h| > 0
    ensures Denominator(h) >= 0.0
    ensures Denominator(h) == 0.0 <==> SameTimes(h)
  {
    hide Line; hide SpreadForm; hide Determinant;
    var n, st := Count(h), SumT(h);
    SpreadExpands(h, n, 0.0 - st);
    CentredSpread(n, st, SumTT(h));
    SpreadSign(h, n, 0.0 - st);
    if Denominator(h) == 0.0 {
      forall i, j | 0 <= i < |h| && 0 <= j < |h|
        ensures h[i].time == h[j].time
      {
        CentreIsUnique(n, st, h[i].time, h[j].time);
      }
    }
    if SameTimes(h) {
      var t := h[0].time;
      SumsOfSameTimes(h, t);
      EqualTimesVanish(n, t);
      assert SumT(h) == n * t && SumTT(h) == n * t * t;
    }
  }

  // ---------------------------------------------------------------- optimality

  function BalanceForm(n: real, su: real, st: real, m: real, b: real): real { su - n * b - m * st }

  function MomentForm(stu: real, st: real, stt: real, m: real, b: real): real { stu - b * st - m * stt }

  // The sum of the residuals, and of the residuals times the times.
  function Balance(h: seq<Sample>, m: real, b: real): real { BalanceForm(Count(h), SumU(h), SumT(h), m, b) }

  function Moment(h: seq<Sample>, m: real, b: real): real { MomentForm(SumTU(h), SumT(h), SumTT(h), m, b) }

  lemma FitBalances(n: real, st: real, su: real, m: real)
    requires n > 0.0
    ensures BalanceForm(n, su, st, m, InterceptOf(n, st, su, m)) == 0.0
  {
    var b := InterceptOf(n, st, su, m);
    assert n * b == su - m * st;
  }

  lemma FitHasNoMoment(n: real, st: real, su: real, stu: real, stt: real)
    requires n > 0.0 && Determinant(n, st, stt) != 0.0
    ensures var m := SlopeOf(n, st, su, stu, stt);
      MomentForm(stu, st, stt, m, InterceptOf(n, st, su, m)) == 0.0
  {
    var d, m := Determinant(n, st, stt), SlopeOf(n, st, su, stu, stt);
    var b := InterceptOf(n, st, su, m);
    assert n * b == su - m * st && m * d == n * stu - st * su;
    MomentVanishes(n, m, b, d, st, su, stu, stt);
  }

  lemma MomentVanishes(n: real, m: real, b: real, d: real, st: real, su: real, stu: real, stt: real)
    requires n > 0.0 && d == n * stt - st * st && n * b == su - m * st && m * d == n * stu - st * su
    ensures stu - b * st - m * stt == 0.0
  {
    var x := stu - b * st - m * stt;
    calc {
      n * x;
      n * stu - (n * b) * st - m * (n * stt);
      n * stu - (su - m * st) * st - m * (n * stt);
      n * stu - st * su - m * d;
      n * 0.0;
    }
    Cancel(n, x, 0.0);
  }

  lemma FlatMoment(n: real, t: real, st: real, su: real, stu: real, stt: real)
    requires n > 0.0 && st == n * t && stt == n * t * t && stu == t * su
    ensures MomentForm(stu, st, stt, 0.0, InterceptOf(n, st, su, 0.0)) == 0.0
  {
    var b := InterceptOf(n, st, su, 0.0);
    assert n * b == su;
    assert b * (n * t) == t * (n * b);
  }

  // The fitted line meets the normal equations, also when all times coincide.
  lemma NormalEquations(h: seq<Sample>)
    requires |h| > 0
    ensures Balance(h, Slope(h), Intercept(h)) == 0.0 && Moment(h, Slope(h), Intercept(h)) == 0.0
  {
    hide BalanceForm; hide MomentForm; hide InterceptOf; hide Determinant;
    var n := Count(h);
    FitBalances(n, SumT(h), SumU(h), Slope(h));
    if Denominator(h) == 0.0 {
      DenominatorSign(h);
      SumsOfSameTimes(h, h[0].time);
      FlatMoment(n, h[0].time, SumT(h), SumU(h), SumTU(h), SumTT(h));
    } else {
      FitHasNoMoment(n, SumT(h), SumU(h), SumTU(h), SumTT(h));
    }
  }

  function Change(db: real, dm: real, x: real, y: real): real { 2.0 * (db * x + dm * y) }

  lemma ResidualTerm(t: real, u: real, m: real, b: real, dm: real, db: real)
    ensures var e := u - Line(m, b, t);
      Square(u - Line(m + dm, b + db, t)) == Square(e) - Change(db, dm, e, e * t) + Square(Line(dm, db, t))
  {
    var e, d := u - Line(m, b, t), Line(dm, db, t);
    assert u - Line(m + dm, b + db, t) == e - d;
    assert Square(e - d) == e * e - 2.0 * e * d + d * d;
    assert 2.0 * e * d == Change(db, dm, e, e * t);
  }

  lemma ChangeAdds(db: real, dm: real, x: real, y: real, x': real, y': real)
    ensures Change(db, dm, x + x', y + y') == Change(db, dm, x, y) + Change(db, dm, x', y')
  {
  }

  lemma FirstBalance(u: real, t: real, m: real, b: real, n: real, su: real, st: real)
    ensures BalanceForm(1.0 + n, u + su, t + st, m, b) == (u - Line(m, b, t)) + BalanceForm(n, su, st, m, b)
  {
  }

  lemma FirstMoment(u: real, t: real, m: real, b: real, stu: real, st: real, stt: real)
    ensures MomentForm(t * u + stu, t + st, t * t + stt, m, b) == (u - Line(m, b, t)) * t + MomentForm(stu, st, stt, m, b)
  {
  }

  lemma EmptyChange(m: real, b: real, dm: real, db: real)
    ensures Change(db, dm, BalanceForm(0.0, 0.0, 0.0, m, b), MomentForm(0.0, 0.0, 0.0, m, b)) == 0.0
  {
  }

  // Moving away from a line changes the residuals by a linear and a quadratic part.
  lemma {:induction false} ResidualsMove(h: seq<Sample>, m: real, b: real, dm: real, db: real)
    ensures Residuals(h, m + dm, b + db) ==
      Residuals(h, m, b) - Change(db, dm, Balance(h, m, b), Moment(h, m, b)) + Spread(h, dm, db)
  {
    hide Line; hide Square; hide Change; hide BalanceForm; hide MomentForm;
    if |h| > 0 {
      var t, u, rest := h[0].time, h[0].used, h[1..];
      var e := u - Line(m, b, t);
      ResidualsMove(rest, m, b, dm, db);
      ResidualTerm(t, u, m, b, dm, db);
      assert Count(h) == 1.0 + Count(rest) && SumT(h) == t + SumT(rest) && SumU(h) == u + SumU(rest);
      assert SumTT(h) == t * t + SumTT(rest) && SumTU(h) == t * u + SumTU(rest);
      FirstBalance(u, t, m, b, Count(rest), SumU(rest), SumT(rest));
      FirstMoment(u, t, m, b, SumTU(rest), SumT(rest), SumTT(rest));
      ChangeAdds(db, dm, e, e * t, Balance(rest, m, b), Moment(rest, m, b));
      assert Balance(h, m, b) == e + Balance(rest, m, b) && Moment(h, m, b) == e * t + Moment(rest, m, b);
      assert Change(db, dm, Balance(h, m, b), Moment(h, m, b))
          == Change(db, dm, e, e * t) + Change(db, dm, Balance(rest, m, b), Moment(rest, m, b));
    } else {
      EmptyChange(m, b, dm, db);
    }
  }

  lemma NoChange(db: real, dm: real)
    ensures Change(db, dm, 0.0, 0.0) == 0.0
  {
  }

  // No line fits the samples better than the fitted one.
  lemma FitIsOptimal(h: seq<Sample>, slope: real, intercept: real)
    requires |h| > 0
    ensures Residuals(h, Slope(h), Intercept(h)) <= Residuals(h, slope, intercept)
  {
    hide Residuals; hide Change; hide Balance; hide Moment; hide Slope; hide Intercept; hide Spread;
    var m, b := Slope(h), Intercept(h);
    var dm, db := slope - m, intercept - b;
    NormalEquations(h);
    ResidualsMove(h, m, b, dm, db);
    NoChange(db, dm);
    SpreadSign(h, dm, db);
    assert m + dm == slope && b + db == intercept;
  }

  // ---------------------------------------------------------------- confidence

  function Mean(h: seq<Sample>): real
    requires |h| > 0
  {
    SumU(h) / Count(h)
  }

  function TotalSquares(h: seq<Sample>): real
    requires |h| > 0
  {
    Deviations(h, Mean(h))
  }

  function Deviations(h: seq<Sample>, centre: real): real {
    if |h| == 0 then 0.0 else Square(h[0].used - centre) + Deviations(h[1..], centre)
  }

  function RSquared(h: seq<Sample>): real
    requires |h| > 0
  {
    if TotalSquares(h) > 0.0 then 1.0 - Residuals(h, Slope(h), Intercept(h)) / TotalSquares(h) else 0.0
  }

  function Confidence(h: seq<Sample>): real
    requires |h| > 0
  {
    if RSquared(h) > 1.0 then 1.0 else if RSquared(h) < 0.0 then 0.0 else RSquared(h)
  }

  lemma FlatLine(b: real, t: real)
    ensures Line(0.0, b, t) == b
  {
  }

  lemma {:induction false} DeviationsAreResiduals(h: seq<Sample>, b: real)
    ensures Deviations(h, b) == Residuals(h, 0.0, b)
  {
    hide Line; hide Square;
    if |h| > 0 {
      FlatLine(b, h[0].time);
      DeviationsAreResiduals(h[1..], b);
    }
  }

  lemma {:induction false} ResidualsSign(h: seq<Sample>, m: real, b: real)
    ensures Residuals(h, m, b) >= 0.0
  {
    hide Line; hide Square;
    if |h| > 0 {
      SquareSign(h[0].used - Line(m, b, h[0].time));
      ResidualsSign(h[1..], m, b);
    }
  }

  lemma ShareOfTotal(part: real, total: real)
    requires 0.0 <= part <= total && total > 0.0
    ensures 0.0 <= part / total <= 1.0
  {
    var q := part / total;
    assert q * total == part;
    ScaledOrder(0.0, q, total);
    ScaledOrder(q, 1.0, total);
  }

  // R-squared lies between 0 and 1 by itself; clamping it never changes it.
  lemma ConfidenceNeedsNoClamp(h: seq<Sample>)
    requires |h| > 0
    ensures 0.0 <= RSquared(h) <= 1.0 && Confidence(h) == RSquared(h)
  {
    hide Residuals; hide Slope; hide Intercept; hide Deviations;
    FitIsOptimal(h, 0.0, Mean(h));
    DeviationsAreResiduals(h, Mean(h));
    ResidualsSign(h, Slope(h), Intercept(h));
    if TotalSquares(h) > 0.0 {
      ShareOfTotal(Residuals(h, Slope(h), Intercept(h)), TotalSquares(h));
    }
  }

  // ---------------------------------------------------------------- predictions

  // Conversion to an integer drops the fraction, toward zero.
  function Truncate(x: real): int {
    if x >= 0.0 then x.Floor else -((-x).Floor)
  }

  lemma TruncateIsMonotone(x: real, y: real)
    requires x <= y
    ensures Truncate(x) <= Truncate(y)
  {
  }

  const SECONDS_PER_DAY: real := 86400.0

  // Never below what is used now, never above the capacity unless that is.
  function Predict(slope: real, intercept: real, now: real, used: int, capacity: int, days: int): int {
    var raw := Truncate(Line(slope, intercept, now + days as real * SECONDS_PER_DAY));
    var capped := if raw < capacity then raw else capacity;
    if capped > used then capped else used
  }

  // With a rising trend a longer horizon never predicts less.
  lemma PredictIsMonotone(slope: real, intercept: real, now: real, used: int, capacity: int, d: int, e: int)
    requires slope >= 0.0 && d <= e
    ensures Predict(slope, intercept, now, used, capacity, d) <= Predict(slope, intercept, now, used, capacity, e)
    ensures used <= Predict(slope, intercept, now, used, capacity, d) <= (if used > capacity then used else capacity)
  {
    hide Truncate;
    var s, t := now + d as real * SECONDS_PER_DAY, now + e as real * SECONDS_PER_DAY;
    assert s <= t;
    RisingLine(slope, intercept, s, t);
    TruncateIsMonotone(Line(slope, intercept, s), Line(slope, intercept, t));
  }

  lemma RisingLine(m: real, b: real, s: real, t: real)
    requires m >= 0.0 && s <= t
    ensures Line(m, b, s) <= Line(m, b, t)
  {
    assert m * (t - s) >= 0.0;
    assert Line(m, b, t) - Line(m, b, s) == m * (t - s);
  }

  // None without a rising trend; otherwise whole days at the daily growth, at least a byte a day.
  function DaysUntil(slope: real, used: int, capacity: int, ratio: real): Option<int> {
    if slope <= 0.0 then None
    else
      var target := Truncate(capacity as real * ratio);
      var growth := if slope * SECONDS_PER_DAY > 1.0 then slope * SECONDS_PER_DAY else 1.0;
      if used >= target then Some(0)
      else
        var days := Truncate((target - used) as real / growth);
        Some(if days > 0 then days else 0)
  }

  lemma QuotientIsMonotone(x: int, y: int, growth: real)
    requires x <= y && growth > 0.0
    ensures x as real / growth <= y as real / growth
  {
    var p, q := x as real / growth, y as real / growth;
    assert p * growth == x as real && q * growth == y as real;
    ScaledOrder(p, q, growth);
  }

  // A higher threshold is never reached earlier, so the 80, 90 and 99 percent days are ordered.
  lemma ThresholdsAreOrdered(slope: real, used: int, capacity: nat, low: real, high: real)
    requires low <= high
    ensures var a, b := DaysUntil(slope, used, capacity, low), DaysUntil(slope, used, capacity, high);
      (a.None? <==> b.None?) && (a.Some? ==> 0 <= a.value <= b.value)
  {
    hide Truncate;
    if slope > 0.0 {
      var p, q := capacity as real * low, capacity as real * high;
      assert p <= q by { ProductOrder(capacity as real, low, high); }
      TruncateIsMonotone(p, q);
      var growth := if slope * SECONDS_PER_DAY > 1.0 then slope * SECONDS_PER_DAY else 1.0;
      QuotientIsMonotone(Truncate(p) - used, Truncate(q) - used, growth);
      TruncateIsMonotone((Truncate(p) - used) as real / growth, (Truncate(q) - used) as real / growth);
    }
  }

  lemma ProductOrder(c: real, x: real, y: real)
    requires c >= 0.0 && x <= y
    ensures c * x <= c * y
  {
    assert c * (y - x) >= 0.0;
  }

  // ---------------------------------------------------------------- the whole forecast

  datatype CapacityForecast = CapacityForecast(
    in7Days: int,
    in30Days: int,
    in90Days: int,
    daysUntil80: Option<int>,
    daysUntil90: Option<int>,
    daysUntilFull: Option<int>,
    confidence: real)

  // Fewer than two samples predict nothing but the present.
  function GetForecast(h: seq<Sample>, now: real, used: int, capacity: nat): CapacityForecast {
    if |h| < 2 then CapacityForecast(used, used, used, None, None, None, 0.0)
    else
      var m, b := Slope(h), Intercept(h);
      CapacityForecast(
        Predict(m, b, now, used, capacity, 7),
        Predict(m, b, now, used, capacity, 30),
        Predict(m, b, now, used, capacity, 90),
        DaysUntil(m, used, capacity, 0.80),
        DaysUntil(m, used, capacity, 0.90),
        DaysUntil(m, used, capacity, 0.99),
        Confidence(h))
  }

  // A forecast never predicts less than is used now; with a trend that does not fall its
  // horizons are ordered; its threshold days are ordered and given together or not at all;
  // and its confidence is a fraction.
  lemma ForecastIsConsistent(h: seq<Sample>, now: real, used: int, capacity: nat)
    ensures var f := GetForecast(h, now, used, capacity);
      && used <= f.in7Days && used <= f.in30Days && used <= f.in90Days
      && (Slope(h) >= 0.0 ==> f.in7Days <= f.in30Days <= f.in90Days)
      && (f.daysUntil80.None? <==> f.daysUntil90.None?) && (f.daysUntil90.None? <==> f.daysUntilFull.None?)
      && (f.daysUntil80.Some? ==> 0 <= f.daysUntil80.value <= f.daysUntil90.value <= f.daysUntilFull.value)
      && 0.0 <= f.confidence <= 1.0
      && (|h| < 2 ==> f.in7Days == f.in30Days == f.in90Days == used && f.daysUntil80.None? && f.confidence == 0.0)
  {
    hide Slope; hide Intercept; hide DaysUntil; hide Confidence; hide RSquared;
    if |h| >= 2 {
      var m, b := Slope(h), Intercept(h);
      ConfidenceNeedsNoClamp(h);
      ThresholdsAreOrdered(m, used, capacity, 0.80, 0.90);
      ThresholdsAreOrdered(m, used, capacity, 0.90, 0.99);
      if m >= 0.0 {
        PredictIsMonotone(m, b, now, used, capacity, 7, 30);
        PredictIsMonotone(m, b, now, used, capacity, 30, 90);
      }
    }
  }

  // ---------------------------------------------------------------- what the numbers mean

  // Prediction p for the moment given: the whole bytes of the line's value there, kept between
  // usage and capacity.
  ghost predicate PredictionFor(slope: real, intercept: real, moment: real, used: nat, capacity: nat, p: int) {
    var y := intercept + slope * moment;
    if capacity <= used || y < (used + 1) as real then p == used
    else if y >= capacity as real then p == capacity
    else used < p < capacity && p as real <= y < (p + 1) as real
  }

  // n whole days of `growth` bytes reach the target from `used`, n + 1 days go beyond it.
  ghost predicate DaysFor(growth: real, used: nat, target: int, n: int) {
    if used >= target then n == 0
    else n >= 0 && used as real + n as real * growth <= target as real < used as real + n as real * growth + growth
  }

  lemma TruncateMeaning(x: real)
    ensures x >= 0.0 ==> Truncate(x) == x.Floor && Truncate(x) as real <= x < (Truncate(x) + 1) as real
    ensures x < 0.0 ==> Truncate(x) <= 0 && (Truncate(x) - 1) as real < x <= Truncate(x) as real
  {
  }

  lemma PredictMeaning(slope: real, intercept: real, now: real, used: nat, capacity: nat, days: int, moment: real)
    requires moment == now + days as real * 86400.0
    ensures PredictionFor(slope, intercept, moment, used, capacity, Predict(slope, intercept, now, used, capacity, days))
  {
    hide Truncate; hide Line;
    var y := Line(slope, intercept, moment);
    assert y == Line(slope, intercept, now + days as real * SECONDS_PER_DAY);
    TruncateMeaning(y);
    LineMeaning(slope, intercept, moment);
  }

  lemma LineMeaning(slope: real, intercept: real, time: real)
    ensures Line(slope, intercept, time) == intercept + slope * time
  {
  }

  lemma WholeDays(missing: int, growth: real, n: int)
    requires missing > 0 && growth > 0.0 && n == Truncate(missing as real / growth)
    ensures n >= 0 && n as real * growth <= missing as real < n as real * growth + growth
  {
    hide Truncate;
    var q := missing as real / growth;
    assert q * growth == missing as real;
    ScaledOrder(0.0, q, growth);
    TruncateMeaning(q);
    Bracket(missing as real, growth, q, n as real);
  }

  lemma Bracket(total: real, growth: real, q: real, x: real)
    requires growth > 0.0 && q * growth == total && x <= q < x + 1.0
    ensures x * growth <= total < x * growth + growth
  {
    ScaledOrder(x, q, growth);
    var r := x + 1.0 - q;
    PositiveProduct(r, growth, r * growth);
    assert r * growth == x * growth + growth - q * growth;
  }

  lemma DaysMeaning(slope: real, used: nat, capacity: nat, ratio: real)
    requires ratio >= 0.0
    ensures var r := DaysUntil(slope, used, capacity, ratio);
      && (r.None? <==> slope <= 0.0)
      && (r.Some? ==>
            var growth := if slope * 86400.0 > 1.0 then slope * 86400.0 else 1.0;
            DaysFor(growth, used, (capacity as real * ratio).Floor, r.value))
  {
    if slope > 0.0 {
      hide Truncate;
      var growth := if slope * SECONDS_PER_DAY > 1.0 then slope * SECONDS_PER_DAY else 1.0;
      ProductOrder(capacity as real, 0.0, ratio);
      TruncateMeaning(capacity as real * ratio);
      var target := Truncate(capacity as real * ratio);
      if used < target {
        var n := Truncate((target - used) as real / growth);
        WholeDays(target - used, growth, n);
        assert (target - used) as real == target as real - used as real;
      }
    }
  }

  // Confidence is the share of the squared deviations from the mean that the line explains.
  lemma ConfidenceMeaning(h: seq<Sample>)
    requires |h| > 0
    ensures var total, rest := Residuals(h, 0.0, SumU(h) / Count(h)), Residuals(h, Slope(h), Intercept(h));
      if total > 0.0 then Confidence(h) * total == total - rest else Confidence(h) == 0.0
  {
    hide Residuals; hide Slope; hide Intercept; hide Deviations; hide RSquared;
    ConfidenceNeedsNoClamp(h);
    DeviationsAreResiduals(h, Mean(h));
    ExplainedShare(h);
  }

  lemma ExplainedShare(h: seq<Sample>)
    requires |h| > 0
    ensures var total, rest := TotalSquares(h), Residuals(h, Slope(h), Intercept(h));
      if total > 0.0 then RSquared(h) * total == total - rest else RSquared(h) == 0.0
  {
    hide Residuals; hide Slope; hide Intercept; hide Deviations;
    var total, rest := TotalSquares(h), Residuals(h, Slope(h), Intercept(h));
    if total > 0.0 {
      var q := rest / total;
      assert q * total == rest;
      assert (1.0 - q) * total == total - q * total;
    }
  }

  // Every number of a forecast from at least two samples: the predictions are the line's
  // values in 7, 30 and 90 days, the day counts are those to 80, 90 and 99 percent of the
  // capacity at the daily growth, and the confidence is the share explained.
  lemma ForecastMeaning(h: seq<Sample>, now: real, used: nat, capacity: nat)
    requires |h| >= 2
    ensures var f, m, b := GetForecast(h, now, used, capacity), Slope(h), Intercept(h);
      var growth := if m * 86400.0 > 1.0 then m * 86400.0 else 1.0;
      var total := Residuals(h, 0.0, SumU(h) / Count(h));
      && PredictionFor(m, b, now + 604800.0, used, capacity, f.in7Days)
      && PredictionFor(m, b, now + 2592000.0, used, capacity, f.in30Days)
      && PredictionFor(m, b, now + 7776000.0, used, capacity, f.in90Days)
      && (m <= 0.0 ==> f.daysUntil80.None? && f.daysUntil90.None? && f.daysUntilFull.None?)
      && (m > 0.0 ==>
            && f.daysUntil80.Some? && DaysFor(growth, used, (capacity as real * 0.80).Floor, f.daysUntil80.value)
            && f.daysUntil90.Some? && DaysFor(growth, used, (capacity as real * 0.90).Floor, f.daysUntil90.value)
            && f.daysUntilFull.Some? && DaysFor(growth, used, (capacity as real * 0.99).Floor, f.daysUntilFull.value))
      && (if total > 0.0 then f.confidence * total == total - Residuals(h, m, b) else f.confidence == 0.0)
  {
    hide Slope; hide Intercept; hide DaysUntil; hide Confidence; hide Predict; hide PredictionFor; hide DaysFor; hide Residuals;
    var m, b := Slope(h), Intercept(h);
    PredictMeaning(m, b, now, used, capacity, 7, now + 604800.0);
    PredictMeaning(m, b, now, used, capacity, 30, now + 2592000.0);
    PredictMeaning(m, b, now, used, capacity, 90, now + 7776000.0);
    DaysMeaning(m, used, capacity, 0.80);
    DaysMeaning(m, used, capacity, 0.90);
    DaysMeaning(m, used, capacity, 0.99);
    ConfidenceMeaning(h);
  }

  // The fitted line, written out: it satisfies the two normal equations over the samples,
  // and with two different times no other line does.
  lemma FitIsUnique(h: seq<Sample>, slope: real, intercept: real)
    requires |h| > 0 && !SameTimes(h)
    requires Balance(h, slope, intercept) == 0.0 && Moment(h, slope, intercept) == 0.0
    ensures slope == Slope(h) && intercept == Intercept(h)
  {
    hide Slope; hide Intercept;
    DenominatorSign(h);
    NormalEquations(h);
    SameSolution(Count(h), SumT(h), SumU(h), SumTU(h), SumTT(h), slope, intercept, Slope(h), Intercept(h));
  }

  lemma SameSolution(n: real, st: real, su: real, stu: real, stt: real, m: real, b: real, m': real, b': real)
    requires n > 0.0 && Determinant(n, st, stt) > 0.0
    requires BalanceForm(n, su, st, m, b) == 0.0 && MomentForm(stu, st, stt, m, b) == 0.0
    requires BalanceForm(n, su, st, m', b') == 0.0 && MomentForm(stu, st, stt, m', b') == 0.0
    ensures m == m' && b == b'
  {
    var d, dm, db := Determinant(n, st, stt), m - m', b - b';
    assert n * db + dm * st == 0.0;
    assert db * st + dm * stt == 0.0;
    Eliminate(n, st, stt, dm, db);
    Cancel(d, dm, 0.0);
    Cancel(n, db, 0.0);
  }

  lemma Eliminate(n: real, st: real, stt: real, dm: real, db: real)
    requires n * db + dm * st == 0.0 && db * st + dm * stt == 0.0
    ensures Determinant(n, st, stt) * dm == 0.0
  {
    calc {
      Determinant(n, st, stt) * dm;
      n * (dm * stt) - st * (dm * st);
      n * (0.0 - db * st) - st * (dm * st);
      (0.0 - st) * (n * db + dm * st);
      0.0;
    }
  }
}
