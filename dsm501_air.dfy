/** The DSM501 engine's conversions once the ratios are known: the datasheet
    regression from low-time ratio to particle weight, and the breakpoint table from
    the weight difference of the two channels to an air-quality index. */
module AirQuality {
  import opened Dsm501Channel

  /** The datasheet regression y = 0.30473 r^3 - 2.63943 r^2 + 102.60291 r - 3.49616. */
  function Regression(r: real): real
  {
    0.30473 * (r * r * r) - 2.63943 * (r * r) + 102.60291 * r - 3.49616
  }

  /** `getParticalWeight` once the ratio is known: the regression clamped at zero.
      NaN fails the `< 0.0` test and passes through. */
  function Weight(ratio: Double): (w: Double)
    ensures w.NaN? <==> ratio.NaN?
    ensures w.Finite? ==> w.value >= 0.0 && w.value >= Regression(ratio.value)
    ensures w.Finite? ==> w.value == 0.0 || w.value == Regression(ratio.value)
  {
    match ratio
    case NaN => NaN
    case Finite(r) =>
      var y := Regression(r);
      Finite(if y < 0.0 then 0.0 else y)
  }

  /** The regression is strictly increasing: its derivative has no real root. */
  lemma RegressionIncreasing(a: real, b: real)
    requires a < b
    ensures Regression(a) < Regression(b)
  {
    var q := Slope(a, b);
    RegressionDifference(a, b);
    SlopePositive(a, b);
    assert (b - a) * q > 0.0;
  }

  /** The difference quotient of the regression between a and b. */
  function Slope(a: real, b: real): real
  {
    0.30473 * (a * a + a * b + b * b) - 2.63943 * (a + b) + 102.60291
  }

  lemma RegressionDifference(a: real, b: real)
    ensures Regression(b) - Regression(a) == (b - a) * Slope(a, b)
  {
  }

  lemma SlopePositive(a: real, b: real)
    ensures Slope(a, b) > 0.0
  {
    var s := a + b;
    assert a * a + a * b + b * b == 0.75 * (s * s) + 0.25 * ((a - b) * (a - b));
    assert (a - b) * (a - b) >= 0.0;
    var v := s - 2.63943 / (2.0 * 0.75 * 0.30473);
    assert 0.75 * 0.30473 * (s * s) - 2.63943 * s + 102.60291
        == 0.75 * 0.30473 * (v * v) + (102.60291 - 2.63943 * 2.63943 / (4.0 * 0.75 * 0.30473));
    assert v * v >= 0.0;
  }

  /** A higher ratio never gives a lower weight. */
  lemma WeightMonotone(r1: real, r2: real)
    requires r1 <= r2
    ensures Weight(Finite(r1)).value <= Weight(Finite(r2)).value
  {
    if r1 < r2 {
      RegressionIncreasing(r1, r2);
    }
  }

  /** The difference `getParticalWeight(0) - getParticalWeight(1)` (PM10 channel minus
      PM2.5 channel); NaN if either is NaN. */
  function Delta(w0: Double, w1: Double): (d: Double)
    ensures d.NaN? <==> w0.NaN? || w1.NaN?
  {
    if w0.NaN? || w1.NaN? then NaN else Finite(w0.value - w1.value)
  }

  /** The breakpoint table of `getAQI`, with `(int)` on a non-negative argument as
      `.Floor`. Every comparison is false for NaN, which falls through to -1. */
  function Aqi(d: Double): (aqi: int)
    ensures aqi >= -1
  {
    match d
    case NaN => -1
    case Finite(p) =>
      if p >= 0.0 && p <= 15.4 then 0 + (50.0 / 15.5 * p).Floor
      else if p > 15.5 && p <= 40.5 then 50 + (50.0 / 25.0 * (p - 15.5)).Floor
      else if p > 40.5 && p <= 65.5 then 100 + (50.0 / 25.0 * (p - 40.5)).Floor
      else if p > 65.5 && p <= 150.5 then 150 + (50.0 / 85.0 * (p - 65.5)).Floor
      else if p > 150.5 && p <= 250.5 then 200 + (100.0 / 100.0 * (p - 150.5)).Floor
      else if p > 250.5 && p <= 350.5 then 300 + (100.0 / 100.0 * (p - 250.5)).Floor
      else if p > 350.5 && p <= 500.0 then 400 + (100.0 / 150.0 * (p - 350.5)).Floor
      else if p > 500.0 then 500 + (500.0 / 500.0 * (p - 500.0)).Floor
      else -1
  }

  /** The sentinel -1 comes out exactly for an undefined difference, a negative one,
      or one in the gap (15.4, 15.5] that no table row covers. */
  lemma AqiSentinel(d: Double)
    ensures Aqi(d) == -1 <==> d.NaN? || d.value < 0.0 || (15.4 < d.value <= 15.5)
  {
    if d.Finite? {
      var p := d.value;
      if p >= 0.0 && !(15.4 < p <= 15.5) {
        AqiBand(p);
      }
    }
  }

  /** The table row a difference falls in: 1 to 8, or 0 where no row applies. */
  function Band(p: real): nat
  {
    if p >= 0.0 && p <= 15.4 then 1
    else if p > 15.5 && p <= 40.5 then 2
    else if p > 40.5 && p <= 65.5 then 3
    else if p > 65.5 && p <= 150.5 then 4
    else if p > 150.5 && p <= 250.5 then 5
    else if p > 250.5 && p <= 350.5 then 6
    else if p > 350.5 && p <= 500.0 then 7
    else if p > 500.0 then 8
    else 0
  }

  /** The least index row k can yield (and, for k < 8, the bound the row below it
      stays under). */
  function BandFloor(k: nat): int
  {
    if k <= 1 then 0
    else if k == 2 then 50
    else if k == 3 then 100
    else if k == 4 then 150
    else if k == 5 then 200
    else if k == 6 then 300
    else if k == 7 then 400
    else 500
  }

  lemma FloorMonotone(x: real, y: real)
    requires x <= y
    ensures x.Floor <= y.Floor
  {
  }

  /** Each row yields an index between its own floor and the next row's floor. */
  lemma AqiBand(p: real)
    requires Band(p) >= 1
    ensures BandFloor(Band(p)) <= Aqi(Finite(p))
    ensures Band(p) < 8 ==> Aqi(Finite(p)) <= BandFloor(Band(p) + 1)
  {
    var k := Band(p);
    if k == 1 {
      FloorMonotone(0.0, 50.0 / 15.5 * p);
      FloorMonotone(50.0 / 15.5 * p, 50.0);
    } else if k == 2 {
      FloorMonotone(0.0, 50.0 / 25.0 * (p - 15.5));
      FloorMonotone(50.0 / 25.0 * (p - 15.5), 50.0);
    } else if k == 3 {
      FloorMonotone(0.0, 50.0 / 25.0 * (p - 40.5));
      FloorMonotone(50.0 / 25.0 * (p - 40.5), 50.0);
    } else if k == 4 {
      FloorMonotone(0.0, 50.0 / 85.0 * (p - 65.5));
      FloorMonotone(50.0 / 85.0 * (p - 65.5), 50.0);
    } else if k == 5 {
      FloorMonotone(0.0, p - 150.5);
      FloorMonotone(p - 150.5, 100.0);
    } else if k == 6 {
      FloorMonotone(0.0, p - 250.5);
      FloorMonotone(p - 250.5, 100.0);
    } else if k == 7 {
      FloorMonotone(0.0, 100.0 / 150.0 * (p - 350.5));
      FloorMonotone(100.0 / 150.0 * (p - 350.5), 100.0);
    } else {
      FloorMonotone(0.0, p - 500.0);
    }
  }

  /** The AVR target's `int` is 16 bits wide. Below a difference of 32768 every index
      the table yields, the sum `500 + (int)(d - 500)` of the last row included, fits
      in it; from 32768 on the source overflows and the unbounded index here no
      longer describes it. */
  lemma AqiFitsInt16(d: Double)
    requires d.NaN? || d.value < 32768.0
    ensures -1 <= Aqi(d) <= 32767
  {
    if d.Finite? && Band(d.value) >= 1 {
      var p := d.value;
      AqiBand(p);
      if Band(p) == 8 {
        assert (p - 500.0).Floor <= 32267;
      }
    }
  }

  /** Outside the sentinel cases the index never decreases as the difference grows,
      across row boundaries too. */
  lemma AqiMonotone(p1: real, p2: real)
    requires p1 <= p2
    requires Aqi(Finite(p1)) != -1 && Aqi(Finite(p2)) != -1
    ensures 0 <= Aqi(Finite(p1)) <= Aqi(Finite(p2))
  {
    AqiSentinel(Finite(p1));
    AqiSentinel(Finite(p2));
    var k1, k2 := Band(p1), Band(p2);
    AqiBand(p1);
    AqiBand(p2);
    if k1 == k2 {
      if k1 == 1 {
        FloorMonotone(50.0 / 15.5 * p1, 50.0 / 15.5 * p2);
      } else if k1 == 2 {
        FloorMonotone(50.0 / 25.0 * (p1 - 15.5), 50.0 / 25.0 * (p2 - 15.5));
      } else if k1 == 3 {
        FloorMonotone(50.0 / 25.0 * (p1 - 40.5), 50.0 / 25.0 * (p2 - 40.5));
      } else if k1 == 4 {
        FloorMonotone(50.0 / 85.0 * (p1 - 65.5), 50.0 / 85.0 * (p2 - 65.5));
      } else if k1 == 5 {
        FloorMonotone(p1 - 150.5, p2 - 150.5);
      } else if k1 == 6 {
        FloorMonotone(p1 - 250.5, p2 - 250.5);
      } else if k1 == 7 {
        FloorMonotone(100.0 / 150.0 * (p1 - 350.5), 100.0 / 150.0 * (p2 - 350.5));
      } else {
        FloorMonotone(p1 - 500.0, p2 - 500.0);
      }
    } else {
      assert k1 < k2;
      assert BandFloor(k1 + 1) <= BandFloor(k2);
    }
  }

  /** Reference points of the table. */
  lemma AqiExamples()
    ensures Aqi(Finite(0.0)) == 0
    ensures Aqi(Finite(15.0)) == 48
    ensures Aqi(Finite(600.0)) == 600
  {
    assert (50.0 / 15.5 * 15.0).Floor == 48;
  }

  /** The channel order matters: a PM2.5 weight above the PM10 weight gives a negative
      difference and the sentinel. */
  lemma ChannelOrder()
    ensures Aqi(Delta(Finite(5.0), Finite(20.0))) == -1
    ensures Aqi(Delta(Finite(20.0), Finite(5.0))) == 48
  {
    AqiExamples();
  }
}
