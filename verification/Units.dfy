/**
  Revenue units. Prices are real numbers here, so that what is proved concerns
  the unit conversion and the truncation to whole micros, not float rounding.
 */
module Units {
  import opened Prelude

  type MicroDollars = Int64

  /** The number without its fraction: Go's conversion of a float to an integer. */
  function Truncate(x: real): int {
    if x >= 0.0 then x.Floor else -((-x).Floor)
  }

  predicate FitsInt64(x: real) {
    -TWO_TO_THE_63 <= Truncate(x) < TWO_TO_THE_63
  }

  /**
    `int64(x)`. Outside the int64 range Go leaves the result to the platform;
    `overflow` is whatever the platform does there.
   */
  function ToInt64(overflow: real -> Int64, x: real): Int64 {
    if FitsInt64(x) then Truncate(x) else overflow(x)
  }

  /** `Dollars.AsMicros`. */
  function DollarsAsMicros(overflow: real -> Int64, dollars: real): MicroDollars {
    ToInt64(overflow, dollars * 1000000.0)
  }

  /** `DollarsPerMille.Dollars`. */
  function CPMAsDollars(dpm: real): real {
    dpm / 1000.0
  }

  function CPMAsMicros(overflow: real -> Int64, dpm: real): MicroDollars {
    DollarsAsMicros(overflow, CPMAsDollars(dpm))
  }

  predicate PriceInRange(dpm: real) {
    FitsInt64(CPMAsDollars(dpm) * 1000000.0)
  }

  lemma TruncationInRangeIff(x: real)
    ensures FitsInt64(x) <==> -9223372036854775809.0 < x < 9223372036854775808.0
  {
  }

  /** The prices whose micros fit an int64, as bounds on the price. */
  lemma PriceInRangeIff(dpm: real)
    ensures PriceInRange(dpm) <==> -9223372036854775.809 < dpm < 9223372036854775.808
  {
    assert CPMAsDollars(dpm) * 1000000.0 == dpm * 1000.0;
    TruncationInRangeIff(dpm * 1000.0);
  }

  /** Outside that range the micros are what the platform makes of the price in micros. */
  lemma OutOfRangeIsPlatforms(overflow: real -> Int64, dpm: real)
    requires !PriceInRange(dpm)
    ensures CPMAsMicros(overflow, dpm) == overflow(dpm * 1000.0)
  {
    assert CPMAsDollars(dpm) * 1000000.0 == dpm * 1000.0;
  }

  /** A dollar is a million micros, up to a truncation toward zero of less than one micro. */
  lemma DollarsTruncateTowardZero(overflow: real -> Int64, dollars: real)
    requires FitsInt64(dollars * 1000000.0)
    ensures var error := dollars * 1000000.0 - DollarsAsMicros(overflow, dollars) as real;
            if dollars >= 0.0 then 0.0 <= error < 1.0 else -1.0 < error <= 0.0
  {
  }

  /** A CPM is a thousand times its micros per impression, up to a truncation toward zero of less than one micro. */
  lemma MicrosTruncateTowardZero(overflow: real -> Int64, dpm: real)
    requires PriceInRange(dpm)
    ensures var error := dpm * 1000.0 - CPMAsMicros(overflow, dpm) as real;
            if dpm >= 0.0 then 0.0 <= error < 1.0 else -1.0 < error <= 0.0
  {
    assert CPMAsDollars(dpm) * 1000000.0 == dpm * 1000.0;
  }

  /** A dearer price never becomes fewer micros, so more micros always means a dearer price. */
  lemma MicrosMonotone(overflow: real -> Int64, low: real, high: real)
    requires PriceInRange(low) && PriceInRange(high) && low <= high
    ensures CPMAsMicros(overflow, low) <= CPMAsMicros(overflow, high)
  {
    assert CPMAsDollars(low) * 1000000.0 == low * 1000.0;
    assert CPMAsDollars(high) * 1000000.0 == high * 1000.0;
  }

  /**
    Prices at least 0.001 CPM (one micro) apart stay apart, unless both lie
    strictly between -0.001 and 0.001 CPM, where truncation sends both to zero.
   */
  lemma MicrosSeparateIff(overflow: real -> Int64, low: real, high: real)
    requires PriceInRange(low) && PriceInRange(high) && low + 0.001 <= high
    ensures CPMAsMicros(overflow, low) < CPMAsMicros(overflow, high) <==> low <= -0.001 || high >= 0.001
  {
    assert CPMAsDollars(low) * 1000000.0 == low * 1000.0;
    assert CPMAsDollars(high) * 1000000.0 == high * 1000.0;
  }

  /** Prices on either side of zero may differ by a whole micro and still tie. */
  lemma MicrosMayTieAcrossZero(overflow: real -> Int64)
    ensures CPMAsMicros(overflow, -0.0009) == CPMAsMicros(overflow, 0.0001)
  {
    assert CPMAsDollars(-0.0009) * 1000000.0 == -0.9;
    assert CPMAsDollars(0.0001) * 1000000.0 == 0.1;
    assert Truncate(-0.9) == 0 && Truncate(0.1) == 0;
  }
}
