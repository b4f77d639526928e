/** The size formatting shared by the text renderer (src/core/renderer.ts) and the
    graph view (src/ui/components/Graph.ts): the unit is chosen by dividing by 1024
    while the value is at least 1024, at most up to gigabytes, and the scaled value is
    printed with `toFixed(1)`. */
module Sizes {

  const Units: seq<string> := ["B", "KB", "MB", "GB"]

  function Pow1024(k: nat): (p: nat)
    ensures p >= 1
  {
    if k == 0 then 1 else 1024 * Pow1024(k - 1)
  }

  /** The unit a byte count is shown in, by the thresholds 1024, 1024^2 and 1024^3. */
  function UnitIndex(bytes: nat): (k: nat)
    ensures k < |Units|
  {
    if bytes < 1024 then 0
    else if bytes < 1024 * 1024 then 1
    else if bytes < 1024 * 1024 * 1024 then 2
    else 3
  }

  /** The largest unit not above the byte count, capped at gigabytes. */
  lemma UnitIndexIsLargest(bytes: nat)
    ensures var k := UnitIndex(bytes);
            && (k == 0 || Pow1024(k) <= bytes)
            && (k == |Units| - 1 || bytes < Pow1024(k + 1))
  {
    assert Pow1024(1) == 1024;
    assert Pow1024(2) == 1024 * 1024;
    assert Pow1024(3) == 1024 * 1024 * 1024;
    assert Pow1024(4) == 1024 * 1024 * 1024 * 1024;
  }

  /** The decimal digits of `n`, without leading zeros. */
  function Decimal(n: nat): (s: string)
    ensures |s| >= 1
    ensures forall i :: 0 <= i < |s| ==> '0' <= s[i] <= '9'
  {
    if n < 10 then [Digit(n)] else Decimal(n / 10) + [Digit(n % 10)]
  }

  function Digit(d: nat): (c: char)
    requires d < 10
    ensures '0' <= c <= '9'
  {
    "0123456789"[d]
  }

  /** The number a string of decimal digits denotes. */
  function DigitsValue(s: string): nat
    requires forall i :: 0 <= i < |s| ==> '0' <= s[i] <= '9'
  {
    if s == [] then 0 else 10 * DigitsValue(s[..|s| - 1]) + (s[|s| - 1] - '0') as nat
  }

  /** Reading the digits back gives the number. */
  lemma {:induction false} DecimalRoundTrip(n: nat)
    ensures DigitsValue(Decimal(n)) == n
  {
    if n >= 10 {
      DecimalRoundTrip(n / 10);
      var s := Decimal(n);
      assert s[..|s| - 1] == Decimal(n / 10);
      DigitValue(n % 10);
    }
    else {
      DigitValue(n);
    }
  }

  lemma DigitValue(d: nat)
    requires d < 10
    ensures (Digit(d) - '0') as nat == d
  {
  }

  /** `x.toFixed(1)` for a non-negative value below 1e21: the integer `n` nearest to
      `10 * x`, the larger on a tie, printed with one decimal. */
  function ToFixed1(x: real): (s: string)
    requires x >= 0.0
  {
    Tenths((x * 10.0 + 0.5).Floor)
  }

  /** The tenths `n` printed as `n / 10` with one decimal. */
  function Tenths(n: nat): string {
    Decimal(n / 10) + "." + [Digit(n % 10)]
  }

  /** `toFixed(1)` prints the number of tenths nearest to the value. */
  lemma FixedIsNearestTenth(x: real, n: nat)
    requires x >= 0.0
    requires n as real - 0.5 <= x * 10.0 < n as real + 0.5
    ensures ToFixed1(x) == Tenths(n)
  {
  }

  /** The text of a byte count: the scaled value, `sep`, then the unit. */
  function SizeText(bytes: nat, sep: string): string {
    var k := UnitIndex(bytes);
    ToFixed1(bytes as real / Pow1024(k) as real) + sep + Units[k]
  }

  /** The size loop of both `formatSize` functions: `size` ends as the byte count
      scaled down to the unit `unitIndex`. */
  method ScaleSize(bytes: nat) returns (size: real, unitIndex: nat)
    ensures unitIndex == UnitIndex(bytes)
    ensures size == bytes as real / Pow1024(unitIndex) as real
  {
    size := bytes as real;
    unitIndex := 0;
    while size >= 1024.0 && unitIndex < |Units| - 1
      invariant unitIndex < |Units|
      invariant size == bytes as real / Pow1024(unitIndex) as real
      invariant unitIndex == 0 || Pow1024(unitIndex) <= bytes
    {
      size := size / 1024.0;
      unitIndex := unitIndex + 1;
    }
    UnitIndexIsLargest(bytes);
  }

  /** A whole value is printed with a zero decimal. */
  lemma FixedOfWhole(m: nat)
    ensures ToFixed1(m as real) == Decimal(m) + ".0"
  {
    var n := 10 * m;
    assert m as real * 10.0 + 0.5 == n as real + 0.5;
    assert (m as real * 10.0 + 0.5).Floor == n;
    assert n / 10 == m && n % 10 == 0 by {
      assert n == 10 * m + 0;
    }
  }

  lemma ExactScale(p: nat, m: nat)
    requires p >= 1
    ensures (p * m) as real / p as real == m as real
  {
    assert (p * m) as real == p as real * m as real;
  }

  /** Below a kilobyte the byte count is printed as it is. */
  lemma BytesBelowKilobyte(bytes: nat, sep: string)
    requires bytes < 1024
    ensures SizeText(bytes, sep) == Decimal(bytes) + ".0" + sep + "B"
  {
    assert bytes as real / Pow1024(0) as real == bytes as real;
    FixedOfWhole(bytes);
  }

  /** A whole number of kilobytes below a megabyte is printed in kilobytes. */
  lemma WholeKilobytes(m: nat, sep: string)
    requires 1 <= m < 1024
    ensures SizeText(1024 * m, sep) == Decimal(m) + ".0" + sep + "KB"
  {
    assert Pow1024(1) == 1024;
    ExactScale(1024, m);
    FixedOfWhole(m);
  }

  /** Sizes of a gigabyte and more stay in gigabytes. */
  lemma WholeGigabytes(m: nat, sep: string)
    requires m >= 1
    ensures SizeText(1024 * 1024 * 1024 * m, sep) == Decimal(m) + ".0" + sep + "GB"
  {
    var g := 1024 * 1024 * 1024;
    assert Pow1024(3) == g;
    assert UnitIndex(g * m) == 3 by {
      assert g * m >= g * 1;
    }
    ExactScale(g, m);
    FixedOfWhole(m);
  }

  /** Worked values: a half kilobyte step, and a tie rounded upwards. */
  lemma SizeTextExamples()
    ensures SizeText(2048, "") == "2.0KB"
    ensures SizeText(1536, " ") == "1.5 KB"
    ensures SizeText(1280, "") == "1.3KB"
  {
    WholeKilobytes(2, "");
    assert Pow1024(1) == 1024;
    assert ((1536 as real / 1024 as real) * 10.0 + 0.5).Floor == 15;
    assert ((1280 as real / 1024 as real) * 10.0 + 0.5).Floor == 13;
  }
}
