/** The converter of the temperature widget: Celsius to Fahrenheit and
    Kelvin, rounding of all three to a common number of decimals, and the
    count of decimals the user typed. Arithmetic is exact (`real`). */
module Converters {
  import opened Decimal

  // ---------------------------------------------------------------------
  // celsiusToFahrenheit, celsiusToKelvin
  // ---------------------------------------------------------------------

  /** F = C * 9/5 + 32: undone by F -> (F - 32) * 5/9. */
  function CelsiusToFahrenheit(celsius: real): (fahrenheit: real)
    ensures (fahrenheit - 32.0) * 5.0 / 9.0 == celsius
  {
    (celsius * 9.0 / 5.0) + 32.0
  }

  /** K = C + 273.15: non-negative exactly from absolute zero upwards. */
  function CelsiusToKelvin(celsius: real): (kelvin: real)
    ensures kelvin >= 0.0 <==> celsius >= -273.15
    ensures kelvin - 273.15 == celsius
  {
    celsius + 273.15
  }

  /** The Fahrenheit formula is order-preserving and undone by
      F -> (F - 32) * 5/9, so no two Celsius values share a Fahrenheit one. */
  lemma FahrenheitInvertible(a: real, b: real)
    ensures a < b <==> CelsiusToFahrenheit(a) < CelsiusToFahrenheit(b)
    ensures (CelsiusToFahrenheit(a) - 32.0) * 5.0 / 9.0 == a
  {
  }

  /** Kelvin is never negative exactly from absolute zero upwards. */
  lemma KelvinNonNegativeIff(celsius: real)
    ensures CelsiusToKelvin(celsius) >= 0.0 <==> celsius >= -273.15
    ensures CelsiusToKelvin(-273.15) == 0.0
  {
  }

  // ---------------------------------------------------------------------
  // Number(x.toFixed(d))
  // ---------------------------------------------------------------------

  function Abs(x: real): real {
    if x < 0.0 then -x else x
  }

  /** The fraction-digit limit of toFixed: beyond it toFixed throws. */
  const MaxToFixedDigits: nat := 100

  /** From this magnitude on, toFixed falls back to the exponential
      rendering of `x`, which reads back as `x` itself. */
  const ExponentialThreshold: real := 1_000_000_000_000_000_000_000.0

  /** `v` is a whole number nearest to `u`; of two equally near ones, the
      one farther from zero. */
  predicate NearestWhole(u: real, v: real) {
    && IsWhole(v)
    && Abs(v - u) <= 0.5
    && (Abs(v - u) == 0.5 ==> Abs(v) > Abs(u))
  }

  /** `r` is a multiple of ten to the minus `d` nearest to `x`; of two
      equally near ones, the one farther from zero. */
  predicate NearestTiesAway(x: real, d: nat, r: real) {
    NearestWhole(Scaled(x, d), Scaled(r, d))
  }

  /** What `Number(x.toFixed(d))` yields, as ECMA-262 section 21.1.3.3
      describes it, on exact values. */
  predicate IsToFixed(x: real, d: nat, r: real) {
    if Abs(x) >= ExponentialThreshold then r == x else NearestTiesAway(x, d, r)
  }

  /** `Number(x.toFixed(d))`: the sign is set aside, the largest whole `n`
      with `n / 10^d` nearest to `|x|` is taken, and the sign put back. */
  function ToFixed(x: real, d: nat): (r: real)
    requires d <= MaxToFixedDigits
    ensures IsToFixed(x, d, r)
    ensures x >= 0.0 ==> r >= 0.0
    ensures x <= 0.0 ==> r <= 0.0
  {
    if Abs(x) >= ExponentialThreshold then x
    else
      var n := (Scaled(Abs(x), d) + 0.5).Floor;
      ToFixedNearest(x, d, n);
      var magnitude := n as real / Pow10(d) as real;
      if x < 0.0 then -magnitude else magnitude
  }

  /** Half-up rounding of the magnitude, with the sign put back, is the
      nearest whole number with ties away from zero. */
  lemma RoundMagnitude(u: real, n: int)
    requires n == (Abs(u) + 0.5).Floor
    ensures NearestWhole(u, if u < 0.0 then (-n) as real else n as real)
  {
    assert ((-n) as real).Floor == -n;
  }

  /** The value ToFixed builds from `n` is the rounding of `x`. */
  lemma ToFixedNearest(x: real, d: nat, n: int)
    requires n == (Scaled(Abs(x), d) + 0.5).Floor
    ensures NearestTiesAway(x, d, if x < 0.0 then -(n as real / Pow10(d) as real) else n as real / Pow10(d) as real)
  {
    ScaleSign(x, d, n);
    RoundMagnitude(Scaled(x, d), n);
  }

  /** Scaling keeps the sign and commutes with Abs; scaling the signed
      quotient `n / 10^d` gives back the signed numerator. */
  lemma ScaleSign(x: real, d: nat, n: int)
    ensures Abs(Scaled(x, d)) == Scaled(Abs(x), d)
    ensures Scaled(if x < 0.0 then -(n as real / Pow10(d) as real) else n as real / Pow10(d) as real, d)
         == if Scaled(x, d) < 0.0 then (-n) as real else n as real
  {
    var p := Pow10(d) as real;
    var m := n as real / p;
    assert m * p == n as real;
    if x < 0.0 {
      assert x * p < 0.0;
      assert (-m) * p == -(m * p);
      assert (-x) * p == -(x * p);
    } else {
      assert x * p >= 0.0;
    }
  }

  /** Two whole numbers nearest to `u` are the same number. */
  lemma NearestWholeUnique(u: real, v1: real, v2: real)
    requires NearestWhole(u, v1) && NearestWhole(u, v2)
    ensures v1 == v2
  {
    var k1, k2 := v1.Floor, v2.Floor;
    assert v1 == k1 as real && v2 == k2 as real;
    assert -1 <= k1 - k2 <= 1;
    assert k1 != k2 ==> Abs(v1 - u) == 0.5 && Abs(v2 - u) == 0.5;
    assert k1 != k2 ==> 2.0 * u == (k1 + k2) as real;
    assert k1 != k2 ==> (0 <= k1 && 0 <= k2) || (k1 <= -1 && k2 <= -1) ==> false;
  }

  /** There is only one rounding: two values that both qualify are equal. */
  lemma NearestTiesAwayUnique(x: real, d: nat, r1: real, r2: real)
    requires NearestTiesAway(x, d, r1) && NearestTiesAway(x, d, r2)
    ensures r1 == r2
  {
    NearestWholeUnique(Scaled(x, d), Scaled(r1, d), Scaled(r2, d));
    var p := Pow10(d) as real;
    assert r1 * p == r2 * p;
    assert r1 == r1 * p / p && r2 == r2 * p / p;
  }

  /** A value that already has at most `d` decimals is left as it is. */
  lemma ToFixedOnGrid(x: real, d: nat)
    requires d <= MaxToFixedDigits && OnGrid(x, d)
    ensures ToFixed(x, d) == x
  {
    if Abs(x) < ExponentialThreshold {
      assert NearestTiesAway(x, d, x);
      NearestTiesAwayUnique(x, d, ToFixed(x, d), x);
    }
  }

  /** Rounding twice to the same number of decimals rounds once. */
  lemma ToFixedIdempotent(x: real, d: nat)
    requires d <= MaxToFixedDigits
    ensures ToFixed(ToFixed(x, d), d) == ToFixed(x, d)
  {
    var r := ToFixed(x, d);
    if Abs(x) < ExponentialThreshold {
      ToFixedOnGrid(r, d);
    }
  }

  /** Rounding is symmetric about zero. */
  lemma ToFixedOdd(x: real, d: nat)
    requires d <= MaxToFixedDigits
    ensures ToFixed(-x, d) == -ToFixed(x, d)
  {
    if Abs(x) < ExponentialThreshold {
      var r := ToFixed(x, d);
      var p := Pow10(d) as real;
      assert Scaled(-x, d) == -Scaled(x, d) && Scaled(-r, d) == -Scaled(r, d) by {
        assert (-x) * p == -(x * p) && (-r) * p == -(r * p);
      }
      NearestWholeNeg(Scaled(x, d), Scaled(r, d));
      NearestTiesAwayUnique(-x, d, ToFixed(-x, d), -r);
    }
  }

  lemma NearestWholeNeg(u: real, v: real)
    requires NearestWhole(u, v)
    ensures NearestWhole(-u, -v)
  {
    assert ((-v.Floor) as real).Floor == -v.Floor;
  }

  // ---------------------------------------------------------------------
  // convertTemperature
  // ---------------------------------------------------------------------

  /** One temperature in the three scales, all at the same precision. */
  datatype Reading = Reading(celsius: real, fahrenheit: real, kelvin: real)

  const DefaultDecimals: nat := 2

  function ConvertTemperature(celsius: real, decimals: nat := DefaultDecimals): (r: Reading)
    requires decimals <= MaxToFixedDigits
    ensures IsToFixed(celsius, decimals, r.celsius)
    ensures IsToFixed(CelsiusToFahrenheit(celsius), decimals, r.fahrenheit)
    ensures IsToFixed(CelsiusToKelvin(celsius), decimals, r.kelvin)
  {
    var fahrenheit := CelsiusToFahrenheit(celsius);
    var kelvin := CelsiusToKelvin(celsius);
    Reading(ToFixed(celsius, decimals), ToFixed(fahrenheit, decimals), ToFixed(kelvin, decimals))
  }

  /** The two worked examples of the widget: 45 and 14 degrees Celsius. */
  lemma ConvertExamples()
    ensures ConvertTemperature(45.0, 2) == Reading(45.0, 113.0, 318.15)
    ensures ConvertTemperature(14.0) == Reading(14.0, 57.2, 287.15)
  {
    assert Pow10(2) == 100;
    ToFixedOnGrid(45.0, 2);
    ToFixedOnGrid(113.0, 2);
    assert 318.15 * 100.0 == 31815.0;
    ToFixedOnGrid(318.15, 2);
    ToFixedOnGrid(14.0, 2);
    assert 57.2 * 100.0 == 5720.0;
    ToFixedOnGrid(57.2, 2);
    assert 287.15 * 100.0 == 28715.0;
    ToFixedOnGrid(287.15, 2);
  }

  // ---------------------------------------------------------------------
  // getDecimalPlaces
  // ---------------------------------------------------------------------

  /** Puts `sep` between the fields: the inverse of Split. */
  function Join(fields: seq<string>, sep: char): string
    requires |fields| >= 1
  {
    if |fields| == 1 then fields[0] else fields[0] + [sep] + Join(fields[1..], sep)
  }

  /** String.prototype.split with a one-character separator: the fields
      hold no separator and joining them back gives `s`. */
  function Split(s: string, sep: char): (fields: seq<string>)
    ensures |fields| >= 1
    ensures forall i :: 0 <= i < |fields| ==> sep !in fields[i]
    ensures Join(fields, sep) == s
  {
    if s == [] then [[]]
    else
      var rest := Split(s[1..], sep);
      if s[0] == sep then
        assert ([[]] + rest)[1..] == rest;
        [[]] + rest
      else
        var fields := [[s[0]] + rest[0]] + rest[1..];
        assert fields[1..] == rest[1..];
        assert s == [s[0]] + s[1..];
        fields
  }

  /** The number of characters between the first '.' and the next '.' (or
      the end); 0 when there is no '.'. */
  function GetDecimalPlaces(numberString: string): (k: nat)
    ensures k <= |numberString|
    ensures '.' in numberString ==> k < |numberString|
  {
    if '.' !in numberString then 0
    else
      var fields := Split(numberString, '.');
      assert |fields| >= 2;
      SplitFieldBound(fields, '.');
      var decimalPart := fields[1];
      if decimalPart == "" then 0 else |decimalPart|
  }

  /** The second field is shorter than the joined text. */
  lemma SplitFieldBound(fields: seq<string>, sep: char)
    requires |fields| >= 2
    ensures |fields[1]| < |Join(fields, sep)|
  {
    assert Join(fields, sep) == fields[0] + [sep] + Join(fields[1..], sep);
    if |fields| > 2 {
      assert Join(fields[1..], sep) == fields[1] + [sep] + Join(fields[2..], sep);
    }
  }

  lemma {:induction false} SplitNoSeparator(a: string, sep: char)
    requires sep !in a
    ensures Split(a, sep) == [a]
  {
    if a != [] {
      SplitNoSeparator(a[1..], sep);
    }
  }

  lemma {:induction false} SplitAtSeparator(a: string, sep: char, t: string)
    requires sep !in a
    ensures Split(a + [sep] + t, sep) == [a] + Split(t, sep)
  {
    var s := a + [sep] + t;
    if a == [] {
      assert s[1..] == t;
    } else {
      assert s[1..] == a[1..] + [sep] + t;
      SplitAtSeparator(a[1..], sep, t);
      assert s[0] == a[0] && a == [a[0]] + a[1..];
    }
  }

  /** The count of decimals, by where the points are: with no point it is
      0; otherwise it is the length of the text between the first point and
      the next point or the end. */
  lemma DecimalPlacesCount(a: string, b: string, rest: string)
    requires '.' !in a && '.' !in b
    ensures GetDecimalPlaces(a) == 0
    ensures GetDecimalPlaces(a + "." + b) == |b|
    ensures GetDecimalPlaces(a + "." + b + "." + rest) == |b|
  {
    SplitAtSeparator(a, '.', b);
    SplitNoSeparator(b, '.');
    assert (a + "." + b)[|a|] == '.';
    SplitAtSeparator(a, '.', b + "." + rest);
    SplitAtSeparator(b, '.', rest);
    assert a + "." + b + "." + rest == a + "." + (b + "." + rest);
    assert (a + "." + b + "." + rest)[|a|] == '.';
  }

  /** Example counts: "25.50" has 2 decimals, "25" and "25." none. */
  lemma DecimalPlacesExamples()
    ensures GetDecimalPlaces("25.50") == 2
    ensures GetDecimalPlaces("25") == 0
    ensures GetDecimalPlaces("25.") == 0
  {
    DecimalPlacesCount("25", "50", "");
    assert "25" + "." + "50" == "25.50";
    DecimalPlacesCount("25", "", "");
    assert "25" + "." + "" == "25.";
  }
}
