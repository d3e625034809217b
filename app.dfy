/** What happens when the form is submitted: the raw field is trimmed,
    validated, read as a number, and converted keeping as many decimals as
    the user typed; the gauges then show the three readings. */
module App {
  import opened Decimal
  import opened Validators
  import opened Converters

  datatype Submission = Converted(reading: Reading) | Rejected(message: string)

  /** The decimal count of a rendered numeral is its number of fractional
      digits. */
  lemma RenderDecimalPlaces(n: Numeral)
    requires WellFormed(n)
    ensures GetDecimalPlaces(Render(n)) == |n.fraction|
  {
    var sign := if n.negative then "-" else "";
    var a := sign + n.whole;
    assert '.' !in n.whole by {
      assert forall i :: 0 <= i < |n.whole| ==> IsDigit(n.whole[i]);
    }
    assert '.' !in n.fraction by {
      assert forall i :: 0 <= i < |n.fraction| ==> IsDigit(n.fraction[i]);
    }
    DecimalPlacesCount(a, n.fraction, "");
    if n.fraction != [] {
      assert Render(n) == a + "." + n.fraction;
    }
  }

  /** An accepted input's decimal count is the number of digits after its
      point, which the pattern bounds by six. */
  lemma AcceptedDecimalPlaces(s: string)
    requires MatchesFormat(s)
    ensures GetDecimalPlaces(s) == |Lex(s).value.fraction| <= MaxFractionDigits
  {
    RenderDecimalPlaces(Lex(s).value);
  }

  /** Rounding a numeral's value to its own number of fractional digits
      gives it back unchanged. */
  lemma KeepsInputDecimals(n: Numeral)
    requires WellFormed(n)
    ensures ToFixed(Value(n), |n.fraction|) == Value(n)
  {
    ValueOnGrid(n);
    ToFixedOnGrid(Value(n), |n.fraction|);
  }

  /** trim, then validate; on success parseFloat, count the decimals and
      convert with that many decimals. */
  function HandleSubmit(raw: string): (r: Submission)
    ensures var input := Trim(raw);
      && (r.Rejected? <==> !ValidateTemperatureInput(input).isValid)
      && (r.Rejected? ==> r.message == ValidateTemperatureInput(input).error != "")
      && (r.Converted? ==>
            var celsius := Value(Lex(input).value);
            var decimals := |Lex(input).value.fraction|;
            && r.reading.celsius == celsius
            && InRange(celsius)
            && r.reading.kelvin >= 0.0
            && IsToFixed(CelsiusToFahrenheit(celsius), decimals, r.reading.fahrenheit)
            && IsToFixed(CelsiusToKelvin(celsius), decimals, r.reading.kelvin))
  {
    var input := Trim(raw);
    var validation := ValidateTemperatureInput(input);
    if !validation.isValid then Rejected(validation.error)
    else
      var celsius := ParseFloat(input).value;
      AcceptedDecimalPlaces(input);
      KeepsInputDecimals(Lex(input).value);
      var decimals := GetDecimalPlaces(input);
      var reading := ConvertTemperature(celsius, decimals);
      AcceptedKelvinNonNegative(celsius, decimals);
      Converted(reading)
  }

  /** Accepted temperatures are at or above absolute zero, and rounding
      keeps that: a Kelvin reading is never negative. */
  lemma AcceptedKelvinNonNegative(celsius: real, decimals: nat)
    requires InRange(celsius) && decimals <= MaxToFixedDigits
    ensures ConvertTemperature(celsius, decimals).kelvin >= 0.0
  {
    KelvinNonNegativeIff(celsius);
  }

  /** The field is trimmed before anything else, so surrounding
      whitespace never changes the outcome. */
  lemma SubmitIgnoresPadding(raw: string)
    ensures HandleSubmit(raw) == HandleSubmit(Trim(raw))
  {
    TrimIdempotent(raw);
  }

  /** The three gauges are the same range, -50 to 150 degrees Celsius,
      expressed in each scale. */
  lemma GaugeRangesAreConverted()
    ensures ScaleRange("celsius") == Some(GaugeRange(-50.0, 150.0))
    ensures ScaleRange("fahrenheit") == Some(GaugeRange(CelsiusToFahrenheit(-50.0), CelsiusToFahrenheit(150.0)))
    ensures ScaleRange("kelvin") == Some(GaugeRange(CelsiusToKelvin(-50.0), CelsiusToKelvin(150.0)))
  {
  }

  /** Hence, on exact values, the three gauges of one temperature fill to
      the same height. */
  lemma FillAgreesAcrossScales(celsius: real)
    ensures ThermometerFill(CelsiusToFahrenheit(celsius), "fahrenheit") == ThermometerFill(celsius, "celsius")
    ensures ThermometerFill(CelsiusToKelvin(celsius), "kelvin") == ThermometerFill(celsius, "celsius")
  {
    GaugeRangesAreConverted();
    var share := (celsius - (-50.0)) / 200.0;
    assert (CelsiusToFahrenheit(celsius) - (-58.0)) / (302.0 - (-58.0)) == share;
    assert (CelsiusToKelvin(celsius) - 223.15) / (423.15 - 223.15) == share;
  }
}
