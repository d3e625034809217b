# Temperature converter widget: a Dafny model

A browser widget reads a Celsius temperature typed by the user. It checks the
text against a fixed numeric pattern and the physical range from -273.15 to
6000. It then converts the value to Fahrenheit and Kelvin and rounds all three
readings to the number of decimals the user typed. Each reading is shown on a
gauge whose fill and colour depend on the temperature.

This project models that logic as pure Dafny functions over exact `real`
arithmetic and proves the properties the code promises. It has four modules:

- `Decimal` (`decimal.dfy`): digits, the value of a digit string, powers of ten,
  and "has at most d decimals".
- `Validators` (`validators.dfy`) models `assets/js/validators.js`:
  - `String.prototype.trim`;
  - the pattern `^-?\d+(\.\d{1,6})?$`, as a hand-written recogniser `Lex` that
    returns the parsed `Numeral`;
  - `parseFloat` on the accepted texts, read exactly as a decimal;
  - `validateTemperatureInput`, `getTemperatureColor` and `calculateThermometerFill`.
- `Converters` (`converters.dfy`) models `assets/js/converters.js`:
  - the two unit conversions;
  - `Number(x.toFixed(d))`, as rounding to the nearest multiple of 10^-d with
    ties away from zero (section 21.1.3.3 of ECMA-262, on exact values);
  - `convertTemperature`;
  - `getDecimalPlaces`, with `String.prototype.split` on one character.
- `App` (`app.dfy`) models `handleSubmit` in `assets/js/main.js`: trim,
  validate, parse, count decimals, convert. It also holds the facts that
  connect the two core files.

The pattern is specified twice and the two are proved to agree:
- `Render` says which text spells each well-formed `Numeral`;
- `Lex` is the recogniser;
- the `Lex` postcondition and `LexRender` prove the round trip in both
  directions, so the recogniser accepts exactly the renderings of well-formed
  numerals.

`convertTemperature` passes `decimals` to `toFixed` unchecked, and `toFixed`
accepts 0 to 100. `handleSubmit` only ever passes the count typed, which
AcceptedDecimalPlaces bounds by 6.

## Model

| member | source | states |
|---|---|---|
| Validators.TrimEmptyIff | assets/js/validators.js:13 | `input.trim() === ''` holds exactly when every character of the input is ECMAScript whitespace or a line terminator |
| Validators.Trim | assets/js/main.js:60 | the result is what is left of the input between a whitespace prefix and a whitespace suffix, and it neither starts nor ends with whitespace |
| Validators.TrimIdempotent | assets/js/main.js:60 | trimming an already trimmed text changes nothing |
| Validators.Lex | assets/js/validators.js:22-24 | the recogniser succeeds only on a text that is the rendering of a well-formed numeral (optional '-', one or more digits, optionally '.' and 1 to 6 digits), and returns that numeral |
| Validators.LexUnsigned | assets/js/validators.js:22 | the unsigned part `\d+(\.\d{1,6})?` succeeds only when the text is the digits, then '.' and the fraction if there is one |
| Validators.LexRender | assets/js/validators.js:22-24 | the rendering of every well-formed numeral is accepted and read back as that numeral, so the pattern matches exactly these renderings |
| Validators.MatchesFormatIff | assets/js/validators.js:22-24 | `regex.test(input)` holds exactly when the input is the rendering of some well-formed numeral |
| Validators.MatchedIsNotBlank | assets/js/validators.js:13-29 | a text the pattern matches is never blank, so the emptiness check never hides a match |
| Validators.AcceptedShape | assets/js/validators.js:20-24 | in an accepted text every character is a digit, the point, or a leading '-'; the text starts with a digit or '-' then a digit, and ends with a digit; a point is followed by 1 to 6 digits and nothing else |
| Validators.Value | assets/js/validators.js:32 | the number read from a numeral has the numeral's sign: never positive for a numeral with a minus sign, never negative otherwise |
| Validators.ParseFloat | assets/js/validators.js:32-35 | on a text that reaches it, `parseFloat` gives a number (not NaN) exactly when the text is the rendering of some well-formed numeral, and that number is the value of the numeral the text spells |
| Validators.ParseRender | assets/js/validators.js:32-35 | reading back the text of any well-formed numeral gives exactly that numeral's value |
| Validators.ValueOnGrid | assets/js/validators.js:32 | the number `parseFloat` reads from an accepted text has at most as many decimals as the text has digits after the point |
| Validators.ValidateTemperatureInput | assets/js/validators.js:11-63 | `isValid` holds exactly when `error` is empty, and exactly when the text matches the pattern and its value lies in [-273.15, 6000]. A blank text gets the empty-input message; a non-blank text that does not match gets the format message; a value below -273.15 gets the absolute-zero message, checked before the too-high message. The not-a-number message is never returned |
| Validators.ValidateNumeral | assets/js/validators.js:42-62 | for the text of any well-formed numeral, acceptance depends only on its value: accepted exactly when -273.15 <= v <= 6000, otherwise the below-absolute-zero or too-high message |
| Validators.SixDecimalsAccepted | assets/js/validators.js:21-22 | "100.123456" is the rendering of a well-formed numeral whose value is in range |
| Validators.ValidateAccepts23 | assets/js/validators.js:21 | "23" is valid |
| Validators.ValidateAcceptsMinus40 | assets/js/validators.js:21 | "-40" is valid |
| Validators.ValidateAccepts25Point5 | assets/js/validators.js:21 | "25.5" is valid |
| Validators.ValidateAcceptsAbsoluteZero | assets/js/validators.js:42-48 | "-273.15" is valid: the lower limit is inclusive |
| Validators.ValidateAcceptsSixDecimals | assets/js/validators.js:21-22 | "100.123456" is valid |
| Validators.ValidateAcceptsMaximum | assets/js/validators.js:50-56 | "6000" is valid: the upper limit is inclusive |
| Validators.ValidateRejectsMinus300 | assets/js/validators.js:42-48 | "-300" gets the absolute-zero message |
| Validators.ValidateRejectsJustBelowAbsoluteZero | assets/js/validators.js:42-48 | "-273.16" gets the absolute-zero message |
| Validators.ValidateRejects7000 | assets/js/validators.js:50-56 | "7000" gets the too-high message |
| Validators.ValidateRejectsBlank | assets/js/validators.js:13-18 | "" and " \t " get the empty-input message |
| Validators.ValidateRejectsForeign | assets/js/validators.js:20-29 | "abc", "+5" and " 5" get the format message |
| Validators.ValidateRejectsExponent | assets/js/validators.js:20-29 | "1e3", which `parseFloat` would read, gets the format message |
| Validators.ValidateRejectsMisplacedPoint | assets/js/validators.js:20-29 | "5.", ".5" and "23.1234567" get the format message |
| Validators.ColorBand | assets/js/validators.js:70-82 | the band index counts how many of the thresholds 0, 15, 25 and 35 lie at or below the temperature, so it is one of five bands |
| Validators.TemperatureColor | assets/js/validators.js:70-82 | the colour returned is the palette entry of the temperature's band |
| Validators.ColorBands | assets/js/validators.js:70-82 | band 0 iff below 0; band 1 iff in [0,15); band 2 iff in [15,25); band 3 iff in [25,35); band 4 iff at least 35 |
| Validators.ColorBandMonotone | assets/js/validators.js:70-82 | a warmer temperature never gets a colder band |
| Validators.PaletteDistinct | assets/js/validators.js:71-81 | the five bands have five different colours |
| Validators.ScaleRange | assets/js/validators.js:94-109 | a scale has a gauge exactly when it is 'celsius', 'fahrenheit' or 'kelvin', and every gauge's minimum is below its maximum |
| Validators.ThermometerFill | assets/js/validators.js:91-117 | the fill lies in [0,100]; it is 0 for an unknown scale, 0 at or below the gauge minimum and 100 at or above the maximum; in between it is the linear share of the gauge |
| Validators.FillMonotone | assets/js/validators.js:111-115 | the fill never decreases as the temperature rises |
| Converters.CelsiusToFahrenheit | assets/js/converters.js:12-14 | (F - 32) * 5/9 gives back the Celsius value |
| Converters.CelsiusToKelvin | assets/js/converters.js:22-24 | the Kelvin value is non-negative exactly from -273.15 °C upwards, and subtracting 273.15 gives back the Celsius value |
| Converters.FahrenheitInvertible | assets/js/converters.js:12-14 | Celsius to Fahrenheit preserves strict order in both directions, and (F - 32) * 5/9 recovers the Celsius value |
| Converters.KelvinNonNegativeIff | assets/js/converters.js:22-24 | the Kelvin value is non-negative exactly from -273.15 °C upwards, and -273.15 °C is 0 K |
| Converters.ToFixed | assets/js/converters.js:38-40 | below 10^21 in magnitude, the result is a multiple of 10^-d nearest to x, with ties going away from zero; from 10^21 on it is x itself; the sign of x is kept |
| Converters.NearestTiesAwayUnique | assets/js/converters.js:38-40 | at most one value satisfies the rounding rule, so the rule defines the result |
| Converters.ToFixedOnGrid | assets/js/converters.js:26-40 | a value that already has at most d decimals is left unchanged |
| Converters.ToFixedIdempotent | assets/js/converters.js:38-40 | rounding twice to d decimals is rounding once |
| Converters.ToFixedOdd | assets/js/converters.js:38-40 | rounding -x gives the negation of rounding x |
| Converters.ConvertTemperature | assets/js/converters.js:33-41 | each of the three fields is the independent toFixed rounding, to the same number of decimals, of the exact Celsius, Fahrenheit and Kelvin values; the count defaults to 2 |
| Converters.ConvertExamples | assets/js/main.js:197-207 | 45 °C at 2 decimals is (45, 113, 318.15), and 14 °C with the default count is (14, 57.2, 287.15) |
| Converters.Split | assets/js/converters.js:56 | splitting on '.' gives at least one field, no field contains '.', and joining the fields with '.' gives back the text |
| Converters.GetDecimalPlaces | assets/js/converters.js:49-60 | the count never exceeds the text's length, and is shorter than the text when it has a point |
| Converters.DecimalPlacesCount | assets/js/converters.js:49-60 | the count is 0 when there is no '.', and otherwise the length of the segment between the first '.' and the next '.' or the end |
| Converters.DecimalPlacesExamples | assets/js/converters.js:49-60 | "25.50" has 2 decimals; "25" and "25." have 0 |
| App.RenderDecimalPlaces | assets/js/converters.js:49-60 | the count for the rendering of a well-formed numeral is its number of fractional digits |
| App.AcceptedDecimalPlaces | assets/js/converters.js:49-60 | for every text the pattern accepts, the count is the number of digits after the point, at most 6 |
| App.KeepsInputDecimals | assets/js/converters.js:26-40 | rounding an input's value to the input's own number of decimals returns that value |
| App.AcceptedKelvinNonNegative | assets/js/converters.js:22-24 | for every accepted temperature, the rounded Kelvin reading is non-negative |
| App.HandleSubmit | assets/js/main.js:58-84 | the trimmed text is rejected exactly when validation fails, with the validation's non-empty message. Otherwise the Celsius reading equals the typed value exactly; it lies in range; Kelvin is non-negative; Fahrenheit and Kelvin are rounded to the typed number of decimals |
| App.SubmitIgnoresPadding | assets/js/main.js:58-63 | surrounding whitespace never changes the outcome of a submission |
| App.GaugeRangesAreConverted | assets/js/validators.js:95-106 | the Fahrenheit and Kelvin gauge ends are -50 °C and 150 °C converted |
| App.FillAgreesAcrossScales | assets/js/validators.js:91-117 | on exact values, the Celsius, Fahrenheit and Kelvin gauges of one temperature fill to the same height |

## Left out

- IEEE-754 doubles are not modelled; all arithmetic is exact. This covers:
  - the binary approximation in `parseFloat`;
  - `toFixed` acting on the binary value, so that a decimal tie such as x.xx5 may not be a tie in binary. This touches every input typed with one decimal: its exact Kelvin value, one decimal plus 273.15, always ends in 5 in the hundredths place, so the tie rule alone decides the Kelvin reading. For "25.5" the model reads 298.7, while the binary sum of 25.5 and 273.15 lies just below 298.65 (about 298.64999999999997726), which `toFixed(1)` would show as 298.6;
  - the re-parse done by `Number(...)`.
- Validators.ThermometerFill and Validators.TemperatureColor take exact reals: NaN and ±Infinity are not modelled. On NaN the source breaks the [0, 100] bound: `Math.max(0, Math.min(100, NaN))` is NaN (assets/js/validators.js:112-115). `getTemperatureColor(NaN)` fails every comparison and falls through to '#ef4444' (assets/js/validators.js:71-80). `toFixed` of a non-finite value returns "Infinity" or "NaN" (assets/js/converters.js:38-40). `handleSubmit` never passes such values: a text that matches the pattern parses to a finite number or to ±Infinity, and the range checks at assets/js/validators.js:43 and 51 reject ±Infinity.
- `parseFloat` is modelled only on texts that match the pattern, the only ones that reach it. `ParseFloat` returns `None` (NaN) on any other text. The prefix parsing `parseFloat` does on arbitrary text is not modelled.
- Validators.ValidateTemperatureInput takes a string. The `!input` test for a `null` or `undefined` argument is modelled only for the empty string.
- Converters.ToFixed requires at most 100 decimals, where JavaScript throws a RangeError instead.
- Converters.ToFixed returns x itself from 10^21 in magnitude on. This stands for the exponential text that `toFixed` produces there, which `Number(...)` reads back.
- Converters.GetDecimalPlaces counts Unicode characters, where `length` counts UTF-16 code units. Converters.Split likewise splits a sequence of characters, and a `char` cannot hold a lone surrogate. So on a text with characters outside the Basic Multilingual Plane after the point (for example "1." followed by an emoji), JavaScript's count is larger. The two agree on every text the widget passes, because accepted numerals are ASCII.
- `String.prototype.trim` uses the ECMAScript WhiteSpace and LineTerminator characters, listed explicitly. The Unicode "Zs" category is written out as the characters it held when the model was written.
- App.FillAgreesAcrossScales is stated on exact converted values. The widget fills its gauges from the rounded readings, which can differ slightly.
- Everything in `assets/js/main.js` other than the order of steps in `handleSubmit` is DOM plumbing and is not modelled. That includes element lookups, event listeners, `showError`, `displayResults`, `animateThermometers`, timers and console logging. The worked values of `runTests` are stated as Converters.ConvertExamples.
