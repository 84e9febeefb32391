/** The unit converter: temperature through degrees Celsius, length through
    a per-unit factor to meters, currency through a fixed table of directed
    rates. Units are the integer codes of the C++ enumerations, since the
    interactive front end casts whatever integer the user types; a code
    outside an enumeration takes the fallback branches. Values are exact
    reals. */
module Converter {
  import opened Wrappers

  newtype TemperatureUnit = int
  const Celsius: TemperatureUnit := 0
  const Fahrenheit: TemperatureUnit := 1
  const Kelvin: TemperatureUnit := 2

  newtype LengthUnit = int
  const Meters: LengthUnit := 0
  const Kilometers: LengthUnit := 1
  const Miles: LengthUnit := 2
  const Centimeters: LengthUnit := 3
  const Millimeters: LengthUnit := 4
  const Feet: LengthUnit := 5
  const Inches: LengthUnit := 6
  const Yards: LengthUnit := 7
  const NauticalMiles: LengthUnit := 8

  newtype Currency = int
  const USD: Currency := 0
  const EUR: Currency := 1
  const RUB: Currency := 2

  // ----- Temperature -----

  /** A temperature in unit u expressed in degrees Celsius; any code other
      than Fahrenheit and Kelvin is read as Celsius. */
  function ToCelsius(value: real, u: TemperatureUnit): real
  {
    if u == Fahrenheit then (value - 32.0) * 5.0 / 9.0
    else if u == Kelvin then value - 273.15
    else value
  }

  /** A temperature in degrees Celsius expressed in unit u; any code other
      than Fahrenheit and Kelvin is read as Celsius. */
  function FromCelsius(c: real, u: TemperatureUnit): real
  {
    if u == Fahrenheit then c * 9.0 / 5.0 + 32.0
    else if u == Kelvin then c + 273.15
    else c
  }

  lemma CelsiusInverse(value: real, c: real, u: TemperatureUnit)
    ensures ToCelsius(FromCelsius(c, u), u) == c
    ensures FromCelsius(ToCelsius(value, u), u) == value
  {
  }

  /** The value unchanged for equal units, otherwise the reading in `to` of
      the same Celsius temperature. */
  function ConvertTemperature(value: real, from: TemperatureUnit, to: TemperatureUnit): (r: real)
    ensures from == to ==> r == value
    ensures ToCelsius(r, to) == ToCelsius(value, from)
  {
    if from == to then value
    else
      var celsius :=
        if from == Fahrenheit then (value - 32.0) * 5.0 / 9.0
        else if from == Kelvin then value - 273.15
        else value;
      if to == Fahrenheit then celsius * 9.0 / 5.0 + 32.0
      else if to == Kelvin then celsius + 273.15
      else celsius
  }

  /** Converting through Celsius is the same as converting directly, even
      between equal units. */
  lemma TemperatureThroughCelsius(value: real, from: TemperatureUnit, to: TemperatureUnit)
    ensures ConvertTemperature(value, from, to) == FromCelsius(ToCelsius(value, from), to)
  {
    CelsiusInverse(value, ConvertTemperature(value, from, to), to);
  }

  /** Converting there and back gives the original temperature. */
  lemma TemperatureRoundTrip(value: real, a: TemperatureUnit, b: TemperatureUnit)
    ensures ConvertTemperature(ConvertTemperature(value, a, b), b, a) == value
  {
    TemperatureThroughCelsius(value, a, b);
    TemperatureThroughCelsius(ConvertTemperature(value, a, b), b, a);
  }

  /** Two conversions in a row equal the direct one. */
  lemma TemperatureCompose(value: real, a: TemperatureUnit, b: TemperatureUnit, c: TemperatureUnit)
    ensures ConvertTemperature(ConvertTemperature(value, a, b), b, c) == ConvertTemperature(value, a, c)
  {
    TemperatureThroughCelsius(value, a, b);
    TemperatureThroughCelsius(ConvertTemperature(value, a, b), b, c);
    TemperatureThroughCelsius(value, a, c);
  }

  /** Fixed points of the scales: water boils at 212 F = 100 C = 373.15 K
      and the Celsius and Fahrenheit scales cross at -40. */
  lemma TemperatureLandmarks()
    ensures ConvertTemperature(212.0, Fahrenheit, Celsius) == 100.0
    ensures ConvertTemperature(100.0, Celsius, Kelvin) == 373.15
    ensures ConvertTemperature(-40.0, Celsius, Fahrenheit) == -40.0
    ensures ConvertTemperature(0.0, Kelvin, Celsius) == -273.15
  {
  }

  // ----- Length -----

  predicate IsLengthUnit(u: LengthUnit)
  {
    Meters <= u <= NauticalMiles
  }

  /** How many meters one unit u is; 0.0 for a code outside the
      enumeration. */
  function FactorToMeters(u: LengthUnit): (f: real)
    ensures f > 0.0 <==> IsLengthUnit(u)
    ensures !IsLengthUnit(u) ==> f == 0.0
  {
    if u == Meters then 1.0
    else if u == Kilometers then 1000.0
    else if u == Miles then 1609.344
    else if u == Centimeters then 0.01
    else if u == Millimeters then 0.001
    else if u == Feet then 0.3048
    else if u == Inches then 0.0254
    else if u == Yards then 0.9144
    else if u == NauticalMiles then 1852.0
    else 0.0
  }

  /** The value unchanged for equal units; 0.0 when either unit is not in
      the enumeration; otherwise the same length measured in `to`. */
  function ConvertLength(value: real, from: LengthUnit, to: LengthUnit): (r: real)
    ensures from == to ==> r == value
    ensures from != to && !(IsLengthUnit(from) && IsLengthUnit(to)) ==> r == 0.0
    ensures from != to && IsLengthUnit(from) && IsLengthUnit(to) ==>
      r * FactorToMeters(to) == value * FactorToMeters(from)
  {
    if from == to then value
    else
      var fFrom := FactorToMeters(from);
      var fTo := FactorToMeters(to);
      if fFrom <= 0.0 || fTo <= 0.0 then 0.0
      else value * fFrom / fTo
  }

  /** Length conversion is linear in the value. */
  lemma LengthLinear(k: real, value: real, from: LengthUnit, to: LengthUnit)
    ensures ConvertLength(k * value, from, to) == k * ConvertLength(value, from, to)
  {
    if from != to && IsLengthUnit(from) && IsLengthUnit(to) {
      var fFrom, fTo := FactorToMeters(from), FactorToMeters(to);
      assert k * value * fFrom / fTo == k * (value * fFrom / fTo);
    }
  }

  /** For units of the enumeration, equal units included, the converted
      length times its factor is the original length times its factor. */
  lemma LengthScaled(value: real, a: LengthUnit, b: LengthUnit)
    requires IsLengthUnit(a) && IsLengthUnit(b)
    ensures ConvertLength(value, a, b) * FactorToMeters(b) == value * FactorToMeters(a)
  {
  }

  lemma CancelFactor(x: real, y: real, f: real)
    requires f > 0.0 && x * f == y * f
    ensures x == y
  {
    assert (x - y) * f == 0.0;
  }

  /** Between units of the enumeration, converting there and back gives the
      original length. */
  lemma LengthRoundTrip(value: real, a: LengthUnit, b: LengthUnit)
    requires IsLengthUnit(a) && IsLengthUnit(b)
    ensures ConvertLength(ConvertLength(value, a, b), b, a) == value
  {
    var there := ConvertLength(value, a, b);
    LengthScaled(value, a, b);
    LengthScaled(there, b, a);
    CancelFactor(ConvertLength(there, b, a), value, FactorToMeters(a));
  }

  /** Between units of the enumeration, two conversions in a row equal the
      direct one. */
  lemma LengthCompose(value: real, a: LengthUnit, b: LengthUnit, c: LengthUnit)
    requires IsLengthUnit(a) && IsLengthUnit(b) && IsLengthUnit(c)
    ensures ConvertLength(ConvertLength(value, a, b), b, c) == ConvertLength(value, a, c)
  {
    var ab := ConvertLength(value, a, b);
    LengthScaled(value, a, b);
    LengthScaled(ab, b, c);
    LengthScaled(value, a, c);
    CancelFactor(ConvertLength(ab, b, c), ConvertLength(value, a, c), FactorToMeters(c));
  }

  /** One mile is 1.609344 kilometers and one yard is three feet. */
  lemma LengthLandmarks()
    ensures ConvertLength(1.0, Miles, Kilometers) == 1.609344
    ensures ConvertLength(1.0, Yards, Feet) == 3.0
  {
  }

  // ----- Currency -----

  /** The directed rate table: how many units of `to` one unit of `from`
      buys. Pairs outside the table have no rate. */
  function Rate(from: Currency, to: Currency): (r: Option<real>)
    ensures r.Some? ==> r.value > 0.0
  {
    if from == USD && to == RUB then Some(90.0)
    else if from == RUB && to == USD then Some(1.0 / 90.0)
    else if from == EUR && to == RUB then Some(100.0)
    else if from == RUB && to == EUR then Some(1.0 / 100.0)
    else if from == EUR && to == USD then Some(1.1)
    else if from == USD && to == EUR then Some(1.0 / 1.1)
    else None
  }

  predicate IsCurrency(c: Currency)
  {
    USD <= c <= RUB
  }

  /** The table holds every ordered pair of distinct currencies of the
      enumeration and nothing else. */
  lemma RateTableComplete(from: Currency, to: Currency)
    ensures Rate(from, to).Some? <==> IsCurrency(from) && IsCurrency(to) && from != to
  {
  }

  /** Every rate is the reciprocal of the reverse rate. */
  lemma RateReciprocal(from: Currency, to: Currency)
    requires Rate(from, to).Some?
    ensures Rate(to, from).Some? && Rate(from, to).value * Rate(to, from).value == 1.0
  {
  }

  /** The value unchanged for equal currencies, value times the rate for a
      pair in the table, 0.0 for any other pair. */
  function ConvertCurrency(value: real, from: Currency, to: Currency): (r: real)
    ensures from == to ==> r == value
    ensures from != to && Rate(from, to).Some? ==> r == value * Rate(from, to).value
    ensures from != to && Rate(from, to).None? ==> r == 0.0
  {
    if from == to then value
    else match Rate(from, to)
      case Some(rate) => value * rate
      case None => 0.0
  }

  /** Exchanging there and back between currencies of the enumeration gives
      the original amount. */
  lemma CurrencyRoundTrip(value: real, a: Currency, b: Currency)
    requires IsCurrency(a) && IsCurrency(b)
    ensures ConvertCurrency(ConvertCurrency(value, a, b), b, a) == value
  {
    if a != b {
      RateTableComplete(a, b);
      RateReciprocal(a, b);
      var r, s := Rate(a, b).value, Rate(b, a).value;
      assert value * r * s == value * (r * s);
    }
  }

  /** The table is not transitive: euros to rubles directly pays 100 per
      euro, through dollars only 99. */
  lemma CurrencyNotTransitive(value: real)
    requires value != 0.0
    ensures ConvertCurrency(value, EUR, RUB) == 100.0 * value
    ensures ConvertCurrency(ConvertCurrency(value, EUR, USD), USD, RUB) == 99.0 * value
    ensures ConvertCurrency(ConvertCurrency(value, EUR, USD), USD, RUB) != ConvertCurrency(value, EUR, RUB)
  {
  }
}
