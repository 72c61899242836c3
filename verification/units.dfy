/**
 The temperature scales offered by the converter, their display symbols and
 the pairwise conversion between them. Values are exact reals: the model
 says what the affine formulas mean, not how binary doubles round them.
 */
module Units {

  /** The closed set of scales a selector can offer. */
  datatype Unit = Celsius | Fahrenheit | Kelvin

  /** Display symbol of each scale, as shown in the result line. */
  function Symbol(u: Unit): string {
    match u
    case Celsius => "°C"
    case Fahrenheit => "°F"
    case Kelvin => "K"
  }

  /** The offset between the Celsius and Kelvin zero points. */
  const KelvinOffset: real := 273.15

  /** Kelvin reading of a temperature given on scale `u`; the reference
      against which the pairwise formulas are checked. */
  function ToKelvin(x: real, u: Unit): real {
    match u
    case Celsius => x + KelvinOffset
    case Fahrenheit => (x - 32.0) * 5.0 / 9.0 + KelvinOffset
    case Kelvin => x
  }

  /** Reading on scale `u` of a temperature given in Kelvin. */
  function FromKelvin(k: real, u: Unit): real {
    match u
    case Celsius => k - KelvinOffset
    case Fahrenheit => (k - KelvinOffset) * 9.0 / 5.0 + 32.0
    case Kelvin => k
  }

  /** Size of one degree of scale `u`, measured in kelvin. */
  function DegreeSize(u: Unit): (r: real)
    ensures r > 0.0
  {
    if u == Fahrenheit then 5.0 / 9.0 else 1.0
  }

  /** The pairwise conversion, branch for branch as the component writes it:
      the identity first, then one formula per ordered pair of distinct
      scales. The closing fallback is unreachable because `Unit` is closed,
      which the `assert false` there makes the verifier confirm. */
  function Convert(temp: real, from: Unit, to: Unit): (r: real)
    ensures from == to ==> r == temp
    ensures r == FromKelvin(ToKelvin(temp, from), to)
  {
    if from == to then temp
    else if from.Celsius? && to.Fahrenheit? then temp * 9.0 / 5.0 + 32.0
    else if from.Celsius? && to.Kelvin? then temp + 273.15
    else if from.Fahrenheit? && to.Celsius? then (temp - 32.0) * 5.0 / 9.0
    else if from.Fahrenheit? && to.Kelvin? then (temp - 32.0) * 5.0 / 9.0 + 273.15
    else if from.Kelvin? && to.Celsius? then temp - 273.15
    else if from.Kelvin? && to.Fahrenheit? then (temp - 273.15) * 9.0 / 5.0 + 32.0
    else assert false; temp
  }

  /** Reading a Kelvin value back on a scale and converting it to Kelvin
      again loses nothing. */
  lemma KelvinRoundTrip(k: real, u: Unit)
    ensures ToKelvin(FromKelvin(k, u), u) == k
  {
  }

  /** Converting to any scale and back returns the starting value exactly. */
  lemma RoundTrip(x: real, a: Unit, b: Unit)
    ensures Convert(Convert(x, a, b), b, a) == x
  {
    KelvinRoundTrip(ToKelvin(x, a), b);
  }

  /** Converting in two hops agrees with converting directly. */
  lemma Compose(x: real, a: Unit, b: Unit, c: Unit)
    ensures Convert(Convert(x, a, b), b, c) == Convert(x, a, c)
  {
    KelvinRoundTrip(ToKelvin(x, a), b);
  }

  /** Fahrenheit to Kelvin is Fahrenheit to Celsius followed by Celsius to
      Kelvin, and Kelvin to Fahrenheit is Kelvin to Celsius followed by
      Celsius to Fahrenheit. */
  lemma ViaCelsius(x: real)
    ensures Convert(x, Fahrenheit, Kelvin) == Convert(Convert(x, Fahrenheit, Celsius), Celsius, Kelvin)
    ensures Convert(x, Kelvin, Fahrenheit) == Convert(Convert(x, Kelvin, Celsius), Celsius, Fahrenheit)
  {
    Compose(x, Fahrenheit, Celsius, Kelvin);
    Compose(x, Kelvin, Celsius, Fahrenheit);
  }

  /** Every conversion is affine: a difference of `d` degrees on the source
      scale becomes `d` times the ratio of the degree sizes on the target. */
  lemma Affine(x: real, d: real, a: Unit, b: Unit)
    ensures Convert(x + d, a, b) == Convert(x, a, b) + d * DegreeSize(a) / DegreeSize(b)
  {
  }

  /** Each ordered pair of distinct scales follows its textbook formula,
      written here with the factor 1.8 for nine fifths. */
  lemma PairFormulas(x: real)
    ensures Convert(x, Celsius, Fahrenheit) == 1.8 * x + 32.0
    ensures Convert(x, Celsius, Kelvin) == x + 273.15
    ensures Convert(x, Fahrenheit, Celsius) == (x - 32.0) / 1.8
    ensures Convert(x, Fahrenheit, Kelvin) == (x - 32.0) / 1.8 + 273.15
    ensures Convert(x, Kelvin, Celsius) == x - 273.15
    ensures Convert(x, Kelvin, Fahrenheit) == 1.8 * (x - 273.15) + 32.0
  {
  }

  /** Fixed points of the physical scales, each read on the other scales. */
  lemma Anchors()
    ensures Convert(0.0, Celsius, Fahrenheit) == 32.0
    ensures Convert(100.0, Celsius, Fahrenheit) == 212.0
    ensures Convert(0.0, Celsius, Kelvin) == 273.15
    ensures Convert(-40.0, Celsius, Kelvin) == 233.15
    ensures Convert(32.0, Fahrenheit, Celsius) == 0.0
    ensures Convert(-40.0, Celsius, Fahrenheit) == -40.0
    ensures Convert(0.0, Kelvin, Celsius) == -273.15
  {
  }

  /** The three symbols are pairwise distinct, so a result line names its
      scales unambiguously. */
  lemma SymbolsDistinct(a: Unit, b: Unit)
    ensures Symbol(a) == Symbol(b) <==> a == b
  {
    if a != b {
      assert Symbol(a)[|Symbol(a)| - 1] != Symbol(b)[|Symbol(b)| - 1];
    }
  }
}
