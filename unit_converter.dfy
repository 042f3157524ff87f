/**
 The unit converter page: a static table of scale factors per category, the
 conversion through a base unit (through Celsius for temperature), the
 regular expression that trims the six-decimal display, and the page state
 with its transitions.

 Numbers are reals, so every identity below holds exactly. `Number()` with its
 `isNaN` test and `toFixed(6)` are parameters of the input handler.
 */
module UnitConversion {

  import opened Wrappers
  import opened Sequences

  /** A category: its display name, its base unit, its unit names in table order, and their scale factors. */
  datatype ConversionCategory = ConversionCategory(
    name: string,
    baseUnit: string,
    unitKeys: seq<string>,
    units: map<string, real>)

  const Length := ConversionCategory("Length", "meters",
    ["millimeters", "centimeters", "meters", "kilometers", "inches", "feet", "yards", "miles"],
    map[
      "millimeters" := 0.001, "centimeters" := 0.01, "meters" := 1.0, "kilometers" := 1000.0,
      "inches" := 0.0254, "feet" := 0.3048, "yards" := 0.9144, "miles" := 1609.344])

  const Weight := ConversionCategory("Weight", "grams",
    ["milligrams", "grams", "kilograms", "ounces", "pounds", "stones", "tons"],
    map[
      "milligrams" := 0.001, "grams" := 1.0, "kilograms" := 1000.0, "ounces" := 28.3495,
      "pounds" := 453.592, "stones" := 6350.29, "tons" := 1000000.0])

  /** The factors here are placeholders: temperature never reads them. */
  const Temperature := ConversionCategory("Temperature", "celsius",
    ["celsius", "fahrenheit", "kelvin"],
    map["celsius" := 1.0, "fahrenheit" := 1.0, "kelvin" := 1.0])

  const Volume := ConversionCategory("Volume", "liters",
    ["milliliters", "liters", "cubic meters", "fluid ounces", "cups", "pints", "quarts", "gallons"],
    map[
      "milliliters" := 0.001, "liters" := 1.0, "cubic meters" := 1000.0, "fluid ounces" := 0.0295735,
      "cups" := 0.236588, "pints" := 0.473176, "quarts" := 0.946353, "gallons" := 3.78541])

  const Area := ConversionCategory("Area", "square meters",
    ["square millimeters", "square centimeters", "square meters", "square kilometers", "square inches",
     "square feet", "square yards", "square miles", "acres", "hectares"],
    map[
      "square millimeters" := 0.000001, "square centimeters" := 0.0001, "square meters" := 1.0,
      "square kilometers" := 1000000.0, "square inches" := 0.00064516, "square feet" := 0.092903,
      "square yards" := 0.836127, "square miles" := 2589988.11, "acres" := 4046.86, "hectares" := 10000.0])

  /** `conversions`, keyed by category. */
  const Conversions: map<string, ConversionCategory> := map[
    "length" := Length, "weight" := Weight, "temperature" := Temperature,
    "volume" := Volume, "area" := Area]

  /**
   The key order lists every unit of the category exactly once (it is
   `Object.keys(units)`), there are at least three and none is empty, every
   factor is positive, and the base unit has factor 1.
   */
  predicate WellFormed(c: ConversionCategory)
  {
    && |c.unitKeys| >= 3
    && (forall k :: 0 <= k < |c.unitKeys| ==> c.unitKeys[k] in c.units && c.unitKeys[k] != "")
    && (forall u :: u in c.units ==> u in c.unitKeys)
    && (forall i, j :: 0 <= i < j < |c.unitKeys| ==> c.unitKeys[i] != c.unitKeys[j])
    && (forall u :: u in c.units ==> c.units[u] > 0.0)
    && c.baseUnit in c.units && c.units[c.baseUnit] == 1.0
  }

  lemma LengthWellFormed() ensures WellFormed(Length)
  {
    LengthFactors();
    LengthKeysCover();
    LengthKeysDistinct();
  }

  lemma LengthFactors()
    ensures forall u :: u in Length.units ==> Length.units[u] > 0.0
    ensures forall k :: 0 <= k < |Length.unitKeys| ==> Length.unitKeys[k] in Length.units && Length.unitKeys[k] != ""
  {
  }

  lemma LengthKeysCover()
    ensures forall u :: u in Length.units ==> u in Length.unitKeys
  {
  }

  lemma LengthKeysDistinct()
    ensures forall i, j :: 0 <= i < j < |Length.unitKeys| ==> Length.unitKeys[i] != Length.unitKeys[j]
  {
    DistinctByRows(Length.unitKeys);
  }

  lemma WeightWellFormed() ensures WellFormed(Weight)
  {
    WeightFactors();
    WeightKeysCover();
    WeightKeysDistinct();
  }

  lemma WeightFactors()
    ensures forall u :: u in Weight.units ==> Weight.units[u] > 0.0
    ensures forall k :: 0 <= k < |Weight.unitKeys| ==> Weight.unitKeys[k] in Weight.units && Weight.unitKeys[k] != ""
  {
  }

  lemma WeightKeysCover()
    ensures forall u :: u in Weight.units ==> u in Weight.unitKeys
  {
  }

  lemma WeightKeysDistinct()
    ensures forall i, j :: 0 <= i < j < |Weight.unitKeys| ==> Weight.unitKeys[i] != Weight.unitKeys[j]
  {
    DistinctByRows(Weight.unitKeys);
  }

  lemma TemperatureWellFormed() ensures WellFormed(Temperature)
  {
    TemperatureFactors();
    TemperatureKeysCover();
    TemperatureKeysDistinct();
  }

  lemma TemperatureFactors()
    ensures forall u :: u in Temperature.units ==> Temperature.units[u] > 0.0
    ensures forall k :: 0 <= k < |Temperature.unitKeys| ==> Temperature.unitKeys[k] in Temperature.units && Temperature.unitKeys[k] != ""
  {
  }

  lemma TemperatureKeysCover()
    ensures forall u :: u in Temperature.units ==> u in Temperature.unitKeys
  {
  }

  lemma TemperatureKeysDistinct()
    ensures forall i, j :: 0 <= i < j < |Temperature.unitKeys| ==> Temperature.unitKeys[i] != Temperature.unitKeys[j]
  {
    DistinctByRows(Temperature.unitKeys);
  }

  lemma VolumeWellFormed() ensures WellFormed(Volume)
  {
    VolumeFactors();
    VolumeKeysCover();
    VolumeKeysDistinct();
  }

  lemma VolumeFactors()
    ensures forall u :: u in Volume.units ==> Volume.units[u] > 0.0
    ensures forall k :: 0 <= k < |Volume.unitKeys| ==> Volume.unitKeys[k] in Volume.units && Volume.unitKeys[k] != ""
  {
  }

  lemma VolumeKeysCover()
    ensures forall u :: u in Volume.units ==> u in Volume.unitKeys
  {
  }

  lemma VolumeKeysDistinct()
    ensures forall i, j :: 0 <= i < j < |Volume.unitKeys| ==> Volume.unitKeys[i] != Volume.unitKeys[j]
  {
    DistinctByRows(Volume.unitKeys);
  }

  lemma AreaWellFormed() ensures WellFormed(Area)
  {
    AreaFactors();
    AreaKeysCover();
    AreaKeysDistinct();
  }

  lemma AreaFactors()
    ensures forall u :: u in Area.units ==> Area.units[u] > 0.0
    ensures forall k :: 0 <= k < |Area.unitKeys| ==> Area.unitKeys[k] in Area.units && Area.unitKeys[k] != ""
  {
  }

  lemma AreaKeysCover()
    ensures forall u :: u in Area.units ==> u in Area.unitKeys
  {
  }

  lemma AreaKeysDistinct()
    ensures forall i, j :: 0 <= i < j < |Area.unitKeys| ==> Area.unitKeys[i] != Area.unitKeys[j]
  {
    DistinctByRows(Area.unitKeys);
  }

  /** Every key differs from the keys after it. */
  predicate DifferentFromLater(s: seq<string>, i: nat)
    requires i < |s|
  {
    forall j :: i < j < |s| ==> s[i] != s[j]
  }

  /** A sequence whose every element differs from the later ones has no duplicate. */
  lemma DistinctByRows(s: seq<string>)
    requires forall i :: 0 <= i < |s| ==> DifferentFromLater(s, i)
    ensures forall i, j :: 0 <= i < j < |s| ==> s[i] != s[j]
  {
    forall i, j | 0 <= i < j < |s| ensures s[i] != s[j] {
      assert DifferentFromLater(s, i);
    }
  }

  /** Every category of the page's table lists two different, non-empty units first. */
  lemma FirstTwoUnits(category: string)
    requires category in Conversions
    ensures var c := Conversions[category];
      && |c.unitKeys| >= 2 && c.unitKeys[0] in c.units && c.unitKeys[1] in c.units
      && c.unitKeys[0] != c.unitKeys[1] && c.unitKeys[1] != ""
  {
    TableWellFormed();
    var c := Conversions[category];
    assert WellFormed(c);
  }

  /** Every category of a table is well formed. */
  predicate WellFormedTable(table: map<string, ConversionCategory>)
  {
    forall name :: name in table ==> WellFormed(table[name])
  }

  lemma TableWellFormed()
    ensures WellFormedTable(Conversions)
  {
    forall name | name in Conversions
      ensures WellFormed(Conversions[name])
    {
      CategoryWellFormed(name);
    }
  }

  lemma CategoryWellFormed(name: string)
    requires name in Conversions
    ensures WellFormed(Conversions[name])
  {
    assert Conversions.Keys == {"length", "weight", "temperature", "volume", "area"};
    if name == "length" {
      assert Conversions[name] == Length;
      LengthWellFormed();
    } else if name == "weight" {
      assert Conversions[name] == Weight;
      WeightWellFormed();
    } else if name == "temperature" {
      assert Conversions[name] == Temperature;
      TemperatureWellFormed();
    } else if name == "volume" {
      assert Conversions[name] == Volume;
      VolumeWellFormed();
    } else {
      assert Conversions[name] == Area;
      AreaWellFormed();
    }
  }

  // ---------------------------------------------------------------------
  // Conversion

  /** Any temperature unit to Celsius; a unit that is neither Fahrenheit nor Kelvin counts as Celsius. */
  function ToCelsius(value: real, unit: string): real
  {
    if unit == "fahrenheit" then (value - 32.0) * 5.0 / 9.0
    else if unit == "kelvin" then value - 273.15
    else value
  }

  /** Celsius to any temperature unit, with the same default. */
  function FromCelsius(celsius: real, unit: string): real
  {
    if unit == "fahrenheit" then celsius * 9.0 / 5.0 + 32.0
    else if unit == "kelvin" then celsius + 273.15
    else celsius
  }

  /** The inputs on which a conversion with `table` is defined: no missing factor, no zero divisor. */
  predicate DefinedIn(table: map<string, ConversionCategory>, from: string, to: string, category: string)
  {
    || from == to
    || category == "temperature"
    || (&& category in table
        && from in table[category].units
        && to in table[category].units
        && table[category].units[to] != 0.0)
  }

  /**
   The reference conversion: identity for equal units, through Celsius for
   temperature, otherwise through the base unit, `value * s(from) / s(to)`.
   Either way the result measures the same quantity as the input: the same
   Celsius temperature, or the same amount of the base unit.
   */
  function ConvertIn(table: map<string, ConversionCategory>, value: real, from: string, to: string, category: string): (r: real)
    requires DefinedIn(table, from, to, category)
    ensures from == to ==> r == value
    ensures category == "temperature" ==> ToCelsius(r, to) == ToCelsius(value, from)
    ensures from != to && category != "temperature" ==>
      r * table[category].units[to] == value * table[category].units[from]
  {
    if from == to then value
    else if category == "temperature" then FromCelsius(ToCelsius(value, from), to)
    else
      var sf, st := table[category].units[from], table[category].units[to];
      assert value * sf / st * st == value * sf;
      value * sf / st
  }

  /** `convertTemperature`: the value is brought to Celsius step by step, then to the target unit. */
  method ConvertTemperature(value: real, from: string, to: string) returns (r: real)
    ensures from == to ==> r == value
    ensures from != to ==> r == FromCelsius(ToCelsius(value, from), to)
  {
    if from == to {
      return value;
    }
    var celsius := value;
    if from == "fahrenheit" {
      celsius := (value - 32.0) * 5.0 / 9.0;
    }
    if from == "kelvin" {
      celsius := value - 273.15;
    }
    if to == "fahrenheit" {
      return celsius * 9.0 / 5.0 + 32.0;
    }
    if to == "kelvin" {
      return celsius + 273.15;
    }
    return celsius;
  }

  /** `convertUnits`; the table it reads is passed in, and the page passes `conversions`. */
  method ConvertUnits(table: map<string, ConversionCategory>, value: real, from: string, to: string, category: string) returns (r: real)
    requires DefinedIn(table, from, to, category)
    ensures r == ConvertIn(table, value, from, to, category)
  {
    if from == to {
      return value;
    }
    if category == "temperature" {
      r := ConvertTemperature(value, from, to);
      return;
    }
    var categoryData := table[category];
    var baseValue := value * categoryData.units[from];
    return baseValue / categoryData.units[to];
  }

  /** Converting a unit to itself returns the value, in every category and with every table. */
  lemma ConvertIdentity(table: map<string, ConversionCategory>, value: real, unit: string, category: string)
    ensures ConvertIn(table, value, unit, unit, category) == value
  {
  }

  /** The temperature path reads no scale factor: any two tables give the same temperature result. */
  lemma TemperatureIgnoresTable(t1: map<string, ConversionCategory>, t2: map<string, ConversionCategory>,
                                value: real, from: string, to: string)
    ensures ConvertIn(t1, value, from, to, "temperature") == ConvertIn(t2, value, from, to, "temperature")
  {
  }

  /** Celsius is a two-sided inverse pair for every unit name. */
  lemma CelsiusInverse(value: real, unit: string)
    ensures ToCelsius(FromCelsius(value, unit), unit) == value
    ensures FromCelsius(ToCelsius(value, unit), unit) == value
  {
  }

  /** Temperature conversions go back and forth exactly, between any two unit names. */
  lemma TemperatureRoundTrip(table: map<string, ConversionCategory>, value: real, a: string, b: string)
    ensures ConvertIn(table, ConvertIn(table, value, a, b, "temperature"), b, a, "temperature") == value
  {
    CelsiusInverse(ToCelsius(value, a), b);
    CelsiusInverse(value, a);
  }

  /** Temperature conversions compose: a to b, then b to c, is a to c. */
  lemma TemperatureCompose(table: map<string, ConversionCategory>, value: real, a: string, b: string, c: string)
    ensures ConvertIn(table, ConvertIn(table, value, a, b, "temperature"), b, c, "temperature")
         == ConvertIn(table, value, a, c, "temperature")
  {
    CelsiusInverse(ToCelsius(value, a), b);
    CelsiusInverse(value, a);
  }

  /** For the other categories, converting a to b and back returns the value exactly. */
  lemma LinearRoundTrip(table: map<string, ConversionCategory>, value: real, a: string, b: string, category: string)
    requires WellFormedTable(table) && category in table && category != "temperature"
    requires a in table[category].units && b in table[category].units
    ensures DefinedIn(table, a, b, category) && DefinedIn(table, b, a, category)
    ensures ConvertIn(table, ConvertIn(table, value, a, b, category), b, a, category) == value
  {
    var sa, sb := table[category].units[a], table[category].units[b];
    assert sa > 0.0 && sb > 0.0;
    ScaleCancels(value, sa, sb);
  }

  lemma ScaleCancels(value: real, sa: real, sb: real)
    requires sa > 0.0 && sb > 0.0
    ensures value * sa / sb * sb / sa == value
  {
    assert value * sa / sb * sb == value * sa;
  }

  /** For the other categories, conversions compose through the base unit. */
  lemma LinearCompose(table: map<string, ConversionCategory>, value: real, a: string, b: string, c: string, category: string)
    requires WellFormedTable(table) && category in table && category != "temperature"
    requires a in table[category].units && b in table[category].units && c in table[category].units
    ensures DefinedIn(table, a, b, category) && DefinedIn(table, b, c, category)
    ensures DefinedIn(table, a, c, category)
    ensures ConvertIn(table, ConvertIn(table, value, a, b, category), b, c, category)
         == ConvertIn(table, value, a, c, category)
  {
    var sa, sb, sc := table[category].units[a], table[category].units[b], table[category].units[c];
    assert sa > 0.0 && sb > 0.0 && sc > 0.0;
    var x := ConvertIn(table, value, a, b, category);
    if a != b && b != c {
      assert x == value * sa / sb;
      if a == c {
        ScaleCancels(value, sa, sb);
      } else {
        ScalesCompose(value, sa, sb, sc);
      }
    }
  }

  lemma ScalesCompose(value: real, sa: real, sb: real, sc: real)
    requires sa > 0.0 && sb > 0.0 && sc > 0.0
    ensures value * sa / sb * sb / sc == value * sa / sc
  {
    assert value * sa / sb * sb == value * sa;
  }

  /** A factor is the size of its unit in base units: one unit converts to `s(unit)` base units. */
  lemma ScaleIsSizeInBaseUnits(table: map<string, ConversionCategory>, category: string, unit: string)
    requires WellFormedTable(table) && category in table && category != "temperature"
    requires unit in table[category].units
    ensures table[category].baseUnit in table[category].units
    ensures DefinedIn(table, unit, table[category].baseUnit, category)
    ensures ConvertIn(table, 1.0, unit, table[category].baseUnit, category) == table[category].units[unit]
  {
  }

  /** The fixed points of the temperature scales. */
  lemma TemperatureReferencePoints()
    ensures ConvertIn(Conversions, 0.0, "celsius", "fahrenheit", "temperature") == 32.0
    ensures ConvertIn(Conversions, 100.0, "celsius", "kelvin", "temperature") == 373.15
    ensures ConvertIn(Conversions, 32.0, "fahrenheit", "celsius", "temperature") == 0.0
    ensures ConvertIn(Conversions, 212.0, "fahrenheit", "celsius", "temperature") == 100.0
    ensures ConvertIn(Conversions, 0.0, "kelvin", "celsius", "temperature") == -273.15
  {
  }

  /** One metre in feet and one kilogram in pounds, exactly as the table's ratios. */
  lemma LinearReferencePoints()
    ensures ConvertIn(Conversions, 1.0, "meters", "feet", "length") == 1.0 / 0.3048
    ensures ConvertIn(Conversions, 1.0, "kilograms", "pounds", "weight") == 1000.0 / 453.592
    ensures ConvertIn(Conversions, 1.0, "miles", "kilometers", "length") == 1.609344
  {
    assert Conversions["length"] == Length && Conversions["weight"] == Weight;
  }

  // ---------------------------------------------------------------------
  // Display

  /** The number of '0' characters that end `s`. */
  function TrailingZeros(s: string): (n: nat)
    ensures n <= |s|
    ensures n < |s| ==> s[|s| - n - 1] != '0'
  {
    if s == [] || s[|s| - 1] != '0' then 0 else TrailingZeros(s[..|s| - 1]) + 1
  }

  /** What `TrailingZeros` counts are zeros. */
  lemma {:induction false} TrailingZerosAreZeros(s: string)
    ensures forall i :: |s| - TrailingZeros(s) <= i < |s| ==> s[i] == '0'
  {
    if s != [] && s[|s| - 1] == '0' {
      var init := s[..|s| - 1];
      TrailingZerosAreZeros(init);
      assert forall i :: 0 <= i < |init| ==> init[i] == s[i];
    }
  }

  predicate AllZeros(t: string)
  {
    forall i :: 0 <= i < |t| ==> t[i] == '0'
  }

  /** `t` is matched in full by the pattern `\.?0+`. */
  predicate ZerosTail(t: string)
  {
    || (|t| >= 1 && AllZeros(t))
    || (|t| >= 2 && t[0] == '.' && AllZeros(t[1..]))
  }

  /**
   Cutting `s` at `c` is what replacing the first match of `\.?0+$` by
   nothing does: from `c` on, the rest matches (or nothing is cut), and no
   match starts earlier.
   */
  predicate IsLeftmostMatchCut(s: string, c: nat)
  {
    && c <= |s|
    && (c < |s| ==> ZerosTail(s[c..]))
    && (forall p :: 0 <= p < c ==> !ZerosTail(s[p..]))
  }

  /**
   `s.replace(/\.?0+$/, '')`: the trailing zeros go, and with them a point
   they follow directly.
   */
  function StripTrailingZeros(s: string): (r: string)
    ensures |r| <= |s| && r == s[..|r|]
    ensures |r| < |s| <==> s != [] && s[|s| - 1] == '0'
  {
    var z := TrailingZeros(s);
    var q := |s| - z;
    if z == 0 then s else if q > 0 && s[q - 1] == '.' then s[..q - 1] else s[..q]
  }

  /** `StripTrailingZeros` cuts exactly where the regular expression's leftmost match begins. */
  lemma StripIsLeftmostMatch(s: string)
    ensures IsLeftmostMatchCut(s, |StripTrailingZeros(s)|)
  {
    TrailingZerosAreZeros(s);
    var z := TrailingZeros(s);
    var q := |s| - z;
    var r := StripTrailingZeros(s);
    if |r| < |s| {
      assert forall i :: 0 <= i < z ==> s[q..][i] == s[q + i];
      if q > 0 && s[q - 1] == '.' {
        assert s[q - 1..][1..] == s[q..];
      }
    }
    forall p | 0 <= p < |r| ensures !ZerosTail(s[p..]) {
      NoEarlierMatch(s, z, |r|, p);
    }
  }

  /** No match of `\.?0+$` can start before the cut `StripTrailingZeros` makes. */
  lemma NoEarlierMatch(s: string, z: nat, cut: nat, p: nat)
    requires z <= |s|
    requires forall i :: |s| - z <= i < |s| ==> s[i] == '0'
    requires z < |s| ==> s[|s| - z - 1] != '0'
    requires cut == (if z == 0 then |s| else if |s| - z > 0 && s[|s| - z - 1] == '.' then |s| - z - 1 else |s| - z)
    requires p < cut
    ensures !ZerosTail(s[p..])
  {
    var t := s[p..];
    var q := |s| - z;
    // A character of `t` that is not '0' spoils both alternatives of the pattern,
    // unless it is a '.' standing first.
    if z == 0 {
      var j := |t| - 1;
      assert t[j] == s[|s| - 1];
      if |t| >= 2 {
        assert t[1..][j - 1] == t[j];
      }
    } else {
      var j := q - 1 - p;
      assert t[j] == s[q - 1];
      if j >= 1 {
        assert t[1..][j - 1] == t[j];
      }
    }
  }

  /** Examples of the trim: trailing zeros go, and with them a point left bare. */
  lemma StripExamples()
    ensures StripTrailingZeros("3.000000") == "3"
    ensures StripTrailingZeros("3.140000") == "3.14"
    ensures StripTrailingZeros("10.000000") == "10"
    ensures StripTrailingZeros("0.500000") == "0.5"
    ensures StripTrailingZeros("2.5") == "2.5"
  {
    TrailingZerosOf("3.000000", 6);
    TrailingZerosOf("3.140000", 4);
    TrailingZerosOf("10.000000", 6);
    TrailingZerosOf("0.500000", 5);
  }

  /** The contract of `TrailingZeros` admits one value only. */
  lemma {:induction false} TrailingZerosOf(s: string, n: nat)
    requires n <= |s|
    requires forall i :: |s| - n <= i < |s| ==> s[i] == '0'
    requires n < |s| ==> s[|s| - n - 1] != '0'
    ensures TrailingZeros(s) == n
  {
    if n > 0 {
      var init := s[..|s| - 1];
      assert forall i :: |init| - (n - 1) <= i < |init| ==> init[i] == s[i];
      TrailingZerosOf(init, n - 1);
    }
  }

  // ---------------------------------------------------------------------
  // The value a fixed-point string denotes

  predicate IsDigit(c: char) { '0' <= c <= '9' }

  predicate AllDigits(s: string)
  {
    forall i :: 0 <= i < |s| ==> IsDigit(s[i])
  }

  function DigitValue(c: char): int
    requires IsDigit(c)
  {
    c as int - '0' as int
  }

  /** The value of a string of decimal digits. */
  function IntegerValue(s: string): int
    requires AllDigits(s)
  {
    if s == [] then 0 else IntegerValue(s[..|s| - 1]) * 10 + DigitValue(s[|s| - 1])
  }

  /** The value of the digits after a decimal point. */
  function FractionValue(s: string): real
    requires AllDigits(s)
  {
    if s == [] then 0.0 else (DigitValue(s[0]) as real + FractionValue(s[1..])) / 10.0
  }

  /** A plain unsigned decimal: digits, optionally a point and more digits. */
  predicate PlainDecimal(s: string)
  {
    var k := FindIndex(s, '.');
    if k == -1 then AllDigits(s) else AllDigits(s[..k]) && AllDigits(s[k + 1..])
  }

  function DecimalValue(s: string): real
    requires PlainDecimal(s)
  {
    var k := FindIndex(s, '.');
    if k == -1 then IntegerValue(s) as real else IntegerValue(s[..k]) as real + FractionValue(s[k + 1..])
  }

  lemma {:induction false} FractionOfZeros(z: string)
    requires AllZeros(z)
    ensures AllDigits(z) && FractionValue(z) == 0.0
  {
    if z != [] {
      FractionOfZeros(z[1..]);
    }
  }

  /** Zeros at the end of a fraction do not change its value. */
  lemma {:induction false} FractionIgnoresTrailingZeros(a: string, z: string)
    requires AllDigits(a) && AllZeros(z)
    ensures AllDigits(a + z) && FractionValue(a + z) == FractionValue(a)
  {
    FractionOfZeros(z);
    if a == [] {
      assert a + z == z;
    } else {
      assert (a + z)[1..] == a[1..] + z;
      FractionIgnoresTrailingZeros(a[1..], z);
    }
  }

  /** The first point of `ip + "." + rest` is the one after `ip` when `ip` is all digits. */
  lemma {:induction false} PointAfterDigits(ip: string, rest: string)
    requires AllDigits(ip)
    ensures FindIndex(ip + "." + rest, '.') == |ip|
  {
    if ip != [] {
      assert (ip + "." + rest)[1..] == ip[1..] + "." + rest;
      PointAfterDigits(ip[1..], rest);
    }
  }

  /**
   On `ip + "." + fp` the trim drops the zeros that end `fp`, and the point
   as well when nothing else is left after it.
   */
  lemma StripFixedPoint(ip: string, fp: string)
    requires AllDigits(ip) && AllDigits(fp) && |fp| > 0
    ensures var tz := TrailingZeros(fp);
      StripTrailingZeros(ip + "." + fp) == if tz == |fp| then ip else ip + "." + fp[..|fp| - tz]
  {
    if TrailingZeros(fp) < |fp| {
      StripFractionKept(ip, fp);
    } else {
      StripFractionGone(ip, fp);
    }
  }

  lemma StripFractionKept(ip: string, fp: string)
    requires AllDigits(fp) && TrailingZeros(fp) < |fp|
    ensures StripTrailingZeros(ip + "." + fp) == ip + "." + fp[..|fp| - TrailingZeros(fp)]
  {
    var s := ip + "." + fp;
    var tz := TrailingZeros(fp);
    FixedPointZeros(ip, fp);
    assert IsDigit(fp[|fp| - tz - 1]);
    StripKeepsDigits(s, tz);
    PrefixOfConcat(ip + ".", fp, |fp| - tz, |ip + "."| + (|fp| - tz));
  }

  lemma PrefixOfConcat(a: string, b: string, n: nat, m: nat)
    requires n <= |b| && m == |a| + n
    ensures (a + b)[..m] == a + b[..n]
  {
  }

  lemma StripFractionGone(ip: string, fp: string)
    requires AllDigits(fp) && 0 < |fp| == TrailingZeros(fp)
    ensures StripTrailingZeros(ip + "." + fp) == ip
  {
    var s := ip + "." + fp;
    var tz := TrailingZeros(fp);
    FixedPointZeros(ip, fp);
    StripDropsPoint(s, tz);
    assert s[..|ip|] == ip;
  }

  /** `ip + "." + fp` ends in the zeros of `fp`, after the point or a digit of `fp`. */
  lemma FixedPointZeros(ip: string, fp: string)
    requires AllDigits(fp)
    ensures var s, tz := ip + "." + fp, TrailingZeros(fp);
      && tz < |s| && TrailingZeros(s) == tz
      && s[|s| - tz - 1] == (if tz < |fp| then fp[|fp| - tz - 1] else '.')
  {
    SuffixZeros(ip + ".", fp);
  }

  /** The zeros that end `fp` are the zeros that end `a + fp`, unless all of `fp` is zeros. */
  lemma {:induction false} SuffixZeros(a: string, fp: string)
    requires TrailingZeros(fp) < |fp| || (a != [] && a[|a| - 1] != '0')
    ensures TrailingZeros(a + fp) == TrailingZeros(fp)
  {
    if fp == [] {
      assert a + fp == a;
    } else {
      var s := a + fp;
      assert s[|s| - 1] == fp[|fp| - 1];
      if fp[|fp| - 1] == '0' {
        assert s[..|s| - 1] == a + fp[..|fp| - 1];
        SuffixZeros(a, fp[..|fp| - 1]);
      }
    }
  }

  /** When a digit other than '0' stands before the zeros, only the zeros go. */
  lemma StripKeepsDigits(s: string, tz: nat)
    requires tz < |s| && TrailingZeros(s) == tz && IsDigit(s[|s| - tz - 1])
    ensures StripTrailingZeros(s) == s[..|s| - tz]
  {
    var q := |s| - tz;
    assert s[q - 1] != '.';
    if tz == 0 {
      assert s[..q] == s;
    }
  }

  /** When a point stands before the zeros, it goes with them. */
  lemma StripDropsPoint(s: string, tz: nat)
    requires 0 < tz < |s| && TrailingZeros(s) == tz && s[|s| - tz - 1] == '.'
    ensures StripTrailingZeros(s) == s[..|s| - tz - 1]
  {
    var q := |s| - tz;
    assert TrailingZeros(s) != 0 && q > 0 && s[q - 1] == '.';
  }

  /** The value of `ip + "." + fp` is the integer part plus the fraction. */
  lemma FixedPointValue(ip: string, fp: string)
    requires AllDigits(ip) && AllDigits(fp)
    ensures PlainDecimal(ip + "." + fp)
    ensures DecimalValue(ip + "." + fp) == IntegerValue(ip) as real + FractionValue(fp)
  {
    var s := ip + "." + fp;
    PointAfterDigits(ip, fp);
    assert s[..|ip|] == ip && s[|ip| + 1..] == fp;
  }

  /** A string of digits has no point, and denotes its integer value. */
  lemma {:induction false} IntegerStringValue(ip: string)
    requires AllDigits(ip)
    ensures PlainDecimal(ip) && DecimalValue(ip) == IntegerValue(ip) as real
  {
    NoPointInDigits(ip);
  }

  lemma {:induction false} NoPointInDigits(ip: string)
    requires AllDigits(ip)
    ensures FindIndex(ip, '.') == -1
  {
    if ip != [] {
      NoPointInDigits(ip[1..]);
    }
  }

  /** The sign `toFixed` writes: `-` before a negative number, nothing otherwise. */
  predicate IsSign(sign: string)
  {
    sign == "" || sign == "-"
  }

  /** A plain decimal, optionally preceded by `-`. */
  predicate SignedDecimal(s: string)
  {
    if s != [] && s[0] == '-' then PlainDecimal(s[1..]) else PlainDecimal(s)
  }

  function SignedValue(s: string): real
    requires SignedDecimal(s)
  {
    if s != [] && s[0] == '-' then -DecimalValue(s[1..]) else DecimalValue(s)
  }

  /**
   Trimming a fixed-point string, signed or not, keeps the number it denotes,
   and leaves no '0' at the end of a fractional part.
   */
  lemma StripKeepsValue(sign: string, ip: string, fp: string)
    requires IsSign(sign) && AllDigits(ip) && AllDigits(fp) && |fp| > 0
    ensures var s := sign + (ip + "." + fp);
      && SignedDecimal(s)
      && SignedValue(s) == (if sign == "-" then -1.0 else 1.0) * (IntegerValue(ip) as real + FractionValue(fp))
    ensures var s := sign + (ip + "." + fp);
      && SignedDecimal(StripTrailingZeros(s))
      && SignedValue(StripTrailingZeros(s)) == SignedValue(s)
    ensures var r := StripTrailingZeros(sign + (ip + "." + fp));
      r == sign + ip || (r != [] && r[|r| - 1] != '0')
  {
    if sign == "" {
      NoSign(sign, ip + "." + fp);
      NoSign(sign, ip);
      StripKeepsValueUnsigned(ip, fp);
    } else {
      StripKeepsValueNegative(sign, ip, fp);
    }
  }

  /** The unsigned case: the string and its trim read as signed decimals without a sign. */
  lemma StripKeepsValueUnsigned(ip: string, fp: string)
    requires AllDigits(ip) && AllDigits(fp) && |fp| > 0
    ensures var t := ip + "." + fp;
      && SignedDecimal(t)
      && SignedValue(t) == IntegerValue(ip) as real + FractionValue(fp)
    ensures var t := ip + "." + fp; var rt := StripTrailingZeros(t);
      && SignedDecimal(rt)
      && SignedValue(rt) == SignedValue(t)
      && (rt == ip || (rt != [] && rt[|rt| - 1] != '0'))
  {
    var t := ip + "." + fp;
    var rt := StripTrailingZeros(t);
    UnsignedTrim(ip, fp);
    UnsignedStart(ip, fp);
    UnsignedSigned(t, rt, IntegerValue(ip) as real + FractionValue(fp));
  }

  lemma NoSign(sign: string, x: string)
    requires sign == ""
    ensures sign + x == x
  {
  }

  /** Without a leading `-`, a plain decimal reads the same signed or unsigned. */
  lemma UnsignedSigned(t: string, rt: string, v: real)
    requires PlainDecimal(t) && PlainDecimal(rt) && DecimalValue(rt) == DecimalValue(t) && DecimalValue(t) == v
    requires t != [] && t[0] != '-' && (rt != [] ==> rt[0] != '-')
    ensures SignedDecimal(t) && SignedValue(t) == v
    ensures SignedDecimal(rt) && SignedValue(rt) == SignedValue(t)
  {
  }

  lemma StripKeepsValueNegative(sign: string, ip: string, fp: string)
    requires sign == "-" && AllDigits(ip) && AllDigits(fp) && |fp| > 0
    ensures var s := sign + (ip + "." + fp);
      && SignedDecimal(s)
      && SignedValue(s) == -1.0 * (IntegerValue(ip) as real + FractionValue(fp))
    ensures var s := sign + (ip + "." + fp);
      && SignedDecimal(StripTrailingZeros(s))
      && SignedValue(StripTrailingZeros(s)) == SignedValue(s)
    ensures var r := StripTrailingZeros(sign + (ip + "." + fp));
      r == sign + ip || (r != [] && r[|r| - 1] != '0')
  {
    var t := ip + "." + fp;
    var rt := StripTrailingZeros(t);
    NegatedStrip(ip, fp);
    UnsignedTrim(ip, fp);
    NegatedTrim(t, rt, IntegerValue(ip) as real + FractionValue(fp));
    NegatedTail(ip, rt);
  }

  /** The trim of a negative fixed-point string is `-` before the trim of its magnitude. */
  lemma NegatedStrip(ip: string, fp: string)
    requires AllDigits(fp)
    ensures StripTrailingZeros("-" + (ip + "." + fp)) == "-" + StripTrailingZeros(ip + "." + fp)
  {
    FixedPointZeros(ip, fp);
    StripUnderPrefix("-", ip + "." + fp);
  }

  /** What the unsigned trim keeps, gathered for the signed case. */
  lemma UnsignedTrim(ip: string, fp: string)
    requires AllDigits(ip) && AllDigits(fp) && |fp| > 0
    ensures var t := ip + "." + fp; var rt := StripTrailingZeros(t);
      && PlainDecimal(t) && PlainDecimal(rt) && DecimalValue(rt) == DecimalValue(t)
      && DecimalValue(t) == IntegerValue(ip) as real + FractionValue(fp)
      && (rt == ip || (rt != [] && rt[|rt| - 1] != '0'))
  {
    StripKeepsUnsignedValue(ip, fp);
    FixedPointValue(ip, fp);
  }

  /** A `-` before a trimmed decimal negates its value, and the trim keeps the sign. */
  lemma NegatedTrim(t: string, rt: string, v: real)
    requires PlainDecimal(t) && PlainDecimal(rt) && DecimalValue(rt) == DecimalValue(t) && DecimalValue(t) == v
    requires StripTrailingZeros("-" + t) == "-" + rt
    ensures SignedDecimal("-" + t) && SignedValue("-" + t) == -1.0 * v
    ensures SignedDecimal(StripTrailingZeros("-" + t))
    ensures SignedValue(StripTrailingZeros("-" + t)) == SignedValue("-" + t)
  {
    SignedParts(t);
    SignedParts(rt);
  }

  /** A '0' does not end the signed trim unless it ends the unsigned one. */
  lemma NegatedTail(ip: string, rt: string)
    requires rt == ip || (rt != [] && rt[|rt| - 1] != '0')
    ensures var r := "-" + rt; r == "-" + ip || (r != [] && r[|r| - 1] != '0')
  {
    if rt != ip {
      LastOfConcat("-", rt);
    }
  }

  /** With a `-` in front, the rest is what the sign applies to. */
  lemma SignedParts(t: string)
    ensures ("-" + t) != [] && ("-" + t)[0] == '-' && ("-" + t)[1..] == t
  {
  }

  /** An unsigned fixed-point string and its trim do not start with `-`. */
  lemma UnsignedStart(ip: string, fp: string)
    requires AllDigits(ip)
    ensures var t := ip + "." + fp; t[0] != '-'
    ensures var r := StripTrailingZeros(ip + "." + fp); r != [] ==> r[0] != '-'
  {
    var t := ip + "." + fp;
    if ip != [] {
      assert t[0] == ip[0];
    }
    var r := StripTrailingZeros(t);
    if r != [] {
      assert r[0] == t[0];
    }
  }

  /**
   The trim only looks at the end of a string: below a prefix followed by a
   string that is not all zeros, it acts on that string alone.
   */
  lemma StripUnderPrefix(a: string, t: string)
    requires TrailingZeros(t) < |t|
    ensures StripTrailingZeros(a + t) == a + StripTrailingZeros(t)
  {
    SuffixZeros(a, t);
    var z := TrailingZeros(t);
    StripByCount(a + t, z);
    StripByCount(t, z);
    CutUnderPrefix(a, t, z);
  }

  /** `s` without its last `z` characters, and without a point standing right before them. */
  function CutTrailing(s: string, z: nat): string
    requires z <= |s|
  {
    var q := |s| - z;
    if z == 0 then s else if q > 0 && s[q - 1] == '.' then s[..q - 1] else s[..q]
  }

  /** Cutting `a + t` before its last `z` characters is cutting `t` there, below `a`. */
  lemma CutUnderPrefix(a: string, t: string, z: nat)
    requires z < |t|
    ensures CutTrailing(a + t, z) == a + CutTrailing(t, z)
  {
    var cut, q := |a + t| - z, |t| - z;
    ConcatAt(a, t, q - 1, cut - 1);
    if z != 0 {
      if t[q - 1] == '.' {
        PrefixOfConcat(a, t, q - 1, cut - 1);
      } else {
        PrefixOfConcat(a, t, q, cut);
      }
    }
  }

  /** The trim of `s` is the cut given by the number `z` of zeros that end it. */
  lemma StripByCount(s: string, z: nat)
    requires TrailingZeros(s) == z
    ensures StripTrailingZeros(s) == CutTrailing(s, z)
  {
  }

  lemma ConcatAt(a: string, b: string, i: nat, j: nat)
    requires i < |b| && j == |a| + i
    ensures (a + b)[j] == b[i]
  {
  }

  /**
   Trimming an unsigned fixed-point string keeps the number it denotes, and
   leaves no '0' at the end of a fractional part.
   */
  lemma StripKeepsUnsignedValue(ip: string, fp: string)
    requires AllDigits(ip) && AllDigits(fp) && |fp| > 0
    ensures PlainDecimal(ip + "." + fp)
    ensures PlainDecimal(StripTrailingZeros(ip + "." + fp))
    ensures DecimalValue(StripTrailingZeros(ip + "." + fp)) == DecimalValue(ip + "." + fp)
    ensures var r := StripTrailingZeros(ip + "." + fp); r == ip || (r != [] && r[|r| - 1] != '0')
  {
    FixedPointValue(ip, fp);
    if TrailingZeros(fp) < |fp| {
      StripKeepsFractionValue(ip, fp);
    } else {
      StripKeepsIntegerValue(ip, fp);
    }
  }

  lemma StripKeepsFractionValue(ip: string, fp: string)
    requires AllDigits(ip) && AllDigits(fp) && TrailingZeros(fp) < |fp|
    ensures var r := StripTrailingZeros(ip + "." + fp);
      && r == ip + "." + fp[..|fp| - TrailingZeros(fp)]
      && PlainDecimal(r) && DecimalValue(r) == IntegerValue(ip) as real + FractionValue(fp)
      && r[|r| - 1] != '0'
  {
    var kept := fp[..|fp| - TrailingZeros(fp)];
    var t := ip + "." + kept;
    StripFractionKept(ip, fp);
    assert StripTrailingZeros(ip + "." + fp) == t;
    KeptFractionValue(fp);
    FixedPointValue(ip, kept);
    LastOfConcat(ip + ".", kept);
  }

  lemma LastOfConcat(a: string, b: string)
    requires b != []
    ensures (a + b)[|a + b| - 1] == b[|b| - 1]
  {
  }

  /** Dropping the zeros that end a fraction keeps its value, and leaves a last digit other than '0'. */
  lemma KeptFractionValue(fp: string)
    requires AllDigits(fp) && TrailingZeros(fp) < |fp|
    ensures var kept := fp[..|fp| - TrailingZeros(fp)];
      && AllDigits(kept) && FractionValue(kept) == FractionValue(fp)
      && kept[|kept| - 1] != '0'
  {
    var tz := TrailingZeros(fp);
    var kept := fp[..|fp| - tz];
    assert fp == kept + fp[|fp| - tz..];
    TrailingZerosAreZeros(fp);
    assert AllZeros(fp[|fp| - tz..]);
    FractionIgnoresTrailingZeros(kept, fp[|fp| - tz..]);
  }

  lemma StripKeepsIntegerValue(ip: string, fp: string)
    requires AllDigits(ip) && AllDigits(fp) && 0 < |fp| == TrailingZeros(fp)
    ensures var r := StripTrailingZeros(ip + "." + fp);
      r == ip && PlainDecimal(r) && DecimalValue(r) == IntegerValue(ip) as real + FractionValue(fp)
  {
    StripFractionGone(ip, fp);
    IntegerStringValue(ip);
    TrailingZerosAreZeros(fp);
    FractionOfZeros(fp);
  }

  // ---------------------------------------------------------------------
  // The page state

  /**
   The converter page: the chosen category, the two chosen units, the text
   typed in and the text shown as the result.
   */
  class UnitConverter {
    var selectedCategory: string
    var fromUnit: string
    var toUnit: string
    var inputValue: string
    var result: string

    /**
     The category is in the table, both units belong to it, and a result is
     only ever shown beside some input.
     */
    ghost predicate Valid()
      reads this
    {
      && selectedCategory in Conversions
      && fromUnit in Conversions[selectedCategory].units
      && toUnit in Conversions[selectedCategory].units
      && (result != "" ==> inputValue != "")
    }

    constructor ()
      ensures Valid()
      ensures selectedCategory == "length" && fromUnit == "meters" && toUnit == "feet"
      ensures inputValue == "" && result == ""
    {
      selectedCategory := "length";
      fromUnit := "meters";
      toUnit := "feet";
      inputValue := "";
      result := "";
    }

    /**
     `handleCategoryChange`: the first two units of the new category become
     the chosen pair (the fallback to the first unit never fires, as every
     category has at least three), and input and result are cleared.
     */
    method HandleCategoryChange(category: string)
      requires category in Conversions
      modifies this
      ensures Valid()
      ensures selectedCategory == category
      ensures fromUnit == Conversions[category].unitKeys[0]
      ensures toUnit == Conversions[category].unitKeys[1]
      ensures fromUnit != toUnit
      ensures inputValue == "" && result == ""
    {
      FirstTwoUnits(category);
      selectedCategory := category;
      var c := Conversions[category];
      var units := c.unitKeys;
      var first := units[0];
      fromUnit := first;
      toUnit := if units[1] != "" then units[1] else first;
      inputValue := "";
      result := "";
    }

    /**
     `handleInputChange`: the text is kept; a non-empty numeric text is
     converted and shown trimmed, anything else clears the result.
     */
    method HandleInputChange(value: string, number: string -> Option<real>, toFixed6: real -> string)
      requires Valid()
      modifies this
      ensures Valid()
      ensures inputValue == value
      ensures selectedCategory == old(selectedCategory) && fromUnit == old(fromUnit) && toUnit == old(toUnit)
      ensures value == "" || number(value).None? ==> result == ""
      ensures value != "" && number(value).Some? ==>
        DefinedIn(Conversions, fromUnit, toUnit, selectedCategory) &&
        result == StripTrailingZeros(toFixed6(ConvertIn(Conversions, number(value).value, fromUnit, toUnit, selectedCategory)))
    {
      inputValue := value;
      var n := number(value);
      if value != "" && n.Some? {
        TableWellFormed();
        var converted := ConvertUnits(Conversions, n.value, fromUnit, toUnit, selectedCategory);
        result := StripTrailingZeros(toFixed6(converted));
      } else {
        result := "";
      }
    }

    /**
     `swapUnits`: the two units trade places; input and result trade places
     only when a result is shown. Nothing is converted again.
     */
    method SwapUnits()
      requires Valid()
      modifies this
      ensures Valid()
      ensures selectedCategory == old(selectedCategory)
      ensures fromUnit == old(toUnit) && toUnit == old(fromUnit)
      ensures old(result) != "" ==> inputValue == old(result) && result == old(inputValue)
      ensures old(result) == "" ==> inputValue == old(inputValue) && result == old(result)
    {
      var temp := fromUnit;
      fromUnit := toUnit;
      toUnit := temp;
      if result != "" {
        inputValue, result := result, inputValue;
      }
    }

    /** The "from" select: picks a unit of the current category and changes nothing else. */
    method SelectFromUnit(unit: string)
      requires Valid() && unit in Conversions[selectedCategory].units
      modifies this
      ensures Valid()
      ensures fromUnit == unit
      ensures selectedCategory == old(selectedCategory) && toUnit == old(toUnit)
      ensures inputValue == old(inputValue) && result == old(result)
    {
      fromUnit := unit;
    }

    /** The "to" select: picks a unit of the current category and changes nothing else. */
    method SelectToUnit(unit: string)
      requires Valid() && unit in Conversions[selectedCategory].units
      modifies this
      ensures Valid()
      ensures toUnit == unit
      ensures selectedCategory == old(selectedCategory) && fromUnit == old(fromUnit)
      ensures inputValue == old(inputValue) && result == old(result)
    {
      toUnit := unit;
    }
  }

  /** Swapping twice restores all five fields of the page. */
  method SwapTwiceRestores(c: UnitConverter)
    requires c.Valid()
    modifies c
    ensures c.Valid()
    ensures c.selectedCategory == old(c.selectedCategory)
    ensures c.fromUnit == old(c.fromUnit) && c.toUnit == old(c.toUnit)
    ensures c.inputValue == old(c.inputValue) && c.result == old(c.result)
  {
    c.SwapUnits();
    c.SwapUnits();
  }
}
