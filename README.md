# Cultural map viewer and unit converter, modelled in Dafny

This project models two parts of a small Next.js site.

The **unit converter page** (`src/app/page.tsx`) has:

- a fixed table of scale factors for five categories: length, weight, temperature, volume and area;
- `convertUnits`, which converts through the category's base unit, and `convertTemperature`, which converts through Celsius;
- the display trim `toFixed(6).replace(/\.?0+$/, '')`;
- the page state (category, two units, input text, result text) and its handlers: category change, input change, swap, and the two unit selects.

The **cultural map viewer** (`components/FilterSidebar.tsx`, `components/WorldMap.tsx`, with the record type of `types/data.ts` and the filter defaults of `app/page.tsx`) has:

- the three-way filter predicate on region, category and free-text search, which the sidebar and the map both use;
- the sidebar's count of matching records;
- its lists of region and category options;
- its filter state with the reset control;
- the map's rule for placing markers: a record alone at its coordinates stays there, and records that share coordinates are spread on a circle of radius 0.5 degrees by their rank in the group.

Modules:

- `Wrappers` (`wrappers.dfy`): `Option`.
- `Sequences` (`sequences.dfy`): `filter`, the positions `filter` keeps, `findIndex`, and first-occurrence de-duplication through a `Set`, each stated once over sequences.
- `Text` (`text.dfy`): ASCII `toLowerCase` and `includes`.
- `DataTypes` (`data_types.dfy`): the dataset record.
- `FilterSidebar` (`filter_sidebar.dfy`): the predicate, the counts, the option lists, and the class `FilterState`.
- `WorldMap` (`world_map.dfy`): the filtered list and marker placement.
- `UnitConversion` (`unit_converter.dfy`): the table, the conversions, the trim, and the class `UnitConverter`.

Numbers are Dafny reals, so the conversion identities hold exactly. Three kinds of operation are parameters, because their behaviour is not part of the code modelled here:

- `Number(value)` together with its `isNaN` test, passed to the input handler as a partial parse `string -> Option<real>`;
- `toFixed(6)`, passed to the input handler as a function;
- `Math.cos` and `Math.sin`, passed to the placement functions.

The source tells the records in one group apart by object identity (`d === item`). The model names a record of the filtered list by its position in that list.

## Model

| member | source | states |
|---|---|---|
| UnitConversion.TableWellFormed | src/app/page.tsx:11-78 | Every category of the table lists each of its units exactly once, in table order, and there are at least three. Every unit name is non-empty, every factor is positive, and the base unit has factor 1. |
| UnitConversion.FirstTwoUnits | src/app/page.tsx:114-116 | In every category the first two units in table order exist and differ, and the second is non-empty. |
| UnitConversion.ConvertTemperature | src/app/page.tsx:80-90 | The same unit returns the value unchanged. Otherwise the result is the value taken to Celsius (Fahrenheit by (v-32)*5/9, Kelvin by v-273.15, any other name unchanged), then taken from Celsius to the target in the same way. |
| UnitConversion.ConvertUnits | src/app/page.tsx:92-102 | Equal units return the value. Temperature delegates to `convertTemperature`. Every other category gives `value * s(from) / s(to)`. The precondition is that both factors exist and the divisor is not 0. |
| UnitConversion.ConvertIn | src/app/page.tsx:92-102 | The converted value measures the same quantity. Equal units give the value back. A temperature keeps its Celsius reading. In any other category the result times the target's factor equals the value times the source's factor, so the amount in base units is kept. |
| UnitConversion.ConvertIdentity | src/app/page.tsx:92-93 | Converting a unit to itself returns the value, in every category and with any table. |
| UnitConversion.TemperatureIgnoresTable | src/app/page.tsx:95-97 | A temperature conversion reads no scale factor, so any two tables give the same result. |
| UnitConversion.CelsiusInverse | src/app/page.tsx:83-89 | Taking a value to Celsius and back returns it, for every unit name, in both orders. |
| UnitConversion.TemperatureRoundTrip | src/app/page.tsx:80-90 | Converting a temperature from a to b and back to a returns the value exactly. |
| UnitConversion.TemperatureCompose | src/app/page.tsx:80-90 | Converting a temperature from a to b and then from b to c equals converting it from a to c. |
| UnitConversion.LinearRoundTrip | src/app/page.tsx:99-101 | In a non-temperature category of a well-formed table, conversion between two of its units is defined both ways, and a round trip returns the value. |
| UnitConversion.LinearCompose | src/app/page.tsx:99-101 | In a non-temperature category, conversions compose: a to b, then b to c, equals a to c. |
| UnitConversion.ScaleIsSizeInBaseUnits | src/app/page.tsx:99-101 | One unit converts to exactly its factor in base units. |
| UnitConversion.TemperatureReferencePoints | src/app/page.tsx:84-88 | 0 C is 32 F. 100 C is 373.15 K. 32 F and 212 F are 0 C and 100 C. 0 K is -273.15 C. |
| UnitConversion.LinearReferencePoints | src/app/page.tsx:13-33 | One metre is 1/0.3048 feet. One kilogram is 1000/453.592 pounds. One mile is 1.609344 kilometres. |
| UnitConversion.TrailingZeros | src/app/page.tsx:125 | The count of '0' characters that end the text: it is at most the length, and the character before them is not '0'. |
| UnitConversion.TrailingZerosAreZeros | src/app/page.tsx:125 | Every character counted by `TrailingZeros` is '0'. |
| UnitConversion.StripTrailingZeros | src/app/page.tsx:125 | The trimmed text is a prefix of the input. It is shorter than the input exactly when the input ends in '0'. |
| UnitConversion.StripIsLeftmostMatch | src/app/page.tsx:125 | The cut is where the leftmost match of `\.?0+$` begins: from the cut on, the rest matches the pattern (or nothing is cut), and no match starts earlier. |
| UnitConversion.StripExamples | src/app/page.tsx:125 | "3.000000" becomes "3". "3.140000" becomes "3.14". "10.000000" becomes "10". "0.500000" becomes "0.5". "2.5" is unchanged. |
| UnitConversion.StripFixedPoint | src/app/page.tsx:125 | On `ip.fp`, the zeros ending `fp` go. The point goes as well when `fp` was all zeros. |
| UnitConversion.StripKeepsValue | src/app/page.tsx:125 | For `toFixed` output, an optional '-' then digits, a point and a non-empty fraction, the text reads as a signed decimal worth plus or minus the integer part plus the fraction. Its trim reads as a signed decimal with the same value. What is left is the sign and the integer part, or it does not end in '0'. |
| UnitConversion.StripUnderPrefix | src/app/page.tsx:125 | The trim depends only on the end of the text: below any prefix, a text that is not all zeros is trimmed as it would be alone. |
| UnitConversion.FixedPointValue | src/app/page.tsx:125 | `ip.fp` is a plain decimal whose value is the integer part plus the fraction. |
| UnitConversion.FractionIgnoresTrailingZeros | src/app/page.tsx:125 | Zeros appended to a fraction do not change its value. |
| UnitConversion.UnitConverter.constructor | src/app/page.tsx:105-109 | The page starts on length, metres to feet, with empty input and result. |
| UnitConversion.UnitConverter.HandleCategoryChange | src/app/page.tsx:112-119 | The category is set. The first and second units in table order become "from" and "to", and they differ. The input and result are cleared. The state stays valid. |
| UnitConversion.UnitConverter.HandleInputChange | src/app/page.tsx:121-129 | The input text is kept. An empty or non-numeric text clears the result. A numeric text is converted with the current units and shown trimmed. Category and units are unchanged. |
| UnitConversion.UnitConverter.SwapUnits | src/app/page.tsx:131-139 | The two units trade places. Input and result trade places only when a result is shown. Nothing is converted again. |
| UnitConversion.UnitConverter.SelectFromUnit | src/app/page.tsx:177-187 | The "from" unit becomes the chosen unit of the current category. Nothing else changes. |
| UnitConversion.UnitConverter.SelectToUnit | src/app/page.tsx:201-211 | The "to" unit becomes the chosen unit of the current category. Nothing else changes. |
| UnitConversion.SwapTwiceRestores | src/app/page.tsx:131-139 | Swapping twice restores all five fields. |
| Text.ToLower | components/FilterSidebar.tsx:37-40 | The lower-cased text has the same length and no upper-case ASCII letter. Every other character is unchanged, and letters move down by 32. |
| Text.ToLowerIdempotent | components/FilterSidebar.tsx:37-40 | Lower-casing twice is lower-casing once. |
| Text.Includes | components/FilterSidebar.tsx:37-40 | The empty query is included in every text, and an included query is never longer than the text. |
| Text.IncludesIffOccurs | components/FilterSidebar.tsx:37-40 | `includes` holds exactly when the query occurs at some index of the text. |
| Text.IncludesSelf | components/FilterSidebar.tsx:37-40 | Every text includes itself. |
| FilterSidebar.Matches | components/FilterSidebar.tsx:34-42 | The conjunction of the region test ('all' or equal), the category test ('all' or equal) and the search test (an empty query, or the lower-cased query included in the lower-cased word, country name, core theme or some tag). The same predicate filters the map (components/WorldMap.tsx:51-59). The default filters keep every record. |
| FilterSidebar.FilteredCount | components/FilterSidebar.tsx:33-43 | The count is at most the size of the dataset, and it equals the number of positions whose record passes the region, category and search tests. |
| FilterSidebar.Regions | components/FilterSidebar.tsx:30 | The list starts with 'all'. Every region of the data follows it exactly once, and nothing else does. The regions come in the order of their first mention. |
| FilterSidebar.Categories | components/FilterSidebar.tsx:31 | The list starts with 'all'. Every category of the data follows it exactly once, and nothing else does. The categories come in the order of their first mention. |
| FilterSidebar.DefaultFiltersKeepAll | app/page.tsx:26-28 | With the default filters ('', 'all', 'all') every record is counted. |
| FilterSidebar.NarrowRegion | components/FilterSidebar.tsx:34 | Choosing a region instead of 'all' never raises the count. |
| FilterSidebar.NarrowCategory | components/FilterSidebar.tsx:35 | Choosing a category instead of 'all' never raises the count. |
| FilterSidebar.NarrowSearch | components/FilterSidebar.tsx:36-40 | Typing a query instead of leaving it empty never raises the count. |
| FilterSidebar.OwnRegionKeepsRecord | components/FilterSidebar.tsx:34 | Selecting a record's own region, with no other constraint, keeps that record. |
| FilterSidebar.EqualFieldMatches | components/FilterSidebar.tsx:36-40 | A query equal, up to ASCII case, to the word, the country name, the core theme or a tag always matches. |
| FilterSidebar.FilterState.constructor | app/page.tsx:26-28 | The filters start as '', 'all', 'all'. |
| FilterSidebar.FilterState.ShowsReset | components/FilterSidebar.tsx:134 | The reset control is shown exactly when some filter differs from its default. |
| FilterSidebar.FilterState.SetSearchQuery | components/FilterSidebar.tsx:94 | The search box sets the query and changes nothing else. |
| FilterSidebar.FilterState.SetSelectedRegion | components/FilterSidebar.tsx:106 | The region select sets the region and changes nothing else. |
| FilterSidebar.FilterState.SetSelectedCategory | components/FilterSidebar.tsx:122 | The category select sets the category and changes nothing else. |
| FilterSidebar.FilterState.Reset | components/FilterSidebar.tsx:138-142 | Reset restores the defaults and hides the control, and afterwards every record of any dataset is counted. |
| WorldMap.FilteredData | components/WorldMap.tsx:50-60 | The map's list holds the records that pass the filter, in dataset order, at the matching positions. Its length is the sidebar's count. |
| WorldMap.ItemsAtLocation | components/WorldMap.tsx:67-70 | The group holds exactly the positions of the records at the record's exact coordinates, including the record itself. |
| WorldMap.LocalIndex | components/WorldMap.tsx:77 | The index is in the group, and the group holds the record at that index. |
| WorldMap.MarkerAngle | components/WorldMap.tsx:80 | The angle `localIndex / n * 2 * PI` lies in [0, 2 * PI). |
| WorldMap.MarkerPosition | components/WorldMap.tsx:63-89 | A record alone at its coordinates is placed on them. A record in a group of more than one is placed at its coordinates plus (cos a * 0.5, sin a * 0.5), where a is its angle in the group. |
| WorldMap.LoneRecordKeepsLocation | components/WorldMap.tsx:72-74 | A record no other shown record shares coordinates with is a group of one, and its marker stays on its coordinates. |
| WorldMap.DistinctMembersDistinctAngles | components/WorldMap.tsx:67-80 | Two records at one spot share a group of more than one, and get different local indices and different angles. |
| WorldMap.OffsetOnCircle | components/WorldMap.tsx:80-88 | A record in a group of more than one is placed at distance exactly 0.5 degrees from its coordinates, given that cos^2 + sin^2 = 1. |
| WorldMap.GroupSize | components/WorldMap.tsx:67-72 | The group size is the number of shown records at the spot. |
| WorldMap.LocalIndexIsRank | components/WorldMap.tsx:77 | The local index is the number of shown records at the spot that come before the record. |
| WorldMap.PositionDependsOnGroupOnly | components/WorldMap.tsx:63-89 | A marker's position depends only on the record, its group size and its local index. |
| WorldMap.InsertKeepsGroup | components/WorldMap.tsx:67-77 | Inserting a record at other coordinates anywhere in the list keeps every other record's group size and local index. |
| WorldMap.InsertElsewhere | components/WorldMap.tsx:63-89 | Inserting a record at other coordinates anywhere in the list leaves every other marker where it was. |
| Sequences.Filter | components/FilterSidebar.tsx:33-43 | The result keeps only elements that satisfy the predicate, keeps every element of the input that does, and is no longer than the input. |
| Sequences.Positions | components/WorldMap.tsx:67-70 | The kept positions are ascending and in range, and they are exactly the positions whose element satisfies the predicate. |
| Sequences.FilterAtPositions | components/WorldMap.tsx:50-70 | Filtering keeps the elements at `Positions`, in that order. |
| Sequences.FindIndex | components/WorldMap.tsx:77 | The result is -1 exactly when the value is absent. Otherwise it is the first index holding the value. |
| Sequences.Distinct | components/FilterSidebar.tsx:30-31 | Every value of the input appears once, nothing else appears, and the values come in the order of their first occurrence. |

## Left out

- Floating point: numbers are exact reals. Rounding in the factors and in the `5/9` and `9/5` steps, and the resulting inexact round trips, are not modelled.
- `HandleInputChange`: `Number()`, `isNaN` and `toFixed(6)` are parameters. What `toFixed` prints for large numbers, `Infinity` or values that need an exponent is outside the model. `StripKeepsValue` covers its fixed-point output only: an optional '-', digits, a point and fraction digits. Exponent forms, `Infinity` and `NaN` are not covered.
- `MarkerPosition`: `Math.cos` and `Math.sin` are parameters. `OffsetOnCircle` assumes cos^2 + sin^2 = 1, which IEEE doubles meet only approximately.
- `ConvertUnits` reads its scale table as a parameter, and the page passes `Conversions`. A category or unit missing from the table gives `TypeError` or `NaN` in the source. The model excludes these cases with the precondition `DefinedIn`, which every page handler meets because their states stay `Valid()`.
- `Text.ToLower`: only ASCII letters are lower-cased. Unicode case mapping is left out.
- React scheduling: state setters are applied in order, at once, and with the values of the render that ran the handler. Batched re-renders and effects are not modelled.
- Rendering: JSX, Leaflet markers, popups, animation, the sidebar's open and close state, the `result || '0'` display, and option labels are left out. So are the marker keys, which are built from concept words; their uniqueness is not modelled.
- `components/ConceptCard.tsx`, the layouts, `src/app/sitemap.ts` and `next.config.ts` hold no logic of the modelled core.
- The location key string in `getMarkerPosition` (WorldMap.tsx:64) is never used, and neither is its `index` parameter.
- The page has five categories: length, weight, temperature, volume and area. Temperature covers Celsius, Fahrenheit and Kelvin. Swapping exchanges the fields without converting again.
