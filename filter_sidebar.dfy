/**
 The filter sidebar of the map viewer: the three-way filter predicate (which
 the map shares), the count of matching records, the region and category
 option lists, and the filter state with its reset control. The filter state
 itself lives in the page component and starts at `''`, `'all'`, `'all'`.
 */
module FilterSidebar {

  import opened DataTypes
  import opened Text
  import opened Sequences

  /** The option value meaning "no constraint" for region and category. */
  const All := "all"

  datatype Filters = Filters(searchQuery: string, selectedRegion: string, selectedCategory: string)

  /** The filter state the page starts with and that reset restores. */
  function DefaultFilters(): Filters
  {
    Filters("", All, All)
  }

  predicate MatchesRegion(item: CulturalData, region: string)
  {
    region == All || item.meta.region == region
  }

  predicate MatchesCategory(item: CulturalData, category: string)
  {
    category == All || item.meta.category == category
  }

  /** `tags.some(tag => tag.toLowerCase().includes(q))`. */
  predicate SomeTagIncludes(tags: seq<string>, q: string)
  {
    exists i :: 0 <= i < |tags| && Includes(ToLower(tags[i]), q)
  }

  /**
   The free-text match: an empty query matches everything; otherwise the
   lower-cased query must occur in the lower-cased word, country name, core
   theme or one of the tags.
   */
  predicate MatchesSearch(item: CulturalData, query: string)
  {
    query == "" ||
    (var q := ToLower(query);
     || Includes(ToLower(item.concept.word), q)
     || Includes(ToLower(item.country.name), q)
     || Includes(ToLower(item.concept.coreTheme), q)
     || SomeTagIncludes(item.concept.tags, q))
  }

  /** The predicate both the sidebar and the map filter the dataset with; the defaults keep every record. */
  predicate Matches(item: CulturalData, f: Filters)
    ensures f == DefaultFilters() ==> Matches(item, f)
  {
    && MatchesRegion(item, f.selectedRegion)
    && MatchesCategory(item, f.selectedCategory)
    && MatchesSearch(item, f.searchQuery)
  }

  function MatchesFilters(f: Filters): CulturalData -> bool
  {
    item => Matches(item, f)
  }

  /** `filteredCount`: how many records pass the filter; never more than there are. */
  function FilteredCount(data: seq<CulturalData>, f: Filters): (n: nat)
    ensures n <= |data|
    ensures n == |Positions(data, MatchesFilters(f))|
  {
    FilterAtPositions(data, MatchesFilters(f));
    |Filter(data, MatchesFilters(f))|
  }

  /** The region of each record, in dataset order. */
  function RecordRegions(data: seq<CulturalData>): seq<string>
  {
    seq(|data|, i requires 0 <= i < |data| => data[i].meta.region)
  }

  /** The category of each record, in dataset order. */
  function RecordCategories(data: seq<CulturalData>): seq<string>
  {
    seq(|data|, i requires 0 <= i < |data| => data[i].meta.category)
  }

  /**
   `regions`: `'all'`, then every region of the dataset once, in the order in
   which the records first mention it.
   */
  function Regions(data: seq<CulturalData>): (r: seq<string>)
    ensures |r| >= 1 && r[0] == All
    ensures forall i :: 0 <= i < |data| ==> data[i].meta.region in r[1..]
    ensures forall k :: 1 <= k < |r| ==> r[k] in RecordRegions(data)
    ensures forall k, l :: 1 <= k < l < |r| ==> r[k] != r[l]
    ensures forall k, l :: 1 <= k < l < |r| ==>
      FindIndex(RecordRegions(data), r[k]) < FindIndex(RecordRegions(data), r[l])
  {
    var values := RecordRegions(data);
    assert forall i :: 0 <= i < |data| ==> values[i] == data[i].meta.region;
    var d := Distinct(values);
    var r := [All] + d;
    assert r[1..] == d;
    r
  }

  /**
   `categories`: `'all'`, then every category of the dataset once, in the
   order in which the records first mention it.
   */
  function Categories(data: seq<CulturalData>): (r: seq<string>)
    ensures |r| >= 1 && r[0] == All
    ensures forall i :: 0 <= i < |data| ==> data[i].meta.category in r[1..]
    ensures forall k :: 1 <= k < |r| ==> r[k] in RecordCategories(data)
    ensures forall k, l :: 1 <= k < l < |r| ==> r[k] != r[l]
    ensures forall k, l :: 1 <= k < l < |r| ==>
      FindIndex(RecordCategories(data), r[k]) < FindIndex(RecordCategories(data), r[l])
  {
    var values := RecordCategories(data);
    assert forall i :: 0 <= i < |data| ==> values[i] == data[i].meta.category;
    var d := Distinct(values);
    var r := [All] + d;
    assert r[1..] == d;
    r
  }

  /** With the default filters nothing is filtered out. */
  lemma DefaultFiltersKeepAll(data: seq<CulturalData>)
    ensures FilteredCount(data, DefaultFilters()) == |data|
  {
    FilterKeepsAll(data, MatchesFilters(DefaultFilters()));
  }

  /** Choosing a specific region instead of `'all'` never raises the count. */
  lemma NarrowRegion(data: seq<CulturalData>, f: Filters, region: string)
    ensures FilteredCount(data, f.(selectedRegion := region)) <= FilteredCount(data, f.(selectedRegion := All))
  {
    FilterMonotone(data, MatchesFilters(f.(selectedRegion := region)), MatchesFilters(f.(selectedRegion := All)));
  }

  /** Choosing a specific category instead of `'all'` never raises the count. */
  lemma NarrowCategory(data: seq<CulturalData>, f: Filters, category: string)
    ensures FilteredCount(data, f.(selectedCategory := category)) <= FilteredCount(data, f.(selectedCategory := All))
  {
    FilterMonotone(data, MatchesFilters(f.(selectedCategory := category)), MatchesFilters(f.(selectedCategory := All)));
  }

  /** Typing a query instead of leaving it empty never raises the count. */
  lemma NarrowSearch(data: seq<CulturalData>, f: Filters, query: string)
    ensures FilteredCount(data, f.(searchQuery := query)) <= FilteredCount(data, f.(searchQuery := ""))
  {
    FilterMonotone(data, MatchesFilters(f.(searchQuery := query)), MatchesFilters(f.(searchQuery := "")));
  }

  /** Selecting a record's own region, with no other constraint, keeps that record. */
  lemma OwnRegionKeepsRecord(data: seq<CulturalData>, i: nat)
    requires i < |data|
    ensures i in Positions(data, MatchesFilters(Filters("", data[i].meta.region, All)))
    ensures data[i] in Filter(data, MatchesFilters(Filters("", data[i].meta.region, All)))
  {
    assert MatchesFilters(Filters("", data[i].meta.region, All))(data[i]);
  }

  /** A query equal, up to ASCII case, to the word, country, theme or a tag always matches. */
  lemma EqualFieldMatches(item: CulturalData, query: string)
    requires
      || ToLower(query) == ToLower(item.concept.word)
      || ToLower(query) == ToLower(item.country.name)
      || ToLower(query) == ToLower(item.concept.coreTheme)
      || exists i :: 0 <= i < |item.concept.tags| && ToLower(query) == ToLower(item.concept.tags[i])
    ensures MatchesSearch(item, query)
  {
    var q := ToLower(query);
    IncludesSelf(q);
    if !(q == ToLower(item.concept.word) || q == ToLower(item.country.name) || q == ToLower(item.concept.coreTheme)) {
      var i :| 0 <= i < |item.concept.tags| && q == ToLower(item.concept.tags[i]);
      assert Includes(ToLower(item.concept.tags[i]), q);
    }
  }

  /**
   The three filter fields held by the page, and the sidebar's controls over
   them: the search box, the two selects and the reset button.
   */
  class FilterState {
    var searchQuery: string
    var selectedRegion: string
    var selectedCategory: string

    constructor ()
      ensures Current() == DefaultFilters()
    {
      searchQuery := "";
      selectedRegion := All;
      selectedCategory := All;
    }

    function Current(): Filters
      reads this
    {
      Filters(searchQuery, selectedRegion, selectedCategory)
    }

    /** The reset control is shown exactly when some filter differs from its default. */
    predicate ShowsReset()
      reads this
      ensures ShowsReset() <==> Current() != DefaultFilters()
    {
      searchQuery != "" || selectedRegion != All || selectedCategory != All
    }

    method SetSearchQuery(query: string)
      modifies this
      ensures Current() == old(Current()).(searchQuery := query)
    {
      searchQuery := query;
    }

    method SetSelectedRegion(region: string)
      modifies this
      ensures Current() == old(Current()).(selectedRegion := region)
    {
      selectedRegion := region;
    }

    method SetSelectedCategory(category: string)
      modifies this
      ensures Current() == old(Current()).(selectedCategory := category)
    {
      selectedCategory := category;
    }

    /** Reset restores the defaults, hides itself, and lets every record through again. */
    method Reset()
      modifies this
      ensures Current() == DefaultFilters()
      ensures !ShowsReset()
      ensures forall data :: FilteredCount(data, Current()) == |data|
    {
      searchQuery := "";
      selectedRegion := All;
      selectedCategory := All;
      forall data ensures FilteredCount(data, Current()) == |data| {
        DefaultFiltersKeepAll(data);
      }
    }
  }
}
