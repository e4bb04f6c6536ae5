/** The nearest-colour search of nearest-tailwind-colors: given an input
    colour and a flattened palette, reject an invalid input with a
    TypeError, drop the excluded names, annotate every remaining entry with
    its distance to the input in the chosen colour space, sort ascending by
    distance (stably) and keep the first `n`. */
module NearestTailwindColors {
  import opened Wrappers
  import opened JsArray

  /** The colour spaces a distance can be measured in. */
  datatype Space = Cmyk | Gl | Hcg | Hcl | Hsi | Hsl | Hsv | Lab | Lch | Oklab | Oklch | Rgb

  /** The colour library the search consults: `valid` says whether a string
      is a colour it can parse, `distance` measures two colour strings in a
      space. Both are left uninterpreted. */
  datatype ColorOracle = ColorOracle(valid: string -> bool, distance: (string, string, Space) -> real)

  /** The library's distances are never negative. */
  ghost predicate NonNegativeDistance(o: ColorOracle) {
    forall a, b, sp :: o.distance(a, b, sp) >= 0.0
  }

  /** One entry of the flattened palette: a colour name and its raw value. */
  datatype FlatEntry = FlatEntry(key: string, value: string)

  /** One result record: palette name, raw value, distance to the input. */
  datatype ColorOutput = ColorOutput(color: string, value: string, distance: real)

  /** The optional settings; `None` is an omitted option, replaced by its
      default. The `colors` option is not here: the search takes the
      flattening of whichever palette is in use as its own argument. */
  datatype Config = Config(n: Option<int>, excludeColors: Option<seq<string>>, space: Option<Space>) {

    /** `n`, by default 1. */
    function Number(): (r: int)
      ensures n.Some? ==> r == n.value
      ensures n.None? ==> r == 1
    {
      n.GetOr(1)
    }

    /** `excludeColors`, by default none. */
    function Excluded(): (r: seq<string>)
      ensures excludeColors.Some? ==> r == excludeColors.value
      ensures excludeColors.None? ==> r == []
    {
      excludeColors.GetOr([])
    }

    /** `space`, by default `Lab`. */
    function ColorSpace(): (r: Space)
      ensures space.Some? ==> r == space.value
      ensures space.None? ==> r == Lab
    {
      space.GetOr(Lab)
    }
  }

  /** What the search raises: the TypeError for an input colour the library
      cannot parse, or the library's own error for a palette value it cannot
      parse when measuring the distance to it. */
  datatype Error = TypeError(message: string) | UnparseableColor(value: string)

  const InvalidColorMessage: string := "Invalid color input"

  /** Palette names that are not comparable colours and are never returned. */
  const InvalidColors: seq<string> := ["inherit", "current", "transparent"]

  /** The fixed deny-list followed by the caller's exclusions. */
  function ColorsToExclude(excludeColors: seq<string>): (r: seq<string>)
    ensures forall c :: c in r <==> c in InvalidColors || c in excludeColors
  {
    InvalidColors + excludeColors
  }

  /** The filter callback: an entry stays iff its name is not excluded. */
  function IsIncluded(colorsToExclude: seq<string>): (keep: FlatEntry -> bool)
    ensures forall e :: keep(e) <==> e.key !in colorsToExclude
  {
    (e: FlatEntry) => e.key !in colorsToExclude
  }

  /** The palette entries whose name is not excluded, each as often as in
      `flatColors` and in the same order (see FlatColorArrayAppend). */
  function FlatColorArray(flatColors: seq<FlatEntry>, colorsToExclude: seq<string>): (r: seq<FlatEntry>)
    ensures forall e :: e in r <==> e in flatColors && e.key !in colorsToExclude
    ensures forall e :: multiset(r)[e] == if e.key in colorsToExclude then 0 else multiset(flatColors)[e]
  {
    Filter(IsIncluded(colorsToExclude), flatColors)
  }

  /** The exclusion filter keeps the relative order of the palette: it can be
      applied piecewise to any split of the palette. */
  lemma FlatColorArrayAppend(a: seq<FlatEntry>, b: seq<FlatEntry>, colorsToExclude: seq<string>)
    ensures FlatColorArray(a + b, colorsToExclude)
         == FlatColorArray(a, colorsToExclude) + FlatColorArray(b, colorsToExclude)
  {
    FilterAppend(IsIncluded(colorsToExclude), a, b);
  }

  /** The map callback: an entry's name as `color`, its value unchanged,
      and the library's distance from the input to that value. */
  function ToColorOutput(o: ColorOracle, inputColor: string, space: Space): (f: FlatEntry -> ColorOutput)
    ensures forall e :: f(e).color == e.key && f(e).value == e.value
    ensures forall e :: f(e).distance == o.distance(inputColor, e.value, space)
  {
    (e: FlatEntry) => ColorOutput(e.key, e.value, o.distance(inputColor, e.value, space))
  }

  /** The position of the first entry whose value the library cannot parse,
      which is where measuring the distances stops with an error. */
  function FirstUnparseable(o: ColorOracle, entries: seq<FlatEntry>): (r: Option<nat>)
    ensures r.None? <==> forall e :: e in entries ==> o.valid(e.value)
    ensures r.Some? ==> r.value < |entries| && !o.valid(entries[r.value].value)
    ensures r.Some? ==> forall j :: 0 <= j < r.value ==> o.valid(entries[j].value)
  {
    if entries == [] then None
    else if !o.valid(entries[0].value) then Some(0)
    else
      match FirstUnparseable(o, entries[1..])
      case None =>
        assert entries == [entries[0]] + entries[1..];
        None
      case Some(i) =>
        assert entries[i + 1] == entries[1..][i];
        Some(i + 1)
  }

  /** One record per entry, in entry order: the entry's name and unchanged
      value, and the library's distance from the input to that value. */
  function ColorDistances(o: ColorOracle, inputColor: string, flatColorArray: seq<FlatEntry>, space: Space)
    : (r: seq<ColorOutput>)
    ensures |r| == |flatColorArray|
    ensures forall i :: 0 <= i < |r| ==>
      && r[i].color == flatColorArray[i].key
      && r[i].value == flatColorArray[i].value
      && r[i].distance == o.distance(inputColor, flatColorArray[i].value, space)
  {
    Map(ToColorOutput(o, inputColor, space), flatColorArray)
  }

  /** The sort key: the comparator `a.distance - b.distance` orders by it. */
  function DistanceOf(c: ColorOutput): (d: real)
    ensures d == c.distance
  {
    c.distance
  }

  /** The entries of `flatColors` that `config` leaves eligible. */
  function Eligible(flatColors: seq<FlatEntry>, config: Config): seq<FlatEntry> {
    FlatColorArray(flatColors, ColorsToExclude(config.Excluded()))
  }

  /** The eligible entries annotated with their distances, in palette order. */
  function Candidates(o: ColorOracle, inputColor: string, flatColors: seq<FlatEntry>, config: Config)
    : seq<ColorOutput>
  {
    ColorDistances(o, inputColor, Eligible(flatColors, config), config.ColorSpace())
  }

  /** The search. An invalid input colour fails with the TypeError whatever
      the palette and settings. A valid one fails only when an eligible
      palette value cannot be parsed, with the first such value; excluded
      entries are never measured, so their values do not matter. */
  function GetNearestTailwindColors(o: ColorOracle, inputColor: string, flatColors: seq<FlatEntry>, config: Config)
    : (r: Result<seq<ColorOutput>, Error>)
    ensures !o.valid(inputColor) <==> r == Failure(TypeError(InvalidColorMessage))
    ensures r.Success? <==>
      o.valid(inputColor) && forall e :: e in Eligible(flatColors, config) ==> o.valid(e.value)
    ensures o.valid(inputColor) && r.Failure? ==>
      var eligible := Eligible(flatColors, config);
      exists i :: 0 <= i < |eligible| && r.error == UnparseableColor(eligible[i].value)
        && !o.valid(eligible[i].value) && forall j :: 0 <= j < i ==> o.valid(eligible[j].value)
  {
    if !o.valid(inputColor) then Failure(TypeError(InvalidColorMessage))
    else
      match FirstUnparseable(o, Eligible(flatColors, config))
      case Some(i) => Failure(UnparseableColor(Eligible(flatColors, config)[i].value))
      case None =>
        var colorDistances := Candidates(o, inputColor, flatColors, config);
        Success(Slice(SortBy(colorDistances, DistanceOf), config.Number()))
  }

  // ---------------------------------------------------------------------
  // Properties of a successful search

  /** A result record is one of the candidates. */
  lemma ResultAreCandidates(o: ColorOracle, inputColor: string, flatColors: seq<FlatEntry>, config: Config)
    requires GetNearestTailwindColors(o, inputColor, flatColors, config).Success?
    ensures var r := GetNearestTailwindColors(o, inputColor, flatColors, config).value;
      multiset(r) <= multiset(Candidates(o, inputColor, flatColors, config))
  {
    SortedPrefixOptimal(Candidates(o, inputColor, flatColors, config), DistanceOf, config.Number());
  }

  /** Every candidate comes from an eligible palette entry and carries that
      entry's name, its raw value and the library's distance to it. */
  lemma CandidateOrigin(o: ColorOracle, inputColor: string, flatColors: seq<FlatEntry>, config: Config, c: ColorOutput)
    requires c in Candidates(o, inputColor, flatColors, config)
    ensures FlatEntry(c.color, c.value) in Eligible(flatColors, config)
    ensures c.distance == o.distance(inputColor, c.value, config.ColorSpace())
  {
  }

  /** Each result record names a palette entry, carries its value unchanged,
      and its distance is the library's distance from the input to it. */
  lemma ResultRecordsFromPalette(o: ColorOracle, inputColor: string, flatColors: seq<FlatEntry>, config: Config)
    requires GetNearestTailwindColors(o, inputColor, flatColors, config).Success?
    ensures forall c :: c in GetNearestTailwindColors(o, inputColor, flatColors, config).value ==>
      && FlatEntry(c.color, c.value) in flatColors
      && c.distance == o.distance(inputColor, c.value, config.ColorSpace())
  {
    ResultAreCandidates(o, inputColor, flatColors, config);
    forall c | c in GetNearestTailwindColors(o, inputColor, flatColors, config).value
      ensures FlatEntry(c.color, c.value) in flatColors
      ensures c.distance == o.distance(inputColor, c.value, config.ColorSpace())
    {
      assert c in multiset(GetNearestTailwindColors(o, inputColor, flatColors, config).value);
      CandidateOrigin(o, inputColor, flatColors, config, c);
    }
  }

  /** No result is named "inherit", "current", "transparent" or any name the
      caller excluded, whatever its distance would have been. */
  lemma ResultExcludesColors(o: ColorOracle, inputColor: string, flatColors: seq<FlatEntry>, config: Config)
    requires GetNearestTailwindColors(o, inputColor, flatColors, config).Success?
    ensures forall c :: c in GetNearestTailwindColors(o, inputColor, flatColors, config).value ==>
      c.color !in InvalidColors && c.color !in config.Excluded()
  {
    ResultAreCandidates(o, inputColor, flatColors, config);
    forall c | c in GetNearestTailwindColors(o, inputColor, flatColors, config).value
      ensures c.color !in InvalidColors && c.color !in config.Excluded()
    {
      assert c in multiset(GetNearestTailwindColors(o, inputColor, flatColors, config).value);
      CandidateOrigin(o, inputColor, flatColors, config, c);
    }
  }

  /** The result holds `n` records, or every eligible entry when there are
      fewer; a negative `n` drops that many from the back, as `slice` does. */
  lemma ResultSize(o: ColorOracle, inputColor: string, flatColors: seq<FlatEntry>, config: Config)
    requires GetNearestTailwindColors(o, inputColor, flatColors, config).Success?
    ensures var r := GetNearestTailwindColors(o, inputColor, flatColors, config).value;
      var eligible := |Eligible(flatColors, config)|;
      && (config.Number() >= 0 ==> |r| == Min(config.Number(), eligible))
      && (config.Number() < 0 ==> |r| == Max(eligible + config.Number(), 0))
  {
    var cs := Candidates(o, inputColor, flatColors, config);
    assert |multiset(SortBy(cs, DistanceOf))| == |multiset(cs)|;
  }

  /** The result is in ascending order of distance. */
  lemma ResultSorted(o: ColorOracle, inputColor: string, flatColors: seq<FlatEntry>, config: Config)
    requires GetNearestTailwindColors(o, inputColor, flatColors, config).Success?
    ensures var r := GetNearestTailwindColors(o, inputColor, flatColors, config).value;
      && (forall i :: 0 <= i < |r| - 1 ==> r[i].distance <= r[i + 1].distance)
      && (forall i, j :: 0 <= i < j < |r| ==> r[i].distance <= r[j].distance)
  {
  }

  /** Stability: the records of any one distance are the first records of
      that distance among the candidates, in palette order. */
  lemma ResultStable(o: ColorOracle, inputColor: string, flatColors: seq<FlatEntry>, config: Config, d: real)
    requires GetNearestTailwindColors(o, inputColor, flatColors, config).Success?
    ensures var r := GetNearestTailwindColors(o, inputColor, flatColors, config).value;
      var tied := Filter(HasKey(DistanceOf, d), r);
      var all := Filter(HasKey(DistanceOf, d), Candidates(o, inputColor, flatColors, config));
      |tied| <= |all| && tied == all[..|tied|]
  {
    var cs := Candidates(o, inputColor, flatColors, config);
    var sorted := SortBy(cs, DistanceOf);
    var r := GetNearestTailwindColors(o, inputColor, flatColors, config).value;
    assert r == sorted[..|r|];
    FilterPrefix(HasKey(DistanceOf, d), sorted, |r|);
    SortByStable(cs, DistanceOf, d);
  }

  /** Optimality: no candidate left out of the result is nearer than any
      record in it, in particular than the last one. */
  lemma ResultOptimal(o: ColorOracle, inputColor: string, flatColors: seq<FlatEntry>, config: Config)
    requires GetNearestTailwindColors(o, inputColor, flatColors, config).Success?
    ensures var r := GetNearestTailwindColors(o, inputColor, flatColors, config).value;
      var cs := Candidates(o, inputColor, flatColors, config);
      && multiset(r) <= multiset(cs)
      && (forall x, c :: x in r && c in multiset(cs) - multiset(r) ==> x.distance <= c.distance)
      && (r != [] ==> forall c :: c in multiset(cs) - multiset(r) ==> r[|r| - 1].distance <= c.distance)
  {
    var cs := Candidates(o, inputColor, flatColors, config);
    var r := GetNearestTailwindColors(o, inputColor, flatColors, config).value;
    SortedPrefixOptimal(cs, DistanceOf, config.Number());
    forall x, c | x in r && c in multiset(cs) - multiset(r) ensures x.distance <= c.distance {
      assert DistanceOf(x) <= DistanceOf(c);
    }
  }

  /** A palette entry at distance zero puts a zero-distance record first:
      the first such entry in palette order. */
  lemma ExactMatchFirst(o: ColorOracle, inputColor: string, flatColors: seq<FlatEntry>, config: Config, e: FlatEntry)
    requires GetNearestTailwindColors(o, inputColor, flatColors, config).Success?
    requires NonNegativeDistance(o) && config.Number() >= 1
    requires e in Eligible(flatColors, config)
    requires o.distance(inputColor, e.value, config.ColorSpace()) == 0.0
    ensures var r := GetNearestTailwindColors(o, inputColor, flatColors, config).value;
      var zeros := Filter(HasKey(DistanceOf, 0.0), Candidates(o, inputColor, flatColors, config));
      r != [] && zeros != [] && r[0].distance == 0.0 && r[0] == zeros[0]
  {
    var eligible := Eligible(flatColors, config);
    var cs := Candidates(o, inputColor, flatColors, config);
    var sorted := SortBy(cs, DistanceOf);
    var i :| 0 <= i < |eligible| && eligible[i] == e;
    var c := cs[i];
    assert c.distance == 0.0;
    assert c in multiset(sorted);
    SortedFirstIsLeast(sorted, DistanceOf, c);
    assert sorted[0] in multiset(cs);
    CandidateOrigin(o, inputColor, flatColors, config, sorted[0]);
    assert sorted[0].distance == 0.0;
    SortByStable(cs, DistanceOf, 0.0);
    FilterHead(HasKey(DistanceOf, 0.0), sorted);
    ResultSize(o, inputColor, flatColors, config);
  }

  /** With every option omitted the search returns the single nearest
      record, measured in `Lab`, and only the three deny-list names are
      excluded. */
  lemma DefaultConfig(o: ColorOracle, inputColor: string, flatColors: seq<FlatEntry>)
    requires GetNearestTailwindColors(o, inputColor, flatColors, Config(None, None, None)).Success?
    ensures var r := GetNearestTailwindColors(o, inputColor, flatColors, Config(None, None, None)).value;
      && Eligible(flatColors, Config(None, None, None)) == FlatColorArray(flatColors, InvalidColors)
      && |r| == Min(1, |FlatColorArray(flatColors, InvalidColors)|)
      && forall c :: c in r ==> c.distance == o.distance(inputColor, c.value, Lab)
  {
    var config := Config(None, None, None);
    assert ColorsToExclude(config.Excluded()) == InvalidColors;
    ResultSize(o, inputColor, flatColors, config);
    ResultRecordsFromPalette(o, inputColor, flatColors, config);
  }

  /** The deny-list entries are never eligible, whatever the caller
      excludes. */
  lemma DenyListNeverEligible(flatColors: seq<FlatEntry>, config: Config, e: FlatEntry)
    requires e.key == "inherit" || e.key == "current" || e.key == "transparent"
    ensures e !in Eligible(flatColors, config)
  {
  }
}
