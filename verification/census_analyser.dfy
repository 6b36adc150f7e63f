/** `CensusAnalyser`: loads a country's census through the adapter, replacing
    its map, and produces the sorted views of that map in the row shape of the
    country the analyser was created for. */
module CensusAnalyser {
  import opened CensusTypes
  import opened CensusDao
  import opened CensusRepository
  import opened CensusSort
  import opened Lexicographic
  import CensusAdapter

  /** The analyser: the country given to its constructor, and the census map
      of the last successful load (`None` while the field is still null). */
  datatype Analyser = Analyser(country: Country, censusMap: Option<CensusMap>)

  /** `new CensusAnalyser(country)`. */
  function NewAnalyser(country: Country): (a: Analyser)
    ensures a.country == country && a.censusMap.None?
  {
    Analyser(country, None)
  }

  /** The analyser after a load, and what the load returns. */
  datatype Loaded = Loaded(analyser: Analyser, result: Result<nat>)

  /** `loadCensusData(country, separator, paths...)`: on success the map is
      replaced by the adapter's fresh map and its size returned; on failure
      the exception leaves the analyser as it was. */
  function LoadCensusData(a: Analyser, country: Country, files: seq<CsvFile>): (s: Loaded)
    ensures s.analyser.country == a.country
    ensures s.result.Err? ==> s.analyser == a
    ensures s.result.Err? ==> CensusAdapter.LoadCensusData(country, files) == Err(s.result.kind)
    ensures s.result.Err? ==> s.result.kind != InvalidCountry
    ensures |files| == 0 ==> s.result == Err(IncorrectDelimiterOrHeader)
    ensures s.result.Ok? <==> CensusAdapter.LoadCensusData(country, files).Ok?
    ensures s.result.Ok? ==> s.analyser.censusMap == Some(CensusAdapter.LoadCensusData(country, files).value)
    ensures s.result.Ok? ==> s.result.value == |s.analyser.censusMap.value|
  {
    match CensusAdapter.LoadCensusData(country, files)
    case Err(k) => Loaded(a, Err(k))
    case Ok(m) => Loaded(Analyser(a.country, Some(m)), Ok(|m|))
  }

  /** After a successful load the map holds one record per distinct state of
      the first file, keyed by its state name, and the load returns their
      number. */
  lemma LoadHoldsFileStates(a: Analyser, country: Country, files: seq<CsvFile>)
    requires LoadCensusData(a, country, files).result.Ok?
    ensures var s := LoadCensusData(a, country, files);
      && s.analyser.censusMap.value.Keys == Names(Normalise(country, files[0]).rows)
      && KeyedByState(s.analyser.censusMap.value)
      && s.result.value == |Names(Normalise(country, files[0]).rows)|
  {
    var m := LoadCensusData(a, country, files).analyser.censusMap.value;
    assert |m| == |m.Keys|;
  }

  /** Nothing from an earlier load survives a successful one: two analysers
      of the same country end up identical whatever maps they held before. */
  lemma LoadReplacesMap(a: Analyser, b: Analyser, country: Country, files: seq<CsvFile>)
    requires a.country == b.country
    requires LoadCensusData(a, country, files).result.Ok?
    ensures LoadCensusData(b, country, files) == LoadCensusData(a, country, files)
  {
  }

  /** Every record carries a state code. */
  ghost predicate AllCoded(m: CensusMap)
  {
    forall k :: k in m ==> m[k].stateCode.Some?
  }

  /** What sorting by `f` demands: a loaded map, and for the state code a
      code on every record once there are two records to compare (the
      comparator throws on a null key). */
  ghost predicate CanSort(a: Analyser, f: SortField)
  {
    a.censusMap.Some? && (f == StateCode ==> |a.censusMap.value| <= 1 || AllCoded(a.censusMap.value))
  }

  /** The sort order of `f` as it can be seen in a projected row. The India
      shape carries no state code, so it shows no order by code. */
  predicate DtoInOrder(f: SortField, d1: CensusDto, d2: CensusDto)
  {
    match (d1, d2)
    case (IndiaDto(x), IndiaDto(y)) =>
      (match f
       case State => LexLe(x.state, y.state)
       case StateCode => true
       case Population => x.population >= y.population
       case PopulationDensity => x.densityPerSqKm >= y.densityPerSqKm
       case TotalArea => x.areaInSqKm >= y.areaInSqKm)
    case (USDto(x), USDto(y)) =>
      (match f
       case State => LexLe(x.state, y.state)
       case StateCode => CodeLe(x.stateId, y.stateId)
       case Population => x.population >= y.population
       case PopulationDensity => x.populationDensity >= y.populationDensity
       case TotalArea => x.totalArea >= y.totalArea)
    case _ => false
  }

  ghost predicate DtoSortedBy(f: SortField, ds: seq<CensusDto>)
  {
    forall i, j :: 0 <= i < j < |ds| ==> DtoInOrder(f, ds[i], ds[j])
  }

  /** Projection into either row shape keeps the order of two records. */
  lemma ProjectKeepsOrder(f: SortField, a: CensusRecord, b: CensusRecord, country: Country)
    requires InOrder(f, a, b)
    ensures DtoInOrder(f, Project(a, country), Project(b, country))
  {
    if f == PopulationDensity {
      IntCastMonotonic(a.populationDensity, b.populationDensity);
    } else if f == TotalArea {
      IntCastMonotonic(a.totalArea, b.totalArea);
    }
  }

  /** Each record of a sorted stream projected by `getCensusDTO` into the
      row shape of `country`. */
  function ProjectAll(rs: seq<CensusRecord>, country: Country): (ds: seq<CensusDto>)
    ensures |ds| == |rs|
    ensures forall i :: 0 <= i < |rs| ==> ds[i] == Project(rs[i], country)
    ensures forall i :: 0 <= i < |ds| ==> (ds[i].IndiaDto? <==> country == India)
  {
    seq(|rs|, i requires 0 <= i < |rs| => Project(rs[i], country))
  }

  /** Projecting a sorted sequence gives a sequence sorted by the same field. */
  lemma ProjectAllSorted(f: SortField, rs: seq<CensusRecord>, country: Country)
    requires SortedBy(f, rs)
    ensures DtoSortedBy(f, ProjectAll(rs, country))
  {
    forall i, j | 0 <= i < j < |rs| ensures DtoInOrder(f, ProjectAll(rs, country)[i], ProjectAll(rs, country)[j]) {
      ProjectKeepsOrder(f, rs[i], rs[j], country);
    }
  }

  /** The two private helpers: the map's values sorted by `f` (reversed for
      the numeric fields) and projected into the row shape of `country`. */
  ghost function SortedView(m: CensusMap, f: SortField, country: Country): (ds: seq<CensusDto>)
    ensures |ds| == |m|
    ensures DtoSortedBy(f, ds)
    ensures forall k :: k in m ==> Project(m[k], country) in ds
    ensures forall i :: 0 <= i < |ds| ==> ProjectionOf(m, country, ds[i])
    ensures forall i :: 0 <= i < |ds| ==> (ds[i].IndiaDto? <==> country == India)
    ensures SortedProjection(m, f, country, ds)
  {
    var rs := SortedRecords(m, f);
    ProjectAllSorted(f, rs, country);
    ProjectAllMembers(m, rs, country);
    ProjectAll(rs, country)
  }

  /** `ds` is the projection of a permutation of the map's values sorted by
      `f`: the order of the view is the order of the records, including the
      state-code order the India row shape does not show. */
  ghost predicate SortedProjection(m: CensusMap, f: SortField, country: Country, ds: seq<CensusDto>)
  {
    exists rs :: SortedBy(f, rs) && multiset(rs) == multiset(Values(m)) && ds == ProjectAll(rs, country)
  }

  /** `d` is the projection of some record of `m`. */
  ghost predicate ProjectionOf(m: CensusMap, country: Country, d: CensusDto)
  {
    exists k :: k in m && d == Project(m[k], country)
  }

  /** Projecting a sequence that holds exactly the map's values gives one
      holding exactly the projected values. */
  lemma ProjectAllMembers(m: CensusMap, rs: seq<CensusRecord>, country: Country)
    requires forall k :: k in m ==> m[k] in rs
    requires forall i :: 0 <= i < |rs| ==> rs[i] in m.Values
    ensures forall k :: k in m ==> Project(m[k], country) in ProjectAll(rs, country)
    ensures forall i :: 0 <= i < |rs| ==> ProjectionOf(m, country, ProjectAll(rs, country)[i])
  {
    var ds := ProjectAll(rs, country);
    forall k | k in m ensures Project(m[k], country) in ds {
      var i :| 0 <= i < |rs| && rs[i] == m[k];
      assert ds[i] == Project(m[k], country);
    }
    forall i | 0 <= i < |ds| ensures ProjectionOf(m, country, ds[i]) {
      assert rs[i] in m.Values;
      var k :| k in m && m[k] == rs[i];
      assert ds[i] == Project(m[k], country);
    }
  }

  /** `getSortedCensusData(fieldName)` before serialisation: the sorted view
      in the analyser's OWN row shape; `None` (serialised as `null`) for an
      unrecognised name. */
  ghost function SortedCensusData(a: Analyser, fieldName: string): (r: Option<seq<CensusDto>>)
    requires ParseField(fieldName).Some? ==> CanSort(a, ParseField(fieldName).value)
    ensures r.None? <==> ParseField(fieldName).None?
    ensures r.Some? ==> |r.value| == |a.censusMap.value|
    ensures r.Some? ==> DtoSortedBy(ParseField(fieldName).value, r.value)
    ensures r.Some? ==> forall k :: k in a.censusMap.value ==> Project(a.censusMap.value[k], a.country) in r.value
    ensures r.Some? ==> forall i :: 0 <= i < |r.value| ==> ProjectionOf(a.censusMap.value, a.country, r.value[i])
    ensures r.Some? ==> SortedProjection(a.censusMap.value, ParseField(fieldName).value, a.country, r.value)
  {
    match ParseField(fieldName)
    case None => None
    case Some(f) => Some(SortedView(a.censusMap.value, f, a.country))
  }

  /** The state view of a map keyed by state has the same contents whichever
      order the map hands its entries out in. */
  lemma StateViewIsDeterministic(a: Analyser, ks: seq<string>)
    requires a.censusMap.Some? && KeyedByState(a.censusMap.value) && Enumerates(ks, a.censusMap.value)
    ensures SortedCensusData(a, "state") == Some(ProjectAll(SortBy(State, Lookup(a.censusMap.value, ks)), a.country))
  {
    var m := a.censusMap.value;
    StateSortIgnoresIterationOrder(m, IterationOrder(m), ks);
  }

  /** Reading the serialised rows back into unified records. */
  function ReadBackAll(ds: seq<CensusDto>): (rs: seq<CensusRecord>)
    ensures |rs| == |ds|
    ensures forall i :: 0 <= i < |ds| ==> rs[i] == ReadBack(ds[i])
  {
    seq(|ds|, i requires 0 <= i < |ds| => ReadBack(ds[i]))
  }

  /** The export file of each field `getJsonSortedCensusData` accepts. */
  function JsonExportPath(fieldName: string): Option<string>
  {
    if fieldName == "population" then Some("./IndiaStateCensusSortedByPopulation.json")
    else if fieldName == "populationDensity" then Some("./IndiaStateCensusSortedByDensity.json")
    else if fieldName == "totalArea" then Some("./IndiaStateCensusSortedByArea.json")
    else None
  }

  /** Only the three numeric fields are exported, each to its own file. */
  lemma JsonExportFields(fieldName: string)
    ensures JsonExportPath(fieldName).Some? <==>
            ParseField(fieldName).Some? && !Ascending(ParseField(fieldName).value)
    ensures forall other :: JsonExportPath(fieldName).Some? && JsonExportPath(other) == JsonExportPath(fieldName) ==> other == fieldName
  {
  }

  /** The density view of a loaded analyser is the density sort of its map. */
  lemma DensityView(a: Analyser)
    requires a.censusMap.Some?
    ensures SortedCensusData(a, "populationDensity") == Some(SortedView(a.censusMap.value, PopulationDensity, a.country))
  {
    assert ParseField("populationDensity") == Some(PopulationDensity) by {
      ParseFieldIsInverse("populationDensity", PopulationDensity);
    }
  }

  /** The read-back of the head of a density view: the state name survives;
      the density survives in the US row shape and reads back as 0 from the
      India row shape, which names it `densityPerSqKm`. */
  lemma DensityHeadReadBack(m: CensusMap, country: Country)
    requires |m| > 0
    ensures var h := ReadBackAll(SortedView(m, PopulationDensity, country))[0];
            var r := SortedRecords(m, PopulationDensity)[0];
            && h.state == r.state
            && (country == US ==> h.populationDensity == r.populationDensity)
            && (country == India ==> h.populationDensity == 0)
  {
    var rs := SortedRecords(m, PopulationDensity);
    assert SortedView(m, PopulationDensity, country)[0] == Project(rs[0], country);
  }

  /** `getJsonSortedCensusData(fieldName)`: the sorted view written to the
      field's file and read back as unified records; `Ok(None)` for any other
      name, the state name included. `fileOk` says whether the file could be
      written and reopened. */
  ghost function JsonSortedCensusData(a: Analyser, fieldName: string, fileOk: bool): (r: Result<Option<seq<CensusRecord>>>)
    requires JsonExportPath(fieldName).Some? ==> a.censusMap.Some?
    ensures JsonExportPath(fieldName).None? ==> r == Ok(None)
    ensures JsonExportPath(fieldName).Some? && !fileOk ==> r == Err(CsvFileProblem)
    ensures JsonExportPath(fieldName).Some? && fileOk ==> r.Ok? && r.value.Some? && ParseField(fieldName).Some?
    ensures r.Ok? && r.value.Some? ==> |r.value.value| == |a.censusMap.value|
    ensures r.Ok? && r.value.Some? ==> forall i :: 0 <= i < |r.value.value| ==> r.value.value[i].stateCode.None?
    ensures r.Ok? && r.value.Some? && a.country == US ==> SortedBy(ParseField(fieldName).value, r.value.value)
    ensures r.Ok? && r.value.Some? && a.country == India ==>
              forall i :: 0 <= i < |r.value.value| ==> r.value.value[i].populationDensity == 0 && r.value.value[i].totalArea == 0
    ensures r.Ok? && r.value.Some? && fieldName == "population" ==> SortedBy(Population, r.value.value)
    ensures r.Ok? && r.value.Some? ==>
              forall k :: k in a.censusMap.value ==> ReadBack(Project(a.censusMap.value[k], a.country)) in r.value.value
    ensures r.Ok? && r.value.Some? ==>
              forall i :: 0 <= i < |r.value.value| ==> ReadBackOf(a.censusMap.value, a.country, r.value.value[i])
    ensures r.Ok? && r.value.Some? ==>
              ReadBackOfSortedView(a.censusMap.value, ParseField(fieldName).value, a.country, r.value.value)
  {
    match JsonExportPath(fieldName)
    case None => Ok(None)
    case Some(_) =>
      if !fileOk then Err(CsvFileProblem)
      else
        JsonExportFields(fieldName);
        var f := ParseField(fieldName).value;
        assert fieldName == "population" ==> f == Population by {
          ParseFieldIsInverse(fieldName, Population);
        }
        var ds := SortedView(a.censusMap.value, f, a.country);
        ReadBackOfView(a.censusMap.value, f, a.country, ds);
        Ok(Some(ReadBackAll(ds)))
  }

  /** What a view holding exactly the projected records of `m`, sorted by
      `f`, keeps through the read-back. */
  lemma ReadBackOfView(m: CensusMap, f: SortField, country: Country, ds: seq<CensusDto>)
    requires |ds| == |m| && DtoSortedBy(f, ds)
    requires forall i :: 0 <= i < |ds| ==> (ds[i].IndiaDto? <==> country == India)
    requires forall k :: k in m ==> Project(m[k], country) in ds
    requires forall i :: 0 <= i < |ds| ==> ProjectionOf(m, country, ds[i])
    requires SortedProjection(m, f, country, ds)
    ensures ReadBackOfSortedView(m, f, country, ReadBackAll(ds))
    ensures var rs := ReadBackAll(ds);
      && |rs| == |m|
      && (forall i :: 0 <= i < |rs| ==> rs[i].stateCode.None?)
      && (country == US ==> SortedBy(f, rs))
      && (country == India ==> forall i :: 0 <= i < |rs| ==> rs[i].populationDensity == 0 && rs[i].totalArea == 0)
      && (f == Population ==> SortedBy(Population, rs))
      && (forall k :: k in m ==> ReadBack(Project(m[k], country)) in rs)
      && (forall i :: 0 <= i < |rs| ==> ReadBackOf(m, country, rs[i]))
  {
    ReadBackViewFacts(f, ds, country);
    ReadBackMembers(m, country, ds);
  }

  /** `rs` is the read-back of a sorted view of `m`: its order is that of a
      sorted permutation of the map's values, even where the read-back
      zeroes the sort key (area and density in the India row shape). */
  ghost predicate ReadBackOfSortedView(m: CensusMap, f: SortField, country: Country, rs: seq<CensusRecord>)
  {
    exists ds :: SortedProjection(m, f, country, ds) && rs == ReadBackAll(ds)
  }

  /** `x` is the read-back of the projection of some record of `m`. */
  ghost predicate ReadBackOf(m: CensusMap, country: Country, x: CensusRecord)
  {
    exists k :: k in m && x == ReadBack(Project(m[k], country))
  }

  /** A view holding exactly the projected records reads back as exactly the
      read-back records. */
  lemma ReadBackMembers(m: CensusMap, country: Country, ds: seq<CensusDto>)
    requires forall k :: k in m ==> Project(m[k], country) in ds
    requires forall i :: 0 <= i < |ds| ==> ProjectionOf(m, country, ds[i])
    ensures forall k :: k in m ==> ReadBack(Project(m[k], country)) in ReadBackAll(ds)
    ensures forall i :: 0 <= i < |ds| ==> ReadBackOf(m, country, ReadBackAll(ds)[i])
  {
    var back := ReadBackAll(ds);
    forall k | k in m ensures ReadBack(Project(m[k], country)) in back {
      var i :| 0 <= i < |ds| && ds[i] == Project(m[k], country);
      assert back[i] == ReadBack(ds[i]);
    }
    forall i | 0 <= i < |ds| ensures ReadBackOf(m, country, back[i]) {
      assert ProjectionOf(m, country, ds[i]);
      var k :| k in m && ds[i] == Project(m[k], country);
      assert back[i] == ReadBack(Project(m[k], country));
    }
  }

  /** What survives the serialisation of a sorted view and its read-back:
      the number of rows always; the order only in the US row shape; in the
      India row shape the area and density read back as 0. No code survives
      either shape. */
  lemma ReadBackViewFacts(f: SortField, ds: seq<CensusDto>, country: Country)
    requires DtoSortedBy(f, ds)
    requires forall i :: 0 <= i < |ds| ==> (ds[i].IndiaDto? <==> country == India)
    ensures |ReadBackAll(ds)| == |ds|
    ensures forall i :: 0 <= i < |ds| ==> ReadBackAll(ds)[i].stateCode.None?
    ensures country == US ==> SortedBy(f, ReadBackAll(ds))
    ensures country == India ==> forall i :: 0 <= i < |ds| ==>
              ReadBackAll(ds)[i].populationDensity == 0 && ReadBackAll(ds)[i].totalArea == 0
    ensures country == India && f == Population ==> SortedBy(f, ReadBackAll(ds))
  {
    ReadBackShapeFacts(ds);
    if country == US {
      USReadBackSorted(f, ds);
    } else if f == Population {
      IndiaReadBackSortedByPopulation(ds);
    }
  }

  /** The population survives the India row shape, and with it the order
      by population. */
  lemma IndiaReadBackSortedByPopulation(ds: seq<CensusDto>)
    requires DtoSortedBy(Population, ds)
    requires forall i :: 0 <= i < |ds| ==> ds[i].IndiaDto?
    ensures SortedBy(Population, ReadBackAll(ds))
  {
    var back := ReadBackAll(ds);
    forall i, j | 0 <= i < j < |back| ensures InOrder(Population, back[i], back[j]) {
      assert DtoInOrder(Population, ds[i], ds[j]);
    }
  }

  /** No code survives a read-back, and neither do the area and density of
      rows in the India shape. */
  lemma ReadBackShapeFacts(ds: seq<CensusDto>)
    ensures forall i :: 0 <= i < |ds| ==> ReadBackAll(ds)[i].stateCode.None?
    ensures forall i :: 0 <= i < |ds| && ds[i].IndiaDto? ==>
              ReadBackAll(ds)[i].populationDensity == 0 && ReadBackAll(ds)[i].totalArea == 0
  {
  }

  /** Reading back a sorted view in the US row shape keeps it sorted. */
  lemma USReadBackSorted(f: SortField, ds: seq<CensusDto>)
    requires DtoSortedBy(f, ds)
    requires forall i :: 0 <= i < |ds| ==> ds[i].USDto?
    ensures SortedBy(f, ReadBackAll(ds))
  {
    var back := ReadBackAll(ds);
    forall i, j | 0 <= i < j < |back| ensures InOrder(f, back[i], back[j]) {
      assert DtoInOrder(f, ds[i], ds[j]);
    }
  }

  /** The outcome of `getMostDenselyPopulatedState`: a state name, the kind
      of a load failure, or an index out of range that no handler catches
      (fewer than two paths, or a file without records). */
  datatype Densest = Densest(state: string) | Failed(kind: ErrorKind) | Aborted

  /** The analyser after the comparison (it keeps the last loaded map) and
      the outcome. */
  datatype Comparison = Comparison(analyser: Analyser, outcome: Densest)

  /** The census of the first path and of the second, as the comparison
      loads them. */
  function IndiaLoad(files: seq<CsvFile>): Result<CensusMap>
  {
    if |files| == 0 then Err(IncorrectDelimiterOrHeader) else CensusAdapter.LoadCensusData(India, [files[0]])
  }

  function USLoad(files: seq<CsvFile>): Result<CensusMap>
  {
    if |files| < 2 then Err(IncorrectDelimiterOrHeader) else CensusAdapter.LoadCensusData(US, [files[1]])
  }

  /** When both loads succeed, the first leaves the India map and the second
      the US map, in an analyser of the original country. */
  lemma LoadsBothMaps(a: Analyser, files: seq<CsvFile>)
    requires IndiaLoad(files).Ok? && USLoad(files).Ok?
    ensures LoadCensusData(a, India, [files[0]]) == Loaded(Analyser(a.country, Some(IndiaLoad(files).value)), Ok(|IndiaLoad(files).value|))
    ensures LoadCensusData(Analyser(a.country, Some(IndiaLoad(files).value)), US, [files[1]])
            == Loaded(Analyser(a.country, Some(USLoad(files).value)), Ok(|USLoad(files).value|))
  {
  }

  /** `getMostDenselyPopulatedState(separator, paths...)` as written: each
      country's density view is serialised in the ANALYSER's row shape and
      read back, and the heads' read-back densities are compared; the India
      head wins only when strictly denser. */
  ghost function MostDenselyPopulatedState(a: Analyser, files: seq<CsvFile>): (c: Comparison)
    ensures c.analyser.country == a.country
    ensures c.outcome.Densest? ==> IndiaLoad(files).Ok? && USLoad(files).Ok?
    ensures c.outcome.Densest? ==> c.analyser.censusMap == Some(USLoad(files).value)
    ensures c.outcome.Failed? ==> c.outcome.kind != InvalidCountry
    ensures |files| < 2 ==> !c.outcome.Densest?
    ensures |files| == 0 ==> c == Comparison(a, Aborted)
    ensures |files| > 0 && IndiaLoad(files).Err? ==> c == Comparison(a, Failed(IndiaLoad(files).kind))
    ensures IndiaLoad(files).Ok? && |files| < 2 ==> c.outcome == Aborted
    ensures IndiaLoad(files).Ok? && |files| >= 2 && USLoad(files).Err? ==> c.outcome == Failed(USLoad(files).kind)
    ensures IndiaLoad(files).Ok? && USLoad(files).Ok? ==>
              (c.outcome.Densest? <==> |IndiaLoad(files).value| > 0 && |USLoad(files).value| > 0)
    ensures IndiaLoad(files).Ok? && USLoad(files).Ok? && !c.outcome.Densest? ==> c.outcome == Aborted
  {
    if |files| == 0 then Comparison(a, Aborted)
    else
      var s1 := LoadCensusData(a, India, [files[0]]);
      if s1.result.Err? then Comparison(s1.analyser, Failed(s1.result.kind))
      else AfterIndiaLoad(s1.analyser, files)
  }

  /** The rest of `getMostDenselyPopulatedState` once the India map is
      loaded: the India density list, the US load, its density list, and the
      comparison. */
  ghost function AfterIndiaLoad(a1: Analyser, files: seq<CsvFile>): (c: Comparison)
    requires a1.censusMap.Some? && |files| > 0
    ensures c.analyser.country == a1.country
    ensures c.outcome.Densest? ==> USLoad(files).Ok? && c.analyser.censusMap == Some(USLoad(files).value)
    ensures c.outcome.Failed? ==> c.outcome.kind != InvalidCountry
    ensures |files| < 2 ==> c.outcome == Aborted
    ensures |files| >= 2 && USLoad(files).Err? ==> c.outcome == Failed(USLoad(files).kind)
    ensures USLoad(files).Ok? ==> (c.outcome.Densest? <==> |a1.censusMap.value| > 0 && |USLoad(files).value| > 0)
    ensures USLoad(files).Ok? && !c.outcome.Densest? ==> c.outcome == Aborted
  {
    if |files| < 2 then Comparison(a1, Aborted)
    else
      var s2 := LoadCensusData(a1, US, [files[1]]);
      if s2.result.Err? then Comparison(s2.analyser, Failed(s2.result.kind))
      else CompareLists(s2.analyser, DensityList(a1), DensityList(s2.analyser))
  }

  /** The final comparison: the first rows of the two read-back lists
      compared on density; an empty list has no first row. */
  function CompareLists(a2: Analyser, list1: seq<CensusRecord>, list2: seq<CensusRecord>): (c: Comparison)
    ensures c.analyser == a2
    ensures c.outcome.Densest? <==> |list1| > 0 && |list2| > 0
    ensures c.outcome.Densest? ==> c.outcome.state == list1[0].state || c.outcome.state == list2[0].state
    ensures c.outcome.Densest? && c.outcome.state != list2[0].state ==> list1[0].populationDensity > list2[0].populationDensity
    ensures |list1| > 0 && |list2| > 0 ==>
              c.outcome == Densest(if list1[0].populationDensity > list2[0].populationDensity then list1[0].state else list2[0].state)
    ensures !c.outcome.Densest? ==> c.outcome == Aborted
  {
    if |list1| == 0 || |list2| == 0 then Comparison(a2, Aborted)
    else if list1[0].populationDensity > list2[0].populationDensity then Comparison(a2, Densest(list1[0].state))
    else Comparison(a2, Densest(list2[0].state))
  }

  /** A record at least as dense as every record of `m`. */
  ghost predicate DensestIn(r: CensusRecord, m: CensusMap)
  {
    forall k :: k in m ==> r.populationDensity >= m[k].populationDensity
  }

  /** The densest record across two maps, compared exactly; on a tie the
      second (US) map's head is chosen, as the strict comparison does. */
  ghost function DensestAcross(india: CensusMap, us: CensusMap): (r: CensusRecord)
    requires |india| > 0 && |us| > 0
    ensures r in india.Values || r in us.Values
    ensures DensestIn(r, india) && DensestIn(r, us)
    ensures r !in us.Values ==> forall k :: k in us ==> r.populationDensity > us[k].populationDensity
  {
    var h1 := SortedRecords(india, PopulationDensity)[0];
    var h2 := SortedRecords(us, PopulationDensity)[0];
    SortedHeadIsExtreme(india, PopulationDensity);
    SortedHeadIsExtreme(us, PopulationDensity);
    if h1.populationDensity > h2.populationDensity then h1 else h2
  }

  /** The comparison as evidently intended: the heads of the two density
      sorts are compared on their own densities, before any projection. */
  ghost function MostDenselyPopulatedStateCorrected(a: Analyser, files: seq<CsvFile>): (c: Comparison)
    ensures c.analyser.country == a.country
    ensures c.outcome.Densest? ==> IndiaLoad(files).Ok? && USLoad(files).Ok?
    ensures c.outcome.Densest? ==> c.analyser.censusMap == Some(USLoad(files).value)
    ensures c.outcome.Failed? ==> c.outcome.kind != InvalidCountry
    ensures |files| < 2 ==> !c.outcome.Densest?
    ensures |files| == 0 ==> c == Comparison(a, Aborted)
    ensures |files| > 0 && IndiaLoad(files).Err? ==> c == Comparison(a, Failed(IndiaLoad(files).kind))
    ensures IndiaLoad(files).Ok? && |files| < 2 ==> c.outcome == Aborted
    ensures IndiaLoad(files).Ok? && |files| >= 2 && USLoad(files).Err? ==> c.outcome == Failed(USLoad(files).kind)
    ensures IndiaLoad(files).Ok? && USLoad(files).Ok? ==>
              (c.outcome.Densest? <==> |IndiaLoad(files).value| > 0 && |USLoad(files).value| > 0)
    ensures IndiaLoad(files).Ok? && USLoad(files).Ok? && !c.outcome.Densest? ==> c.outcome == Aborted
  {
    if |files| == 0 then Comparison(a, Aborted)
    else
      var s1 := LoadCensusData(a, India, [files[0]]);
      if s1.result.Err? then Comparison(s1.analyser, Failed(s1.result.kind))
      else CorrectedAfterIndiaLoad(s1.analyser, files)
  }

  ghost function CorrectedAfterIndiaLoad(a1: Analyser, files: seq<CsvFile>): (c: Comparison)
    requires a1.censusMap.Some? && |files| > 0
    ensures c.analyser.country == a1.country
    ensures c.outcome.Densest? ==> USLoad(files).Ok? && c.analyser.censusMap == Some(USLoad(files).value)
    ensures c.outcome.Failed? ==> c.outcome.kind != InvalidCountry
    ensures |files| < 2 ==> c.outcome == Aborted
    ensures |files| >= 2 && USLoad(files).Err? ==> c.outcome == Failed(USLoad(files).kind)
    ensures USLoad(files).Ok? ==> (c.outcome.Densest? <==> |a1.censusMap.value| > 0 && |USLoad(files).value| > 0)
    ensures USLoad(files).Ok? && !c.outcome.Densest? ==> c.outcome == Aborted
  {
    if |files| < 2 then Comparison(a1, Aborted)
    else
      var s2 := LoadCensusData(a1, US, [files[1]]);
      if s2.result.Err? then Comparison(s2.analyser, Failed(s2.result.kind))
      else CompareMaps(s2.analyser, a1.censusMap.value, s2.analyser.censusMap.value)
  }

  /** `state` is the state of a record of one of the two maps at least as
      dense as every record of both. */
  ghost predicate NamesDensest(india: CensusMap, us: CensusMap, state: string)
  {
    exists r :: (r in india.Values || r in us.Values) && r.state == state && DensestIn(r, india) && DensestIn(r, us)
  }

  /** The densest record across the two maps, when neither is empty. */
  ghost function CompareMaps(a2: Analyser, india: CensusMap, us: CensusMap): (c: Comparison)
    ensures c.analyser == a2
    ensures c.outcome.Densest? <==> |india| > 0 && |us| > 0
    ensures !c.outcome.Densest? ==> c.outcome == Aborted
    ensures c.outcome.Densest? ==> NamesDensest(india, us, c.outcome.state)
  {
    if |india| == 0 || |us| == 0 then Comparison(a2, Aborted)
    else
      var r := DensestAcross(india, us);
      assert NamesDensest(india, us, r.state);
      Comparison(a2, Densest(r.state))
  }

  /** The density view of the analyser serialised and read back by the JSON
      library as unified records. */
  ghost function DensityList(a: Analyser): (l: seq<CensusRecord>)
    requires a.censusMap.Some?
    ensures |l| == |a.censusMap.value|
    ensures |l| > 0 ==> l[0] == DensityHead(a.censusMap.value, a.country)
  {
    DensityView(a);
    ReadBackAll(SortedCensusData(a, "populationDensity").value)
  }

  /** The read-back head of a density view in the row shape of `shape`. */
  ghost function DensityHead(m: CensusMap, shape: Country): (h: CensusRecord)
    requires |m| > 0
    ensures h.state == SortedRecords(m, PopulationDensity)[0].state
    ensures shape == US ==> h.populationDensity == SortedRecords(m, PopulationDensity)[0].populationDensity
    ensures shape == India ==> h.populationDensity == 0
  {
    DensityHeadReadBack(m, shape);
    ReadBackAll(SortedView(m, PopulationDensity, shape))[0]
  }

  /** The as-written comparison of two maps' density heads. */
  ghost function CompareHeads(india: CensusMap, us: CensusMap, shape: Country): (s: string)
    requires |india| > 0 && |us| > 0
    ensures DensityHead(india, shape).populationDensity > DensityHead(us, shape).populationDensity ==>
              s == SortedRecords(india, PopulationDensity)[0].state
    ensures DensityHead(india, shape).populationDensity <= DensityHead(us, shape).populationDensity ==>
              s == SortedRecords(us, PopulationDensity)[0].state
  {
    var h1 := DensityHead(india, shape);
    var h2 := DensityHead(us, shape);
    if h1.populationDensity > h2.populationDensity then h1.state else h2.state
  }

  /** Once both loads succeed, the as-written outcome compares the heads of
      the two maps' density lists in the analyser's row shape. */
  lemma AsWrittenUnfolds(a: Analyser, files: seq<CsvFile>)
    requires IndiaLoad(files).Ok? && USLoad(files).Ok?
    ensures var a1 := Analyser(a.country, Some(IndiaLoad(files).value));
            var a2 := Analyser(a.country, Some(USLoad(files).value));
            MostDenselyPopulatedState(a, files) == CompareLists(a2, DensityList(a1), DensityList(a2))
  {
    LoadsBothMaps(a, files);
  }

  /** The as-written comparison, once both loads succeed, is `CompareHeads`
      in the analyser's row shape. */
  lemma AsWrittenComparesHeads(a: Analyser, files: seq<CsvFile>)
    requires IndiaLoad(files).Ok? && USLoad(files).Ok?
    requires |IndiaLoad(files).value| > 0 && |USLoad(files).value| > 0
    ensures MostDenselyPopulatedState(a, files).outcome
            == Densest(CompareHeads(IndiaLoad(files).value, USLoad(files).value, a.country))
  {
    AsWrittenUnfolds(a, files);
  }

  /** Once both loads succeed, the corrected version compares the two maps. */
  lemma CorrectedUnfolds(a: Analyser, files: seq<CsvFile>)
    requires IndiaLoad(files).Ok? && USLoad(files).Ok?
    ensures MostDenselyPopulatedStateCorrected(a, files)
            == CompareMaps(Analyser(a.country, Some(USLoad(files).value)), IndiaLoad(files).value, USLoad(files).value)
  {
    LoadsBothMaps(a, files);
  }

  /** The corrected comparison names a record of one of the two maps that
      is at least as dense as every record of both. */
  lemma CorrectedNamesDensest(a: Analyser, files: seq<CsvFile>)
    requires MostDenselyPopulatedStateCorrected(a, files).outcome.Densest?
    ensures IndiaLoad(files).Ok? && USLoad(files).Ok?
    ensures NamesDensest(IndiaLoad(files).value, USLoad(files).value, MostDenselyPopulatedStateCorrected(a, files).outcome.state)
  {
    CorrectedUnfolds(a, files);
  }

  /** In the US row shape the compared heads keep their densities, so the
      as-written comparison names the densest record across both maps. */
  lemma USShapeComparesExactly(india: CensusMap, us: CensusMap)
    requires |india| > 0 && |us| > 0
    ensures CompareHeads(india, us, US) == DensestAcross(india, us).state
  {
    DensityHeadReadBack(india, US);
    DensityHeadReadBack(us, US);
  }

  /** In the India row shape both densities read back as 0, so the US head
      is named whatever the data. */
  lemma IndiaShapeNamesUSHead(india: CensusMap, us: CensusMap)
    requires |india| > 0 && |us| > 0
    ensures CompareHeads(india, us, India) == SortedRecords(us, PopulationDensity)[0].state
  {
    DensityHeadReadBack(india, India);
    DensityHeadReadBack(us, India);
  }

  /** Until both maps are loaded and non-empty, the two versions fail, or
      abort, in the same way and leave the same analyser. */
  lemma SameOutcomeUntilCompared(a: Analyser, files: seq<CsvFile>)
    requires !(IndiaLoad(files).Ok? && USLoad(files).Ok? && |IndiaLoad(files).value| > 0 && |USLoad(files).value| > 0)
    ensures MostDenselyPopulatedState(a, files) == MostDenselyPopulatedStateCorrected(a, files)
  {
    if |files| > 0 {
      var s1 := LoadCensusData(a, India, [files[0]]);
      assert s1.result.Ok? <==> IndiaLoad(files).Ok?;
      if |files| >= 2 && s1.result.Ok? {
        var s2 := LoadCensusData(s1.analyser, US, [files[1]]);
        assert s2.result.Ok? <==> USLoad(files).Ok?;
      }
    }
  }

  /** For an analyser created for the US, the code as written computes the
      intended answer. */
  lemma USAnalyserIsCorrect(a: Analyser, files: seq<CsvFile>)
    requires a.country == US
    ensures MostDenselyPopulatedState(a, files) == MostDenselyPopulatedStateCorrected(a, files)
  {
    if IndiaLoad(files).Ok? && USLoad(files).Ok? && |IndiaLoad(files).value| > 0 && |USLoad(files).value| > 0 {
      AsWrittenComparesHeads(a, files);
      USShapeComparesExactly(IndiaLoad(files).value, USLoad(files).value);
      AsWrittenUnfolds(a, files);
      CorrectedUnfolds(a, files);
    } else {
      SameOutcomeUntilCompared(a, files);
    }
  }

  /** For an analyser created for India, the code as written always names
      the densest US state, even when an Indian state is strictly denser. */
  lemma IndiaAnalyserNamesUSHead(a: Analyser, files: seq<CsvFile>)
    requires a.country == India
    requires IndiaLoad(files).Ok? && USLoad(files).Ok?
    requires |IndiaLoad(files).value| > 0 && |USLoad(files).value| > 0
    ensures MostDenselyPopulatedState(a, files).outcome
            == Densest(SortedRecords(USLoad(files).value, PopulationDensity)[0].state)
  {
    AsWrittenComparesHeads(a, files);
    IndiaShapeNamesUSHead(IndiaLoad(files).value, USLoad(files).value);
  }

  /** One Indian state of density 100 against one US state of density 10:
      the code as written answers the US state, the corrected comparison the
      Indian one. */
  lemma IndiaAnalyserCounterexample()
    ensures var files := [SampleIndiaFile(), SampleUSFile()];
            && MostDenselyPopulatedState(NewAnalyser(India), files).outcome == Densest("B")
            && MostDenselyPopulatedStateCorrected(NewAnalyser(India), files).outcome == Densest("A")
  {
    var files := [SampleIndiaFile(), SampleUSFile()];
    SampleLoads();
    var india := IndiaLoad(files).value;
    var us := USLoad(files).value;
    IndiaAnalyserNamesUSHead(NewAnalyser(India), files);
    assert SortedRecords(us, PopulationDensity)[0] in us.Values;
    CorrectedUnfolds(NewAnalyser(India), files);
    var r := DensestAcross(india, us);
    assert r.populationDensity >= india["A"].populationDensity;
  }

  /** The two sample files load as one record each. */
  lemma SampleLoads()
    ensures IndiaLoad([SampleIndiaFile(), SampleUSFile()]) == Ok(map["A" := CensusRecord(None, "A", 1000, 10, 100)])
    ensures USLoad([SampleIndiaFile(), SampleUSFile()]) == Ok(map["B" := CensusRecord(None, "B", 1000, 100, 10)])
  {
    var a := CensusRecord(None, "A", 1000, 10, 100);
    var b := CensusRecord(None, "B", 1000, 100, 10);
    assert Normalise(India, SampleIndiaFile()).rows == [a];
    assert Normalise(US, SampleUSFile()).rows == [b];
    BuildSingleton(a);
    BuildSingleton(b);
  }

  /** A single record builds the one-entry map. */
  lemma BuildSingleton(r: CensusRecord)
    ensures Build([r]) == map[r.state := r]
  {
    assert Names([r]) == {r.state} by {
      NamesCons([r]);
      assert [r][1..] == [];
    }
    assert LastOfName([r], 0);
  }

  function SampleIndiaFile(): CsvFile
  {
    CsvFile(Parsed([IndiaCensusRow("A", 1000, 10, 100)], None), Parsed([], None), Parsed([], None))
  }

  function SampleUSFile(): CsvFile
  {
    CsvFile(Parsed([], None), Parsed([USCensusRow(None, "B", 1000, 100, 10)], None), Parsed([], None))
  }
}
