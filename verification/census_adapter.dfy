/** `CensusAdapter` (with `CensusAdapterFactory` and its two subclasses folded
    into the country tag): a fresh census map per call, joined with state
    codes only for India and only when exactly two paths are given. */
module CensusAdapter {
  import opened CensusTypes
  import opened CensusRepository
  import CensusLoader

  /** The code rows this variant joins. */
  function JoinedCodes(country: Country, files: seq<CsvFile>): seq<StateCodeRow>
  {
    if country == India && |files| == 2 then files[1].asCodes.rows else []
  }

  /** `loadCensusData(separator, schema, paths...)`. A failure to open or
      parse the nested code file reaches the outer handlers and is reported
      like a failure of the census file. */
  function LoadCensusData(country: Country, files: seq<CsvFile>): (r: Result<CensusMap>)
    ensures |files| == 0 ==> r == Err(IncorrectDelimiterOrHeader)
    ensures r.Err? ==> r.kind != InvalidCountry
    ensures |files| > 0 ==>
      var census := Normalise(country, files[0]);
      var joins := country == India && |files| == 2;
      && (r.Ok? <==> census.fault.None? && (joins ==> files[1].asCodes.fault.None?))
      && (census.fault.Some? ==> r == Err(Classify(census.fault.value)))
      && (census.fault.None? && joins && files[1].asCodes.fault.Some? ==>
            r == Err(Classify(files[1].asCodes.fault.value)))
      && (r.Ok? ==> LoadedFrom(r.value, census.rows, JoinedCodes(country, files)))
  {
    if |files| == 0 then Err(IncorrectDelimiterOrHeader)
    else
      var census := Normalise(country, files[0]);
      match census.fault
      case Some(f) => Err(Classify(f))
      case None =>
        var m := Build(census.rows);
        match country
        case India =>
          if |files| == 2 then
            match files[1].asCodes.fault
            case Some(f) => Err(Classify(f))
            case None =>
              BuildThenJoinLoaded(census.rows, files[1].asCodes.rows);
              Ok(JoinCodes(m, files[1].asCodes.rows))
          else
            BuildLoaded(census.rows);
            Ok(m)
        case US =>
          BuildLoaded(census.rows);
          Ok(m)
  }

  /** A US load never joins: every record keeps the state id of the last
      row naming its state. */
  lemma USNeverJoins(files: seq<CsvFile>)
    requires LoadCensusData(US, files).Ok?
    ensures LoadCensusData(US, files).value == Build(Normalise(US, files[0]).rows)
  {
    BuildLoaded(Normalise(US, files[0]).rows);
    LoadedFromUnique(LoadCensusData(US, files).value, Build(Normalise(US, files[0]).rows), Normalise(US, files[0]).rows, []);
  }

  /** An India load with a code file leaves a record coded exactly when a code
      row (all of which carry a code) names its state. */
  lemma IndiaJoinCodedIff(files: seq<CsvFile>)
    requires |files| == 2 && LoadCensusData(India, files).Ok?
    requires forall i :: 0 <= i < |files[1].asCodes.rows| ==> files[1].asCodes.rows[i].stateCode.Some?
    ensures var m := LoadCensusData(India, files).value;
      forall k :: k in m ==> (m[k].stateCode.Some? <==> k in CodeNames(files[1].asCodes.rows))
  {
    var recs := Normalise(India, files[0]).rows;
    var codes := files[1].asCodes.rows;
    var m := LoadCensusData(India, files).value;
    BuildThenJoinLoaded(recs, codes);
    LoadedFromUnique(m, JoinCodes(Build(recs), codes), recs, codes);
    assert NoneCoded(Build(recs)) by {
      forall k | k in Build(recs) ensures Build(recs)[k].stateCode.None? {
        var i := LastOfNameExists(recs, k);
      }
    }
    JoinCodedIff(Build(recs), codes);
  }

  /** The two fresh-map loaders agree whenever both join or neither does:
      on one path, and on India with exactly two paths. */
  lemma AgreesWithCensusLoader(country: Country, files: seq<CsvFile>)
    requires |files| == 1 || (country == India && |files| == 2)
    ensures LoadCensusData(country, files) == CensusLoader.LoadCensusData(country, files)
  {
    var r1 := LoadCensusData(country, files);
    var r2 := CensusLoader.LoadCensusData(country, files);
    if r1.Ok? {
      LoadedFromUnique(r1.value, r2.value, Normalise(country, files[0]).rows, JoinedCodes(country, files));
    }
  }

  /** Where only `CensusLoader` joins (a US load with a second path, or an
      India load with three or more), the two loaders hold the same states
      with the same figures and differ at most in the state codes. */
  lemma DiffersFromCensusLoaderOnlyInCodes(country: Country, files: seq<CsvFile>)
    requires LoadCensusData(country, files).Ok? && CensusLoader.LoadCensusData(country, files).Ok?
    ensures var m1 := LoadCensusData(country, files).value;
            var m2 := CensusLoader.LoadCensusData(country, files).value;
            m1.Keys == m2.Keys && forall k :: k in m1 ==> m1[k] == m2[k].(stateCode := m1[k].stateCode)
  {
    var recs := Normalise(country, files[0]).rows;
    var m1 := LoadCensusData(country, files).value;
    var m2 := CensusLoader.LoadCensusData(country, files).value;
    forall k | k in m1 ensures m1[k] == m2[k].(stateCode := m1[k].stateCode) {
      var i := LastOfNameExists(recs, k);
    }
  }
}
