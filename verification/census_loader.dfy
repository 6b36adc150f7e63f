/** `CensusLoader`: a fresh census map per call, joined with the second
    file's state codes whenever a second path is given, whatever the country. */
module CensusLoader {
  import opened CensusTypes
  import opened CensusRepository

  /** `loadIndiaStateCode(path, separator, censusMap)`: the file's code rows
      joined into the map, or the kind of the fault reading them. */
  function LoadIndiaStateCode(m: CensusMap, file: CsvFile): (r: Result<CensusMap>)
    ensures r.Ok? <==> file.asCodes.fault.None?
    ensures r.Err? ==> r.kind == Classify(file.asCodes.fault.value)
    ensures r.Ok? ==> r.value.Keys == m.Keys && |r.value| == |m|
    ensures r.Ok? ==> forall k :: k in m ==> r.value[k] == m[k].(stateCode := r.value[k].stateCode)
    ensures r.Ok? ==> forall k :: k in m && k !in CodeNames(file.asCodes.rows) ==> r.value[k] == m[k]
    ensures r.Ok? ==> forall i :: 0 <= i < |file.asCodes.rows| && file.asCodes.rows[i].stateName in m && LastCodeFor(file.asCodes.rows, i) ==>
              r.value[file.asCodes.rows[i].stateName].stateCode == file.asCodes.rows[i].stateCode
  {
    match file.asCodes.fault
    case Some(f) => Err(Classify(f))
    case None => JoinKeepsSize(m, file.asCodes.rows); Ok(JoinCodes(m, file.asCodes.rows))
  }

  /** The code rows this loader joins: the second file's, when there is one. */
  function JoinedCodes(files: seq<CsvFile>): seq<StateCodeRow>
  {
    if |files| >= 2 then files[1].asCodes.rows else []
  }

  /** `loadCensusData(country, separator, paths...)`: the country selects the
      row schema (the `Country` enum has no third value, so the
      `INVALID_COUNTRY` branch cannot be reached). With no path at all the
      out-of-range `csvFilePath[0]` is caught as a runtime failure. */
  function LoadCensusData(country: Country, files: seq<CsvFile>): (r: Result<CensusMap>)
    ensures |files| == 0 ==> r == Err(IncorrectDelimiterOrHeader)
    ensures r.Err? ==> r.kind != InvalidCountry
    ensures |files| > 0 ==>
      var census := Normalise(country, files[0]);
      && (r.Ok? <==> census.fault.None? && (|files| >= 2 ==> files[1].asCodes.fault.None?))
      && (census.fault.Some? ==> r == Err(Classify(census.fault.value)))
      && (census.fault.None? && |files| >= 2 && files[1].asCodes.fault.Some? ==>
            r == Err(Classify(files[1].asCodes.fault.value)))
      && (r.Ok? ==> LoadedFrom(r.value, census.rows, JoinedCodes(files)))
  {
    if |files| == 0 then Err(IncorrectDelimiterOrHeader)
    else
      var census := Normalise(country, files[0]);
      match census.fault
      case Some(f) => Err(Classify(f))
      case None =>
        var m := Build(census.rows);
        if |files| == 1 then
          BuildLoaded(census.rows);
          Ok(m)
        else
          BuildThenJoinLoaded(census.rows, files[1].asCodes.rows);
          LoadIndiaStateCode(m, files[1])
  }

  /** Each call starts from an empty map: the records are exactly the file's
      states, and the count is the number of distinct state names. */
  lemma LoadCountsDistinctStates(country: Country, files: seq<CsvFile>)
    requires LoadCensusData(country, files).Ok?
    ensures |LoadCensusData(country, files).value| == |Names(Normalise(country, files[0]).rows)|
  {
    var m := LoadCensusData(country, files).value;
    assert m.Keys == Names(Normalise(country, files[0]).rows);
    assert |m| == |m.Keys|;
  }
}
