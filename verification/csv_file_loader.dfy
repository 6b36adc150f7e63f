/** `CSVFileLoader`: one census map created with the loader and shared by all
    of its calls, so successive loads accumulate and a load that fails part
    way keeps the rows it had already put. */
module CsvFileLoader {
  import opened CensusTypes
  import opened CensusRepository

  datatype FileLoader = FileLoader(censusMap: CensusMap)

  /** The state after a call together with what the call returns. */
  datatype Step = Step(loader: FileLoader, result: Result<nat>)

  /** `new CSVFileLoader()`. */
  function NewLoader(): (l: FileLoader)
    ensures |l.censusMap| == 0
  {
    FileLoader(map[])
  }

  /** The private `loadCensusData(path, separator, schema)`: each delivered
      row is put into the shared map, and the call returns the size of the
      whole map, not the number of rows in this file. */
  function LoadCensusData(l: FileLoader, file: CsvFile, country: Country): (s: Step)
    ensures var p := Normalise(country, file);
      && s.loader.censusMap.Keys == l.censusMap.Keys + Names(p.rows)
      && (forall k :: k in l.censusMap && k !in Names(p.rows) ==> s.loader.censusMap[k] == l.censusMap[k])
      && (forall i :: 0 <= i < |p.rows| && LastOfName(p.rows, i) ==> s.loader.censusMap[p.rows[i].state] == p.rows[i])
      && (s.result.Ok? <==> p.fault.None?)
      && (s.result.Ok? ==> s.result.value == |s.loader.censusMap|)
      && (s.result.Err? ==> s.result.kind == Classify(p.fault.value))
    ensures KeyedByState(l.censusMap) ==> KeyedByState(s.loader.censusMap)
  {
    var p := Normalise(country, file);
    var m := PutRecords(l.censusMap, p.rows);
    match p.fault
    case Some(f) => Step(FileLoader(m), Err(Classify(f)))
    case None => Step(FileLoader(m), Ok(|m|))
  }

  /** `loadIndiaCensusData(path, separator)`. */
  function LoadIndiaCensusData(l: FileLoader, file: CsvFile): (s: Step)
    ensures s.loader.censusMap.Keys == l.censusMap.Keys + Names(Normalise(India, file).rows)
    ensures s.result.Ok? ==> s.result.value == |s.loader.censusMap|
  {
    LoadCensusData(l, file, India)
  }

  /** `loadUSCensusData(path, separator)`. */
  function LoadUSCensusData(l: FileLoader, file: CsvFile): (s: Step)
    ensures s.loader.censusMap.Keys == l.censusMap.Keys + Names(Normalise(US, file).rows)
    ensures s.result.Ok? ==> s.result.value == |s.loader.censusMap|
  {
    LoadCensusData(l, file, US)
  }

  /** The India and US loads differ only in the row schema: files whose rows
      normalise to the same records load identically. */
  lemma LoadsDifferOnlyInSchema(l: FileLoader, india: CsvFile, us: CsvFile)
    requires Normalise(India, india) == Normalise(US, us)
    ensures LoadIndiaCensusData(l, india) == LoadUSCensusData(l, us)
  {
  }

  /** `loadIndiaStateCode(path, separator)`: joins the delivered code rows into
      the shared map and returns its size, which the join never changes. */
  function LoadIndiaStateCode(l: FileLoader, file: CsvFile): (s: Step)
    ensures s.loader.censusMap.Keys == l.censusMap.Keys
    ensures forall k :: k in l.censusMap ==>
              s.loader.censusMap[k] == l.censusMap[k].(stateCode := s.loader.censusMap[k].stateCode)
    ensures forall k :: k in l.censusMap && k !in CodeNames(file.asCodes.rows) ==> s.loader.censusMap[k] == l.censusMap[k]
    ensures forall i :: 0 <= i < |file.asCodes.rows| && file.asCodes.rows[i].stateName in l.censusMap && LastCodeFor(file.asCodes.rows, i) ==>
              s.loader.censusMap[file.asCodes.rows[i].stateName].stateCode == file.asCodes.rows[i].stateCode
    ensures s.result.Ok? <==> file.asCodes.fault.None?
    ensures s.result.Ok? ==> s.result.value == |l.censusMap|
    ensures s.result.Err? ==> s.result.kind == Classify(file.asCodes.fault.value)
  {
    var m := JoinCodes(l.censusMap, file.asCodes.rows);
    JoinKeepsSize(l.censusMap, file.asCodes.rows);
    match file.asCodes.fault
    case Some(f) => Step(FileLoader(m), Err(Classify(f)))
    case None => Step(FileLoader(m), Ok(|m|))
  }

  /** Joining codes into an empty loader changes nothing and reports 0. */
  lemma JoinOnEmptyLoader(file: CsvFile)
    requires file.asCodes.fault.None?
    ensures LoadIndiaStateCode(NewLoader(), file) == Step(NewLoader(), Ok(0))
  {
    assert LoadIndiaStateCode(NewLoader(), file).loader.censusMap.Keys == {};
  }

  /** An India load into a new loader leaves every record uncoded. */
  lemma IndiaLoadUncoded(india: CsvFile)
    ensures NoneCoded(LoadIndiaCensusData(NewLoader(), india).loader.censusMap)
  {
    var rows := Normalise(India, india).rows;
    var m := LoadIndiaCensusData(NewLoader(), india).loader.censusMap;
    NormaliseIndiaUncoded(india);
    forall k | k in m ensures m[k].stateCode.None? {
      var i := LastOfNameExists(rows, k);
    }
  }

  /** An India load into a new loader followed by the code join: a state
      ends up coded exactly when some code row names it (the code rows all
      carrying a code). */
  lemma IndiaLoadThenCodesCodedIff(india: CsvFile, codes: CsvFile)
    requires forall i :: 0 <= i < |codes.asCodes.rows| ==> codes.asCodes.rows[i].stateCode.Some?
    ensures var m := LoadIndiaStateCode(LoadIndiaCensusData(NewLoader(), india).loader, codes).loader.censusMap;
            forall k :: k in m ==> (m[k].stateCode.Some? <==> k in CodeNames(codes.asCodes.rows))
  {
    var l := LoadIndiaCensusData(NewLoader(), india).loader;
    IndiaLoadUncoded(india);
    JoinCodedIff(l.censusMap, codes.asCodes.rows);
  }

  /** Loads accumulate: an India load followed by a US load on a new loader
      reports the number of distinct states across BOTH files. */
  lemma LoadsAccumulate(india: CsvFile, us: CsvFile)
    requires LoadIndiaCensusData(NewLoader(), india).result.Ok?
    requires LoadUSCensusData(LoadIndiaCensusData(NewLoader(), india).loader, us).result.Ok?
    ensures LoadUSCensusData(LoadIndiaCensusData(NewLoader(), india).loader, us).result.value
            == |Names(Normalise(India, india).rows) + Names(Normalise(US, us).rows)|
  {
    var s1 := LoadIndiaCensusData(NewLoader(), india);
    var s2 := LoadUSCensusData(s1.loader, us);
    assert s1.loader.censusMap.Keys == Names(Normalise(India, india).rows);
    assert |s2.loader.censusMap| == |s2.loader.censusMap.Keys|;
  }

  /** A load that fails part way still leaves the rows read before the fault
      in the shared map. */
  lemma FailedLoadKeepsReadRows(l: FileLoader, file: CsvFile, country: Country)
    requires Normalise(country, file).fault.Some?
    ensures LoadCensusData(l, file, country).result.Err?
    ensures Names(Normalise(country, file).rows) <= LoadCensusData(l, file, country).loader.censusMap.Keys
  {
  }
}
