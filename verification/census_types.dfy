/** Shared vocabulary of the census pipeline: the parsed row schemas, the
    unified census record, the failure taxonomy and the abstract result of
    running the delimited-text parser over one file. */
module CensusTypes {

  datatype Option<+T> = None | Some(value: T)

  /** The outcome of a loading operation: a value, or the kind of the
      exception the operation throws. */
  datatype Result<+T> = Ok(value: T) | Err(kind: ErrorKind)

  /** The two countries of the analyser's `Country` enum. */
  datatype Country = India | US

  /** The exception kinds a load reports (the `ExceptionType` enum). */
  datatype ErrorKind = CsvFileProblem | InvalidCountry | IncorrectDelimiterOrHeader

  /** The kinds carried by the CSV builder library's own exception. */
  datatype BuilderKind = BuilderFileProblem | BuilderDelimiterOrHeader

  /** What can go wrong while a file is opened and its rows are read:
      the file does not exist, another I/O error, a runtime failure of the
      parser (wrong delimiter, missing header, a field that does not
      coerce), or an exception of the CSV builder library. */
  datatype Fault = NoSuchFile | IoFailure | RuntimeFailure | BuilderFailure(builderKind: BuilderKind)

  /** The kind each catch clause of a loader reports for a fault. */
  function Classify(f: Fault): (k: ErrorKind)
    ensures k != InvalidCountry
    ensures k == CsvFileProblem <==> (f.NoSuchFile? || f.IoFailure? || f == BuilderFailure(BuilderFileProblem))
  {
    match f
    case NoSuchFile => CsvFileProblem
    case IoFailure => CsvFileProblem
    case RuntimeFailure => IncorrectDelimiterOrHeader
    case BuilderFailure(BuilderFileProblem) => CsvFileProblem
    case BuilderFailure(BuilderDelimiterOrHeader) => IncorrectDelimiterOrHeader
  }

  /** The rows the parser delivers, in file order, before it either reaches
      the end of the file (`fault == None`) or throws `fault`. */
  datatype Parsed<+T> = Parsed(rows: seq<T>, fault: Option<Fault>)

  /** A Java `int` / `Integer`. */
  type Int32 = x: int | -0x8000_0000 <= x < 0x8000_0000

  /** One row of the India census file. */
  datatype IndiaCensusRow = IndiaCensusRow(state: string, population: Int32, areaInSqKm: Int32, densityPerSqKm: Int32)

  /** One row of the US census file (the fields the pipeline reads).
      Area and density are `double` in the program and integers here. */
  datatype USCensusRow = USCensusRow(stateId: Option<string>, state: string, population: Int32, totalArea: int, populationDensity: int)

  /** One row of the India state-code file (the fields the join reads). */
  datatype StateCodeRow = StateCodeRow(stateName: string, stateCode: Option<string>)

  /** A census file as the parser sees it under each of the three row
      schemas, with the delimiter already applied. */
  datatype CsvFile = CsvFile(asIndia: Parsed<IndiaCensusRow>, asUS: Parsed<USCensusRow>, asCodes: Parsed<StateCodeRow>)

  /** The unified census record; `stateCode` is `None` while it is null. */
  datatype CensusRecord = CensusRecord(stateCode: Option<string>, state: string, population: Int32, totalArea: int, populationDensity: int)

  /** The census map: state name to record. */
  type CensusMap = map<string, CensusRecord>
}
