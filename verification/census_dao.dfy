/** Normalisation of parsed rows into the unified record (`CensusDAO`'s two
    constructors), projection of a record back into a country's row shape
    (`getCensusDTO`), and the structural read-back of such a row into a
    unified record, as the JSON library performs it by field name. */
module CensusDao {
  import opened CensusTypes

  /** `new CensusDAO(IndiaCensusCSV)`: state code stays null. */
  function FromIndiaRow(row: IndiaCensusRow): CensusRecord
  {
    CensusRecord(None, row.state, row.population, row.areaInSqKm, row.densityPerSqKm)
  }

  /** `new CensusDAO(USCensusCSV)`: the state id becomes the state code. */
  function FromUSRow(row: USCensusRow): CensusRecord
  {
    CensusRecord(row.stateId, row.state, row.population, row.totalArea, row.populationDensity)
  }

  /** The India constructor normalises field by field and leaves the code unset. */
  lemma FromIndiaRowFields(row: IndiaCensusRow)
    ensures var r := FromIndiaRow(row);
      && r.state == row.state && r.population == row.population
      && r.totalArea == row.areaInSqKm && r.populationDensity == row.densityPerSqKm
      && r.stateCode.None?
  {
  }

  /** The US constructor normalises field by field, the state id becoming the code. */
  lemma FromUSRowFields(row: USCensusRow)
    ensures var r := FromUSRow(row);
      && r.state == row.state && r.population == row.population
      && r.totalArea == row.totalArea && r.populationDensity == row.populationDensity
      && r.stateCode == row.stateId
  {
  }

  /** The four-argument `IndiaCensusCSV` constructor; note that its third
      parameter is the density and its fourth the area. */
  function NewIndiaCensusRow(state: string, population: Int32, populationDensity: Int32, totalArea: Int32): (row: IndiaCensusRow)
    ensures row.state == state && row.population == population
    ensures row.densityPerSqKm == populationDensity && row.areaInSqKm == totalArea
  {
    IndiaCensusRow(state, population, totalArea, populationDensity)
  }

  /** Java's `(int)` narrowing of a `double` with an integral value:
      values outside the `int` range saturate at its bounds. */
  function IntCast(x: int): (r: Int32)
    ensures -0x8000_0000 <= x < 0x8000_0000 ==> r == x
    ensures x < -0x8000_0000 ==> r == -0x8000_0000
    ensures x >= 0x8000_0000 ==> r == 0x7FFF_FFFF
  {
    if x < -0x8000_0000 then -0x8000_0000
    else if x >= 0x8000_0000 then 0x7FFF_FFFF
    else x
  }

  /** The narrowing cast never reverses the order of two values. */
  lemma IntCastMonotonic(x: int, y: int)
    requires x >= y
    ensures IntCast(x) >= IntCast(y)
  {
  }

  /** A record projected into a country's row shape: the object `getCensusDTO`
      returns and the JSON library serialises. */
  datatype CensusDto = IndiaDto(india: IndiaCensusRow) | USDto(us: USCensusRow)
  {
    function State(): string
    {
      match this
      case IndiaDto(r) => r.state
      case USDto(r) => r.state
    }
  }

  /** `CensusDAO.getCensusDTO(country)`. */
  function Project(r: CensusRecord, country: Country): (d: CensusDto)
    ensures d.State() == r.state
    ensures country == India <==> d.IndiaDto?
    ensures d.IndiaDto? ==> d.india.population == r.population
    ensures d.IndiaDto? ==> d.india.densityPerSqKm == IntCast(r.populationDensity)
    ensures d.IndiaDto? ==> d.india.areaInSqKm == IntCast(r.totalArea)
    ensures d.USDto? ==> d.us == USCensusRow(r.stateCode, r.state, r.population, r.totalArea, r.populationDensity)
  {
    if country == India then
      IndiaDto(NewIndiaCensusRow(r.state, r.population, IntCast(r.populationDensity), IntCast(r.totalArea)))
    else
      USDto(USCensusRow(r.stateCode, r.state, r.population, r.totalArea, r.populationDensity))
  }

  /** Round trip: normalising an India row and projecting it back as India
      gives the row back, field for field. */
  lemma IndiaRoundTrip(row: IndiaCensusRow)
    ensures Project(FromIndiaRow(row), India) == IndiaDto(row)
  {
  }

  /** Round trip: normalising a US row and projecting it back as US gives the
      row back, field for field. */
  lemma USRoundTrip(row: USCensusRow)
    ensures Project(FromUSRow(row), US) == USDto(row)
  {
  }

  /** Reading a serialised row back into a unified record: the JSON library
      matches fields by name, so only `state`, `population` and (in the US
      shape) `totalArea` and `populationDensity` survive; every other
      record field keeps its zero value. */
  function ReadBack(d: CensusDto): (r: CensusRecord)
    ensures r.stateCode.None?
    ensures r.state == d.State()
    ensures d.IndiaDto? ==> r.population == d.india.population && r.totalArea == 0 && r.populationDensity == 0
    ensures d.USDto? ==> r.population == d.us.population && r.totalArea == d.us.totalArea
                         && r.populationDensity == d.us.populationDensity
  {
    match d
    case IndiaDto(row) => CensusRecord(None, row.state, row.population, 0, 0)
    case USDto(row) => CensusRecord(None, row.state, row.population, row.totalArea, row.populationDensity)
  }

  /** Projecting as US and reading back keeps everything but the state code. */
  lemma USReadBackKeepsFigures(r: CensusRecord)
    ensures ReadBack(Project(r, US)) == r.(stateCode := None)
  {
  }

  /** Projecting as India and reading back loses both area and density. */
  lemma IndiaReadBackLosesDensity(r: CensusRecord)
    ensures ReadBack(Project(r, India)).populationDensity == 0
    ensures ReadBack(Project(r, India)).totalArea == 0
  {
  }
}
