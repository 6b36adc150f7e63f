# Census record pipeline of CensusAnalyser

This project models the record pipeline of the CensusAnalyser Java library in Dafny. The library loads Indian and US state census CSV files into a map from state name to a unified census record. The record is the `CensusDAO`; its state code is filled in from a second CSV file of Indian state codes.

On that map the library:
- sorts the records by one of five fields;
- projects each record back into the row shape of the analyser's country;
- optionally writes a sorted view to a JSON file and reads it back;
- compares the densest Indian state with the densest US state.

Modules, grouped by source class where one exists:

- `CensusTypes`: the shared vocabulary.
  - A CSV file as the rows a parser delivers before an optional fault.
  - The fault kinds and the error kind each is reported as.
  - The India, US and state-code row shapes.
  - The unified `CensusRecord` and the census map.
- `CensusDao`: the two `CensusDAO` constructors and `getCensusDTO`, the projection into a country's row shape. Also the Gson read-back of a projected row into a `CensusDAO`, which keeps only the fields whose names match.
- `Lexicographic`: the string order used by the state comparator.
- `CensusRepository`: the parts the three loaders share.
  - Normalising rows into records.
  - Building the map with `put`, where the last row of a state wins.
  - Joining state codes into it.
  - `LoadedFrom`, a reference characterisation of a loaded map, together with its uniqueness.
- `CensusLoader`, `CensusAdapter` and `CsvFileLoader`: the three loader variants, with lemmas relating them.
- `CensusSort`:
  - the field names and the comparators;
  - a functional insertion sort, proved sorted and a permutation;
  - the hash map's iteration order as an arbitrary fixed enumeration;
  - a proof that the state-sorted view does not depend on that order.
- `CensusAnalyser`:
  - the analyser state and `loadCensusData`;
  - `getSortedCensusData` and its two private helpers;
  - `getJsonSortedCensusData`;
  - `getMostDenselyPopulatedState`, both as written and as evidently intended (see Findings).

Sources in the table below are paths relative to the repository root.

## Model

| member | source | states |
|---|---|---|
| CensusTypes.Classify | src/main/java/com/bridgelabz/indianstatecensusanalyser/services/CensusLoader.java:77-95 | A missing file or another I/O failure is reported as CSV_FILE_PROBLEM. Any runtime failure, such as a wrong delimiter or header, is INCORRECT_DELIMITER_OR_HEADER. A CSV-builder failure keeps its own kind. No fault is ever reported as INVALID_COUNTRY. |
| CensusDao.FromIndiaRowFields | src/main/java/com/bridgelabz/indianstatecensusanalyser/model/CensusDAO.java:13-19 | A record made from an India row carries that row's state, population, area and density, and no state code. |
| CensusDao.FromUSRowFields | src/main/java/com/bridgelabz/indianstatecensusanalyser/model/CensusDAO.java:21-28 | A record made from a US row carries all five of its fields, with the state id as the state code. |
| CensusDao.NewIndiaCensusRow | src/main/java/com/bridgelabz/indianstatecensusanalyser/model/IndiaCensusCSV.java:23-29 | The four-argument constructor puts its third argument into `densityPerSqKm` and its fourth into `areaInSqKm`. |
| CensusDao.IntCast | src/main/java/com/bridgelabz/indianstatecensusanalyser/model/CensusDAO.java:33 | The `(int)` cast keeps an in-range value and saturates at the 32-bit bounds otherwise. |
| CensusDao.IntCastMonotonic | src/main/java/com/bridgelabz/indianstatecensusanalyser/model/CensusDAO.java:33 | The cast never reverses the order of two values. |
| CensusDao.Project | src/main/java/com/bridgelabz/indianstatecensusanalyser/model/CensusDAO.java:30-35 | INDIA selects the India shape and anything else the US shape. The state is always kept. The India shape keeps the population and the cast area and density, and drops the code. The US shape keeps all five fields. |
| CensusDao.IndiaRoundTrip | src/main/java/com/bridgelabz/indianstatecensusanalyser/model/CensusDAO.java:13-35 | Building a record from an India row and projecting it for INDIA gives back the same row. |
| CensusDao.USRoundTrip | src/main/java/com/bridgelabz/indianstatecensusanalyser/model/CensusDAO.java:21-35 | Building a record from a US row and projecting it for US gives back the same row. |
| CensusDao.ReadBack | src/main/java/com/bridgelabz/indianstatecensusanalyser/services/CensusAnalyser.java:63-64 | Reading a projected row back as a `CensusDAO` keeps the state and population. It keeps area and density only from the US shape, because the India shape names them differently. It never yields a state code, because the US shape calls it `stateId`. |
| CensusDao.USReadBackKeepsFigures | src/main/java/com/bridgelabz/indianstatecensusanalyser/services/CensusAnalyser.java:167-169 | Sending a record through the US shape and back loses only its state code. |
| CensusDao.IndiaReadBackLosesDensity | src/main/java/com/bridgelabz/indianstatecensusanalyser/services/CensusAnalyser.java:167 | Sending a record through the India shape and back zeroes its area and density. |
| Lexicographic.LexLeTotal | src/main/java/com/bridgelabz/indianstatecensusanalyser/services/CensusAnalyser.java:80 | Any two state names are comparable. |
| Lexicographic.LexLeTransitive | src/main/java/com/bridgelabz/indianstatecensusanalyser/services/CensusAnalyser.java:80 | The state order is transitive. |
| Lexicographic.LexLeAntisymmetric | src/main/java/com/bridgelabz/indianstatecensusanalyser/services/CensusAnalyser.java:80 | Two names that are each at most the other are equal. |
| CensusRepository.Normalise | src/main/java/com/bridgelabz/indianstatecensusanalyser/services/CensusLoader.java:60-71 | The country picks the row schema. Every delivered row becomes one record, in order. The parser's fault is passed through. |
| CensusRepository.PutRecords | src/main/java/com/bridgelabz/indianstatecensusanalyser/services/CensusLoader.java:63-71 | After the puts, the keys are the old keys plus the rows' state names. Untouched keys keep their records. Each state holds its LAST row. A map whose records are keyed by their own state stays so. |
| CensusRepository.DistinctNamesCount | src/main/java/com/bridgelabz/indianstatecensusanalyser/services/CensusLoader.java:54-75 | When state names are distinct, a fresh load holds exactly one record per row. |
| CensusRepository.JoinCodes | src/main/java/com/bridgelabz/indianstatecensusanalyser/services/CensusLoader.java:114-116 | The join keeps the key set. Each record changes at most in its code. Records whose state no code row names are unchanged. A named state takes the code of the last code row naming it. |
| CensusRepository.JoinKeepsSize | src/main/java/com/bridgelabz/indianstatecensusanalyser/services/CensusLoader.java:114-116 | The join never changes the number of records. |
| CensusRepository.JoinCodedIff | src/main/java/com/bridgelabz/indianstatecensusanalyser/services/CensusLoader.java:114-116 | Take an uncoded map and code rows that all carry a code. After the join, a record has a code exactly when some code row names its state. |
| CensusRepository.BuildThenJoinLoaded | src/main/java/com/bridgelabz/indianstatecensusanalyser/services/CensusLoader.java:54-75 | A fresh build followed by the join meets the reference characterisation `LoadedFrom`. |
| CensusRepository.LoadedFromUnique | src/main/java/com/bridgelabz/indianstatecensusanalyser/services/CensusLoader.java:54-75 | At most one map meets `LoadedFrom` for given rows and codes. |
| CensusLoader.LoadIndiaStateCode | src/main/java/com/bridgelabz/indianstatecensusanalyser/services/CensusLoader.java:106-137 | A code file that reads without fault is joined in, changing only codes: the keys stay, a state no code row names is untouched, and a named state takes the code of the LAST row naming it. A faulty file reports its fault's kind. |
| CensusLoader.LoadCensusData | src/main/java/com/bridgelabz/indianstatecensusanalyser/services/CensusLoader.java:31-96 | No path at all gives INCORRECT_DELIMITER_OR_HEADER. The load succeeds exactly when both the census file and, if present, the second file read cleanly; a failure reports the fault of the file that failed. The result is the fresh map of the first file, joined with the second file's codes whenever a second path exists, for either country. |
| CensusLoader.LoadCountsDistinctStates | src/main/java/com/bridgelabz/indianstatecensusanalyser/services/CensusLoader.java:51-75 | A load holds as many records as the file has distinct state names. |
| CensusAdapter.LoadCensusData | src/main/java/com/bridgelabz/indianstatecensusanalyser/services/CensusAdapter.java:35-90 | This has the same error behaviour as the loader. Codes are joined only for India, and only when exactly two paths are given. A fault in the code file is reported like one in the census file. |
| CensusAdapter.USNeverJoins | src/main/java/com/bridgelabz/indianstatecensusanalyser/services/CensusAdapter.java:63-67 | A successful US load is the plain map of the first file. |
| CensusAdapter.IndiaJoinCodedIff | src/main/java/com/bridgelabz/indianstatecensusanalyser/services/CensusAdapter.java:46-61 | In a two-path India load, a state has a code exactly when the code file names it. |
| CensusAdapter.AgreesWithCensusLoader | src/main/java/com/bridgelabz/indianstatecensusanalyser/services/CensusAdapter.java:35-90 | With one path, or for India with two, the adapter and the loader give the same result. |
| CensusAdapter.DiffersFromCensusLoaderOnlyInCodes | src/main/java/com/bridgelabz/indianstatecensusanalyser/services/CensusAdapter.java:35-90 | When both succeed, their maps differ at most in state codes. |
| CsvFileLoader.NewLoader | src/main/java/com/bridgelabz/indianstatecensusanalyser/services/CSVFileLoader.java:23-28 | A new loader starts with an empty shared map. |
| CsvFileLoader.LoadCensusData | src/main/java/com/bridgelabz/indianstatecensusanalyser/services/CSVFileLoader.java:63-105 | Rows are put into the SHARED map even when the file fails part way, and earlier keys not re-put survive. Success returns the size of the whole map; failure returns its fault's kind. |
| CsvFileLoader.LoadIndiaCensusData | src/main/java/com/bridgelabz/indianstatecensusanalyser/services/CSVFileLoader.java:37-40 | The India load adds the file's state names and returns the size of the whole map. |
| CsvFileLoader.LoadUSCensusData | src/main/java/com/bridgelabz/indianstatecensusanalyser/services/CSVFileLoader.java:49-52 | The US load adds the file's state names and returns the size of the whole map. |
| CsvFileLoader.LoadsDifferOnlyInSchema | src/main/java/com/bridgelabz/indianstatecensusanalyser/services/CSVFileLoader.java:71-83 | Files whose rows normalise alike load identically under either schema. |
| CsvFileLoader.LoadIndiaStateCode | src/main/java/com/bridgelabz/indianstatecensusanalyser/services/CSVFileLoader.java:115-146 | The code rows read are joined into the shared map, even when the file fails part way: the keys stay, a state no code row names is untouched, and a named state takes the code of the LAST row naming it. Success returns the size of the map, which the join leaves as it was; a fault reports its kind. |
| CsvFileLoader.IndiaLoadUncoded | src/main/java/com/bridgelabz/indianstatecensusanalyser/services/CSVFileLoader.java:37-40 | An India load into a new loader leaves every record without a state code. |
| CsvFileLoader.IndiaLoadThenCodesCodedIff | src/main/java/com/bridgelabz/indianstatecensusanalyser/services/CSVFileLoader.java:115-126 | After an India load into a new loader and the code join, a state has a code exactly when some code row names it. |
| CsvFileLoader.JoinOnEmptyLoader | src/main/java/com/bridgelabz/indianstatecensusanalyser/services/CSVFileLoader.java:115-126 | Joining codes into a new loader changes nothing and returns 0. |
| CsvFileLoader.LoadsAccumulate | src/main/java/com/bridgelabz/indianstatecensusanalyser/services/CSVFileLoader.java:63-85 | An India load followed by a US load on one loader returns the number of distinct states across BOTH files. |
| CsvFileLoader.FailedLoadKeepsReadRows | src/main/java/com/bridgelabz/indianstatecensusanalyser/services/CSVFileLoader.java:66-105 | A failed load reports an error yet keeps the rows read before the fault. |
| CensusSort.ParseFieldIsInverse | src/main/java/com/bridgelabz/indianstatecensusanalyser/services/CensusAnalyser.java:77-99 | A name selects a field exactly when it is that field's name, so the five cases of the switch are exactly the five field names. |
| CensusSort.InOrder | src/main/java/com/bridgelabz/indianstatecensusanalyser/services/CensusAnalyser.java:79-97 | The five comparators: ascending by state name or code, descending by population, density or area. `InOrderTotal` and `InOrderTransitive` state their properties. |
| CensusSort.CodeLe | src/main/java/com/bridgelabz/indianstatecensusanalyser/services/CensusAnalyser.java:84 | Codes compare as strings, and a missing code comes before every code. The analyser's sort never compares a missing code, because sorting by code there requires every code to be present (`CanSort`). The sorts themselves (`SortBy`, `SortedRecords`, `SortedView`) accept uncoded records and put them first. |
| CensusSort.InOrderTotal | src/main/java/com/bridgelabz/indianstatecensusanalyser/services/CensusAnalyser.java:79-97 | Every comparator orders any two records, in one direction or the other. |
| CensusSort.InOrderTransitive | src/main/java/com/bridgelabz/indianstatecensusanalyser/services/CensusAnalyser.java:79-97 | Every comparator is transitive. |
| CensusSort.Insert | src/main/java/com/bridgelabz/indianstatecensusanalyser/services/CensusAnalyser.java:111-112 | Inserting into a sorted sequence keeps it sorted and adds exactly the one record. |
| CensusSort.SortBy | src/main/java/com/bridgelabz/indianstatecensusanalyser/services/CensusAnalyser.java:109-130 | The sort yields a sorted permutation of its input: ascending for state and code, descending for the numeric fields. |
| CensusSort.IterationOrder | src/main/java/com/bridgelabz/indianstatecensusanalyser/services/CensusAnalyser.java:111 | The hash map hands out every key exactly once, in some fixed order about which nothing else is known. |
| CensusSort.Values | src/main/java/com/bridgelabz/indianstatecensusanalyser/services/CensusAnalyser.java:111 | `values()` has one entry per key; every record of the map is in it, and nothing else. |
| CensusSort.SortedRecords | src/main/java/com/bridgelabz/indianstatecensusanalyser/services/CensusAnalyser.java:109-130 | The sorted values of the map are sorted and are a permutation of the map's values, one per key. |
| CensusSort.SortedHeadIsExtreme | src/main/java/com/bridgelabz/indianstatecensusanalyser/services/CensusAnalyser.java:123-130 | The first record of a sort is ordered before every record of the map: it has the largest numeric value, or the smallest name. |
| CensusSort.StateSortIgnoresIterationOrder | src/main/java/com/bridgelabz/indianstatecensusanalyser/services/CensusAnalyser.java:109-116 | For a map keyed by state, the state sort gives the same sequence whatever order the hash map hands out its values in. |
| CensusAnalyser.NewAnalyser | src/main/java/com/bridgelabz/indianstatecensusanalyser/services/CensusAnalyser.java:26-29 | A new analyser keeps the given country and holds no map yet. |
| CensusAnalyser.LoadCensusData | src/main/java/com/bridgelabz/indianstatecensusanalyser/services/CensusAnalyser.java:38-43 | A successful load replaces the map with the adapter's map and returns its size. A failed load leaves the analyser unchanged and reports the adapter's error kind, never INVALID_COUNTRY. The analyser's own country is never changed. |
| CensusAnalyser.LoadHoldsFileStates | src/main/java/com/bridgelabz/indianstatecensusanalyser/services/CensusAnalyser.java:38-43 | After a load, the map's keys are the first file's state names, each record is keyed by its own state, and the returned count is the number of those names. |
| CensusAnalyser.LoadReplacesMap | src/main/java/com/bridgelabz/indianstatecensusanalyser/services/CensusAnalyser.java:41 | Nothing from an earlier map survives a successful load. |
| CensusAnalyser.ProjectKeepsOrder | src/main/java/com/bridgelabz/indianstatecensusanalyser/services/CensusAnalyser.java:111-113 | Projecting two ordered records into either row shape keeps them ordered. |
| CensusAnalyser.ProjectAll | src/main/java/com/bridgelabz/indianstatecensusanalyser/services/CensusAnalyser.java:113 | Each record is projected in place into the country's row shape; every row has the India shape exactly when the country is INDIA. |
| CensusAnalyser.ReadBackAll | src/main/java/com/bridgelabz/indianstatecensusanalyser/services/CensusAnalyser.java:63-64 | Each row is read back in place, so the list has as many records as the file has rows. |
| CensusAnalyser.SortedView | src/main/java/com/bridgelabz/indianstatecensusanalyser/services/CensusAnalyser.java:109-130 | The view is the projection, into the given country's row shape, of a permutation of the map's values sorted by the field, so the records' order is kept even where the row shape does not show the key (the India shape has no code). It has one row per record; every record's projection is in it, and every row is the projection of some record. |
| CensusAnalyser.SortedCensusData | src/main/java/com/bridgelabz/indianstatecensusanalyser/services/CensusAnalyser.java:73-102 | An unknown field name gives `null`. A known one gives the projection, in the analyser's OWN row shape, of a permutation of all the map's records sorted by that field, whatever country the map was loaded for. |
| CensusAnalyser.StateViewIsDeterministic | src/main/java/com/bridgelabz/indianstatecensusanalyser/services/CensusAnalyser.java:79-81 | The state view equals the state sort of the records taken in any enumeration of the keys. |
| CensusAnalyser.JsonExportFields | src/main/java/com/bridgelabz/indianstatecensusanalyser/services/CensusAnalyser.java:22-24 | Exactly the three descending numeric fields are exported, each to its own file. |
| CensusAnalyser.JsonSortedCensusData | src/main/java/com/bridgelabz/indianstatecensusanalyser/services/CensusAnalyser.java:138-154 | Any name other than population, populationDensity or totalArea gives `null`; this includes "state". A file that cannot be written or reopened gives CSV_FILE_PROBLEM. Otherwise the result holds exactly the read-backs of the projected records, one row per state, none with a code. It stays sorted for a US analyser, and sorted by population in either shape. For an India analyser, every area and density is 0. The result is the read-back of a view sorted by the field, so its rows follow the field's order even where the read-back zeroes that field. |
| CensusAnalyser.ReadBackMembers | src/main/java/com/bridgelabz/indianstatecensusanalyser/services/CensusAnalyser.java:63-64 | Reading back a view that holds exactly the projected records gives exactly their read-backs. |
| CensusAnalyser.ReadBackOfView | src/main/java/com/bridgelabz/indianstatecensusanalyser/services/CensusAnalyser.java:49-66 | A sorted view holding exactly the projected records reads back as the read-back of a sorted permutation of the map's values, with one record per state and no codes. The records are exactly the read-backs of the map's records. The order survives in the US shape, and by population in either shape. In the India shape, area and density read as 0. |
| CensusAnalyser.ReadBackViewFacts | src/main/java/com/bridgelabz/indianstatecensusanalyser/services/CensusAnalyser.java:49-66 | Writing a sorted view to the file and reading it back keeps the row count. The order survives in the US shape. The India shape keeps only the order by population, because it loses area and density. |
| CensusAnalyser.IndiaReadBackSortedByPopulation | src/main/java/com/bridgelabz/indianstatecensusanalyser/services/CensusAnalyser.java:143-144 | A population view read back from the India shape is still sorted by population. |
| CensusAnalyser.DensityHeadReadBack | src/main/java/com/bridgelabz/indianstatecensusanalyser/services/CensusAnalyser.java:167-169 | The first read-back row of a density view names the densest state. Its density survives in the US shape and reads as 0 in the India shape. |
| CensusAnalyser.MostDenselyPopulatedState | src/main/java/com/bridgelabz/indianstatecensusanalyser/services/CensusAnalyser.java:163-173 | No path aborts. A failed India load reports its kind and leaves the analyser as it was. With the India map loaded, a missing second path aborts and a failed US load reports its kind. With both maps loaded, a state is named exactly when neither map is empty, and otherwise the call aborts. When a state is named, the analyser holds the US map. Load failures never report INVALID_COUNTRY. |
| CensusAnalyser.AfterIndiaLoad | src/main/java/com/bridgelabz/indianstatecensusanalyser/services/CensusAnalyser.java:167-172 | With the India map loaded: one path aborts; a failed US load reports its kind; after a good US load, a state is named exactly when both maps are non-empty, and otherwise the call aborts. |
| CensusAnalyser.CompareLists | src/main/java/com/bridgelabz/indianstatecensusanalyser/services/CensusAnalyser.java:170-172 | With both lists non-empty, the India first row is named when its density is strictly greater and the US first row otherwise, so the US row wins ties. An empty list aborts. |
| CensusAnalyser.DensityList | src/main/java/com/bridgelabz/indianstatecensusanalyser/services/CensusAnalyser.java:167 | The density list read back has one row per record, and its first row is the read-back of the density head in the analyser's row shape. |
| CensusAnalyser.CompareHeads | src/main/java/com/bridgelabz/indianstatecensusanalyser/services/CensusAnalyser.java:170-172 | Of the two read-back density heads, the India state is named when its read-back density is strictly greater, the US state otherwise. |
| CensusAnalyser.AsWrittenComparesHeads | src/main/java/com/bridgelabz/indianstatecensusanalyser/services/CensusAnalyser.java:163-172 | Once both loads succeed with non-empty maps, the code as written names the state `CompareHeads` picks in the analyser's row shape. |
| CensusAnalyser.DensestAcross | src/main/java/com/bridgelabz/indianstatecensusanalyser/services/CensusAnalyser.java:170-172 | The chosen record comes from one of the maps and is at least as dense as every record of both. On a tie, a US record is chosen. |
| CensusAnalyser.MostDenselyPopulatedStateCorrected | src/main/java/com/bridgelabz/indianstatecensusanalyser/services/CensusAnalyser.java:163-173 | The same failure and abort outcomes as the code as written. With both maps loaded and non-empty, a state is named, and the analyser holds the US map. |
| CensusAnalyser.CompareMaps | src/main/java/com/bridgelabz/indianstatecensusanalyser/services/CensusAnalyser.java:170-172 | On two non-empty maps the corrected comparison names a state of one of them at least as dense as every record of both; an empty map aborts. |
| CensusAnalyser.CorrectedUnfolds | src/main/java/com/bridgelabz/indianstatecensusanalyser/services/CensusAnalyser.java:163-173 | Once both loads succeed, the corrected version compares the India map with the US map and leaves the analyser holding the US map. |
| CensusAnalyser.SameOutcomeUntilCompared | src/main/java/com/bridgelabz/indianstatecensusanalyser/services/CensusAnalyser.java:163-169 | Until both maps are loaded and non-empty, the corrected version fails or aborts exactly as the code as written does, and leaves the same analyser. |
| CensusAnalyser.CorrectedNamesDensest | src/main/java/com/bridgelabz/indianstatecensusanalyser/services/CensusAnalyser.java:163-173 | When the corrected comparison names a state, both loads succeeded and the state is that of a record of one of the two files at least as dense as every record of both. |
| CensusAnalyser.USAnalyserIsCorrect | src/main/java/com/bridgelabz/indianstatecensusanalyser/services/CensusAnalyser.java:163-173 | For an analyser created for the US, the code as written agrees with the corrected comparison on every input. |
| CensusAnalyser.IndiaAnalyserNamesUSHead | src/main/java/com/bridgelabz/indianstatecensusanalyser/services/CensusAnalyser.java:167-172 | For an analyser created for India, the code as written always names the densest US state. |
| CensusAnalyser.IndiaAnalyserCounterexample | src/main/java/com/bridgelabz/indianstatecensusanalyser/services/CensusAnalyser.java:167-172 | Take one Indian state of density 100 and one US state of density 10. The code as written names the US state; the corrected comparison names the Indian one. |

## Left out

- CSV parsing, file access, the choice of CSV builder and the separator character are left out. A file is modelled as the rows its parser delivers and the fault, if any, that stops it. The model says nothing about which texts parse.
- Gson serialisation is modelled only by what a read-back keeps (`CensusDao.ReadBack`). The JSON text, and the content of the files written by `getJsonSortedCensusData`, are left out. Whether those files can be written is a parameter.
- The `double` fields of `CensusDAO` are modelled as unbounded integers. Fractional areas and densities, and the exact rounding of the `(int)` cast, are not modelled.
- Overflow of the `Integer` population is not modelled. Population is a 32-bit value in both row shapes and is copied unchanged.
- String order is modelled on Dafny characters. Java compares UTF-16 code units, and the two orders differ only outside the Basic Multilingual Plane.
- The order in which `HashMap` hands out its values is an arbitrary fixed enumeration. Among records with equal sort keys the model claims no order: the sort contracts state sortedness and permutation, not stability.
- `USCensusCSV` is not part of this model. Its fields are inferred from how `CensusDAO` reads and builds it: state id, state, population, total area and population density.
- CensusAnalyser.SortedCensusData: a dereference of null is a precondition here, not an outcome. This covers sorting before any load, and sorting by state code when two or more records exist and one has no code. With a single record no comparison is made, and the sort succeeds.
- CensusAnalyser.JsonSortedCensusData: requesting one of the three exported fields before any load dereferences the null map. That dereference is a precondition here, not an outcome, as for `SortedCensusData`.
- CensusAnalyser.MostDenselyPopulatedState: an index out of range is the outcome `Aborted`. It arises with fewer than two paths or an empty file, and the source does not catch it. The exception itself is not modelled.
- The `INVALID_COUNTRY` branch of `CensusLoader.loadCensusData` (lines 38-39) cannot be reached, because the `Country` enum has only INDIA and US. It is therefore not modelled. A null country would fail earlier on a null dereference.
- Ties in `getMostDenselyPopulatedState` go to the US state, because the comparison at line 170 is strict. This follows the code.
- `CensusLoader` joins the second path's codes for a US load as well; this follows the code.
- `CSVFileLoader` reports `IndianStateCensusAndCodeAnalyserException.ExceptionType.CSV_FILE_PROBLEM`, a constant that enum does not declare (it has `CENSUS_FILE_PROBLEM`). The model reports the common error kind `CsvFileProblem`.
- `IndianStateCensusAnalyser`, `IndianStateCensusAndCodeAnalyser`, the exception classes' messages, and the test fixtures' data are not part of this model. The fixtures' data are the 29 Indian and 51 US records, and the expected first and last states.

## Findings

| source | as written | input that shows it | evidently intended | confidence | as-written member | corrected member |
|---|---|---|---|---|---|---|
| src/main/java/com/bridgelabz/indianstatecensusanalyser/services/CensusAnalyser.java:167-172 | Both density views are serialised in the analyser's own row shape and read back as `CensusDAO`. In the India shape the density field is `densityPerSqKm`, so `populationDensity` reads back as 0 for both heads. The strict comparison then always returns the US head. | An analyser created for INDIA; an India file with one state "A" of density 100; a US file with one state "B" of density 10. The code answers "B". | Answer the state of greater density across the two files, "A" here, whatever country the analyser was created for. | not executed | CensusAnalyser.IndiaAnalyserCounterexample | CensusAnalyser.MostDenselyPopulatedStateCorrected |
