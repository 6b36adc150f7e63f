/** The census map shared by every loader variant: normalising parsed rows
    under a schema, inserting records by state name, and the state-code join. */
module CensusRepository {
  import opened CensusTypes
  import opened CensusDao

  /** The state names carried by a sequence of records. */
  function Names(recs: seq<CensusRecord>): set<string>
  {
    set i | 0 <= i < |recs| :: recs[i].state
  }

  /** The state names carried by a sequence of code rows. */
  function CodeNames(codes: seq<StateCodeRow>): set<string>
  {
    set i | 0 <= i < |codes| :: codes[i].stateName
  }

  /** Every record sits under its own state name. */
  ghost predicate KeyedByState(m: CensusMap)
  {
    forall k :: k in m ==> m[k].state == k
  }

  /** No record has a state code yet. */
  ghost predicate NoneCoded(m: CensusMap)
  {
    forall k :: k in m ==> m[k].stateCode.None?
  }

  /** `recs[i]` is the last record with its state name. */
  ghost predicate LastOfName(recs: seq<CensusRecord>, i: int)
    requires 0 <= i < |recs|
  {
    forall j :: i < j < |recs| ==> recs[j].state != recs[i].state
  }

  /** `codes[i]` is the last code row with its state name. */
  ghost predicate LastCodeFor(codes: seq<StateCodeRow>, i: int)
    requires 0 <= i < |codes|
  {
    forall j :: i < j < |codes| ==> codes[j].stateName != codes[i].stateName
  }

  /** The schema dispatch: the rows the parser yields for a file under the
      country's census schema, each normalised into a unified record. */
  function Normalise(country: Country, file: CsvFile): (p: Parsed<CensusRecord>)
    ensures country == India ==> p.fault == file.asIndia.fault && |p.rows| == |file.asIndia.rows|
    ensures country == India ==> forall i :: 0 <= i < |p.rows| ==> p.rows[i] == FromIndiaRow(file.asIndia.rows[i])
    ensures country == US ==> p.fault == file.asUS.fault && |p.rows| == |file.asUS.rows|
    ensures country == US ==> forall i :: 0 <= i < |p.rows| ==> p.rows[i] == FromUSRow(file.asUS.rows[i])
  {
    match country
    case India =>
      var rows := file.asIndia.rows;
      Parsed(seq(|rows|, i requires 0 <= i < |rows| => FromIndiaRow(rows[i])), file.asIndia.fault)
    case US =>
      var rows := file.asUS.rows;
      Parsed(seq(|rows|, i requires 0 <= i < |rows| => FromUSRow(rows[i])), file.asUS.fault)
  }

  /** India records come out of normalisation without a state code. */
  lemma NormaliseIndiaUncoded(file: CsvFile)
    ensures forall i :: 0 <= i < |Normalise(India, file).rows| ==> Normalise(India, file).rows[i].stateCode.None?
  {
  }

  /** The names of a non-empty sequence: its head's and its tail's. */
  lemma NamesCons(recs: seq<CensusRecord>)
    requires |recs| > 0
    ensures Names(recs) == {recs[0].state} + Names(recs[1..])
  {
    forall k | k in Names(recs) ensures k in {recs[0].state} + Names(recs[1..]) {
      var i :| 0 <= i < |recs| && recs[i].state == k;
      if i > 0 { assert recs[1..][i - 1].state == k; }
    }
  }

  /** The loaders' put loop: every record is put under its state name, a
      later record replacing an earlier one. */
  function PutRecords(m: CensusMap, recs: seq<CensusRecord>): (r: CensusMap)
    ensures r.Keys == m.Keys + Names(recs)
    ensures forall k :: k in m && k !in Names(recs) ==> r[k] == m[k]
    ensures forall i :: 0 <= i < |recs| && LastOfName(recs, i) ==> recs[i].state in r && r[recs[i].state] == recs[i]
    ensures KeyedByState(m) ==> KeyedByState(r)
    decreases |recs|
  {
    if |recs| == 0 then m
    else
      var m' := m[recs[0].state := recs[0]];
      var rest := recs[1..];
      NamesCons(recs);
      LastOfNameShifts(recs);
      assert LastOfName(recs, 0) ==> recs[0].state !in Names(rest);
      PutRecords(m', rest)
  }

  /** A row that is last of its name stays last once the head is dropped. */
  lemma LastOfNameShifts(recs: seq<CensusRecord>)
    requires |recs| > 0
    ensures forall i :: 1 <= i < |recs| && LastOfName(recs, i) ==> LastOfName(recs[1..], i - 1)
  {
    var rest := recs[1..];
    forall i | 1 <= i < |recs| && LastOfName(recs, i) ensures LastOfName(rest, i - 1) {
      forall j | i - 1 < j < |rest| ensures rest[j].state != rest[i - 1].state {
        assert rest[j] == recs[j + 1];
      }
    }
  }

  /** A fresh map built from a load's records. */
  function Build(recs: seq<CensusRecord>): (r: CensusMap)
    ensures r.Keys == Names(recs)
    ensures KeyedByState(r)
    ensures forall i :: 0 <= i < |recs| && LastOfName(recs, i) ==> r[recs[i].state] == recs[i]
  {
    PutRecords(map[], recs)
  }

  /** A sequence of records whose state names are pairwise distinct. */
  ghost predicate DistinctNames(recs: seq<CensusRecord>)
  {
    forall i, j :: 0 <= i < j < |recs| ==> recs[i].state != recs[j].state
  }

  /** With distinct state names, a fresh load holds one record per row. */
  lemma DistinctNamesCount(recs: seq<CensusRecord>)
    requires DistinctNames(recs)
    ensures |Names(recs)| == |recs|
    ensures |Build(recs)| == |recs|
  {
    DistinctNamesSize(recs);
    var b := Build(recs);
    assert b.Keys == Names(recs);
    assert |b| == |b.Keys|;
  }

  /** Distinct rows have as many names as rows. */
  lemma {:induction false} DistinctNamesSize(recs: seq<CensusRecord>)
    requires DistinctNames(recs)
    ensures |Names(recs)| == |recs|
    decreases |recs|
  {
    if |recs| > 0 {
      var rest := recs[1..];
      assert DistinctNames(rest) by {
        forall i, j | 0 <= i < j < |rest| ensures rest[i].state != rest[j].state {
          assert rest[i] == recs[i + 1] && rest[j] == recs[j + 1];
        }
      }
      DistinctNamesSize(rest);
      NamesCons(recs);
      forall i | 0 <= i < |rest| ensures rest[i].state != recs[0].state {
        assert rest[i] == recs[i + 1];
      }
      assert recs[0].state !in Names(rest);
    }
  }

  /** The names of a non-empty code list are its head's name and its tail's. */
  lemma CodeNamesCons(codes: seq<StateCodeRow>)
    requires |codes| > 0
    ensures CodeNames(codes) == {codes[0].stateName} + CodeNames(codes[1..])
  {
    var rest := codes[1..];
    forall k | k in CodeNames(codes) ensures k in {codes[0].stateName} + CodeNames(rest) {
      var i :| 0 <= i < |codes| && codes[i].stateName == k;
      if i > 0 { assert rest[i - 1].stateName == k; }
    }
  }

  /** The last code row of a name stays the last one once the head is dropped. */
  lemma LastCodeForShifts(codes: seq<StateCodeRow>)
    requires |codes| > 0
    ensures forall i :: 1 <= i < |codes| && LastCodeFor(codes, i) ==> LastCodeFor(codes[1..], i - 1)
  {
    var rest := codes[1..];
    forall i | 1 <= i < |codes| && LastCodeFor(codes, i) ensures LastCodeFor(rest, i - 1) {
      forall j | i - 1 < j < |rest| ensures rest[j].stateName != rest[i - 1].stateName {
        assert rest[j] == codes[j + 1];
      }
    }
  }

  /** The state-code join: in file order, every code row naming a loaded
      state overwrites that record's code; the other code rows are ignored. */
  function JoinCodes(m: CensusMap, codes: seq<StateCodeRow>): (r: CensusMap)
    ensures r.Keys == m.Keys
    ensures forall k :: k in m ==> r[k] == m[k].(stateCode := r[k].stateCode)
    ensures forall k :: k in m && k !in CodeNames(codes) ==> r[k] == m[k]
    ensures forall i :: 0 <= i < |codes| && codes[i].stateName in m && LastCodeFor(codes, i) ==>
              r[codes[i].stateName].stateCode == codes[i].stateCode
    ensures KeyedByState(m) ==> KeyedByState(r)
    decreases |codes|
  {
    if |codes| == 0 then m
    else
      var row := codes[0];
      var m' := if row.stateName in m then m[row.stateName := m[row.stateName].(stateCode := row.stateCode)] else m;
      var rest := codes[1..];
      CodeNamesCons(codes);
      LastCodeForShifts(codes);
      assert LastCodeFor(codes, 0) ==> row.stateName !in CodeNames(rest);
      JoinCodes(m', rest)
  }

  /** The join never changes the number of records. */
  lemma JoinKeepsSize(m: CensusMap, codes: seq<StateCodeRow>)
    ensures |JoinCodes(m, codes)| == |m|
  {
    assert JoinCodes(m, codes).Keys == m.Keys;
  }

  /** Some code row names state `k`, so one of them is the last. */
  lemma {:induction false} LastCodeExists(codes: seq<StateCodeRow>, k: string) returns (i: int)
    requires k in CodeNames(codes)
    ensures 0 <= i < |codes| && codes[i].stateName == k && LastCodeFor(codes, i)
    decreases |codes|
  {
    var i0 :| 0 <= i0 < |codes| && codes[i0].stateName == k;
    var rest := codes[i0 + 1..];
    if k in CodeNames(rest) {
      var i1 := LastCodeExists(rest, k);
      i := i0 + 1 + i1;
      forall j | i < j < |codes| ensures codes[j].stateName != codes[i].stateName {
        assert codes[j] == rest[j - i0 - 1];
      }
    } else {
      i := i0;
      forall j | i < j < |codes| ensures codes[j].stateName != codes[i].stateName {
        assert codes[j] == rest[j - i0 - 1];
      }
    }
  }

  /** On uncoded records and code rows that all carry a code, the join leaves
      a record coded exactly when some code row names its state. */
  lemma JoinCodedIff(m: CensusMap, codes: seq<StateCodeRow>)
    requires NoneCoded(m)
    requires forall i :: 0 <= i < |codes| ==> codes[i].stateCode.Some?
    ensures forall k :: k in m ==> (JoinCodes(m, codes)[k].stateCode.Some? <==> k in CodeNames(codes))
  {
    var r := JoinCodes(m, codes);
    forall k | k in m ensures r[k].stateCode.Some? <==> k in CodeNames(codes) {
      if k in CodeNames(codes) {
        var i := LastCodeExists(codes, k);
      }
    }
  }

  /** Some record carries state `k`, so one of them is the last. */
  lemma {:induction false} LastOfNameExists(recs: seq<CensusRecord>, k: string) returns (i: int)
    requires k in Names(recs)
    ensures 0 <= i < |recs| && recs[i].state == k && LastOfName(recs, i)
    decreases |recs|
  {
    var i0 :| 0 <= i0 < |recs| && recs[i0].state == k;
    var rest := recs[i0 + 1..];
    if k in Names(rest) {
      var i1 := LastOfNameExists(rest, k);
      i := i0 + 1 + i1;
      forall j | i < j < |recs| ensures recs[j].state != recs[i].state {
        assert recs[j] == rest[j - i0 - 1];
      }
    } else {
      i := i0;
      forall j | i < j < |recs| ensures recs[j].state != recs[i].state {
        assert recs[j] == rest[j - i0 - 1];
      }
    }
  }

  /** The reference meaning of a fresh load: the map holds exactly the states
      of `recs`, each under its own name, each as the LAST record with that
      name, except that a state named by `codes` carries the code of the LAST
      code row naming it. */
  ghost predicate LoadedFrom(m: CensusMap, recs: seq<CensusRecord>, codes: seq<StateCodeRow>)
  {
    && m.Keys == Names(recs)
    && KeyedByState(m)
    && (forall i :: 0 <= i < |recs| && LastOfName(recs, i) ==>
          recs[i].state in m && m[recs[i].state].(stateCode := recs[i].stateCode) == recs[i])
    && (forall i :: 0 <= i < |recs| && LastOfName(recs, i) && recs[i].state !in CodeNames(codes) ==>
          recs[i].state in m && m[recs[i].state] == recs[i])
    && (forall j :: 0 <= j < |codes| && LastCodeFor(codes, j) && codes[j].stateName in m ==>
          m[codes[j].stateName].stateCode == codes[j].stateCode)
  }

  /** A fresh build followed by a join meets the reference meaning. */
  lemma BuildThenJoinLoaded(recs: seq<CensusRecord>, codes: seq<StateCodeRow>)
    ensures LoadedFrom(JoinCodes(Build(recs), codes), recs, codes)
  {
  }

  /** A fresh build alone meets the reference meaning with no code rows. */
  lemma BuildLoaded(recs: seq<CensusRecord>)
    ensures LoadedFrom(Build(recs), recs, [])
  {
    assert CodeNames([]) == {};
  }

  /** The reference meaning pins the map down: two maps loaded from the same
      records and code rows are equal. */
  lemma LoadedFromUnique(m1: CensusMap, m2: CensusMap, recs: seq<CensusRecord>, codes: seq<StateCodeRow>)
    requires LoadedFrom(m1, recs, codes) && LoadedFrom(m2, recs, codes)
    ensures m1 == m2
  {
    forall k | k in m1 ensures m1[k] == m2[k] {
      var i := LastOfNameExists(recs, k);
      if k in CodeNames(codes) {
        var j := LastCodeExists(codes, k);
        assert m1[k].stateCode == codes[j].stateCode == m2[k].stateCode;
        assert m1[k] == m1[k].(stateCode := recs[i].stateCode).(stateCode := m1[k].stateCode);
      }
    }
  }
}
