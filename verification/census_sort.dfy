/** Sorting the census map's records by one of five fields: ascending by
    state name and state code, descending by population, density and area. */
module CensusSort {
  import opened CensusTypes
  import opened Lexicographic
  import opened CensusRepository

  datatype SortField = State | StateCode | Population | PopulationDensity | TotalArea

  /** The field names `getSortedCensusData` recognises. */
  function FieldName(f: SortField): string
  {
    match f
    case State => "state"
    case StateCode => "stateCode"
    case Population => "population"
    case PopulationDensity => "populationDensity"
    case TotalArea => "totalArea"
  }

  /** The `switch (fieldName)`: a recognised name selects its field. */
  function ParseField(name: string): Option<SortField>
  {
    if name == "state" then Some(State)
    else if name == "stateCode" then Some(StateCode)
    else if name == "population" then Some(Population)
    else if name == "populationDensity" then Some(PopulationDensity)
    else if name == "totalArea" then Some(TotalArea)
    else None
  }

  /** Field names and fields correspond one to one. */
  lemma ParseFieldIsInverse(name: string, f: SortField)
    ensures ParseField(name) == Some(f) <==> name == FieldName(f)
  {
  }

  /** Ascending order (`getSortedInAccendindOrder`) for the two string keys,
      descending order (`getSortedInDescendingOrder`) for the numeric ones. */
  predicate Ascending(f: SortField)
  {
    f == State || f == StateCode
  }

  /** The order on state codes. A null code never takes part in a comparison
      here: sorting by code requires every code to be present. */
  predicate CodeLe(a: Option<string>, b: Option<string>)
  {
    match (a, b)
    case (Some(x), Some(y)) => LexLe(x, y)
    case (None, _) => true
    case (Some(_), None) => false
  }

  /** `a` may come before `b` in the output sorted by `f`. */
  predicate InOrder(f: SortField, a: CensusRecord, b: CensusRecord)
  {
    match f
    case State => LexLe(a.state, b.state)
    case StateCode => CodeLe(a.stateCode, b.stateCode)
    case Population => a.population >= b.population
    case PopulationDensity => a.populationDensity >= b.populationDensity
    case TotalArea => a.totalArea >= b.totalArea
  }

  lemma InOrderTotal(f: SortField, a: CensusRecord, b: CensusRecord)
    ensures InOrder(f, a, b) || InOrder(f, b, a)
  {
    match f
    case State => LexLeTotal(a.state, b.state);
    case StateCode =>
      if a.stateCode.Some? && b.stateCode.Some? {
        LexLeTotal(a.stateCode.value, b.stateCode.value);
      }
    case _ =>
  }

  lemma InOrderTransitive(f: SortField, a: CensusRecord, b: CensusRecord, c: CensusRecord)
    requires InOrder(f, a, b) && InOrder(f, b, c)
    ensures InOrder(f, a, c)
  {
    match f
    case State => LexLeTransitive(a.state, b.state, c.state);
    case StateCode =>
      if a.stateCode.Some? {
        LexLeTransitive(a.stateCode.value, b.stateCode.value, c.stateCode.value);
      }
    case _ =>
  }

  /** Every earlier element may precede every later one. */
  ghost predicate SortedBy(f: SortField, xs: seq<CensusRecord>)
  {
    forall i, j :: 0 <= i < j < |xs| ==> InOrder(f, xs[i], xs[j])
  }

  /** A sequence whose head may precede every later element, and whose tail
      is sorted, is sorted. */
  lemma ConsSorted(f: SortField, y: CensusRecord, rest: seq<CensusRecord>)
    requires SortedBy(f, rest)
    requires forall z :: z in rest ==> InOrder(f, y, z)
    ensures SortedBy(f, [y] + rest)
  {
    var s := [y] + rest;
    forall i, j | 0 <= i < j < |s| ensures InOrder(f, s[i], s[j]) {
      if i > 0 {
        assert s[i] == rest[i - 1] && s[j] == rest[j - 1];
      } else {
        assert s[j] == rest[j - 1];
      }
    }
  }

  /** Inserting before a head that `x` may precede keeps the sequence sorted. */
  lemma InsertHere(f: SortField, x: CensusRecord, xs: seq<CensusRecord>)
    requires SortedBy(f, xs) && |xs| > 0 && InOrder(f, x, xs[0])
    ensures SortedBy(f, [x] + xs)
  {
    forall z | z in xs ensures InOrder(f, x, z) {
      var j :| 0 <= j < |xs| && xs[j] == z;
      if j > 0 { InOrderTransitive(f, x, xs[0], xs[j]); }
    }
    ConsSorted(f, x, xs);
  }

  /** Inserting past a head that `x` may not precede keeps the sequence
      sorted, provided the insertion into the tail did. */
  lemma InsertLater(f: SortField, x: CensusRecord, xs: seq<CensusRecord>, rest: seq<CensusRecord>)
    requires SortedBy(f, xs) && |xs| > 0 && !InOrder(f, x, xs[0])
    requires SortedBy(f, rest) && multiset(rest) == multiset(xs[1..]) + multiset{x}
    ensures SortedBy(f, [xs[0]] + rest)
    ensures multiset([xs[0]] + rest) == multiset(xs) + multiset{x}
  {
    InOrderTotal(f, x, xs[0]);
    forall z | z in rest ensures InOrder(f, xs[0], z) {
      assert z in multiset(rest);
      if z != x {
        assert z in multiset(xs[1..]);
        var j :| 0 <= j < |xs[1..]| && xs[1..][j] == z;
        assert xs[j + 1] == z;
      }
    }
    ConsSorted(f, xs[0], rest);
    assert xs == [xs[0]] + xs[1..];
  }

  /** Inserts `x` into a sorted sequence. */
  function Insert(f: SortField, x: CensusRecord, xs: seq<CensusRecord>): (r: seq<CensusRecord>)
    requires SortedBy(f, xs)
    ensures SortedBy(f, r)
    ensures multiset(r) == multiset(xs) + multiset{x}
    decreases |xs|
  {
    if |xs| == 0 then [x]
    else if InOrder(f, x, xs[0]) then
      InsertHere(f, x, xs);
      assert xs == [xs[0]] + xs[1..];
      [x] + xs
    else
      var rest := Insert(f, x, xs[1..]);
      InsertLater(f, x, xs, rest);
      [xs[0]] + rest
  }

  /** Sorts by `f`: the output is sorted and a permutation of the input. */
  function SortBy(f: SortField, xs: seq<CensusRecord>): (r: seq<CensusRecord>)
    ensures SortedBy(f, r)
    ensures multiset(r) == multiset(xs)
    decreases |xs|
  {
    if |xs| == 0 then []
    else
      assert xs == [xs[0]] + xs[1..];
      Insert(f, xs[0], SortBy(f, xs[1..]))
  }

  /** `ks` lists every key of `m` exactly once. */
  ghost predicate Enumerates(ks: seq<string>, m: CensusMap)
  {
    && (forall i, j :: 0 <= i < j < |ks| ==> ks[i] != ks[j])
    && (forall k :: k in m <==> k in ks)
  }

  /** The order in which the hash map hands out its entries: some fixed
      enumeration of its keys, about which nothing else is known. */
  ghost function IterationOrder(m: CensusMap): (ks: seq<string>)
    ensures Enumerates(ks, m)
    ensures |ks| == |m|
    decreases |m|
  {
    if |m| == 0 then []
    else
      var k :| k in m;
      var rest := m - {k};
      assert rest.Keys == m.Keys - {k};
      assert |rest| == |m| - 1 by {
        assert |rest.Keys| == |m.Keys| - 1;
      }
      var ks := IterationOrder(rest);
      [k] + ks
  }

  /** The records of `m` in the order of the keys `ks`. */
  function Lookup(m: CensusMap, ks: seq<string>): (vs: seq<CensusRecord>)
    requires forall k :: k in ks ==> k in m
    ensures |vs| == |ks|
    ensures forall i :: 0 <= i < |ks| ==> vs[i] == m[ks[i]]
  {
    seq(|ks|, i requires 0 <= i < |ks| => m[ks[i]])
  }

  /** Looking up an enumeration of `m` yields every record of `m` and nothing
      else. */
  lemma LookupEnumerates(m: CensusMap, ks: seq<string>)
    requires Enumerates(ks, m)
    ensures forall k :: k in m ==> m[k] in Lookup(m, ks)
    ensures forall i :: 0 <= i < |ks| ==> Lookup(m, ks)[i] in m.Values
  {
    var vs := Lookup(m, ks);
    forall k | k in m ensures m[k] in vs {
      var i :| 0 <= i < |ks| && ks[i] == k;
      assert vs[i] == m[k];
    }
    forall i | 0 <= i < |ks| ensures vs[i] in m.Values {
      assert ks[i] in m;
    }
  }

  /** `censusMap.values()` in iteration order. */
  ghost function Values(m: CensusMap): (vs: seq<CensusRecord>)
    ensures |vs| == |m|
    ensures forall k :: k in m ==> m[k] in vs
    ensures forall i :: 0 <= i < |vs| ==> vs[i] in m.Values
  {
    var ks := IterationOrder(m);
    LookupEnumerates(m, ks);
    Lookup(m, ks)
  }

  /** Two permutations of each other have the same length and elements. */
  lemma PermutationFacts(xs: seq<CensusRecord>, ys: seq<CensusRecord>)
    requires multiset(xs) == multiset(ys)
    ensures |xs| == |ys|
    ensures forall x :: x in xs <==> x in ys
  {
    assert |multiset(xs)| == |multiset(ys)|;
    forall x ensures x in xs <==> x in ys {
      assert x in xs <==> x in multiset(xs);
      assert x in ys <==> x in multiset(ys);
    }
  }

  /** The map's values streamed through the field's comparator: a
      permutation of the values, sorted by `f`. */
  ghost function SortedRecords(m: CensusMap, f: SortField): (rs: seq<CensusRecord>)
    ensures SortedBy(f, rs)
    ensures multiset(rs) == multiset(Values(m))
    ensures |rs| == |m|
    ensures forall k :: k in m ==> m[k] in rs
    ensures forall i :: 0 <= i < |rs| ==> rs[i] in m.Values
  {
    var vs := Values(m);
    var rs := SortBy(f, vs);
    PermutationFacts(rs, vs);
    assert forall i :: 0 <= i < |rs| ==> rs[i] in m.Values by {
      forall i | 0 <= i < |rs| ensures rs[i] in m.Values {
        assert rs[i] in rs;
        var j :| 0 <= j < |vs| && vs[j] == rs[i];
      }
    }
    rs
  }

  /** The head of a numeric sort is a maximum, and the head of the state sort
      a minimum, of the whole map. */
  lemma SortedHeadIsExtreme(m: CensusMap, f: SortField)
    requires |m| > 0
    ensures var head := SortedRecords(m, f)[0];
      forall k :: k in m ==> InOrder(f, head, m[k])
  {
    var rs := SortedRecords(m, f);
    forall k | k in m ensures InOrder(f, rs[0], m[k]) {
      var i :| 0 <= i < |rs| && rs[i] == m[k];
      if i == 0 {
        InOrderTotal(f, rs[0], rs[0]);
      }
    }
  }

  /** Dropping the head keeps a sequence state-sorted with distinct names. */
  lemma TailKeepsStateOrder(xs: seq<CensusRecord>)
    requires |xs| > 0
    requires SortedBy(State, xs) && DistinctNames(xs)
    ensures SortedBy(State, xs[1..]) && DistinctNames(xs[1..])
  {
    var t := xs[1..];
    forall a, b | 0 <= a < b < |t| ensures InOrder(State, t[a], t[b]) && t[a].state != t[b].state {
      assert t[a] == xs[a + 1] && t[b] == xs[b + 1];
    }
  }

  /** Two state-sorted sequences of the same records, with distinct state
      names, are equal: ties cannot occur, so the order is unique. */
  lemma {:induction false} StateSortUnique(xs: seq<CensusRecord>, ys: seq<CensusRecord>)
    requires SortedBy(State, xs) && SortedBy(State, ys)
    requires DistinctNames(xs) && DistinctNames(ys)
    requires forall x :: x in xs <==> x in ys
    ensures xs == ys
    decreases |xs|
  {
    if |ys| > 0 { assert ys[0] in ys; }
    if |xs| > 0 {
      assert xs[0] in ys;
      assert |ys| > 0;
      assert ys[0] in xs;
      var j :| 0 <= j < |ys| && ys[j] == xs[0];
      var i :| 0 <= i < |xs| && xs[i] == ys[0];
      assert LexLe(ys[0].state, xs[0].state) by {
        if j > 0 { assert InOrder(State, ys[0], ys[j]); } else { LexLeReflexive(ys[0].state); }
      }
      assert LexLe(xs[0].state, ys[0].state) by {
        if i > 0 { assert InOrder(State, xs[0], xs[i]); } else { LexLeReflexive(xs[0].state); }
      }
      LexLeAntisymmetric(xs[0].state, ys[0].state);
      assert i == 0;
      var xs', ys' := xs[1..], ys[1..];
      forall x ensures x in xs' <==> x in ys' {
        if x in xs' {
          var a :| 1 <= a < |xs| && xs[a] == x;
          assert x.state != xs[0].state;
          assert x in ys;
        }
        if x in ys' {
          var b :| 1 <= b < |ys| && ys[b] == x;
          assert x.state != ys[0].state;
          assert x in xs;
        }
      }
      TailKeepsStateOrder(xs);
      TailKeepsStateOrder(ys);
      StateSortUnique(xs', ys');
      assert xs == [xs[0]] + xs' && ys == [ys[0]] + ys';
    }
  }

  /** The records of a map keyed by state, in any key order, carry distinct
      state names. */
  lemma LookupDistinctStates(m: CensusMap, ks: seq<string>)
    requires KeyedByState(m) && Enumerates(ks, m)
    ensures DistinctNames(Lookup(m, ks))
  {
  }

  /** Any two key orders list the same records. */
  lemma LookupSameRecords(m: CensusMap, ks1: seq<string>, ks2: seq<string>)
    requires Enumerates(ks1, m) && Enumerates(ks2, m)
    ensures forall x :: x in Lookup(m, ks1) <==> x in Lookup(m, ks2)
  {
    var v1, v2 := Lookup(m, ks1), Lookup(m, ks2);
    forall x ensures x in v1 ==> x in v2 {
      if x in v1 {
        var i :| 0 <= i < |v1| && v1[i] == x;
        assert ks1[i] in ks1 && ks1[i] in m && ks1[i] in ks2;
        var j :| 0 <= j < |ks2| && ks2[j] == ks1[i];
        assert v2[j] == x;
      }
    }
    forall x ensures x in v2 ==> x in v1 {
      if x in v2 {
        var j :| 0 <= j < |v2| && v2[j] == x;
        assert ks2[j] in ks2 && ks2[j] in m && ks2[j] in ks1;
        var i :| 0 <= i < |ks1| && ks1[i] == ks2[j];
        assert v1[i] == x;
      }
    }
  }

  /** The state sort of a map keyed by state does not depend on the order in
      which the map hands out its entries. */
  lemma StateSortIgnoresIterationOrder(m: CensusMap, ks1: seq<string>, ks2: seq<string>)
    requires KeyedByState(m) && Enumerates(ks1, m) && Enumerates(ks2, m)
    ensures SortBy(State, Lookup(m, ks1)) == SortBy(State, Lookup(m, ks2))
  {
    var v1, v2 := Lookup(m, ks1), Lookup(m, ks2);
    var s1, s2 := SortBy(State, v1), SortBy(State, v2);
    LookupDistinctStates(m, ks1);
    LookupDistinctStates(m, ks2);
    LookupSameRecords(m, ks1, ks2);
    PermutationFacts(s1, v1);
    PermutationFacts(s2, v2);
    PermutationPreservesDistinct(v1, s1);
    PermutationPreservesDistinct(v2, s2);
    StateSortUnique(s1, s2);
  }

  /** In a sequence with distinct state names no record occurs twice. */
  lemma {:induction false} DistinctOccursOnce(xs: seq<CensusRecord>, v: CensusRecord)
    requires DistinctNames(xs)
    ensures multiset(xs)[v] <= 1
    decreases |xs|
  {
    if |xs| > 0 {
      var rest := xs[1..];
      assert xs == [xs[0]] + rest;
      assert DistinctNames(rest) by {
        forall a, b | 0 <= a < b < |rest| ensures rest[a].state != rest[b].state {
          assert rest[a] == xs[a + 1] && rest[b] == xs[b + 1];
        }
      }
      DistinctOccursOnce(rest, v);
      if v == xs[0] {
        forall a | 0 <= a < |rest| ensures rest[a] != v {
          assert rest[a] == xs[a + 1];
        }
        assert v !in rest;
      }
    }
  }

  /** A record at two positions occurs at least twice. */
  lemma OccursTwice(ys: seq<CensusRecord>, a: int, b: int)
    requires 0 <= a < b < |ys| && ys[a] == ys[b]
    ensures multiset(ys)[ys[a]] >= 2
  {
    var v := ys[a];
    assert ys == ys[..b] + [ys[b]] + ys[b + 1..];
    assert ys[..b][a] == v;
    assert multiset(ys[..b])[v] >= 1;
  }

  /** A permutation of a sequence with distinct state names has distinct
      state names too. */
  lemma PermutationPreservesDistinct(xs: seq<CensusRecord>, ys: seq<CensusRecord>)
    requires DistinctNames(xs) && multiset(xs) == multiset(ys)
    ensures DistinctNames(ys)
  {
    forall a, b | 0 <= a < b < |ys| ensures ys[a].state != ys[b].state {
      if ys[a].state == ys[b].state {
        assert ys[a] in multiset(xs) && ys[b] in multiset(xs);
        var i :| 0 <= i < |xs| && xs[i] == ys[a];
        var j :| 0 <= j < |xs| && xs[j] == ys[b];
        if i == j {
          OccursTwice(ys, a, b);
          DistinctOccursOnce(xs, ys[a]);
        }
      }
    }
  }
}
