/**
 * Worked examples of the registry on the batches the service's endpoint tests
 * describe. Each scenario about a merged database is assembled from two
 * kinds of lemma: facts about the literal batch alone (which entry claims
 * which name, which codes it lists), and facts about any merge into an
 * empty database, stated over those abstract facts.
 */
module Scenarios {
  import opened Wrappers
  import opened Schema
  import opened Validation
  import opened Registry
  import opened RegistryProofs

  /** A small registry: Canada with three names, the United States and Mexico with two. */
  const Fixture: seq<CountryMapIn> := [
    CountryMapIn("CAN", ["Canada", "Kanada", "Canadá"]),
    CountryMapIn("USA", ["United States", "Estados Unidos"]),
    CountryMapIn("MEX", ["Mexico", "México"])
  ]

  /** The candidates the endpoint test sends for "CAN". */
  const Candidates: set<string> := {"Canada", "Kanada", "Mexico", "Brazil", "qweqerg", "Estados Unidos"}

  /** The batch of two codes that both claim "Canada". */
  const SharedBatch: seq<CountryMapIn> := [CountryMapIn("CAN", ["Canada"]), CountryMapIn("USA", ["Canada"])]

  // ---------------------------------------------------------------------
  // Merging into an empty database
  // ---------------------------------------------------------------------

  /** On an empty database a name ends up under exactly the code of the first entry listing it. */
  lemma ClaimedOnEmpty(s: Store, batch: seq<CountryMapIn>, n: string, iso: string)
    requires s == Empty
    ensures n in NamesOf(Merge(s, batch).store, iso) <==> FirstClaim(batch, n) == Some(iso)
  {
    EmptyValid();
    OwnerAfterMerge(s, batch, n, iso);
  }

  /** On an empty database the merge registers exactly the batch's codes and names. */
  lemma ContentsOnEmpty(s: Store, batch: seq<CountryMapIn>)
    requires s == Empty
    ensures CodeSet(Merge(s, batch).store) == BatchCodes(batch)
    ensures NameSet(Merge(s, batch).store) == BatchNames(batch)
  {
    EmptyValid();
    MergeContents(s, batch);
  }

  /** On an empty database the merge adds one code row per distinct code and one name row per distinct name. */
  lemma RowsOnEmpty(s: Store, batch: seq<CountryMapIn>)
    requires s == Empty
    ensures |Merge(s, batch).codes| == |BatchCodes(batch)|
    ensures |Merge(s, batch).names| == |BatchNames(batch)|
  {
    EmptyValid();
    MergeCounts(s, batch);
    assert BatchCodes(batch) - CodeSet(s) == BatchCodes(batch);
    assert BatchNames(batch) - NameSet(s) == BatchNames(batch);
  }

  // ---------------------------------------------------------------------
  // Facts about the literal batches
  // ---------------------------------------------------------------------

  /** Which entry of the fixture claims each candidate first. */
  lemma FixtureClaims(batch: seq<CountryMapIn>)
    requires batch == Fixture
    ensures FirstClaim(batch, "Canada") == Some("CAN") && FirstClaim(batch, "Kanada") == Some("CAN")
    ensures FirstClaim(batch, "Mexico") == Some("MEX") && FirstClaim(batch, "Estados Unidos") == Some("USA")
    ensures FirstClaim(batch, "Brazil") == None && FirstClaim(batch, "qweqerg") == None
  {
  }

  /** The fixture lists three codes. */
  lemma FixtureBatchCodes(batch: seq<CountryMapIn>)
    requires batch == Fixture
    ensures BatchCodes(batch) == {"CAN", "USA", "MEX"}
  {
    assert batch[0] in batch && batch[1] in batch && batch[2] in batch;
  }

  /** The code and name sets of the shared-name batch. */
  lemma SharedBatchSets(batch: seq<CountryMapIn>)
    requires batch == SharedBatch
    ensures BatchCodes(batch) == {"CAN", "USA"} && BatchNames(batch) == {"Canada"}
    ensures FirstClaim(batch, "Canada") == Some("CAN")
  {
    assert batch[0] in batch && batch[1] in batch;
    assert "Canada" in batch[0].names;
    forall n | n in BatchNames(batch) ensures n == "Canada" {
      var e :| e in batch && n in e.names;
    }
  }

  /** The validated entry keeps exactly the two distinct names. */
  lemma DedupedBatchNames(raw: RawCountryMap, batch: seq<CountryMapIn>)
    requires raw == RawCountryMap("CAN", ["Canada", "Canada", "Kanada"])
    requires ParseCountryMap(raw).Success? && batch == [ParseCountryMap(raw).value]
    ensures BatchNames(batch) == {"Canada", "Kanada"}
  {
    assert batch[0] in batch;
    assert "Canada" in raw.names && "Kanada" in raw.names;
    assert "Canada" in batch[0].names && "Kanada" in batch[0].names;
    forall n | n in BatchNames(batch) ensures n in {"Canada", "Kanada"} {
      var e :| e in batch && n in e.names;
    }
  }

  // ---------------------------------------------------------------------
  // Matching against a store with known contents
  // ---------------------------------------------------------------------

  /** The candidates that survive when "Canada" and "Kanada" are the only ones stored under the code. */
  lemma CanadaIntersection(names: set<string>)
    requires "Canada" in names && "Kanada" in names
    requires "Mexico" !in names && "Estados Unidos" !in names && "Brazil" !in names && "qweqerg" !in names
    ensures Candidates * names == {"Canada", "Kanada"}
  {
    forall n | n in Candidates * names ensures n == "Canada" || n == "Kanada" {
      assert n in Candidates;
    }
  }

  /** What `MatchCountry` answers for a registered code, once the intersection is known. */
  lemma MatchReports(t: Store, iso: string, candidates: set<string>, expected: set<string>)
    requires Valid(t) && |iso| == IsoLength && Registered(t, iso)
    requires candidates * NamesOf(t, iso) == expected
    ensures MatchCountry(t, MatchedCountriesIn(iso, candidates)) == Success(MatchedCountriesOut(iso, |expected|, expected))
  {
  }

  /** What `MatchCountry` answers for a code whose row is not in the table. */
  lemma MatchUnregistered(t: Store, iso: string, candidates: set<string>)
    requires Valid(t) && |iso| == IsoLength && iso !in CodeSet(t)
    ensures MatchCountry(t, MatchedCountriesIn(iso, candidates)) == Failure(CodeNotFound(iso))
  {
    forall c | c in t.codes ensures c.code != iso {
      assert c.code in CodeSet(t);
    }
  }

  /** Matching the test's candidates against a store holding the fixture's codes and Canada's names. */
  lemma MatchCanadaOn(t: Store)
    requires Valid(t) && CodeSet(t) == {"CAN", "USA", "MEX"}
    requires Candidates * NamesOf(t, "CAN") == {"Canada", "Kanada"}
    ensures MatchCountry(t, MatchedCountriesIn("CAN", Candidates))
            == Success(MatchedCountriesOut("CAN", 2, {"Canada", "Kanada"}))
  {
    assert "CAN" in CodeSet(t);
    MatchReports(t, "CAN", Candidates, {"Canada", "Kanada"});
    PairSize("Canada", "Kanada");
  }

  /** Two different names make a set of two. */
  lemma PairSize(a: string, b: string)
    requires a != b
    ensures |{a, b}| == 2
  {
  }

  /** Matching "BRA" against a store holding only the fixture's codes. */
  lemma MatchBrazilOn(t: Store)
    requires Valid(t) && CodeSet(t) == {"CAN", "USA", "MEX"}
    ensures MatchCountry(t, MatchedCountriesIn("BRA", {"Brasil"})) == Failure(CodeNotFound("BRA"))
  {
    MatchUnregistered(t, "BRA", {"Brasil"});
  }

  // ---------------------------------------------------------------------
  // The scenarios
  // ---------------------------------------------------------------------

  /** Merging the fixture into an empty database registers exactly its three codes. */
  lemma FixtureCodes(s: Store, batch: seq<CountryMapIn>)
    requires s == Empty && batch == Fixture
    ensures CodeSet(Merge(s, batch).store) == {"CAN", "USA", "MEX"}
  {
    FixtureBatchCodes(batch);
    ContentsOnEmpty(s, batch);
  }

  /** After the fixture is merged, "Canada" and "Kanada" are stored under "CAN". */
  lemma CanadaNamesStored(s: Store, batch: seq<CountryMapIn>)
    requires s == Empty && batch == Fixture
    ensures "Canada" in NamesOf(Merge(s, batch).store, "CAN")
    ensures "Kanada" in NamesOf(Merge(s, batch).store, "CAN")
  {
    FixtureClaims(batch);
    ClaimedOnEmpty(s, batch, "Canada", "CAN");
    ClaimedOnEmpty(s, batch, "Kanada", "CAN");
  }

  /** Names of other codes and unknown strings are not stored under "CAN". */
  lemma ForeignNamesAbsent(s: Store, batch: seq<CountryMapIn>)
    requires s == Empty && batch == Fixture
    ensures "Mexico" !in NamesOf(Merge(s, batch).store, "CAN")
    ensures "Estados Unidos" !in NamesOf(Merge(s, batch).store, "CAN")
    ensures "Brazil" !in NamesOf(Merge(s, batch).store, "CAN")
    ensures "qweqerg" !in NamesOf(Merge(s, batch).store, "CAN")
  {
    FixtureClaims(batch);
    ClaimedOnEmpty(s, batch, "Mexico", "CAN");
    ClaimedOnEmpty(s, batch, "Estados Unidos", "CAN");
    ClaimedOnEmpty(s, batch, "Brazil", "CAN");
    ClaimedOnEmpty(s, batch, "qweqerg", "CAN");
  }

  /** Of the test's candidates, exactly "Canada" and "Kanada" are stored under "CAN" after the fixture is merged. */
  lemma CanadaNamesScenario(s: Store, batch: seq<CountryMapIn>)
    requires s == Empty && batch == Fixture
    ensures Candidates * NamesOf(Merge(s, batch).store, "CAN") == {"Canada", "Kanada"}
  {
    CanadaNamesStored(s, batch);
    ForeignNamesAbsent(s, batch);
    CanadaIntersection(NamesOf(Merge(s, batch).store, "CAN"));
  }

  /**
   * Matching six candidates against "CAN" after merging the fixture into an
   * empty database: exactly "Canada" and "Kanada" match, and the count is 2.
   */
  lemma MatchCanadaScenario(s: Store, batch: seq<CountryMapIn>)
    requires s == Empty && batch == Fixture
    ensures MatchCountry(Merge(s, batch).store, MatchedCountriesIn("CAN", Candidates))
            == Success(MatchedCountriesOut("CAN", 2, {"Canada", "Kanada"}))
  {
    EmptyValid();
    FixtureCodes(s, batch);
    CanadaNamesScenario(s, batch);
    MatchCanadaOn(Merge(s, batch).store);
  }

  /** Matching against a code the fixture does not register answers not-found. */
  lemma UnknownCodeScenario(s: Store, batch: seq<CountryMapIn>)
    requires s == Empty && batch == Fixture
    ensures MatchCountry(Merge(s, batch).store, MatchedCountriesIn("BRA", {"Brasil"}))
            == Failure(CodeNotFound("BRA"))
  {
    EmptyValid();
    FixtureCodes(s, batch);
    MatchBrazilOn(Merge(s, batch).store);
  }

  /**
   * A name shared by two codes stays with the first: after merging
   * ("CAN", {"Canada"}) then ("USA", {"Canada"}), "Canada" belongs to "CAN"
   * and not to "USA".
   */
  lemma SharedNameScenario(s: Store, batch: seq<CountryMapIn>)
    requires s == Empty && batch == SharedBatch
    ensures "Canada" in NamesOf(Merge(s, batch).store, "CAN")
    ensures "Canada" !in NamesOf(Merge(s, batch).store, "USA")
  {
    SharedBatchSets(batch);
    ClaimedOnEmpty(s, batch, "Canada", "CAN");
    ClaimedOnEmpty(s, batch, "Canada", "USA");
  }

  /** The same batch creates two code rows and a single name row. */
  lemma SharedNameRowsScenario(s: Store, batch: seq<CountryMapIn>)
    requires s == Empty && batch == SharedBatch
    ensures |Merge(s, batch).codes| == 2 && |Merge(s, batch).names| == 1
  {
    SharedBatchSets(batch);
    RowsOnEmpty(s, batch);
    PairSize("CAN", "USA");
  }

  /**
   * A name repeated inside one entry collapses during validation:
   * ("CAN", ["Canada", "Canada", "Kanada"]) creates two name rows, not three.
   */
  lemma DuplicateNamesScenario(s: Store, raw: RawCountryMap)
    requires s == Empty && raw == RawCountryMap("CAN", ["Canada", "Canada", "Kanada"])
    ensures ParseCountryMap(raw).Success?
    ensures |Merge(s, [ParseCountryMap(raw).value]).names| == 2
  {
    var batch := [ParseCountryMap(raw).value];
    DedupedBatchNames(raw, batch);
    RowsOnEmpty(s, batch);
    PairSize("Canada", "Kanada");
  }
}
