/**
 * The two routes of the country-name registry: merging a batch of
 * (code, names) entries into the store, and matching candidate names against
 * the names stored under one code.
 *
 * Each call is one sequential step over the store; every
 * `INSERT ... ON CONFLICT DO NOTHING RETURNING` becomes "insert if absent,
 * report the row if it was inserted".
 */
module Registry {
  import opened Wrappers
  import opened Schema
  import opened OrmBase
  import opened Validation

  /** A store after some inserts, with the rows those inserts returned. */
  datatype Inserted = Inserted(store: Store, codes: seq<CodeRow>, names: seq<NameRow>)

  /** `s'` is `s` with `added` appended to `country_codes` and one rowid issued per row. */
  predicate CodesAppended(s: Store, s': Store, added: seq<CodeRow>)
  {
    && s'.codes == s.codes + added
    && s'.nextCodeId == s.nextCodeId + |added|
  }

  /** `s'` is `s` with `added` appended to `country_names` and one rowid issued per row. */
  predicate NamesAppended(s: Store, s': Store, added: seq<NameRow>)
  {
    && s'.names == s.names + added
    && s'.nextNameId == s.nextNameId + |added|
  }

  /** Every code and every name of the batch is already in `s`. */
  predicate Covers(s: Store, entries: seq<CountryMapIn>)
  {
    && (forall e | e in entries :: Registered(s, e.iso))
    && (forall e, n | e in entries && n in e.names :: Stored(s, n))
  }

  /** The code insert of one entry: the code row is created only when the code is new. */
  function InsertCode(s: Store, code: string): (r: Inserted)
    requires Valid(s)
    ensures Valid(r.store)
    ensures CodesAppended(s, r.store, r.codes) && NamesAppended(s, r.store, []) && r.names == []
    ensures r.codes == [] <==> Registered(s, code)
    ensures forall c | c in r.codes :: c.code == code
    ensures Registered(r.store, code)
  {
    if Registered(s, code) then Inserted(s, [], [])
    else
      var row := CodeRow(s.nextCodeId, code);
      var s' := s.(codes := s.codes + [row], nextCodeId := s.nextCodeId + 1);
      assert row in s'.codes;
      Inserted(s', [row], [])
  }

  /** The fallback `SELECT ... WHERE code = :code` once the insert found the code taken. */
  function SelectCode(codes: seq<CodeRow>, code: string): (r: CodeRow)
    requires exists c | c in codes :: c.code == code
    ensures r in codes && r.code == code
  {
    if codes[0].code == code then codes[0] else SelectCode(codes[1..], code)
  }

  /** One row of the name insert: the name is inserted only if no code holds it yet. */
  function InsertName(s: Store, name: string, codeId: int): (r: Inserted)
    requires Valid(s)
    requires exists c | c in s.codes :: c.id == codeId
    ensures Valid(r.store)
    ensures CodesAppended(s, r.store, []) && NamesAppended(s, r.store, r.names) && r.codes == []
    ensures r.names == [] <==> Stored(s, name)
    ensures forall n | n in r.names :: n.name == name && n.codeId == codeId
    ensures Stored(r.store, name)
  {
    if Stored(s, name) then Inserted(s, [], [])
    else
      var row := NameRow(s.nextNameId, name, codeId);
      var s' := s.(names := s.names + [row], nextNameId := s.nextNameId + 1);
      assert row in s'.names;
      Inserted(s', [], [row])
  }

  /**
   * The multi-row name insert of one entry, `ON CONFLICT DO NOTHING` per row:
   * a name already stored under any code is skipped, the rest are created
   * under `codeId`.
   */
  function InsertNames(s: Store, names: seq<string>, codeId: int): (r: Inserted)
    requires Valid(s)
    requires exists c | c in s.codes :: c.id == codeId
    ensures Valid(r.store)
    ensures CodesAppended(s, r.store, []) && NamesAppended(s, r.store, r.names) && r.codes == []
    ensures forall n | n in r.names :: n.name in names && !Stored(s, n.name) && n.codeId == codeId
    ensures forall n | n in names :: Stored(r.store, n)
    decreases |names|
  {
    if names == [] then Inserted(s, [], [])
    else
      var first := InsertName(s, names[0], codeId);
      var rest := InsertNames(first.store, names[1..], codeId);
      ChainNameInserts(s, first, rest, names, codeId);
      Inserted(rest.store, [], first.names + rest.names)
  }

  /** The step of `InsertNames`: the first row's insert followed by the rest's. */
  lemma ChainNameInserts(s: Store, first: Inserted, rest: Inserted, names: seq<string>, codeId: int)
    requires names != []
    requires CodesAppended(s, first.store, []) && NamesAppended(s, first.store, first.names)
    requires CodesAppended(first.store, rest.store, []) && NamesAppended(first.store, rest.store, rest.names)
    requires forall n | n in first.names :: n.name == names[0] && !Stored(s, n.name) && n.codeId == codeId
    requires forall n | n in rest.names :: n.name in names[1..] && !Stored(first.store, n.name) && n.codeId == codeId
    requires Stored(first.store, names[0])
    requires forall n | n in names[1..] :: Stored(rest.store, n)
    ensures CodesAppended(s, rest.store, []) && NamesAppended(s, rest.store, first.names + rest.names)
    ensures forall n | n in first.names + rest.names :: n.name in names && !Stored(s, n.name) && n.codeId == codeId
    ensures forall n | n in names :: Stored(rest.store, n)
  {
    GrowsKeeps(s, first.store);
    GrowsKeeps(first.store, rest.store);
    assert forall n | n in names :: n == names[0] || n in names[1..];
  }

  /**
   * One iteration of the merge loop: upsert the code, take the new or existing
   * row's id, then insert the entry's names under it.
   */
  function MergeEntry(s: Store, e: CountryMapIn): (r: Inserted)
    requires Valid(s)
    ensures Valid(r.store)
    ensures CodesAppended(s, r.store, r.codes) && NamesAppended(s, r.store, r.names)
    ensures r.codes == [] <==> Registered(s, e.iso)
    ensures forall c | c in r.codes :: c.code == e.iso
    ensures Registered(r.store, e.iso)
    ensures forall n | n in r.names :: n.name in e.names && !Stored(s, n.name) && RowUnder(r.store.codes, n, e.iso)
    ensures forall n | n in e.names :: Stored(r.store, n)
  {
    var afterCode := InsertCode(s, e.iso);
    var owner := if afterCode.codes != [] then afterCode.codes[0] else SelectCode(afterCode.store.codes, e.iso);
    assert owner in afterCode.store.codes && owner.code == e.iso;
    var afterNames := InsertNames(afterCode.store, e.names, owner.id);
    assert owner in afterNames.store.codes;
    assert forall n | n in afterNames.names :: RowUnder(afterNames.store.codes, n, e.iso);
    Inserted(afterNames.store, afterCode.codes, afterNames.names)
  }

  /**
   * The loop of `upsert_countries`: the entries are merged in order, and the
   * rows each iteration created are collected.
   */
  function Merge(s: Store, entries: seq<CountryMapIn>): (r: Inserted)
    requires Valid(s)
    ensures Valid(r.store)
    ensures CodesAppended(s, r.store, r.codes) && NamesAppended(s, r.store, r.names)
    ensures Covers(r.store, entries)
    ensures forall c | c in r.codes :: !Registered(s, c.code) && exists e | e in entries :: e.iso == c.code
    ensures forall n | n in r.names :: !Stored(s, n.name) && exists e | e in entries :: n.name in e.names
    decreases |entries|
  {
    if entries == [] then Inserted(s, [], [])
    else
      var first := MergeEntry(s, entries[0]);
      var rest := Merge(first.store, entries[1..]);
      ChainMerges(s, first, rest, entries);
      Inserted(rest.store, first.codes + rest.codes, first.names + rest.names)
  }

  /** The step of `Merge`: the first entry's merge followed by the rest's. */
  lemma ChainMerges(s: Store, first: Inserted, rest: Inserted, entries: seq<CountryMapIn>)
    requires entries != []
    requires CodesAppended(s, first.store, first.codes) && NamesAppended(s, first.store, first.names)
    requires CodesAppended(first.store, rest.store, rest.codes) && NamesAppended(first.store, rest.store, rest.names)
    requires Registered(first.store, entries[0].iso)
    requires forall n | n in entries[0].names :: Stored(first.store, n)
    requires forall c | c in first.codes :: !Registered(s, c.code) && c.code == entries[0].iso
    requires forall n | n in first.names :: !Stored(s, n.name) && n.name in entries[0].names
    requires forall e | e in entries[1..] :: Registered(rest.store, e.iso)
    requires forall e, n | e in entries[1..] && n in e.names :: Stored(rest.store, n)
    requires forall c | c in rest.codes :: !Registered(first.store, c.code) && exists e | e in entries[1..] :: e.iso == c.code
    requires forall n | n in rest.names :: !Stored(first.store, n.name) && exists e | e in entries[1..] :: n.name in e.names
    ensures CodesAppended(s, rest.store, first.codes + rest.codes) && NamesAppended(s, rest.store, first.names + rest.names)
    ensures Covers(rest.store, entries)
    ensures forall c | c in first.codes + rest.codes :: !Registered(s, c.code) && exists e | e in entries :: e.iso == c.code
    ensures forall n | n in first.names + rest.names :: !Stored(s, n.name) && exists e | e in entries :: n.name in e.names
  {
    GrowsKeeps(s, first.store);
    GrowsKeeps(first.store, rest.store);
    assert entries[0] in entries;
    assert forall e | e in entries[1..] :: e in entries;
    assert forall e | e in entries :: e == entries[0] || e in entries[1..];
  }

  /** `CountryCode(**row.to_dict())` for each added code, or none if one fails the schema. */
  function SerializeCodes(rows: seq<CodeRow>): (r: Option<seq<CountryCodeOut>>)
    ensures r.Some? && |r.value| == |rows|
    ensures r.Some? ==> forall i | 0 <= i < |rows| :: r.value[i] == CountryCodeOut(rows[i].id, rows[i].code)
  {
    if rows == [] then Some([])
    else
      match (CodeOutFromDict(ToDict(CodeInstance(rows[0]))), SerializeCodes(rows[1..]))
      case (Some(head), Some(tail)) =>
        assert forall i | 1 <= i < |rows| :: rows[1..][i - 1] == rows[i];
        Some([head] + tail)
      case _ => None
  }

  /** `CountryName(**row.to_dict())` for each added name, or none if one fails the schema. */
  function SerializeNames(rows: seq<NameRow>): (r: Option<seq<CountryNameOut>>)
    ensures r.Some? && |r.value| == |rows|
    ensures r.Some? ==> forall i | 0 <= i < |rows| :: r.value[i] == CountryNameOut(rows[i].id, rows[i].name, rows[i].codeId)
  {
    if rows == [] then Some([])
    else
      match (NameOutFromDict(ToDict(NameInstance(rows[0]))), SerializeNames(rows[1..]))
      case (Some(head), Some(tail)) =>
        assert forall i | 1 <= i < |rows| :: rows[1..][i - 1] == rows[i];
        Some([head] + tail)
      case _ => None
  }

  /** What `POST /countries` answers once its body is valid. */
  datatype UpsertOutcome =
    | Created(out: CountryMapOut)   // 201 with the added rows
    | NoContent                     // 204: nothing was added
    | ResponseInvalid               // 500: an added row failed the response schema

  /**
   * `upsert_countries`. The no-content answer is raised as an exception, and
   * so is a response-schema failure; either rolls the session back, and the
   * store is then returned as it was.
   */
  function UpsertCountries(s: Store, entries: seq<CountryMapIn>): (r: (Store, UpsertOutcome))
    requires Valid(s)
    ensures Valid(r.0) && Grows(s, r.0)
    ensures r.1 != ResponseInvalid
    ensures r.1 == NoContent <==> r.0 == s
    ensures r.1 == NoContent <==> Covers(s, entries)
    ensures r.1.Created? ==> ReportsAdded(s, r.0, r.1.out)
  {
    var merged := Merge(s, entries);
    NothingAddedIffCovered(s, entries);
    if merged.codes == [] && merged.names == [] then
      (s, NoContent)
    else
      match (SerializeCodes(merged.codes), SerializeNames(merged.names))
      case (Some(codes), Some(names)) =>
        SerializedReportsAdded(s, merged, codes, names);
        (merged.store, Created(CountryMapOut(codes, names)))
      case _ => (s, ResponseInvalid)
  }

  /**
   * `out` lists exactly the rows of `s'` beyond those of `s`, in insertion
   * order: every added code row and every added name row, with their ids.
   */
  predicate ReportsAdded(s: Store, s': Store, out: CountryMapOut)
    requires Grows(s, s')
  {
    && |out.codes| == |s'.codes| - |s.codes|
    && |out.names| == |s'.names| - |s.names|
    && (forall i | 0 <= i < |out.codes| ::
          out.codes[i] == CountryCodeOut(s'.codes[|s.codes| + i].id, s'.codes[|s.codes| + i].code))
    && (forall i | 0 <= i < |out.names| ::
          out.names[i] == CountryNameOut(s'.names[|s.names| + i].id, s'.names[|s.names| + i].name, s'.names[|s.names| + i].codeId))
  }

  /** The serialised added rows are exactly the rows the merge appended. */
  lemma SerializedReportsAdded(s: Store, m: Inserted, codes: seq<CountryCodeOut>, names: seq<CountryNameOut>)
    requires CodesAppended(s, m.store, m.codes) && NamesAppended(s, m.store, m.names)
    requires SerializeCodes(m.codes) == Some(codes) && SerializeNames(m.names) == Some(names)
    ensures Grows(s, m.store)
    ensures ReportsAdded(s, m.store, CountryMapOut(codes, names))
  {
    assert forall i | 0 <= i < |m.codes| :: m.store.codes[|s.codes| + i] == m.codes[i];
    assert forall i | 0 <= i < |m.names| :: m.store.names[|s.names| + i] == m.names[i];
  }

  /**
   * A merge adds nothing exactly when the batch is already covered, and
   * adding nothing leaves the store as it was.
   */
  lemma NothingAddedIffCovered(s: Store, entries: seq<CountryMapIn>)
    requires Valid(s)
    ensures var m := Merge(s, entries);
            (m.codes == [] && m.names == []) <==> Covers(s, entries)
    ensures var m := Merge(s, entries);
            (m.codes == [] && m.names == []) <==> m.store == s
  {
    var m := Merge(s, entries);
    AddedNothingIff(s, m, entries);
  }

  /** `NothingAddedIffCovered` for any result that appends only uncovered rows. */
  lemma AddedNothingIff(s: Store, m: Inserted, entries: seq<CountryMapIn>)
    requires CodesAppended(s, m.store, m.codes) && NamesAppended(s, m.store, m.names)
    requires Covers(m.store, entries)
    requires forall c | c in m.codes :: !Registered(s, c.code) && exists e | e in entries :: e.iso == c.code
    requires forall n | n in m.names :: !Stored(s, n.name) && exists e | e in entries :: n.name in e.names
    ensures (m.codes == [] && m.names == []) <==> Covers(s, entries)
    ensures (m.codes == [] && m.names == []) <==> m.store == s
  {
    if m.codes == [] && m.names == [] {
      assert m.store.codes == s.codes && m.store.names == s.names;
    } else if m.codes != [] {
      assert m.codes[0] in m.codes;
      assert |m.store.codes| > |s.codes|;
    } else {
      assert m.names[0] in m.names;
      assert |m.store.names| > |s.names|;
    }
  }


  /**
   * `POST /countries`: the body is validated first; a rejected body leaves the
   * store untouched.
   */
  function PostCountries(s: Store, body: seq<RawCountryMap>): (r: (Store, Result<UpsertOutcome, ValidationError>))
    requires Valid(s)
    ensures Valid(r.0) && Grows(s, r.0)
    ensures r.1.Failure? <==> exists i | 0 <= i < |body| :: |body[i].iso| != IsoLength
    ensures r.1.Failure? ==> r.0 == s
  {
    match ParseUpsertRequest(body)
    case Failure(e) => (s, Failure(e))
    case Success(entries) =>
      var (s', outcome) := UpsertCountries(s, entries);
      (s', Success(outcome))
  }

  /**
   * `SELECT id FROM country_codes WHERE code = :iso` through `scalar`: the id
   * of the first matching row, none if there is no such row.
   */
  function LookupCodeId(codes: seq<CodeRow>, iso: string): (r: Option<int>)
    ensures r.Some? ==> exists c | c in codes :: c.code == iso && c.id == r.value
    ensures r.None? <==> forall c | c in codes :: c.code != iso
  {
    match FindCode(codes, iso)
    case Some(row) => Some(row.id)
    case None => None
  }

  /**
   * The name query of `match_country`: names of the rows, in table order,
   * that join to a code row with code `iso` and are among the candidates.
   */
  function JoinNames(rows: seq<NameRow>, codes: seq<CodeRow>, iso: string, candidates: set<string>): (r: seq<string>)
    ensures forall n :: n in r <==> exists row | row in rows :: row.name == n && n in candidates && RowUnder(codes, row, iso)
    ensures NamesUnique(rows) ==> Distinct(r)
    ensures |r| <= |rows|
  {
    if rows == [] then []
    else
      var rest := JoinNames(rows[1..], codes, iso, candidates);
      assert forall row | row in rows[1..] :: row in rows;
      assert NamesUnique(rows) ==> NamesUnique(rows[1..]) && forall row | row in rows[1..] :: row.name != rows[0].name by {
        if NamesUnique(rows) {
          forall row | row in rows[1..] ensures row.name != rows[0].name {
            var k :| 0 <= k < |rows[1..]| && rows[1..][k] == row;
            assert rows[k + 1] == row;
          }
        }
      }
      if rows[0].name in candidates && RowUnder(codes, rows[0], iso)
      then [rows[0].name] + rest
      else rest
  }

  /** Why `POST /match_country` answers 404. */
  datatype NotFound = CodeNotFound(iso: string)

  /**
   * `match_country`: 404 when the id lookup comes back falsy (no row, or an id
   * of 0), otherwise the code, the number of names the query returned, and
   * those names as a set.
   */
  function MatchCountry(s: Store, req: MatchedCountriesIn): (r: Result<MatchedCountriesOut, NotFound>)
    requires Valid(s)
    requires |req.iso| == IsoLength
    ensures r.Failure? <==> !Registered(s, req.iso)
    ensures r.Failure? ==> r.error == CodeNotFound(req.iso)
    ensures r.Success? ==> r.value.iso == req.iso && |r.value.iso| == IsoLength
    ensures r.Success? ==> r.value.matches == req.countries * NamesOf(s, req.iso)
    ensures r.Success? ==> r.value.matchCount == |r.value.matches|
  {
    var found := LookupCodeId(s.codes, req.iso);
    if found.None? || found.value == 0 then Failure(CodeNotFound(req.iso))
    else
      var names := JoinNames(s.names, s.codes, req.iso, req.countries);
      var matches := set n | n in names;
      DistinctCardinality(names);
      Success(MatchedCountriesOut(req.iso, |names|, matches))
  }

  /** `POST /match_country`: validation first, then the route. */
  function PostMatchCountry(s: Store, body: RawMatchRequest): (r: Result<Result<MatchedCountriesOut, NotFound>, ValidationError>)
    requires Valid(s)
    ensures r.Failure? <==> |body.iso| != IsoLength
    ensures r.Success? && r.value.Success? ==>
              var candidates := set n | n in body.countries;
              r.value.value.matches == candidates * NamesOf(s, body.iso)
    ensures r.Success? ==> (r.value.Failure? <==> !Registered(s, body.iso))
  {
    match ParseMatchRequest(body)
    case Failure(e) => Failure(e)
    case Success(req) => Success(MatchCountry(s, req))
  }

  /** A list without repeats has as many elements as the set it forms. */
  lemma {:induction false} DistinctCardinality(xs: seq<string>)
    requires Distinct(xs)
    ensures |set x | x in xs| == |xs|
  {
    if xs != [] {
      var tail := xs[1..];
      assert Distinct(tail) by {
        forall i, j | 0 <= i < j < |tail| ensures tail[i] != tail[j] {
          assert tail[i] == xs[i + 1] && tail[j] == xs[j + 1];
        }
      }
      DistinctCardinality(tail);
      assert xs[0] !in tail by {
        forall k | 0 <= k < |tail| ensures tail[k] != xs[0] {
          assert tail[k] == xs[k + 1];
        }
      }
      assert (set x | x in xs) == (set x | x in tail) + {xs[0]} by {
        assert xs == [xs[0]] + tail;
      }
    }
  }

  /** The code of the first entry, in batch order, whose names include `name`. */
  function FirstClaim(entries: seq<CountryMapIn>, name: string): Option<string>
  {
    if entries == [] then None
    else if name in entries[0].names then Some(entries[0].iso)
    else FirstClaim(entries[1..], name)
  }
}
