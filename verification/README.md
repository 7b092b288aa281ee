# Country-name registry, modelled in Dafny

The core of a small web service that keeps a registry of ISO 3166-1 alpha-3
country codes and the country names (in any language) that belong to each
code. It has two routes:

- `POST /countries` merges a batch of `(iso, names)` entries. Codes and names
  are inserted with `INSERT ... ON CONFLICT DO NOTHING RETURNING`, so nothing
  already stored is touched. The route answers with the rows it created, or
  with 204 when it created nothing.
- `POST /match_country` takes a code and a set of candidate names. It answers
  with the candidates stored under that code and how many there are, or with
  404 when the code is not registered.

The model has these parts:

- `Wrappers` (`wrappers.dfy`): `Option` and `Result`.
- `Schema` (`schema.dfy`):
  - The two tables, `country_codes` and `country_names`. Each is a sequence of
    rows in insertion order with a rowid counter.
  - The declared constraints as the invariant `Valid`: unique code, unique
    name, unique ids, and the foreign key from a name row to a code row.
  - The declared column widths as `WithinWidths`.
  - The join `NamesOf(store, code)`.
- `OrmBase` (`orm_base.dfy`): the shared declarative base. `to_dict` and
  `update` work on an instance's mapped columns.
- `Validation` (`validation.py`'s schemas, in `validation.dfy`):
  - Request parsing: `iso` must be exactly 3 characters, and a list becomes
    a set.
  - The response records.
  - Keyword construction of the response schemas, `CountryCode(**d)` and
    `CountryName(**d)`, as `CodeOutFromDict` and `NameOutFromDict`. A missing
    or ill-typed field fails, and extra keys are ignored. What they yield for
    a row's `to_dict` is stated by `SerializeCodes` and `SerializeNames`.
- `Registry` (`registry.dfy`): the two routes. One merge entry is the code
  upsert, the fallback `SELECT`, then the multi-row name upsert under the
  code's id. The batch loop folds that over the entries.
- `RegistryProofs` (`registry_proofs.dfy`): properties that relate several
  calls.
  - First entry wins: a name claimed by several entries belongs to the first.
  - Idempotence.
  - Insert-only growth.
  - What a merge stores.
  - How many rows it creates.
- `Scenarios` (`scenarios.dfy`): the endpoint tests' situations, worked out on
  concrete batches.

Each route is one sequential step on an immutable `Store`, as the session
dependency provides. An exception raised in a route rolls the session back,
so on the 204 and 500 paths the route returns the input store unchanged.

Two points where the code does less than its own declarations or tests
suggest. The model follows the code:

- `country_names.name` is declared `String(100)`
  (`src/schemas/database.py:41`), but `CountryMapIn.names` is a plain
  `set[str]` with no length constraint, and SQLite does not enforce
  `VARCHAR` widths. Longer names are therefore accepted and stored. The
  declared width is kept as `WithinWidths`, and `MergeKeepsWidths`
  preserves it when callers respect it.
- `test_upsert_countries` asserts `response.json() is None`
  (`tests/test_endpoints.py:14`), while the route returns a `CountryMapOut`
  with the created rows. The model returns those rows.

## Model

| member | source | states |
|---|---|---|
| Schema.FindCode | src/api/main.py:33-35 | the `SELECT` by code returns a row carrying that code, and returns nothing exactly when no row carries it |
| Schema.EmptyValid | src/schemas/database.py:37-61 | a freshly created database satisfies every declared constraint and holds no code and no name |
| Schema.SameNameSameRow | src/schemas/database.py:41 | `unique=True` on `name`: two name rows with the same name are one row |
| Schema.SameIdSameCode | src/schemas/database.py:56 | the primary key of `country_codes`: two code rows with the same id are one row |
| Schema.SameCodeSameRow | src/schemas/database.py:57 | `unique=True` on `code`: two code rows with the same code are one row |
| Schema.NameHasOneOwner | src/schemas/database.py:41-45 | a name belongs to at most one code, because uniqueness is on the whole name column and not per code |
| Schema.StoredNameHasOwner | src/schemas/database.py:43-45 | through the foreign key, every stored name belongs to some registered code |
| OrmBase.ToDict | src/schemas/database.py:24-28 | the dictionary has exactly the mapped column keys, each holding the instance's current value |
| OrmBase.Update | src/schemas/database.py:30-34 | every data key that is a mapped column takes the data's value; every other key, including non-column keys in the data, is left as it was |
| OrmBase.CodeInstance | src/schemas/database.py:51-57 | a code row's instance has a value for each of its mapped columns `id_` and `code` |
| OrmBase.NameInstance | src/schemas/database.py:37-45 | a name row's instance has a value for each of its mapped columns `id_`, `name`, `country_code_id`; the relationship is not a column |
| OrmBase.UpdateWithOwnDict | src/schemas/database.py:24-34 | updating an instance with its own `to_dict` changes nothing |
| OrmBase.UpdateIdempotent | src/schemas/database.py:30-34 | applying the same update twice is applying it once |
| OrmBase.ToDictAfterUpdate | src/schemas/database.py:24-34 | after an update, `to_dict` shows the new value of each column the data named and the old value of every other column |
| Validation.Dedup | src/schemas/validation.py:27 | turning the names list into a set keeps exactly the listed names, each once |
| Validation.ParseCountryMap | src/schemas/validation.py:25-27 | an entry is accepted if and only if `iso` has exactly 3 characters; it keeps `iso` and has the same names without repeats; a rejection names the offending `iso` |
| Validation.ParseUpsertRequest | src/api/main.py:17 | the body is accepted if and only if every entry's `iso` has 3 characters; then entry i is element i validated; a rejection carries the error of some entry |
| Validation.ParseMatchRequest | src/schemas/validation.py:35-37 | the match body is accepted if and only if `iso` has 3 characters, and then the candidates are exactly the listed countries |
| Registry.InsertCode | src/api/main.py:24-37 | the code upsert creates a row exactly when the code is not yet registered; the code is registered afterwards and the constraints still hold |
| Registry.SelectCode | src/api/main.py:32-35 | when the upsert returned nothing, the fallback query finds the existing row carrying the code |
| Registry.InsertName | src/api/main.py:39-48 | one row of the name upsert creates a row under the given code id exactly when the name is not yet stored under any code |
| Registry.InsertNames | src/api/main.py:39-50 | the multi-row name upsert creates rows only for names not stored before, all under the given code id; afterwards every listed name is stored; the constraints still hold |
| Registry.MergeEntry | src/api/main.py:23-50 | one iteration creates a code row exactly when the code was new; each created name row was not stored before and joins to the entry's code; afterwards the code and every listed name are stored |
| Registry.Merge | src/api/main.py:21-50 | the loop only appends rows and keeps the constraints; the reported rows are exactly the appended ones; afterwards every code and name of the batch is stored; each added row was absent before and comes from some entry |
| Registry.SerializeCodes | src/api/main.py:59-62 | every added code row passes `CountryCode(**row.to_dict())`, and the list carries each row's id and code in order |
| Registry.SerializeNames | src/api/main.py:63-66 | every added name row passes `CountryName(**row.to_dict())`, and the list carries each row's id, name and code id in order |
| Registry.UpsertCountries | src/api/main.py:15-67 | the route keeps the constraints and only grows the store; it never fails to build its response; it answers 204 exactly when the batch was already fully stored, and exactly when the store is unchanged; otherwise the 201 body lists exactly the rows added, in order |
| Registry.NothingAddedIffCovered | src/api/main.py:52-56 | the merge adds no code and no name if and only if every code and name of the batch was already stored, and if and only if the store is unchanged |
| Registry.SerializedReportsAdded | src/api/main.py:58-67 | the serialised response describes exactly the rows the merge appended to each table |
| Registry.PostCountries | src/api/main.py:15-19 | the body is rejected if and only if some entry's `iso` is not 3 characters long, and a rejected body leaves the store unchanged |
| Registry.LookupCodeId | src/api/main.py:76-80 | the id query returns the id of a row carrying the code, and returns nothing exactly when no row carries it |
| Registry.JoinNames | src/api/main.py:87-95 | the join query returns exactly the candidate names whose row joins to a code row with the requested code; no name is returned twice |
| Registry.MatchCountry | src/api/main.py:70-101 | 404 if and only if the code is not registered; otherwise the answer echoes the 3-character code, the matches are the candidates intersected with the names stored under it, and the count is the number of matches |
| Registry.PostMatchCountry | src/api/main.py:70-74 | the body is rejected if and only if its `iso` is not 3 characters long; otherwise the route answers 404 exactly for an unregistered code, and its matches are the listed candidates stored under the code |
| Registry.DistinctCardinality | src/api/main.py:95-101 | a list of names without repeats is as long as the set it forms, so `len(country_names)` is the size of `matches` |
| RegistryProofs.OwnerAfterEntry | src/api/main.py:39-50 | after one entry, a name stored before keeps its code, and a name new to the store is under a code if and only if the entry lists it under that code |
| RegistryProofs.OwnerAfterMerge | src/api/main.py:23-50 | first entry wins: after a batch, a name stored before keeps its code, and a new name belongs to the code of the first entry listing it |
| RegistryProofs.MergeIdempotent | src/api/main.py:23-50 | merging a batch into the store a merge of the same batch produced adds no row and changes nothing |
| RegistryProofs.UpsertIdempotent | src/api/main.py:52-56 | posting the same batch a second time answers 204 and leaves the store as the first call left it |
| RegistryProofs.MergeOnlyAdds | src/api/main.py:24-50 | every row present before a merge is still present in place, and no code loses a name |
| RegistryProofs.MergeContents | src/api/main.py:23-50 | after a merge, the stored codes are the old codes plus the batch's codes, and the stored names are the old names plus the batch's names |
| RegistryProofs.DistinctKeyCount | src/schemas/database.py:37-57 | rows whose key column is unique (`code`, `name`) have exactly one key value per row |
| RegistryProofs.MergeCounts | src/api/main.py:21-50 | a merge creates one code row per batch code not yet registered and one name row per batch name not yet stored |
| RegistryProofs.MergeKeepsWidths | src/schemas/database.py:37-57 | when every `iso` has 3 characters and every name at most 100, the stored codes and names stay within their declared widths |
| Scenarios.ClaimedOnEmpty | src/api/main.py:39-50 | on an empty database, a name ends up under exactly the code of the first entry listing it |
| Scenarios.ContentsOnEmpty | src/api/main.py:23-50 | on an empty database, the merge stores exactly the batch's codes and names |
| Scenarios.RowsOnEmpty | tests/test_endpoints.py:16-23 | on an empty database, the merge creates one code row per distinct code and one name row per distinct name |
| Scenarios.MatchReports | src/api/main.py:87-101 | for a registered code, the match answer is the given intersection and its size |
| Scenarios.MatchUnregistered | src/api/main.py:76-85 | for a code no row carries, the match answers not-found for that code |
| Scenarios.FixtureCodes | tests/test_endpoints.py:54 | merging the small fixture into an empty database registers exactly `CAN`, `USA` and `MEX` |
| Scenarios.CanadaNamesScenario | tests/test_endpoints.py:56-68 | of the six candidates, exactly `Canada` and `Kanada` are stored under `CAN`; names of other codes and unknown strings are not |
| Scenarios.MatchCanadaScenario | tests/test_endpoints.py:54-75 | matching the six candidates against `CAN` answers `CAN`, a count of 2 and the matches `Canada`, `Kanada` |
| Scenarios.UnknownCodeScenario | src/api/main.py:81-85 | matching against `BRA`, which the fixture does not register, answers not-found |
| Scenarios.SharedNameScenario | src/api/main.py:43-49 | when two entries claim `Canada`, the name stays with the first entry's code and is not under the second |
| Scenarios.SharedNameRowsScenario | src/api/main.py:43-49 | that batch creates two code rows and a single name row |
| Scenarios.DuplicateNamesScenario | tests/test_endpoints.py:30-32 | a name repeated in one entry is collapsed by validation: `Canada, Canada, Kanada` creates two name rows |

## Left out

- Sessions, the engine, transactions and `await`: each route is one atomic
  step on the store. Concurrent requests are not modelled.
- SQLite's choice of rowid: a counter per table stands for it. Every id it
  hands out is positive and fresh, which is all the routes rely on.
- `MatchCountry` treats an id of 0 as "not found", as Python's `not id`
  does. Ids are always at least 1, so this is the same as "not registered".
- The iteration order of a pydantic `set`: a validated entry keeps its names
  in first-occurrence order. The ids of created name rows depend on that
  order; which names are stored and under which code do not.
- An entry with an empty `names` set is modelled as inserting no names. What
  the SQL layer does with an empty multi-row `VALUES` is not part of this
  model.
- Pydantic's lax coercion (for example a number given where a string is
  expected) and the validation of fields other than `iso`: request bodies
  are already typed here.
- ORM relationships (`country_code`, `country_names`): they are not columns,
  and neither route reads them. The model assumes that the mapping configures.
  As written, `CountryCode.country_names` declares
  `back_populates='country_name'` (`src/schemas/database.py:59-61`), but
  `CountryName` has no such property. SQLAlchemy would then refuse to
  configure the mappers at the first ORM query of either route, and the
  route would answer 500 before touching the store. Every outcome stated for
  `UpsertCountries` and `MatchCountry` is the outcome of a correctly
  configured mapping.
- `src/cache.py`, `app.py`, `config.py`, `src/utils.py`, `src/schemas/domain.py`
  and the test helpers are not part of this model.
- The fixtures `populate_db` and `countries_input` are not among the files
  modelled. The fixture batch in `Scenarios` is a small registry chosen to
  agree with what `test_match_country` expects. The 5-code / 23-name counts
  of `test_upsert_countries` are not reproduced.
- Registry.FirstClaim: a reference definition that the first-entry-wins lemma
  is stated against; it carries no contract of its own.
- Registry.UpsertCountries: the 201 body lists the created name rows of each
  entry in the order they were inserted, which is rowid order. This takes the
  rows `RETURNING` hands back for one multi-row insert to come back in
  insertion order. SQLite documents that order as
  unspecified, so the program's list need not be in that order within one
  entry. The set of rows reported, and their ids, names and codes, do not
  depend on it.
