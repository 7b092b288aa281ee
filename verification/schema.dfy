/**
 * The persistence schema: the `country_codes` and `country_names` tables, the
 * constraints declared on them, and the lookups the routes run against them.
 *
 * A table is the sequence of its rows in insertion order. The database is never
 * asked to delete or update a row, so every change to a table is an append.
 */
module Schema {
  import opened Wrappers

  /** Declared width of `country_codes.code` (`String(3)`). */
  const CodeWidth: nat := 3

  /** Declared width of `country_names.name` (`String(100)`). */
  const NameWidth: nat := 100

  /** A row of `country_codes`: surrogate id and ISO 3166-1 alpha-3 code. */
  datatype CodeRow = CodeRow(id: int, code: string)

  /** A row of `country_names`; `codeId` is the foreign key to `country_codes.id`. */
  datatype NameRow = NameRow(id: int, name: string, codeId: int)

  /**
   * Both tables, plus the rowid each table hands out next. SQLite chooses a
   * fresh rowid for every insert; the counters stand for that choice.
   */
  datatype Store = Store(codes: seq<CodeRow>, names: seq<NameRow>, nextCodeId: int, nextNameId: int)

  /** The store of a freshly created database. */
  const Empty: Store := Store([], [], 1, 1)

  /** Primary key and `unique=True` on `country_codes`: no two rows share an id or a code. */
  predicate CodesUnique(codes: seq<CodeRow>)
  {
    forall i, j | 0 <= i < j < |codes| :: codes[i].id != codes[j].id && codes[i].code != codes[j].code
  }

  /** Primary key and `unique=True` on `country_names`: no two rows share an id or a name. */
  predicate NamesUnique(names: seq<NameRow>)
  {
    forall i, j | 0 <= i < j < |names| :: names[i].id != names[j].id && names[i].name != names[j].name
  }

  /** The foreign key: every name row points at an existing code row. */
  predicate NamesReferenceCodes(s: Store)
  {
    forall r | r in s.names :: exists c | c in s.codes :: c.id == r.codeId
  }

  /** Every rowid in use is positive and below the table's next rowid. */
  predicate IdsIssued(s: Store)
  {
    && 1 <= s.nextCodeId
    && 1 <= s.nextNameId
    && (forall c | c in s.codes :: 1 <= c.id < s.nextCodeId)
    && (forall r | r in s.names :: 1 <= r.id < s.nextNameId)
  }

  /** A database state the declared constraints admit. */
  predicate Valid(s: Store)
  {
    IdsIssued(s) && CodesUnique(s.codes) && NamesUnique(s.names) && NamesReferenceCodes(s)
  }

  /**
   * The declared column widths. SQLite does not enforce `VARCHAR(n)`, so this
   * is kept apart from `Valid`: it holds when callers respect the widths.
   */
  predicate WithinWidths(s: Store)
  {
    && (forall c | c in s.codes :: |c.code| <= CodeWidth)
    && (forall r | r in s.names :: |r.name| <= NameWidth)
  }

  /** Some code row carries `code`. */
  predicate Registered(s: Store, code: string)
  {
    exists c | c in s.codes :: c.code == code
  }

  /** Some name row carries `name`, under whichever code. */
  predicate Stored(s: Store, name: string)
  {
    exists r | r in s.names :: r.name == name
  }

  /** The name row `r` joins to a code row whose code is `code`. */
  predicate RowUnder(codes: seq<CodeRow>, r: NameRow, code: string)
  {
    exists c | c in codes :: c.id == r.codeId && c.code == code
  }

  /** Every name stored under `code`, through the `country_code_id` join. */
  function NamesOf(s: Store, code: string): set<string>
  {
    set r | r in s.names && RowUnder(s.codes, r, code) :: r.name
  }

  /** Every code string in the code table. */
  function CodeSet(s: Store): set<string>
  {
    set c | c in s.codes :: c.code
  }

  /** Every name string in the name table. */
  function NameSet(s: Store): set<string>
  {
    set r | r in s.names :: r.name
  }

  /** `s'` holds every row of `s` unchanged and in place: the store only grew. */
  predicate Grows(s: Store, s': Store)
  {
    && s.codes <= s'.codes
    && s.names <= s'.names
    && s.nextCodeId <= s'.nextCodeId
    && s.nextNameId <= s'.nextNameId
  }

  /** A store that only grew still holds every code and every name it held. */
  lemma GrowsKeeps(s: Store, s': Store)
    requires s.codes <= s'.codes && s.names <= s'.names
    ensures forall code | Registered(s, code) :: Registered(s', code)
    ensures forall name | Stored(s, name) :: Stored(s', name)
  {
    forall code | Registered(s, code) ensures Registered(s', code) {
      var c :| c in s.codes && c.code == code;
      assert c in s'.codes;
    }
    forall name | Stored(s, name) ensures Stored(s', name) {
      var r :| r in s.names && r.name == name;
      assert r in s'.names;
    }
  }

  /** `SELECT * FROM country_codes WHERE code = :code`, the first row or none. */
  function FindCode(codes: seq<CodeRow>, code: string): (r: Option<CodeRow>)
    ensures r.Some? ==> r.value in codes && r.value.code == code
    ensures r.None? <==> forall c | c in codes :: c.code != code
  {
    if codes == [] then None
    else if codes[0].code == code then Some(codes[0])
    else FindCode(codes[1..], code)
  }

  /** The empty database satisfies every declared constraint. */
  lemma EmptyValid()
    ensures Valid(Empty) && WithinWidths(Empty)
    ensures CodeSet(Empty) == {} && NameSet(Empty) == {}
  {
  }

  /** Name uniqueness: two name rows with the same name are the same row. */
  lemma {:induction false} SameNameSameRow(names: seq<NameRow>, a: NameRow, b: NameRow)
    requires NamesUnique(names)
    requires a in names && b in names && a.name == b.name
    ensures a == b
  {
    var i :| 0 <= i < |names| && names[i] == a;
    var j :| 0 <= j < |names| && names[j] == b;
    assert i == j;
  }

  /** Code-table primary key: two code rows with the same id are the same row. */
  lemma {:induction false} SameIdSameCode(codes: seq<CodeRow>, a: CodeRow, b: CodeRow)
    requires CodesUnique(codes)
    requires a in codes && b in codes && a.id == b.id
    ensures a == b
  {
    var i :| 0 <= i < |codes| && codes[i] == a;
    var j :| 0 <= j < |codes| && codes[j] == b;
    assert i == j;
  }

  /** Code uniqueness: two code rows with the same code are the same row. */
  lemma {:induction false} SameCodeSameRow(codes: seq<CodeRow>, a: CodeRow, b: CodeRow)
    requires CodesUnique(codes)
    requires a in codes && b in codes && a.code == b.code
    ensures a == b
  {
    var i :| 0 <= i < |codes| && codes[i] == a;
    var j :| 0 <= j < |codes| && codes[j] == b;
    assert i == j;
  }

  /**
   * In a valid store a name belongs to at most one code: `unique=True` on the
   * whole name column, not per code.
   */
  lemma NameHasOneOwner(s: Store, name: string, code1: string, code2: string)
    requires Valid(s)
    requires name in NamesOf(s, code1) && name in NamesOf(s, code2)
    ensures code1 == code2
  {
    var r1 :| r1 in s.names && RowUnder(s.codes, r1, code1) && r1.name == name;
    var r2 :| r2 in s.names && RowUnder(s.codes, r2, code2) && r2.name == name;
    SameNameSameRow(s.names, r1, r2);
    var c1 :| c1 in s.codes && c1.id == r1.codeId && c1.code == code1;
    var c2 :| c2 in s.codes && c2.id == r2.codeId && c2.code == code2;
    SameIdSameCode(s.codes, c1, c2);
  }

  /** In a valid store every stored name belongs to some registered code. */
  lemma StoredNameHasOwner(s: Store, name: string) returns (code: string)
    requires Valid(s) && Stored(s, name)
    ensures Registered(s, code) && name in NamesOf(s, code)
  {
    var r :| r in s.names && r.name == name;
    var c :| c in s.codes && c.id == r.codeId;
    code := c.code;
    assert RowUnder(s.codes, r, code);
  }
}
