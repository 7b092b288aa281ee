/**
 * The declarative base every table class shares: `to_dict` serialises a row's
 * mapped columns, `update` assigns the mapped columns found in a dictionary.
 *
 * An ORM instance is its list of mapped column keys (`__mapper__.c.keys()`)
 * and its attribute values. Relationship attributes are not columns.
 */
module OrmBase {
  import opened Schema

  /** A column value as the two tables use them. */
  datatype Value = IntVal(i: int) | StrVal(s: string)

  /** A mapped instance: its column keys in mapper order and its attributes. */
  datatype Instance = Instance(columns: seq<string>, attrs: map<string, Value>)

  /** Every mapped column has an attribute value on the instance. */
  predicate Loaded(x: Instance)
  {
    forall c | c in x.columns :: c in x.attrs
  }

  /** `Base.to_dict`: one entry per mapped column, holding that column's current value. */
  function ToDict(x: Instance): (d: map<string, Value>)
    requires Loaded(x)
    ensures forall c :: c in d <==> c in x.columns
    ensures forall c | c in d :: d[c] == x.attrs[c]
  {
    map c | c in x.columns :: x.attrs[c]
  }

  /**
   * `Base.update`: every key of `data` that is a mapped column is assigned;
   * other keys are ignored.
   */
  function Update(x: Instance, data: map<string, Value>): (y: Instance)
    ensures y.columns == x.columns
    ensures forall c | c in data && c in x.columns :: c in y.attrs && y.attrs[c] == data[c]
    ensures forall k | k !in data || k !in x.columns :: (k in y.attrs <==> k in x.attrs)
    ensures forall k | k in x.attrs && (k !in data || k !in x.columns) :: y.attrs[k] == x.attrs[k]
  {
    Instance(x.columns, x.attrs + map c | c in data && c in x.columns :: data[c])
  }

  /** Column keys of `CountryCode`: the `id` column is mapped under the key `id_`. */
  const CodeColumns: seq<string> := ["id_", "code"]

  /** Column keys of `CountryName`; the `country_code` relationship is not a column. */
  const NameColumns: seq<string> := ["id_", "name", "country_code_id"]

  /** The ORM instance for a `country_codes` row. */
  function CodeInstance(r: CodeRow): (x: Instance)
    ensures Loaded(x) && x.columns == CodeColumns
  {
    Instance(CodeColumns, map["id_" := IntVal(r.id), "code" := StrVal(r.code)])
  }

  /** The ORM instance for a `country_names` row. */
  function NameInstance(r: NameRow): (x: Instance)
    ensures Loaded(x) && x.columns == NameColumns
  {
    Instance(NameColumns, map["id_" := IntVal(r.id), "name" := StrVal(r.name), "country_code_id" := IntVal(r.codeId)])
  }

  /** Assigning an instance its own `to_dict` changes nothing. */
  lemma UpdateWithOwnDict(x: Instance)
    requires Loaded(x)
    ensures Update(x, ToDict(x)) == x
  {
    var y := Update(x, ToDict(x));
    assert y.attrs == x.attrs;
  }

  /** `update` is idempotent: applying the same data twice is applying it once. */
  lemma UpdateIdempotent(x: Instance, data: map<string, Value>)
    ensures Update(Update(x, data), data) == Update(x, data)
  {
    var y := Update(x, data);
    assert Update(y, data).attrs == y.attrs;
  }

  /**
   * After `update`, `to_dict` reports the new value of every mapped column the
   * data named and the old value of every other column.
   */
  lemma ToDictAfterUpdate(x: Instance, data: map<string, Value>, c: string)
    requires Loaded(x)
    requires c in x.columns
    ensures Loaded(Update(x, data))
    ensures ToDict(Update(x, data))[c] == if c in data then data[c] else ToDict(x)[c]
  {
  }
}
