/**
 * Properties of the registry that relate several calls or quantify over the
 * whole store: idempotence of a repeated merge, insert-only growth,
 * "first entry wins" for a name shared by several codes, row counts.
 */
module RegistryProofs {
  import opened Wrappers
  import opened Schema
  import opened Validation
  import opened Registry

  /**
   * One merge entry moves no name to another code: a name stored before keeps
   * its code; a new name of the entry lands under the entry's code; no other
   * name appears.
   */
  lemma OwnerAfterEntry(s: Store, e: CountryMapIn, n: string, iso: string)
    requires Valid(s)
    ensures n in NamesOf(MergeEntry(s, e).store, iso) <==>
              if Stored(s, n) then n in NamesOf(s, iso) else n in e.names && iso == e.iso
  {
    var m := MergeEntry(s, e);
    var t := m.store;
    if Stored(s, n) {
      if n in NamesOf(t, iso) {
        var r :| r in t.names && RowUnder(t.codes, r, iso) && r.name == n;
        var c :| c in t.codes && c.id == r.codeId && c.code == iso;
        var r0 :| r0 in s.names && r0.name == n;
        assert r0 in t.names;
        SameNameSameRow(t.names, r, r0);
        var c0 :| c0 in s.codes && c0.id == r0.codeId;
        assert c0 in t.codes;
        SameIdSameCode(t.codes, c, c0);
        assert RowUnder(s.codes, r0, iso);
      }
      if n in NamesOf(s, iso) {
        var r :| r in s.names && RowUnder(s.codes, r, iso) && r.name == n;
        var c :| c in s.codes && c.id == r.codeId && c.code == iso;
        assert r in t.names && c in t.codes;
        assert RowUnder(t.codes, r, iso);
      }
    } else {
      if n in NamesOf(t, iso) {
        var r :| r in t.names && RowUnder(t.codes, r, iso) && r.name == n;
        var c :| c in t.codes && c.id == r.codeId && c.code == iso;
        assert r !in s.names;
        assert r in m.names;
        var c1 :| c1 in t.codes && c1.id == r.codeId && c1.code == e.iso;
        SameIdSameCode(t.codes, c, c1);
      }
      if n in e.names && iso == e.iso {
        assert Stored(t, n);
        var r :| r in t.names && r.name == n;
        assert r !in s.names;
        assert r in m.names;
        assert RowUnder(t.codes, r, iso);
      }
    }
  }

  /**
   * First entry wins: after a merge, a name stored before keeps its code, and
   * a new name belongs to the code of the first entry of the batch that
   * lists it. A later entry never takes a name over.
   */
  lemma {:induction false} OwnerAfterMerge(s: Store, entries: seq<CountryMapIn>, n: string, iso: string)
    requires Valid(s)
    ensures n in NamesOf(Merge(s, entries).store, iso) <==>
              if Stored(s, n) then n in NamesOf(s, iso) else FirstClaim(entries, n) == Some(iso)
    decreases |entries|
  {
    if entries == [] {
    } else {
      var first := MergeEntry(s, entries[0]);
      var t := first.store;
      assert Merge(s, entries).store == Merge(t, entries[1..]).store;
      OwnerAfterMerge(t, entries[1..], n, iso);
      OwnerAfterEntry(s, entries[0], n, iso);
      if !Stored(s, n) && n !in entries[0].names {
        forall r | r in t.names ensures r.name != n {
          assert r in s.names || r in first.names;
        }
      }
    }
  }

  /**
   * Idempotence: merging a batch into the store a previous merge of the same
   * batch produced adds no row and leaves the store unchanged.
   */
  lemma MergeIdempotent(s: Store, entries: seq<CountryMapIn>)
    requires Valid(s)
    ensures var t := Merge(s, entries).store;
            Merge(t, entries) == Inserted(t, [], [])
  {
    var t := Merge(s, entries).store;
    NothingAddedIffCovered(t, entries);
  }

  /**
   * Idempotence at the route: posting the same batch a second time answers
   * 204 and leaves both tables and their row counts as the first call left them.
   */
  lemma UpsertIdempotent(s: Store, entries: seq<CountryMapIn>)
    requires Valid(s)
    ensures var t := UpsertCountries(s, entries).0;
            UpsertCountries(t, entries) == (t, NoContent)
  {
    var t := UpsertCountries(s, entries).0;
    var m := Merge(s, entries);
    assert t == s || t == m.store;
    assert Covers(t, entries);
  }

  /**
   * Insert-only growth: every row present before a merge is still present,
   * in place, and every stored name keeps its code.
   */
  lemma MergeOnlyAdds(s: Store, entries: seq<CountryMapIn>, iso: string)
    requires Valid(s)
    ensures Grows(s, Merge(s, entries).store)
    ensures NamesOf(s, iso) <= NamesOf(Merge(s, entries).store, iso)
  {
    forall n | n in NamesOf(s, iso) ensures n in NamesOf(Merge(s, entries).store, iso) {
      var r :| r in s.names && RowUnder(s.codes, r, iso) && r.name == n;
      OwnerAfterMerge(s, entries, n, iso);
    }
  }

  /** Every code of the batch. */
  function BatchCodes(entries: seq<CountryMapIn>): set<string>
  {
    set e | e in entries :: e.iso
  }

  /** Every name of the batch, across all entries. */
  function BatchNames(entries: seq<CountryMapIn>): set<string>
  {
    set e, n | e in entries && n in e.names :: n
  }

  /**
   * After a merge the code table holds exactly the codes held before and the
   * codes of the batch, and the name table exactly the names held before and
   * the names of the batch.
   */
  lemma MergeContents(s: Store, entries: seq<CountryMapIn>)
    requires Valid(s)
    ensures CodeSet(Merge(s, entries).store) == CodeSet(s) + BatchCodes(entries)
    ensures NameSet(Merge(s, entries).store) == NameSet(s) + BatchNames(entries)
  {
    var m := Merge(s, entries);
    var t := m.store;
    forall code | code in CodeSet(t) ensures code in CodeSet(s) + BatchCodes(entries) {
      var c :| c in t.codes && c.code == code;
      if c !in s.codes {
        assert c in m.codes;
        var e :| e in entries && e.iso == c.code;
      }
    }
    forall code | code in BatchCodes(entries) ensures code in CodeSet(t) {
      var e :| e in entries && e.iso == code;
      var c :| c in t.codes && c.code == code;
    }
    forall c | c in s.codes ensures c.code in CodeSet(t) {
      assert c in t.codes;
    }
    forall n | n in NameSet(t) ensures n in NameSet(s) + BatchNames(entries) {
      var r :| r in t.names && r.name == n;
      if r !in s.names {
        assert r in m.names;
        var e :| e in entries && r.name in e.names;
      }
    }
    forall n | n in BatchNames(entries) ensures n in NameSet(t) {
      var e :| e in entries && n in e.names;
      assert Stored(t, n);
      var r :| r in t.names && r.name == n;
    }
    forall r | r in s.names ensures r.name in NameSet(t) {
      assert r in t.names;
    }
  }

  /** The values a column takes over some rows. */
  function KeySet<T(==)>(rows: seq<T>, key: T -> string): set<string>
  {
    set r | r in rows :: key(r)
  }

  /**
   * Rows whose keys are pairwise distinct have as many keys as rows: a
   * unique column has one value per row.
   */
  lemma DistinctKeyCount<T>(rows: seq<T>, key: T -> string)
    requires forall i, j | 0 <= i < j < |rows| :: key(rows[i]) != key(rows[j])
    ensures |KeySet(rows, key)| == |rows|
  {
    var keys := seq(|rows|, i requires 0 <= i < |rows| => key(rows[i]));
    assert (set x | x in keys) == KeySet(rows, key) by {
      forall r | r in rows ensures key(r) in keys {
        var k :| 0 <= k < |rows| && rows[k] == r;
        assert keys[k] == key(r);
      }
    }
    DistinctCardinality(keys);
  }

  /**
   * Row counts of a merge: one code row per distinct code of the batch not
   * yet registered, one name row per distinct name of the batch not yet
   * stored under any code. Names that collide across entries or with the
   * store are counted once.
   */
  lemma MergeCounts(s: Store, entries: seq<CountryMapIn>)
    requires Valid(s)
    ensures |Merge(s, entries).codes| == |BatchCodes(entries) - CodeSet(s)|
    ensures |Merge(s, entries).names| == |BatchNames(entries) - NameSet(s)|
  {
    var m := Merge(s, entries);
    AddedCodeCount(s, m, entries);
    AddedNameCount(s, m, entries);
  }

  /** The code half of `MergeCounts`, for any result that appends only new batch codes. */
  lemma AddedCodeCount(s: Store, m: Inserted, entries: seq<CountryMapIn>)
    requires CodesAppended(s, m.store, m.codes) && CodesUnique(m.store.codes)
    requires forall e | e in entries :: Registered(m.store, e.iso)
    requires forall c | c in m.codes :: !Registered(s, c.code) && exists e | e in entries :: e.iso == c.code
    ensures |m.codes| == |BatchCodes(entries) - CodeSet(s)|
  {
    var t := m.store;
    forall i, j | 0 <= i < j < |m.codes| ensures m.codes[i].code != m.codes[j].code {
      assert m.codes[i] == t.codes[|s.codes| + i] && m.codes[j] == t.codes[|s.codes| + j];
    }
    var code := (c: CodeRow) => c.code;
    DistinctKeyCount(m.codes, code);
    assert KeySet(m.codes, code) == set c | c in m.codes :: c.code;
    forall code | code in BatchCodes(entries) - CodeSet(s) ensures code in (set c | c in m.codes :: c.code) {
      var e :| e in entries && e.iso == code;
      var c :| c in t.codes && c.code == code;
      assert c !in s.codes;
      assert c in m.codes;
    }
    forall c | c in m.codes ensures c.code in BatchCodes(entries) - CodeSet(s) {
      var e :| e in entries && e.iso == c.code;
    }
    assert (set c | c in m.codes :: c.code) == BatchCodes(entries) - CodeSet(s);
  }

  /** The name half of `MergeCounts`, for any result that appends only new batch names. */
  lemma AddedNameCount(s: Store, m: Inserted, entries: seq<CountryMapIn>)
    requires NamesAppended(s, m.store, m.names) && NamesUnique(m.store.names)
    requires forall e, n | e in entries && n in e.names :: Stored(m.store, n)
    requires forall r | r in m.names :: !Stored(s, r.name) && exists e | e in entries :: r.name in e.names
    ensures |m.names| == |BatchNames(entries) - NameSet(s)|
  {
    var t := m.store;
    forall i, j | 0 <= i < j < |m.names| ensures m.names[i].name != m.names[j].name {
      assert m.names[i] == t.names[|s.names| + i] && m.names[j] == t.names[|s.names| + j];
    }
    var name := (r: NameRow) => r.name;
    DistinctKeyCount(m.names, name);
    assert KeySet(m.names, name) == set r | r in m.names :: r.name;
    forall n | n in BatchNames(entries) - NameSet(s) ensures n in (set r | r in m.names :: r.name) {
      var e :| e in entries && n in e.names;
      assert Stored(t, n);
      var r :| r in t.names && r.name == n;
      assert r !in s.names;
      assert r in m.names;
    }
    forall r | r in m.names ensures r.name in BatchNames(entries) - NameSet(s) {
      var e :| e in entries && r.name in e.names;
    }
    assert (set r | r in m.names :: r.name) == BatchNames(entries) - NameSet(s);
  }

  /** A batch within the declared widths keeps the store within them. */
  lemma MergeKeepsWidths(s: Store, entries: seq<CountryMapIn>)
    requires Valid(s) && WithinWidths(s)
    requires forall e | e in entries :: |e.iso| == IsoLength && forall n | n in e.names :: |n| <= NameWidth
    ensures WithinWidths(Merge(s, entries).store)
  {
    var m := Merge(s, entries);
    forall c | c in m.store.codes ensures |c.code| <= CodeWidth {
      if c !in s.codes {
        assert c in m.codes;
      }
    }
    forall r | r in m.store.names ensures |r.name| <= NameWidth {
      if r !in s.names {
        assert r in m.names;
      }
    }
  }
}
