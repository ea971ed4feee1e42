/** Table catalogs: building one from columns, and rebuilding it from what the store holds. */
module Catalog {
  import opened Common
  import opened KeyBytes
  import opened KeySpace

  datatype LogicalType =
    | SqlNull | Boolean | Tinyint | UTinyint | Smallint | USmallint | Integer | UInteger | Bigint | UBigint | Float | Double
    | Char(len: nat) | Varchar(limit: Option<nat>) | Date | DateTime | Time(precision: Option<nat>)
    | TimeStamp(digits: Option<nat>, zone: bool) | Decimal(places: Option<nat>, scale: Option<nat>) | TupleOf(types: seq<LogicalType>)

  /** check_primary_key_type: integers and text. */
  predicate KeyType(ty: LogicalType) {
    || ty.Tinyint? || ty.Smallint? || ty.Integer? || ty.Bigint?
    || ty.UTinyint? || ty.USmallint? || ty.UInteger? || ty.UBigint?
    || ty.Char? || ty.Varchar?
  }

  /** A column; `primary` is its place in the primary key. */
  datatype Column = Column(id: nat, name: string, ty: LogicalType, primary: Option<nat>, unique: bool, optional: bool)

  datatype IndexType = PrimaryKey(isMultiple: bool) | Unique | Normal | Composite

  datatype IndexMeta = IndexMeta(id: nat, columnIds: seq<nat>, pkTy: seq<LogicalType>, valueTy: seq<LogicalType>, name: string, ty: IndexType)

  /** All fields but the lazily filled type of the primary key. */
  datatype Table = Table(name: string, columnIdxs: map<string, (nat, nat)>, columns: map<nat, nat>,
                         indexes: seq<IndexMeta>, schema: seq<Column>, primaryKeys: seq<(nat, Column)>)

  /** A view; `plan` stands for its query. */
  datatype View = View(name: string, plan: nat)

  datatype Cell = ColumnCell(col: Column) | IndexCell(meta: IndexMeta) | ViewCell(view: View) | OtherCell

  type Store = map<Key, Cell>

  // ---------------------------------------------------------------- building

  /** The name and id maps of a schema, filled column by column. */
  function NameIndex(schema: seq<Column>): map<string, (nat, nat)> {
    if schema == [] then map[]
    else
      var n := |schema| - 1;
      NameIndex(schema[..n])[schema[n].name := (schema[n].id, n)]
  }

  function IdIndex(schema: seq<Column>): map<nat, nat> {
    if schema == [] then map[] else IdIndex(schema[..|schema| - 1])[schema[|schema| - 1].id := |schema| - 1]
  }

  /** The primary-key columns with their positions, ordered by their place in the key; ties keep
      schema order. */
  function PrimaryKeys(schema: seq<Column>): seq<(nat, Column)> {
    if schema == [] then []
    else
      var n := |schema| - 1;
      var before := PrimaryKeys(schema[..n]);
      if schema[n].primary.None? then before else Place(before, (n, schema[n]))
  }

  function Place(keys: seq<(nat, Column)>, key: (nat, Column)): seq<(nat, Column)> {
    if keys == [] then [key]
    else
      var n := |keys| - 1;
      if keys[n].1.primary.Some? && key.1.primary.Some? && key.1.primary.value < keys[n].1.primary.value
      then Place(keys[..n], key) + [keys[n]]
      else keys + [key]
  }

  /** TableCatalog::reload. */
  function Reload(name: string, schema: seq<Column>, indexes: seq<IndexMeta>): Table {
    Table(name, NameIndex(schema), IdIndex(schema), indexes, schema, PrimaryKeys(schema))
  }

  /** TableCatalog::add_column, past its duplicate check. */
  function AddColumn(t: Table, col: Column): Table {
    t.(columnIdxs := t.columnIdxs[col.name := (col.id, |t.schema|)],
       columns := t.columns[col.id := |t.schema|],
       schema := t.schema + [col])
  }

  function AddColumns(t: Table, cols: seq<Column>): Table {
    if cols == [] then t else AddColumn(AddColumns(t, cols[..|cols| - 1]), cols[|cols| - 1])
  }

  /** TableCatalog::new. */
  function NewTable(name: string, cols: seq<Column>): Table {
    var t := AddColumns(Table(name, map[], map[], [], [], []), cols);
    t.(primaryKeys := PrimaryKeys(t.schema))
  }

  lemma IndexStep(name: string, cols: seq<Column>, col: Column)
    ensures AddColumn(Indexed(name, cols), col) == Indexed(name, cols + [col])
  {
    assert (cols + [col])[..|cols|] == cols;
  }

  function Indexed(name: string, cols: seq<Column>): Table {
    Table(name, NameIndex(cols), IdIndex(cols), [], cols, [])
  }

  lemma {:induction false} AddColumnsIs(name: string, cols: seq<Column>)
    ensures AddColumns(Indexed(name, []), cols) == Indexed(name, cols)
  {
    if cols != [] {
      var front, col := cols[..|cols| - 1], cols[|cols| - 1];
      AddColumnsIs(name, front);
      assert front + [col] == cols;
      calc {
        AddColumns(Indexed(name, []), cols);
        AddColumn(AddColumns(Indexed(name, []), front), col);
        AddColumn(Indexed(name, front), col);
        { IndexStep(name, front, col); }
        Indexed(name, front + [col]);
      }
    }
  }

  /** Building a table column by column gives what reloading its columns gives. */
  lemma NewIsReload(name: string, cols: seq<Column>)
    ensures NewTable(name, cols) == Reload(name, cols, [])
  {
    AddColumnsIs(name, cols);
  }

  function Types(t: Table, ids: seq<nat>): Option<seq<LogicalType>> {
    if ids == [] then Some([])
    else
      match Types(t, ids[1..])
      case None => None
      case Some(rest) =>
        if ids[0] in t.columns && t.columns[ids[0]] < |t.schema| then Some([t.schema[t.columns[ids[0]]].ty] + rest) else None
  }

  function PkTypes(keys: seq<(nat, Column)>): seq<LogicalType> {
    seq(|keys|, i requires 0 <= i < |keys| => keys[i].1.ty)
  }

  datatype Error = DuplicateIndex | DuplicateColumn | ColumnNotFound | ColumnsEmpty | NeedNullAbleOrDefault
                 | TableNotFound | TableExists | DuplicateSourceHash | InvalidIndex
                 | ViewExists | ViewNotFound | InvalidType | Panic

  datatype Result<+V> = Ok(value: V) | Err(error: Error)

  /** TableCatalog::add_index_meta: the id after the last one in the list. */
  function AddIndex(t: Table, name: string, columnIds: seq<nat>, ty: IndexType): Result<Table> {
    if exists i :: 0 <= i < |t.indexes| && t.indexes[i].name == name then Err(DuplicateIndex)
    else
      match Types(t, columnIds)
      case None => Err(ColumnNotFound)
      case Some(valueTy) =>
        var id := if t.indexes == [] then 0 else t.indexes[|t.indexes| - 1].id + 1;
        Ok(t.(indexes := t.indexes + [IndexMeta(id, columnIds, PkTypes(t.primaryKeys), valueTy, name, ty)]))
  }

  /** create_index_meta_from_column over the first `n` columns: one index per unique column outside
      the primary key. */
  function UniqueIndexes(t: Table, n: nat): Result<Table>
    requires n <= |t.schema|
  {
    if n == 0 then Ok(t)
    else
      match UniqueIndexes(t, n - 1)
      case Err(e) => Err(e)
      case Ok(u) =>
        var col := t.schema[n - 1];
        if col.primary.None? && col.unique then AddIndex(u, UniqueName(col.name), [col.id], Unique) else Ok(u)
  }

  function KeyIds(keys: seq<(nat, Column)>): seq<nat> {
    seq(|keys|, i requires 0 <= i < |keys| => keys[i].1.id)
  }

  /** The table as create_table leaves it in the cache. */
  function Created(name: string, cols: seq<Column>): Result<Table> {
    var t := NewTable(name, cols);
    match UniqueIndexes(t, |t.schema|)
    case Err(e) => Err(e)
    case Ok(u) => AddIndex(u, "pk_index", KeyIds(u.primaryKeys), PrimaryKey(|u.primaryKeys| != 1))
  }

  predicate SequentialIds(ms: seq<IndexMeta>) { forall i :: 0 <= i < |ms| ==> ms[i].id == i }

  /** How many of the first `n` columns get an index of their own. */
  function Uniques(cols: seq<Column>, n: nat): nat
    requires n <= |cols|
  {
    if n == 0 then 0 else Uniques(cols, n - 1) + (if cols[n - 1].primary.None? && cols[n - 1].unique then 1 else 0)
  }

  predicate DistinctNames(cols: seq<Column>) { forall i, j :: 0 <= i < j < |cols| ==> cols[i].name != cols[j].name }

  lemma {:induction false} IdsIndexed(schema: seq<Column>)
    ensures forall i :: 0 <= i < |schema| ==> schema[i].id in IdIndex(schema)
    ensures forall id :: id in IdIndex(schema) ==> IdIndex(schema)[id] < |schema|
  {
    if schema != [] {
      var front := schema[..|schema| - 1];
      IdsIndexed(front);
      forall i | 0 <= i < |schema| ensures schema[i].id in IdIndex(schema) {
        if i < |front| { assert front[i] == schema[i]; }
      }
    }
  }

  lemma {:induction false} KnownTypes(t: Table, ids: seq<nat>)
    requires forall id :: id in ids ==> id in t.columns && t.columns[id] < |t.schema|
    ensures Types(t, ids).Some?
  {
    if ids != [] { KnownTypes(t, ids[1..]); }
  }

  lemma {:induction false} PlaceMembers(keys: seq<(nat, Column)>, key: (nat, Column))
    ensures forall e :: e in Place(keys, key) <==> e in keys || e == key
  {
    if keys != [] { PlaceMembers(keys[..|keys| - 1], key); }
  }

  lemma {:induction false} PrimaryKeysMembers(schema: seq<Column>)
    ensures forall e :: e in PrimaryKeys(schema) ==> e.1 in schema && e.1.primary.Some?
    ensures forall c :: c in schema && c.primary.Some? ==> exists e :: e in PrimaryKeys(schema) && e.1 == c
  {
    if schema != [] {
      var n := |schema| - 1;
      PrimaryKeysMembers(schema[..n]);
      PlaceMembers(PrimaryKeys(schema[..n]), (n, schema[n]));
    }
  }

  function UniqueName(name: string): string { "uk_" + name + "_index" }

  lemma UniqueNameInjective(a: string, b: string)
    ensures UniqueName(a) == UniqueName(b) ==> a == b
    ensures UniqueName(a) != "pk_index"
  {
    assert UniqueName(a)[3..|UniqueName(a)| - 6] == a && UniqueName(b)[3..|UniqueName(b)| - 6] == b;
    assert UniqueName(a)[0] == 'u';
  }

  /** Every index is named after one of the first `n` columns. */
  ghost predicate NamedAfter(ms: seq<IndexMeta>, cols: seq<Column>, n: nat)
    requires n <= |cols|
  {
    forall i :: 0 <= i < |ms| ==> NamedLike(ms[i], cols, n)
  }

  ghost predicate NamedLike(m: IndexMeta, cols: seq<Column>, n: nat)
    requires n <= |cols|
  {
    exists j :: 0 <= j < n && m.name == UniqueName(cols[j].name)
  }

  lemma NameIsNew(ms: seq<IndexMeta>, cols: seq<Column>, n: nat, i: nat)
    requires n <= |cols| && DistinctNames(cols) && NamedAfter(ms, cols, n) && i < |ms|
    ensures n < |cols| ==> ms[i].name != UniqueName(cols[n].name)
    ensures ms[i].name != "pk_index"
  {
    assert NamedLike(ms[i], cols, n);
    var j :| 0 <= j < n && ms[i].name == UniqueName(cols[j].name);
    UniqueNameInjective(cols[j].name, if n < |cols| then cols[n].name else "");
  }

  lemma IndexAdded(t: Table, name: string, ids: seq<nat>, ty: IndexType)
    requires forall i :: 0 <= i < |t.indexes| ==> t.indexes[i].name != name
    requires forall id :: id in ids ==> id in t.columns && t.columns[id] < |t.schema|
    requires SequentialIds(t.indexes)
    ensures var r := AddIndex(t, name, ids, ty);
            r.Ok? && r.value == t.(indexes := r.value.indexes) && SequentialIds(r.value.indexes)
            && |r.value.indexes| == |t.indexes| + 1 && r.value.indexes[..|t.indexes|] == t.indexes && r.value.indexes[|t.indexes|].name == name
  {
    KnownTypes(t, ids);
  }

  ghost predicate UniquesDone(t: Table, n: nat, u: Table)
    requires n <= |t.schema|
  {
    && u == t.(indexes := u.indexes)
    && SequentialIds(u.indexes)
    && |u.indexes| == Uniques(t.schema, n)
    && NamedAfter(u.indexes, t.schema, n)
  }

  lemma UniquesStep(t: Table, n: nat, u: Table)
    requires n < |t.schema| && t.columns == IdIndex(t.schema) && DistinctNames(t.schema) && UniquesDone(t, n, u)
    ensures var col := t.schema[n];
            var r := if col.primary.None? && col.unique then AddIndex(u, UniqueName(col.name), [col.id], Unique) else Ok(u);
            r.Ok? && UniquesDone(t, n + 1, r.value)
  {
    var col := t.schema[n];
    if col.primary.None? && col.unique {
      forall i | 0 <= i < |u.indexes| ensures u.indexes[i].name != UniqueName(col.name) {
        NameIsNew(u.indexes, t.schema, n, i);
      }
      IdsIndexed(t.schema);
      IndexAdded(u, UniqueName(col.name), [col.id], Unique);
      var ms := AddIndex(u, UniqueName(col.name), [col.id], Unique).value.indexes;
      forall i | 0 <= i < |ms| ensures NamedLike(ms[i], t.schema, n + 1) {
        if i < |u.indexes| {
          assert ms[i] == ms[..|u.indexes|][i] == u.indexes[i];
          assert NamedLike(u.indexes[i], t.schema, n);
        }
      }
    }
  }

  /** Indexes are numbered from 0, and nothing but the index list differs from a reload. */
  lemma {:induction false} UniqueIndexesShape(t: Table, n: nat)
    requires n <= |t.schema| && t.indexes == [] && t.columns == IdIndex(t.schema) && DistinctNames(t.schema)
    ensures UniqueIndexes(t, n).Ok? && UniquesDone(t, n, UniqueIndexes(t, n).value)
  {
    if n > 0 {
      UniqueIndexesShape(t, n - 1);
      UniquesStep(t, n - 1, UniqueIndexes(t, n - 1).value);
    }
  }

  lemma KeyIdsKnown(cols: seq<Column>)
    ensures forall id :: id in KeyIds(PrimaryKeys(cols)) ==> id in IdIndex(cols) && IdIndex(cols)[id] < |cols|
  {
    IdsIndexed(cols);
    PrimaryKeysMembers(cols);
    var keys := PrimaryKeys(cols);
    forall id | id in KeyIds(keys) ensures id in IdIndex(cols) && IdIndex(cols)[id] < |cols| {
      var i :| 0 <= i < |keys| && KeyIds(keys)[i] == id;
      assert keys[i] in keys;
    }
  }

  /** Creating a table with distinct column names succeeds, numbers its indexes from 0, and leaves the
      maps, the schema and the key as a reload of the columns gives them. */
  lemma CreatedShape(name: string, cols: seq<Column>)
    requires DistinctNames(cols)
    ensures var r := Created(name, cols);
            r.Ok? && r.value == Reload(name, cols, r.value.indexes) && SequentialIds(r.value.indexes) && |r.value.indexes| == Uniques(cols, |cols|) + 1
  {
    NewIsReload(name, cols);
    var t := NewTable(name, cols);
    UniqueIndexesShape(t, |cols|);
    var u := UniqueIndexes(t, |cols|).value;
    forall i | 0 <= i < |u.indexes| ensures u.indexes[i].name != "pk_index" {
      NameIsNew(u.indexes, cols, |cols|, i);
    }
    KeyIdsKnown(cols);
    IndexAdded(u, "pk_index", KeyIds(u.primaryKeys), PrimaryKey(|u.primaryKeys| != 1));
  }
}
