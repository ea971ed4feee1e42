/** Steps over one store: what each of them keeps, and what it means for the cached catalogs. */
module StoreSteps {
  import opened Common
  import opened KeyBytes
  import opened KeySpace
  import opened Catalog
  import opened TableScan

  // ---------------------------------------------------------------- what every operation keeps

  /** Whatever belongs to a table stands under its root key, and index entries under their meta. */
  predicate Rooted(kv: Store) {
    && (forall k: Key :: k in kv && OfTable(k) ==> RootKey(k.h) in kv)
    && (forall k: Key :: k in kv && k.IndexKey? ==> IndexMetaKey(k.h, k.id) in kv)
  }

  /** Every view key holds a view. */
  predicate TypedViews(kv: Store) { forall k: Key :: k in kv && k.ViewKey? ==> kv[k].ViewCell? }

  predicate Solid(kv: Store) { ValidKeys(kv) && TypedCells(kv) && Rooted(kv) && TypedViews(kv) }

  /** A name's hash is taken exactly while a table or a view, and never both, has it. */
  ghost predicate OneOwner(kv: Store) {
    forall h: Bytes :: (HashKey(h) in kv <==> RootKey(h) in kv || ViewKey(h) in kv) && !(RootKey(h) in kv && ViewKey(h) in kv)
  }

  ghost predicate Coherent(kv: Store, cache: map<string, Table>, hash: string -> Bytes)
    requires TypedCells(kv)
  {
    forall n :: n in cache ==> ValidHash(hash(n)) && Agrees(kv, hash(n), n, cache[n])
  }

  /** No other cached name has this name's hash. */
  predicate Apart(cache: map<string, Table>, hash: string -> Bytes, name: string) {
    forall n :: n in cache && hash(n) == hash(name) ==> n == name
  }

  ghost predicate SameElsewhere(kv: Store, kv': Store, h: Bytes) {
    forall k: Key :: k.h != h ==> (k in kv <==> k in kv') && (k in kv ==> kv[k] == kv'[k])
  }

  /** A step on one table, its name out of the cache, leaves the other cached tables right. */
  lemma CoherentAfter(kv: Store, kv': Store, cache: map<string, Table>, hash: string -> Bytes, name: string)
    requires Solid(kv) && Solid(kv') && Coherent(kv, cache, hash) && Apart(cache, hash, name)
    requires SameElsewhere(kv, kv', hash(name))
    ensures Coherent(kv', cache - {name}, hash)
  {
    forall n | n in cache && n != name ensures ValidHash(hash(n)) && Agrees(kv', hash(n), n, cache[n]) {
      AgreesFrame(kv, kv', hash(n), n, cache[n]);
    }
  }

  lemma CoherentWith(kv: Store, cache: map<string, Table>, hash: string -> Bytes, name: string, t: Table)
    requires TypedCells(kv) && Coherent(kv, cache - {name}, hash) && ValidHash(hash(name)) && Agrees(kv, hash(name), name, t)
    ensures Coherent(kv, cache[name := t], hash)
  {
    forall n | n in cache[name := t] ensures ValidHash(hash(n)) && Agrees(kv, hash(n), n, cache[name := t][n]) {
      if n != name { assert n in cache - {name}; }
    }
  }

  lemma DropUpdated(cache: map<string, Table>, name: string, t: Table)
    ensures cache[name := t] - {name} == cache - {name}
  {
  }

  function Keep(kv: Store, f: Key -> bool): Store { map k | k in kv && f(k) :: kv[k] }

  lemma {:induction false} NoColumns(kv: Store, ks: seq<Key>)
    requires TypedCells(kv) && (forall k :: k in ks ==> k in kv) && ColumnsIn(kv, ks) == []
    ensures forall k :: k in ks ==> !k.ColumnKey?
  {
    if ks != [] { NoColumns(kv, ks[1..]); }
  }

  // ---------------------------------------------------------------- the operations

  ghost predicate HasColumn(kv: Store, h: Bytes) { exists k: Key :: k in kv && k.ColumnKey? && k.h == h }

  predicate Stored(kv: Store, ks: seq<Key>) { forall k :: k in ks ==> k in kv }

  lemma SplitStep(kv: Store, ks: seq<Key>, columns: seq<Column>, metas: seq<IndexMeta>)
    requires TypedCells(kv) && Stored(kv, ks) && ks != []
    ensures ks[0].ColumnKey? ==> columns + ColumnsIn(kv, ks) == columns + [kv[ks[0]].col] + ColumnsIn(kv, ks[1..])
    ensures ks[0].IndexMetaKey? ==> metas + MetasIn(kv, ks) == metas + [kv[ks[0]].meta] + MetasIn(kv, ks[1..])
    ensures !ks[0].ColumnKey? ==> ColumnsIn(kv, ks) == ColumnsIn(kv, ks[1..])
    ensures !ks[0].IndexMetaKey? ==> MetasIn(kv, ks) == MetasIn(kv, ks[1..])
  {
    assert ks[0] in ks;
    if ks[0].ColumnKey? {
      Assoc(columns, [kv[ks[0]].col], ColumnsIn(kv, ks[1..]));
    } else if ks[0].IndexMetaKey? {
      Assoc(metas, [kv[ks[0]].meta], MetasIn(kv, ks[1..]));
    }
  }

  /** The loop of table_collect: a key that starts with the lower bound holds a column. */
  method SplitScan(kv: Store, start: Bytes, ks: seq<Key>) returns (columns: seq<Column>, metas: seq<IndexMeta>)
    requires TypedCells(kv) && Stored(kv, ks)
    requires forall i :: 0 <= i < |ks| ==> (ks[i].ColumnKey? || ks[i].IndexMetaKey?) && (start <= Encode(ks[i]) <==> ks[i].ColumnKey?)
    ensures columns == ColumnsIn(kv, ks) && metas == MetasIn(kv, ks)
  {
    columns, metas := [], [];
    for i := 0 to |ks|
      invariant Stored(kv, ks[i..])
      invariant columns + ColumnsIn(kv, ks[i..]) == ColumnsIn(kv, ks)
      invariant metas + MetasIn(kv, ks[i..]) == MetasIn(kv, ks)
    {
      SplitStep(kv, ks[i..], columns, metas);
      assert ks[i..][1..] == ks[i + 1..] && ks[i..][0] == ks[i];
      if start <= Encode(ks[i]) {
        columns := columns + [kv[ks[i]].col];
      } else {
        metas := metas + [kv[ks[i]].meta];
      }
    }
  }

  lemma ScanKinds(kv: Store, h: Bytes, ks: seq<Key>)
    requires ValidKeys(kv) && ValidHash(h) && IsListing(ks, TableKeys(kv, h))
    ensures Stored(kv, ks)
    ensures forall i :: 0 <= i < |ks| ==> (ks[i].ColumnKey? || ks[i].IndexMetaKey?) && (TableBound(h).lo <= Encode(ks[i]) <==> ks[i].ColumnKey?)
  {
    forall i | 0 <= i < |ks|
      ensures (ks[i].ColumnKey? || ks[i].IndexMetaKey?) && (TableBound(h).lo <= Encode(ks[i]) <==> ks[i].ColumnKey?)
    {
      assert ks[i] in ks;
      TableBoundExact(h, ks[i]);
    }
  }

  lemma NoColumnLeft(kv: Store, h: Bytes, ks: seq<Key>)
    requires ValidKeys(kv) && TypedCells(kv) && ValidHash(h) && IsListing(ks, TableKeys(kv, h)) && ColumnsIn(kv, ks) == []
    ensures !HasColumn(kv, h)
  {
    NoColumns(kv, ks);
    TableKeysAre(kv, h);
  }

  /** One scan decides: the catalog built from it is the right one. */
  lemma ListingAgrees(kv: Store, h: Bytes, name: string, ks: seq<Key>)
    requires TypedCells(kv) && IsListing(ks, TableKeys(kv, h)) && ColumnsIn(kv, ks) != []
    ensures Agrees(kv, h, name, Reload(name, ColumnsIn(kv, ks), MetasIn(kv, ks)))
  {
    forall other | IsListing(other, TableKeys(kv, h)) ensures other == ks {
      ListingUnique(other, ks, TableKeys(kv, h));
    }
  }

  // ---------------------------------------------------------------- creating a table

  function CreateOutcome(kv: Store, h: Bytes, cols: seq<Column>, ifNotExists: bool): Result<bool> {
    if cols == [] then Err(ColumnsEmpty)
    else if !DistinctNames(cols) then Err(Panic)
    else if exists c :: c in cols && c.primary.Some? && !KeyType(c.ty) then Err(InvalidType)
    else if RootKey(h) in kv then (if ifNotExists then Ok(false) else Err(TableExists))
    else if HashKey(h) in kv then Err(DuplicateSourceHash)
    else Ok(true)
  }

  /** The new table has its columns, its index metas and no row, entry or statistics; every other key is
      as before. */
  ghost predicate IsNewTable(kv: Store, kv': Store, h: Bytes, cols: seq<Column>, metas: seq<IndexMeta>) {
    && SameElsewhere(kv, kv', h)
    && Holds(kv', h, cols, metas)
    && RootKey(h) in kv' && HashKey(h) in kv'
    && (ViewKey(h) in kv' <==> ViewKey(h) in kv)
    && (forall k: Key :: k in kv' && k.h == h ==> !k.RowKey? && !k.IndexKey? && !k.StatisticsKey?)
  }

  predicate IsNewKey(k: Key, h: Bytes, cols: seq<Column>, metas: seq<IndexMeta>) {
    k == HashKey(h) || k == RootKey(h) || k in ColKeys(h, cols) || k in MetaKeys(h, metas)
  }

  /** The store after the writes of create_table, key by key. */
  ghost predicate TableWritten(kv: Store, kv': Store, h: Bytes, cols: seq<Column>, metas: seq<IndexMeta>) {
    && (forall k :: k in kv' <==> k in kv || IsNewKey(k, h, cols, metas))
    && (forall k :: k in kv && !IsNewKey(k, h, cols, metas) ==> kv'[k] == kv[k])
    && (forall i :: 0 <= i < |cols| ==> kv'[ColumnKey(h, cols[i].id)] == ColumnCell(cols[i]))
    && (forall i :: 0 <= i < |metas| ==> kv'[IndexMetaKey(h, metas[i].id)] == IndexCell(metas[i]))
  }

  lemma NewKeyValid(k: Key, h: Bytes, cols: seq<Column>, metas: seq<IndexMeta>)
    requires ValidHash(h) && AscendingIds(cols) && SequentialIds(metas) && |metas| <= Pow256(4) && IsNewKey(k, h, cols, metas)
    ensures ValidKey(k) && k.h == h && !k.RowKey? && !k.IndexKey? && !k.StatisticsKey? && !k.ViewKey?
  {
  }

  lemma NewCells(kv: Store, kv': Store, h: Bytes, cols: seq<Column>, metas: seq<IndexMeta>)
    requires TypedCells(kv) && TableWritten(kv, kv', h, cols, metas)
    ensures TypedCells(kv')
  {
  }

  lemma NewHolds(kv: Store, kv': Store, h: Bytes, cols: seq<Column>, metas: seq<IndexMeta>)
    requires Rooted(kv) && RootKey(h) !in kv && TableWritten(kv, kv', h, cols, metas)
    ensures Holds(kv', h, cols, metas)
  {
  }

  lemma NewRooted(kv: Store, kv': Store, h: Bytes)
    requires Rooted(kv) && RootKey(h) in kv' && forall k :: k in kv ==> k in kv'
    requires forall k: Key :: k in kv' && k !in kv ==> k.h == h && !k.IndexKey?
    ensures Rooted(kv')
  {
  }

  lemma NewOwner(kv: Store, kv': Store, h: Bytes)
    requires OneOwner(kv) && HashKey(h) !in kv && HashKey(h) in kv' && RootKey(h) in kv' && forall k :: k in kv ==> k in kv'
    requires forall k: Key :: k in kv' && k !in kv ==> k.h == h && !k.ViewKey?
    ensures OneOwner(kv')
  {
  }

  lemma NewTableIs(kv: Store, kv': Store, h: Bytes, cols: seq<Column>, metas: seq<IndexMeta>)
    requires Solid(kv) && RootKey(h) !in kv && HashKey(h) !in kv && ValidHash(h)
    requires AscendingIds(cols) && SequentialIds(metas) && |metas| <= Pow256(4) && TableWritten(kv, kv', h, cols, metas)
    ensures Solid(kv') && IsNewTable(kv, kv', h, cols, metas)
    ensures OneOwner(kv) ==> OneOwner(kv')
  {
    forall k | IsNewKey(k, h, cols, metas) ensures ValidKey(k) && k.h == h && !k.RowKey? && !k.IndexKey? && !k.StatisticsKey? && !k.ViewKey? {
      NewKeyValid(k, h, cols, metas);
    }
    assert IsNewKey(RootKey(h), h, cols, metas) && IsNewKey(HashKey(h), h, cols, metas);
    NewCells(kv, kv', h, cols, metas);
    NewHolds(kv, kv', h, cols, metas);
    NewRooted(kv, kv', h);
    if OneOwner(kv) { NewOwner(kv, kv', h); }
  }

  lemma NewTableCoherent(kv: Store, kv': Store, cache: map<string, Table>, hash: string -> Bytes, name: string,
                         cols: seq<Column>, metas: seq<IndexMeta>)
    requires Solid(kv) && Solid(kv') && Coherent(kv, cache, hash) && ValidHash(hash(name)) && RootKey(hash(name)) !in kv
    requires IsNewTable(kv, kv', hash(name), cols, metas) && cols != [] && AscendingIds(cols) && SequentialIds(metas)
    ensures Coherent(kv', cache[name := Reload(name, cols, metas)], hash) <==> |metas| <= 256
  {
    var h, t := hash(name), Reload(name, cols, metas);
    forall n | n in cache ensures RootKey(hash(n)) in kv {
      CatalogHasRoot(kv, hash(n), n, cache[n]);
    }
    CoherentAfter(kv, kv', cache, hash, name);
    ReloadsAsBuilt(kv', h, name, cols, metas);
    if |metas| <= 256 {
      CoherentWith(kv', cache, hash, name, t);
    } else {
      assert name in cache[name := t];
    }
  }

  /** The second store is the first without every key of the table or its name; a view's key stays. */
  ghost predicate TableGone(kv: Store, kv': Store, h: Bytes) {
    && (forall k: Key :: k in kv' <==> k in kv && (k.h != h || k.ViewKey?))
    && (forall k :: k in kv' ==> kv'[k] == kv[k])
  }

  lemma TableGoneKeeps(kv: Store, kv': Store, h: Bytes)
    requires Solid(kv) && RootKey(h) in kv && TableGone(kv, kv', h)
    ensures Solid(kv') && SameElsewhere(kv, kv', h) && (OneOwner(kv) ==> OneOwner(kv'))
  {
  }

  /** The family tag of a table's key; 0 for the other keys. */
  function Tag(k: Key): (tag: Byte)
    ensures OfTable(k) ==> tag > 0 && Family(k) == [tag]
    ensures !OfTable(k) ==> tag == 0
  {
    match k
    case ColumnKey(_, _) => 48
    case IndexMetaKey(_, _) => 49
    case IndexKey(_, _, _) => 51
    case StatisticsKey(_, _) => 52
    case RowKey(_, _) => 56
    case _ => 0
  }

  predicate IsGone(k: Key, h: Bytes, col: Option<nat>, ids: set<nat>) {
    k.h == h && ((k.ColumnKey? && col == Some(k.id)) || ((k.IndexMetaKey? || k.IndexKey? || k.StatisticsKey?) && k.id in ids))
  }

  /** The second store is the first without one column of a table, if one is given, and all that is
      stored for some of its indexes. */
  ghost predicate Gone(kv: Store, kv': Store, h: Bytes, col: Option<nat>, ids: set<nat>) {
    && (forall k :: k in kv' <==> k in kv && !IsGone(k, h, col, ids))
    && (forall k :: k in kv' ==> kv'[k] == kv[k])
  }

  lemma GoneBoth(kv: Store, kv1: Store, kv2: Store, h: Bytes, col: Option<nat>, ids: set<nat>, id: nat)
    requires Gone(kv, kv1, h, col, ids) && Gone(kv1, kv2, h, None, {id})
    ensures Gone(kv, kv2, h, col, ids + {id})
  {
  }

  lemma GoneRooted(kv: Store, kv': Store, h: Bytes, col: Option<nat>, ids: set<nat>)
    requires Rooted(kv) && Gone(kv, kv', h, col, ids)
    ensures Rooted(kv')
  {
    forall k: Key | k in kv' && k.IndexKey? ensures IndexMetaKey(k.h, k.id) in kv' {
      assert !IsGone(IndexMetaKey(k.h, k.id), h, col, ids);
    }
  }

  /** Steps that leave the root, view and hash keys alone. */
  lemma OwnerFrame(kv: Store, kv': Store)
    requires OneOwner(kv)
    requires forall h: Bytes :: (HashKey(h) in kv <==> HashKey(h) in kv') && (RootKey(h) in kv <==> RootKey(h) in kv') && (ViewKey(h) in kv <==> ViewKey(h) in kv')
    ensures OneOwner(kv')
  {
  }

  lemma GoneKeeps(kv: Store, kv': Store, h: Bytes, col: Option<nat>, ids: set<nat>)
    requires Solid(kv) && Gone(kv, kv', h, col, ids)
    ensures Solid(kv') && SameElsewhere(kv, kv', h)
    ensures OneOwner(kv) ==> OneOwner(kv')
  {
    GoneRooted(kv, kv', h, col, ids);
    if OneOwner(kv) { OwnerFrame(kv, kv'); }
  }

  /** The table has a stored index of this id and name, its type as asked. */
  predicate StoredIndex(kv: Store, h: Bytes, id: nat, name: string, constraint: bool) {
    && IndexMetaKey(h, id) in kv
    && kv[IndexMetaKey(h, id)].IndexCell?
    && kv[IndexMetaKey(h, id)].meta.name == name
    && ((kv[IndexMetaKey(h, id)].meta.ty.PrimaryKey? || kv[IndexMetaKey(h, id)].meta.ty.Unique?) <==> constraint)
  }

  lemma IndexStored(kv: Store, h: Bytes, name: string, t: Table, m: IndexMeta)
    requires Solid(kv) && ValidHash(h) && Agrees(kv, h, name, t) && m in t.indexes
    ensures m.id < Pow256(4) && IndexMetaKey(h, m.id) in kv && kv[IndexMetaKey(h, m.id)] == IndexCell(m)
  {
    IndexesAre(kv, h, name, t);
    assert ValidKey(IndexMetaKey(h, m.id));
  }

  /** A right catalog has a stored column. */
  lemma CatalogHasColumn(kv: Store, h: Bytes, name: string, t: Table)
    requires ValidKeys(kv) && TypedCells(kv) && ValidHash(h) && Agrees(kv, h, name, t)
    ensures HasColumn(kv, h)
  {
    TableKeysAre(kv, h);
    var ks := ListingExists(TableKeys(kv, h));
    var p := ColumnAt(kv, ks, 0);
    assert ks[p] in ks;
  }

  lemma CatalogHasRoot(kv: Store, h: Bytes, name: string, t: Table)
    requires Solid(kv) && ValidHash(h) && Agrees(kv, h, name, t)
    ensures RootKey(h) in kv
  {
    CatalogHasColumn(kv, h, name, t);
  }

  lemma {:induction false} ColumnAt(kv: Store, ks: seq<Key>, i: nat) returns (p: nat)
    requires TypedCells(kv) && Stored(kv, ks) && i < |ColumnsIn(kv, ks)|
    ensures p < |ks| && ks[p] in kv && ks[p].ColumnKey? && kv[ks[p]].col == ColumnsIn(kv, ks)[i]
  {
    assert ks[0] in ks;
    if ks[0].ColumnKey? && i == 0 {
      p := 0;
    } else {
      p := ColumnAt(kv, ks[1..], if ks[0].ColumnKey? then i - 1 else i);
      p := p + 1;
    }
  }

  lemma {:induction false} UniquesBound(cols: seq<Column>, n: nat)
    requires n <= |cols|
    ensures Uniques(cols, n) <= n
  {
    if n > 0 { UniquesBound(cols, n - 1); }
  }

  method FindIndex(metas: seq<IndexMeta>, name: string) returns (m: Option<IndexMeta>)
    ensures m.Some? ==> exists i :: 0 <= i < |metas| && metas[i] == m.value && m.value.name == name && forall j :: 0 <= j < i ==> metas[j].name != name
    ensures m.None? ==> forall i :: 0 <= i < |metas| ==> metas[i].name != name
  {
    for i := 0 to |metas|
      invariant forall j :: 0 <= j < i ==> metas[j].name != name
    {
      if metas[i].name == name {
        return Some(metas[i]);
      }
    }
    return None;
  }

  predicate StoredColumn(kv: Store, h: Bytes, id: nat, name: string) {
    ColumnKey(h, id) in kv && kv[ColumnKey(h, id)].ColumnCell? && kv[ColumnKey(h, id)].col.name == name
  }

  /** The ids of a table's stored indexes over a column. */
  function IndexesOn(kv: Store, h: Bytes, id: nat): set<nat> {
    set k | k in kv && k.IndexMetaKey? && k.h == h && kv[k].IndexCell? && id in kv[k].meta.columnIds :: k.id
  }

  /** The indexes the loop of drop_column does not skip. */
  method IndexesWith(metas: seq<IndexMeta>, id: nat) returns (out: seq<IndexMeta>)
    ensures forall m :: m in out <==> m in metas && id in m.columnIds
  {
    out := [];
    for i := 0 to |metas|
      invariant forall m :: m in out <==> m in metas[..i] && id in m.columnIds
    {
      assert metas[..i + 1] == metas[..i] + [metas[i]];
      if id in metas[i].columnIds {
        out := out + [metas[i]];
      }
    }
    assert metas[..|metas|] == metas;
  }

  lemma IndexesOnAre(kv: Store, h: Bytes, name: string, t: Table, id: nat, metas: seq<IndexMeta>)
    requires Solid(kv) && ValidHash(h) && Agrees(kv, h, name, t)
    requires forall m :: m in metas <==> m in t.indexes && id in m.columnIds
    ensures (set m | m in metas :: m.id) == IndexesOn(kv, h, id)
    ensures forall m :: m in metas ==> m.id < Pow256(4)
  {
    IndexesAre(kv, h, name, t);
    var ids := set m | m in metas :: m.id;
    forall m | m in metas ensures m.id < Pow256(4) && m.id in IndexesOn(kv, h, id) {
      IndexStored(kv, h, name, t, m);
      assert IndexMetaKey(h, m.id) in kv;
    }
    forall i | i in IndexesOn(kv, h, id) ensures i in ids {
      var k: Key :| k in kv && k.IndexMetaKey? && k.h == h && kv[k].IndexCell? && id in kv[k].meta.columnIds && k.id == i;
      assert kv[k].meta in metas && kv[k].meta.id == i;
    }
  }

  lemma {:induction false} NameIndexed(schema: seq<Column>, name: string)
    ensures name in NameIndex(schema) <==> exists i :: 0 <= i < |schema| && schema[i].name == name
    ensures name in NameIndex(schema) ==> NameIndex(schema)[name].1 < |schema| && schema[NameIndex(schema)[name].1].name == name
  {
    if schema != [] {
      var n := |schema| - 1;
      NameIndexed(schema[..n], name);
      if schema[n].name != name && name in NameIndex(schema) {
        var i := NameIndex(schema)[name].1;
        assert schema[..n][i] == schema[i];
      }
      assert forall i :: 0 <= i < n ==> schema[..n][i] == schema[i];
    }
  }

  lemma {:induction false} ColumnsInHas(kv: Store, ks: seq<Key>, k: Key)
    requires TypedCells(kv) && Stored(kv, ks) && k in ks && k.ColumnKey?
    ensures kv[k].col in ColumnsIn(kv, ks)
  {
    if ks[0] != k { ColumnsInHas(kv, ks[1..], k); }
  }

  /** A right catalog lists exactly the stored columns. */
  lemma SchemaIs(kv: Store, h: Bytes, name: string, t: Table)
    requires ValidKeys(kv) && TypedCells(kv) && ValidHash(h) && Agrees(kv, h, name, t)
    ensures t == Reload(name, t.schema, t.indexes)
    ensures forall c :: c in t.schema ==> ColumnKey(h, c.id) in kv && kv[ColumnKey(h, c.id)] == ColumnCell(c)
    ensures forall k: Key :: k in kv && k.ColumnKey? && k.h == h ==> kv[k].col in t.schema
  {
    TableKeysAre(kv, h);
    var ks := ListingExists(TableKeys(kv, h));
    forall c | c in t.schema ensures ColumnKey(h, c.id) in kv && kv[ColumnKey(h, c.id)] == ColumnCell(c) {
      var i :| 0 <= i < |t.schema| && t.schema[i] == c;
      var p := ColumnAt(kv, ks, i);
      assert ks[p] in ks && ks[p] == ColumnKey(h, c.id);
    }
    forall k: Key | k in kv && k.ColumnKey? && k.h == h ensures kv[k].col in t.schema {
      ColumnsInHas(kv, ks, k);
    }
  }

  /** get_column_by_name finds a stored column of that name, and finds one if there is any. */
  lemma ColumnByName(kv: Store, h: Bytes, name: string, t: Table, column: string)
    requires Solid(kv) && ValidHash(h) && Agrees(kv, h, name, t)
    ensures column in t.columnIdxs ==> t.columnIdxs[column].1 < |t.schema| && StoredColumn(kv, h, t.schema[t.columnIdxs[column].1].id, column)
    ensures column !in t.columnIdxs ==> forall id :: !StoredColumn(kv, h, id, column)
  {
    SchemaIs(kv, h, name, t);
    NameIndexed(t.schema, column);
    if column in t.columnIdxs {
      assert t.schema[t.columnIdxs[column].1] in t.schema;
    }
  }

  /** The store with an index meta, a column or both written. */
  function Defined(kv: Store, h: Bytes, meta: Option<IndexMeta>, col: Option<Column>): Store {
    var kv1 := if meta.Some? then kv[IndexMetaKey(h, meta.value.id) := IndexCell(meta.value)] else kv;
    if col.Some? then kv1[ColumnKey(h, col.value.id) := ColumnCell(col.value)] else kv1
  }

  predicate Fits(k: Key, cell: Cell) {
    && (k.ColumnKey? ==> cell.ColumnCell? && cell.col.id == k.id)
    && (k.IndexMetaKey? ==> cell.IndexCell? && cell.meta.id == k.id)
  }

  /** Writing under a table that exists. */
  lemma PutKeeps(kv: Store, k: Key, cell: Cell)
    requires Solid(kv) && ValidKey(k) && OfTable(k) && RootKey(k.h) in kv && Fits(k, cell)
    requires k.IndexKey? ==> IndexMetaKey(k.h, k.id) in kv
    ensures Solid(kv[k := cell]) && SameElsewhere(kv, kv[k := cell], k.h)
    ensures OneOwner(kv) ==> OneOwner(kv[k := cell])
  {
    PutTyped(kv, k, cell);
    PutRooted(kv, k, cell);
    PutElsewhere(kv, k, cell);
  }

  lemma PutElsewhere(kv: Store, k: Key, cell: Cell)
    requires OfTable(k)
    ensures SameElsewhere(kv, kv[k := cell], k.h)
    ensures OneOwner(kv) ==> OneOwner(kv[k := cell])
  {
    if OneOwner(kv) { OwnerFrame(kv, kv[k := cell]); }
  }

  lemma PutTyped(kv: Store, k: Key, cell: Cell)
    requires ValidKeys(kv) && TypedCells(kv) && ValidKey(k) && Fits(k, cell)
    ensures ValidKeys(kv[k := cell]) && TypedCells(kv[k := cell])
  {
  }

  lemma PutRooted(kv: Store, k: Key, cell: Cell)
    requires Rooted(kv) && RootKey(k.h) in kv && (k.IndexKey? ==> IndexMetaKey(k.h, k.id) in kv)
    ensures Rooted(kv[k := cell])
  {
  }

  lemma DefinedKeeps(kv: Store, h: Bytes, meta: Option<IndexMeta>, col: Option<Column>)
    requires Solid(kv) && ValidHash(h) && RootKey(h) in kv
    requires (meta.Some? ==> meta.value.id < Pow256(4)) && (col.Some? ==> col.value.id < Pow256(16))
    ensures Solid(Defined(kv, h, meta, col)) && SameElsewhere(kv, Defined(kv, h, meta, col), h)
    ensures OneOwner(kv) ==> OneOwner(Defined(kv, h, meta, col))
  {
    var kv1 := Defined(kv, h, meta, None);
    if meta.Some? { PutKeeps(kv, IndexMetaKey(h, meta.value.id), IndexCell(meta.value)); }
    if col.Some? { PutKeeps(kv1, ColumnKey(h, col.value.id), ColumnCell(col.value)); }
  }

  predicate AnyIndex(kv: Store, h: Bytes, id: nat, name: string) {
    IndexMetaKey(h, id) in kv && kv[IndexMetaKey(h, id)].IndexCell? && kv[IndexMetaKey(h, id)].meta.name == name
  }

  /** No index of the catalog has the name exactly when no stored index of the table has it. */
  lemma IndexNames(kv: Store, h: Bytes, name: string, t: Table, indexName: string)
    requires Solid(kv) && ValidHash(h) && Agrees(kv, h, name, t)
    ensures (exists i :: 0 <= i < |t.indexes| && t.indexes[i].name == indexName) <==> exists id :: AnyIndex(kv, h, id, indexName)
  {
    IndexesAre(kv, h, name, t);
    if i :| 0 <= i < |t.indexes| && t.indexes[i].name == indexName {
      assert t.indexes[i] in t.indexes;
      assert AnyIndex(kv, h, t.indexes[i].id, indexName);
    }
    if id :| AnyIndex(kv, h, id, indexName) {
      var i :| 0 <= i < |t.indexes| && t.indexes[i] == kv[IndexMetaKey(h, id)].meta;
    }
  }

  /** The search of drop_index: a stored index of that name, if the table has one. */
  method ChooseIndex(kv: Store, h: Bytes, name: string, t: Table, indexName: string) returns (m: Option<IndexMeta>)
    requires Solid(kv) && ValidHash(h) && Agrees(kv, h, name, t)
    ensures m.Some? ==> m.value.id < Pow256(4)
    ensures m.Some? ==> StoredIndex(kv, h, m.value.id, indexName, m.value.ty.PrimaryKey? || m.value.ty.Unique?)
    ensures m.None? ==> forall id :: !AnyIndex(kv, h, id, indexName)
  {
    IndexNames(kv, h, name, t, indexName);
    m := FindIndex(t.indexes, indexName);
    if m.Some? {
      IndexStored(kv, h, name, t, m.value);
    }
  }

  /** TableCatalog::add_index_meta on a catalog with the stored indexes of `t`; an id past the
      32 bits of an index id counts as a panic. */
  method MetaFor(kv: Store, h: Bytes, name: string, t: Table, u: Table, indexName: string, columnIds: seq<nat>, ty: IndexType)
    returns (r: Result<IndexMeta>)
    requires Solid(kv) && ValidHash(h) && Agrees(kv, h, name, t) && u.indexes == t.indexes
    ensures r.Ok? ==> AddIndex(u, indexName, columnIds, ty) == Ok(u.(indexes := u.indexes + [r.value]))
    ensures r.Ok? ==> r.value.name == indexName && r.value.columnIds == columnIds && r.value.ty == ty && r.value.id < Pow256(4)
    ensures r.Err? ==> r.error == DuplicateIndex || r.error == ColumnNotFound || r.error == Panic
    ensures r == Err(DuplicateIndex) <==> exists id :: AnyIndex(kv, h, id, indexName)
  {
    IndexNames(kv, h, name, t, indexName);
    var added := AddIndex(u, indexName, columnIds, ty);
    if added.Err? {
      return Err(added.error);
    }
    var meta := added.value.indexes[|u.indexes|];
    if meta.id >= Pow256(4) {
      return Err(Panic);
    }
    return Ok(meta);
  }

  datatype Added = Existing(id: nat) | New(meta: Option<IndexMeta>)

  /** The loop of add_column over the columns. */
  method FindColumn(schema: seq<Column>, name: string) returns (col: Option<Column>)
    ensures col.Some? ==> col.value in schema && col.value.name == name
    ensures col.None? ==> forall c :: c in schema ==> c.name != name
  {
    for i := 0 to |schema|
      invariant forall j :: 0 <= j < i ==> schema[j].name != name
    {
      if schema[i].name == name {
        return Some(schema[i]);
      }
    }
    return None;
  }

  /** The index of a new unique column has the column's type. */
  lemma NewColumnType(t: Table, col: Column, indexName: string, m: IndexMeta)
    requires var u := Catalog.AddColumn(t, col); AddIndex(u, indexName, [col.id], Unique) == Ok(u.(indexes := u.indexes + [m]))
    ensures m.valueTy == [col.ty]
  {
    var u := Catalog.AddColumn(t, col);
    assert [col.id][1..] == [] && Types(u, []) == Some([]) && u.columns[col.id] == |t.schema| && u.schema[|t.schema|] == col;
    assert Types(u, [col.id]) == Some([col.ty] + []);
    assert AddIndex(u, indexName, [col.id], Unique).value.indexes[|u.indexes|] == m;
  }

  /** Steps that leave columns and index metas alone leave the whole cache right. */
  lemma CoherentFrame(kv: Store, kv': Store, cache: map<string, Table>, hash: string -> Bytes)
    requires Solid(kv) && Solid(kv') && Coherent(kv, cache, hash)
    requires forall k: Key :: k.ColumnKey? || k.IndexMetaKey? ==> (k in kv <==> k in kv') && (k in kv ==> kv[k] == kv'[k])
    ensures Coherent(kv', cache, hash)
  {
    forall n | n in cache ensures ValidHash(hash(n)) && Agrees(kv', hash(n), n, cache[n]) {
      AgreesFrame(kv, kv', hash(n), n, cache[n]);
    }
  }

  /** Every cached view is the one stored under the hash of its name. */
  ghost predicate ViewsCoherent(kv: Store, views: map<string, View>, hash: string -> Bytes) {
    forall n :: n in views ==> ViewKey(hash(n)) in kv && kv[ViewKey(hash(n))] == ViewCell(views[n])
  }

  /** Another cached view under the hash of a name. */
  ghost predicate ViewTwin(views: map<string, View>, hash: string -> Bytes, name: string, n: string) {
    n in views && n != name && hash(n) == hash(name)
  }

  function ViewStored(kv: Store, h: Bytes, view: View): Store {
    (if ViewKey(h) in kv then kv else kv[HashKey(h) := OtherCell])[ViewKey(h) := ViewCell(view)]
  }

  lemma PutMarker(kv: Store, k: Key, cell: Cell)
    requires Solid(kv) && ValidHash(k.h) && (k.HashKey? || (k.ViewKey? && cell.ViewCell?))
    ensures Solid(kv[k := cell])
  {
  }

  lemma ViewStoredKeeps(kv: Store, h: Bytes, view: View)
    requires Solid(kv) && ValidHash(h)
    ensures Solid(ViewStored(kv, h, view))
    ensures OneOwner(kv) && (ViewKey(h) in kv || HashKey(h) !in kv) ==> OneOwner(ViewStored(kv, h, view))
  {
    PutMarker(kv, HashKey(h), OtherCell);
    PutMarker(if ViewKey(h) in kv then kv else kv[HashKey(h) := OtherCell], ViewKey(h), ViewCell(view));
    var kv' := ViewStored(kv, h, view);
    if OneOwner(kv) && (ViewKey(h) in kv || HashKey(h) !in kv) {
      forall x: Bytes
        ensures (HashKey(x) in kv' <==> RootKey(x) in kv' || ViewKey(x) in kv') && !(RootKey(x) in kv' && ViewKey(x) in kv')
      {
        assert HashKey(x) in kv <==> RootKey(x) in kv || ViewKey(x) in kv;
      }
    }
  }

  /** A stored view makes exactly the cached views of other names with the same hash stale. */
  lemma ViewStoredCoherent(kv: Store, views: map<string, View>, hash: string -> Bytes, view: View)
    requires ViewsCoherent(kv, views, hash)
    ensures var h := hash(view.name);
            ViewsCoherent(ViewStored(kv, h, view), views[view.name := view], hash)
            <==> forall n :: ViewTwin(views, hash, view.name, n) ==> views[n] == view
  {
    var h, name := hash(view.name), view.name;
    var kv', views' := ViewStored(kv, h, view), views[name := view];
    if ViewsCoherent(kv', views', hash) {
      forall n | ViewTwin(views, hash, name, n) ensures views[n] == view { assert n in views'; }
    }
  }

  lemma ViewGoneCoherent(kv: Store, kv': Store, views: map<string, View>, hash: string -> Bytes, name: string)
    requires ViewsCoherent(kv, views, hash) && ViewGone(kv, kv', hash(name))
    ensures ViewsCoherent(kv', views - {name}, hash) <==> forall n :: !ViewTwin(views, hash, name, n)
  {
    assert forall n :: ViewTwin(views, hash, name, n) ==> n in views - {name} && ViewKey(hash(n)) !in kv';
    if forall n :: !ViewTwin(views, hash, name, n) {
      forall n | n in views - {name} ensures ViewKey(hash(n)) in kv' && kv'[ViewKey(hash(n))] == ViewCell(views[n]) {
        assert !ViewTwin(views, hash, name, n) && ViewKey(hash(n)) in kv;
      }
    }
  }

  /** The second store is the first without a view's key and the hash of its name. */
  ghost predicate ViewGone(kv: Store, kv': Store, h: Bytes) {
    && (forall k: Key :: k in kv' <==> k in kv && !(k.h == h && (k.HashKey? || k.ViewKey?)))
    && (forall k :: k in kv' ==> kv'[k] == kv[k])
  }

  lemma ViewRemoved(kv: Store, h: Bytes)
    ensures ViewGone(kv, kv - {HashKey(h)} - {ViewKey(h)}, h)
  {
  }

  lemma ViewGoneSolid(kv: Store, kv': Store, h: Bytes)
    requires Solid(kv) && ViewGone(kv, kv', h)
    ensures Solid(kv')
  {
  }

  lemma ViewGoneOwner(kv: Store, kv': Store, h: Bytes)
    requires OneOwner(kv) && ViewGone(kv, kv', h)
    ensures OneOwner(kv') <==> RootKey(h) !in kv
  {
    if RootKey(h) !in kv {
      forall x: Bytes
        ensures (HashKey(x) in kv' <==> RootKey(x) in kv' || ViewKey(x) in kv') && !(RootKey(x) in kv' && ViewKey(x) in kv')
      {
        assert HashKey(x) in kv <==> RootKey(x) in kv || ViewKey(x) in kv;
      }
    } else {
      assert RootKey(h) in kv' && HashKey(h) !in kv';
    }
  }

  /** A table alone in the store: dropping a view of its name leaves the table without its name. */
  lemma TableLosesName(h: Bytes)
    ensures var kv: Store := map[HashKey(h) := OtherCell, RootKey(h) := OtherCell];
            var kv' := kv - {HashKey(h)} - {ViewKey(h)};
            OneOwner(kv) && ViewGone(kv, kv', h) && RootKey(h) in kv' && HashKey(h) !in kv' && !OneOwner(kv')
  {
    var kv: Store := map[HashKey(h) := OtherCell, RootKey(h) := OtherCell];
    ViewRemoved(kv, h);
    ViewGoneOwner(kv, kv - {HashKey(h)} - {ViewKey(h)}, h);
  }
}
