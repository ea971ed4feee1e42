/** DDL over one store with a cache of table catalogs and one of views beside it. */
module Storage {
  import opened Common
  import opened KeyBytes
  import opened KeySpace
  import opened Catalog
  import opened TableScan
  import opened StoreSteps

  class Database {
    var kv: Store
    var cache: map<string, Table>
    var views: map<string, View>
    const hash: string -> Bytes

    constructor (hash: string -> Bytes)
      ensures this.hash == hash && kv == map[] && cache == map[] && views == map[]
      ensures Solid(kv) && OneOwner(kv) && Coherent(kv, cache, hash) && ViewsCoherent(kv, views, hash)
    {
      this.hash := hash;
      kv := map[];
      cache := map[];
      views := map[];
    }

    /** The store's range scan: its keys within two bounds, in byte order. */
    method Scan(s: Span) returns (ks: seq<Key>)
      requires ValidKeys(kv)
      ensures IsListing(ks, set k | k in kv && Within(s, Encode(k)))
    {
      var left := set k | k in kv && Within(s, Encode(k));
      ghost var done: set<Key> := {};
      ks := [];
      while left != {}
        invariant done !! left && done + left == set k | k in kv && Within(s, Encode(k))
        invariant IsListing(ks, done)
        decreases left
      {
        var k :| k in left;
        PlacedListing(ks, k, done);
        ks := PlaceKey(ks, k);
        done := done + {k};
        left := left - {k};
      }
      assert done == set k | k in kv && Within(s, Encode(k));
    }

    method RemoveKeys(keys: seq<Key>)
      modifies `kv
      ensures kv == Keep(old(kv), (k: Key) => k !in keys)
    {
      for i := 0 to |keys|
        invariant kv == Keep(old(kv), (k: Key) => k !in keys[..i])
      {
        kv := kv - {keys[i]};
        assert keys[..i + 1] == keys[..i] + [keys[i]];
      }
      assert keys[..|keys|] == keys;
    }

    /** _drop_data: nothing within the bounds is left, and nothing else is touched. */
    method DropRange(s: Span)
      requires ValidKeys(kv)
      modifies `kv
      ensures kv == Keep(old(kv), (k: Key) => !Within(s, Encode(k)))
    {
      var keys := Scan(s);
      assert forall k :: k in kv ==> (k in keys <==> Within(s, Encode(k)));
      RemoveKeys(keys);
    }

    /** table_collect: the columns and index metas in scan order, or none without a column. */
    method TableCollect(name: string) returns (r: Option<(seq<Column>, seq<IndexMeta>)>)
      requires ValidKeys(kv) && TypedCells(kv) && ValidHash(hash(name))
      ensures r.Some? ==> Agrees(kv, hash(name), name, Reload(name, r.value.0, r.value.1))
      ensures r.None? ==> !HasColumn(kv, hash(name))
    {
      var h := hash(name);
      var ks := Scan(TableBound(h));
      ScanKinds(kv, h, ks);
      var columns, metas := SplitScan(kv, TableBound(h).lo, ks);
      if columns == [] {
        NoColumnLeft(kv, h, ks);
        return None;
      }
      ListingAgrees(kv, h, name, ks);
      return Some((columns, metas));
    }

    /** table: the cached catalog, or one rebuilt from the store and cached. */
    method Lookup(name: string) returns (t: Option<Table>)
      requires Solid(kv) && ValidHash(hash(name))
      modifies `cache
      ensures cache == if t.Some? then old(cache)[name := t.value] else old(cache)
      ensures name in old(cache) ==> t == Some(old(cache)[name])
      ensures old(Coherent(kv, cache, hash)) ==> Coherent(kv, cache, hash)
      ensures old(Coherent(kv, cache, hash)) && t.Some? ==> Agrees(kv, hash(name), name, t.value)
      ensures old(Coherent(kv, cache, hash)) ==> (t.Some? <==> HasColumn(kv, hash(name)))
    {
      if name in cache {
        if Coherent(kv, cache, hash) {
          CatalogHasColumn(kv, hash(name), name, cache[name]);
        }
        assert cache == cache[name := cache[name]];
        return Some(cache[name]);
      }
      var r := TableCollect(name);
      if r.None? {
        return None;
      }
      var table := Reload(name, r.value.0, r.value.1);
      CatalogHasColumn(kv, hash(name), name, table);
      assert cache - {name} == cache;
      if Coherent(kv, cache, hash) {
        CoherentWith(kv, cache, hash, name, table);
      }
      cache := cache[name := table];
      return Some(table);
    }

    /** The cache may forget any entry. */
    method Evict(name: string)
      requires TypedCells(kv)
      modifies `cache
      ensures cache == old(cache) - {name}
      ensures old(Coherent(kv, cache, hash)) ==> Coherent(kv, cache, hash)
    {
      cache := cache - {name};
    }

    method WriteMetas(h: Bytes, metas: seq<IndexMeta>)
      requires SequentialIds(metas)
      modifies `kv
      ensures forall k :: k in kv <==> k in old(kv) || k in MetaKeys(h, metas)
      ensures forall i :: 0 <= i < |metas| ==> MetaKeys(h, metas)[i] in kv && kv[IndexMetaKey(h, metas[i].id)] == IndexCell(metas[i])
      ensures forall k :: k in old(kv) && k !in MetaKeys(h, metas) ==> kv[k] == old(kv)[k]
    {
      ghost var keys := MetaKeys(h, metas);
      for i := 0 to |metas|
        invariant forall k :: k in kv <==> k in old(kv) || k in keys[..i]
        invariant forall j :: 0 <= j < i ==> keys[j] in kv && kv[keys[j]] == IndexCell(metas[j])
        invariant forall k :: k in old(kv) && k !in keys[..i] ==> kv[k] == old(kv)[k]
      {
        assert keys[..i + 1] == keys[..i] + [keys[i]];
        kv := kv[IndexMetaKey(h, metas[i].id) := IndexCell(metas[i])];
      }
      assert keys[..|metas|] == keys;
    }

    method WriteColumns(h: Bytes, cols: seq<Column>)
      requires AscendingIds(cols)
      modifies `kv
      ensures forall k :: k in kv <==> k in old(kv) || k in ColKeys(h, cols)
      ensures forall i :: 0 <= i < |cols| ==> ColKeys(h, cols)[i] in kv && kv[ColumnKey(h, cols[i].id)] == ColumnCell(cols[i])
      ensures forall k :: k in old(kv) && k !in ColKeys(h, cols) ==> kv[k] == old(kv)[k]
    {
      ghost var keys := ColKeys(h, cols);
      for i := 0 to |cols|
        invariant forall k :: k in kv <==> k in old(kv) || k in keys[..i]
        invariant forall j :: 0 <= j < i ==> keys[j] in kv && kv[keys[j]] == ColumnCell(cols[j])
        invariant forall k :: k in old(kv) && k !in keys[..i] ==> kv[k] == old(kv)[k]
      {
        assert keys[..i + 1] == keys[..i] + [keys[i]];
        kv := kv[ColumnKey(h, cols[i].id) := ColumnCell(cols[i])];
      }
      assert keys[..|cols|] == keys;
    }

    /** TableCatalog::new with the indexes create_index_meta_from_column adds. */
    static method BuildTable(name: string, cols: seq<Column>) returns (t: Table)
      requires DistinctNames(cols)
      ensures Created(name, cols) == Ok(t)
      ensures t == Reload(name, cols, t.indexes) && SequentialIds(t.indexes) && |t.indexes| == Uniques(cols, |cols|) + 1
    {
      CreatedShape(name, cols);
      t := Created(name, cols).value;
    }

    method StoreTable(h: Bytes, cols: seq<Column>, metas: seq<IndexMeta>)
      requires AscendingIds(cols) && SequentialIds(metas)
      modifies `kv
      ensures TableWritten(old(kv), kv, h, cols, metas)
    {
      kv := kv[HashKey(h) := OtherCell];
      WriteMetas(h, metas);
      kv := kv[RootKey(h) := OtherCell];
      WriteColumns(h, cols);
    }

    method WriteTable(name: string, cols: seq<Column>, t: Table)
      requires Solid(kv) && ValidHash(hash(name)) && RootKey(hash(name)) !in kv && HashKey(hash(name)) !in kv
      requires cols != [] && AscendingIds(cols) && |t.indexes| <= Pow256(4)
      requires t == Reload(name, cols, t.indexes) && SequentialIds(t.indexes)
      modifies `kv, `cache
      ensures Solid(kv) && (old(OneOwner(kv)) ==> OneOwner(kv))
      ensures IsNewTable(old(kv), kv, hash(name), cols, t.indexes) && cache == old(cache)[name := t]
      ensures old(Coherent(kv, cache, hash)) ==> (Coherent(kv, cache, hash) <==> |t.indexes| <= 256)
    {
      var h := hash(name);
      StoreTable(h, t.schema, t.indexes);
      cache := cache[name := t];
      NewTableIs(old(kv), kv, h, cols, t.indexes);
      if old(Coherent(kv, cache, hash)) {
        NewTableCoherent(old(kv), kv, old(cache), hash, name, cols, t.indexes);
      }
    }

    /** Whether some primary-key column has a type that cannot be a key. */
    static method HasBadKey(cols: seq<Column>) returns (bad: bool)
      ensures bad <==> exists c :: c in cols && c.primary.Some? && !KeyType(c.ty)
    {
      var keys := PrimaryKeys(cols);
      PrimaryKeysMembers(cols);
      for i := 0 to |keys|
        invariant forall j :: 0 <= j < i ==> KeyType(keys[j].1.ty)
      {
        if !KeyType(keys[i].1.ty) {
          assert keys[i] in keys;
          return true;
        }
      }
      return false;
    }

    /** create_table: what is stored for a new name, and when the catalog put in the cache is the one a
        reload would give. */
    method CreateTable(name: string, cols: seq<Column>, ifNotExists: bool) returns (r: Result<bool>)
      requires Solid(kv) && ValidHash(hash(name)) && AscendingIds(cols) && |cols| < Pow256(4)
      modifies `kv, `cache
      ensures r == CreateOutcome(old(kv), hash(name), cols, ifNotExists)
      ensures r != Ok(true) ==> kv == old(kv) && cache == old(cache)
      ensures Solid(kv) && (old(OneOwner(kv)) ==> OneOwner(kv))
      ensures r == Ok(true) ==> name in cache && Created(name, cols) == Ok(cache[name]) && cache == old(cache)[name := cache[name]]
      ensures r == Ok(true) ==> IsNewTable(old(kv), kv, hash(name), cols, cache[name].indexes)
      ensures r == Ok(true) && old(Coherent(kv, cache, hash)) ==> (Coherent(kv, cache, hash) <==> Uniques(cols, |cols|) < 256)
    {
      var h := hash(name);
      if cols == [] {
        return Err(ColumnsEmpty);
      }
      if !DistinctNames(cols) {
        return Err(Panic);
      }
      var bad := HasBadKey(cols);
      if bad {
        return Err(InvalidType);
      }
      if RootKey(h) in kv {
        return if ifNotExists then Ok(false) else Err(TableExists);
      }
      if HashKey(h) in kv {
        return Err(DuplicateSourceHash);
      }
      var table := BuildTable(name, cols);
      UniquesBound(cols, |cols|);
      WriteTable(name, cols, table);
      return Ok(true);
    }

    // -------------------------------------------------------------- dropping

    method DropFamily(h: Bytes, tag: Byte)
      requires ValidKeys(kv) && ValidHash(h) && tag > 0
      modifies `kv
      ensures ValidKeys(kv)
      ensures forall k: Key :: k in kv <==> k in old(kv) && !(k.h == h && Tag(k) == tag)
      ensures forall k :: k in kv ==> kv[k] == old(kv)[k]
    {
      forall k | k in kv ensures Within(Around(h + [tag]), Encode(k)) <==> k.h == h && Tag(k) == tag {
        FamilyAround(h, tag, k);
      }
      DropRange(Around(h + [tag]));
    }

    /** drop_data: the rows, the index entries and the statistics. */
    method DropData(h: Bytes)
      requires ValidKeys(kv) && ValidHash(h)
      modifies `kv
      ensures ValidKeys(kv)
      ensures forall k: Key :: k in kv <==> k in old(kv) && !(k.h == h && (k.RowKey? || k.IndexKey? || k.StatisticsKey?))
      ensures forall k :: k in kv ==> kv[k] == old(kv)[k]
    {
      DropFamily(h, 56);
      DropFamily(h, 51);
      DropFamily(h, 52);
    }

    method DropDefinitions(h: Bytes)
      requires ValidKeys(kv) && ValidHash(h)
      modifies `kv
      ensures ValidKeys(kv)
      ensures forall k: Key :: k in kv <==> k in old(kv) && !(k.h == h && (k.ColumnKey? || k.IndexMetaKey?))
      ensures forall k :: k in kv ==> kv[k] == old(kv)[k]
    {
      DropFamily(h, 48);
      DropFamily(h, 49);
    }

    method DropFamilies(h: Bytes)
      requires ValidKeys(kv) && ValidHash(h)
      modifies `kv
      ensures ValidKeys(kv)
      ensures forall k: Key :: k in kv <==> k in old(kv) && (k.h != h || k.HashKey? || k.RootKey? || k.ViewKey?)
      ensures forall k :: k in kv ==> kv[k] == old(kv)[k]
    {
      DropData(h);
      DropDefinitions(h);
    }

    /** drop_name_hash, drop_data, the columns, the index metas and the root key: nothing of the table is left. */
    method DropAll(h: Bytes)
      requires ValidKeys(kv) && ValidHash(h)
      modifies `kv
      ensures TableGone(old(kv), kv, h)
    {
      kv := kv - {HashKey(h)};
      DropFamilies(h);
      kv := kv - {RootKey(h)};
    }

    method ForgetTable(name: string)
      requires Solid(kv) && Coherent(kv, cache, hash) && Apart(cache, hash, name) && ValidHash(hash(name)) && RootKey(hash(name)) in kv
      modifies `kv, `cache
      ensures TableGone(old(kv), kv, hash(name)) && cache == old(cache) - {name}
      ensures Solid(kv) && Coherent(kv, cache, hash) && (old(OneOwner(kv)) ==> OneOwner(kv))
    {
      DropAll(hash(name));
      cache := cache - {name};
      TableGoneKeeps(old(kv), kv, hash(name));
      CoherentAfter(old(kv), kv, old(cache), hash, name);
    }

    /** drop_table: a table with a column goes with everything stored for it; nothing else is touched. */
    method DropTable(name: string, ifExists: bool) returns (r: Result<bool>)
      requires Solid(kv) && Coherent(kv, cache, hash) && Apart(cache, hash, name) && ValidHash(hash(name))
      modifies `kv, `cache
      ensures r == if HasColumn(old(kv), hash(name)) then Ok(true) else if ifExists then Ok(false) else Err(TableNotFound)
      ensures r != Ok(true) ==> kv == old(kv) && cache == old(cache)
      ensures r == Ok(true) ==> TableGone(old(kv), kv, hash(name)) && cache == old(cache) - {name}
      ensures Solid(kv) && Coherent(kv, cache, hash) && (old(OneOwner(kv)) ==> OneOwner(kv))
    {
      var t := Lookup(name);
      if t.None? {
        return if ifExists then Ok(false) else Err(TableNotFound);
      }
      CatalogHasRoot(kv, hash(name), name, t.value);
      DropUpdated(old(cache), name, t.value);
      ForgetTable(name);
      return Ok(true);
    }

    method DropEntries(h: Bytes, id: nat)
      requires ValidKeys(kv) && ValidHash(h) && id < Pow256(4)
      modifies `kv
      ensures forall k: Key :: k in kv <==> k in old(kv) && !(k.IndexKey? && k.h == h && k.id == id)
      ensures forall k :: k in kv ==> kv[k] == old(kv)[k]
    {
      forall k | k in kv ensures Within(IndexBound(h, id), Encode(k)) <==> k.IndexKey? && k.h == h && k.id == id {
        IndexBoundExact(h, id, k);
      }
      DropRange(IndexBound(h, id));
    }

    /** The meta, the entries and the statistics of one index. */
    method DropIndexData(h: Bytes, id: nat)
      requires ValidKeys(kv) && ValidHash(h) && id < Pow256(4)
      modifies `kv
      ensures ValidKeys(kv) && Gone(old(kv), kv, h, None, {id})
    {
      kv := kv - {IndexMetaKey(h, id)};
      DropEntries(h, id);
      kv := kv - {StatisticsKey(h, id)};
    }

    /** drop_index: a plain index goes with its meta, entries and statistics; nothing else is touched. */
    method DropIndex(name: string, indexName: string, ifExists: bool) returns (r: Result<Option<nat>>)
      requires Solid(kv) && Coherent(kv, cache, hash) && Apart(cache, hash, name) && ValidHash(hash(name))
      modifies `kv, `cache
      ensures r.Ok? && r.value.Some? ==> Gone(old(kv), kv, hash(name), None, {r.value.value}) && cache == old(cache) - {name}
      ensures r.Ok? && r.value.Some? ==> StoredIndex(old(kv), hash(name), r.value.value, indexName, false)
      ensures !(r.Ok? && r.value.Some?) ==> kv == old(kv)
      ensures r == Err(InvalidIndex) ==> exists id :: StoredIndex(kv, hash(name), id, indexName, true)
      ensures r == Ok(None) ==> ifExists && HasColumn(kv, hash(name)) && forall id :: !AnyIndex(kv, hash(name), id, indexName)
      ensures r.Err? ==> r.error == InvalidIndex || r.error == TableNotFound
      ensures r == Err(TableNotFound) ==> !HasColumn(kv, hash(name)) || (!ifExists && forall id :: !AnyIndex(kv, hash(name), id, indexName))
      ensures Solid(kv) && Coherent(kv, cache, hash) && (old(OneOwner(kv)) ==> OneOwner(kv))
    {
      var h := hash(name);
      var t := Lookup(name);
      if t.None? {
        return Err(TableNotFound);
      }
      var found := ChooseIndex(kv, h, name, t.value, indexName);
      if found.None? {
        return if ifExists then Ok(None) else Err(TableNotFound);
      }
      var meta := found.value;
      if meta.ty.PrimaryKey? || meta.ty.Unique? {
        return Err(InvalidIndex);
      }
      DropUpdated(old(cache), name, t.value);
      ForgetIndex(name, meta);
      return Ok(Some(meta.id));
    }

    method ForgetIndex(name: string, meta: IndexMeta)
      requires Solid(kv) && Coherent(kv, cache, hash) && Apart(cache, hash, name) && ValidHash(hash(name)) && meta.id < Pow256(4)
      modifies `kv, `cache
      ensures Gone(old(kv), kv, hash(name), None, {meta.id}) && cache == old(cache) - {name}
      ensures Solid(kv) && Coherent(kv, cache, hash) && (old(OneOwner(kv)) ==> OneOwner(kv))
    {
      assert (set m | m in [meta] :: m.id) == {meta.id} by { assert [meta][0] in [meta]; }
      ForgetIndexes(name, None, [meta]);
    }

    /** Removes a column's key, if one is given, and the listed indexes, and the name from the cache. */
    method ForgetIndexes(name: string, col: Option<nat>, metas: seq<IndexMeta>)
      requires Solid(kv) && Coherent(kv, cache, hash) && Apart(cache, hash, name) && ValidHash(hash(name))
      requires forall m :: m in metas ==> m.id < Pow256(4)
      modifies `kv, `cache
      ensures Gone(old(kv), kv, hash(name), col, set m | m in metas :: m.id) && cache == old(cache) - {name}
      ensures Solid(kv) && Coherent(kv, cache, hash) && (old(OneOwner(kv)) ==> OneOwner(kv))
    {
      var h := hash(name);
      if col.Some? {
        kv := kv - {ColumnKey(h, col.value)};
      }
      ghost var ids: set<nat> := {};
      for i := 0 to |metas|
        invariant cache == old(cache) && ids == set j | 0 <= j < i :: metas[j].id
        invariant ValidKeys(kv) && Gone(old(kv), kv, h, col, ids)
      {
        ghost var before := kv;
        assert metas[i] in metas;
        DropIndexData(h, metas[i].id);
        GoneBoth(old(kv), before, kv, h, col, ids, metas[i].id);
        ids := ids + {metas[i].id};
      }
      assert ids == set m | m in metas :: m.id;
      cache := cache - {name};
      GoneKeeps(old(kv), kv, h, col, ids);
      CoherentAfter(old(kv), kv, old(cache), hash, name);
    }

    /** drop_column: the column goes with every index that mentions it; nothing else is touched. */
    method DropColumn(name: string, column: string) returns (r: Result<nat>)
      requires Solid(kv) && Coherent(kv, cache, hash) && Apart(cache, hash, name) && ValidHash(hash(name))
      modifies `kv, `cache
      ensures r.Ok? ==> StoredColumn(old(kv), hash(name), r.value, column)
      ensures r.Ok? ==> Gone(old(kv), kv, hash(name), Some(r.value), IndexesOn(old(kv), hash(name), r.value)) && cache == old(cache) - {name}
      ensures r.Err? ==> kv == old(kv) && (r.error == TableNotFound <==> !HasColumn(kv, hash(name))) && (r.error == TableNotFound || r.error == Panic)
      ensures r == Err(Panic) ==> forall id :: !StoredColumn(kv, hash(name), id, column)
      ensures Solid(kv) && Coherent(kv, cache, hash) && (old(OneOwner(kv)) ==> OneOwner(kv))
    {
      var h := hash(name);
      var t := Lookup(name);
      if t.None? {
        return Err(TableNotFound);
      }
      var table := t.value;
      ColumnByName(kv, h, name, table, column);
      if column !in table.columnIdxs {
        return Err(Panic);
      }
      var id := table.schema[table.columnIdxs[column].1].id;
      var metas := IndexesWith(table.indexes, id);
      IndexesOnAre(kv, h, name, table, id, metas);
      DropUpdated(old(cache), name, table);
      ForgetIndexes(name, Some(id), metas);
      return Ok(id);
    }

    // -------------------------------------------------------------- adding

    /** Writes an index meta, a column or both under one table, and takes its name out of the cache. */
    method WriteDefinitions(name: string, meta: Option<IndexMeta>, col: Option<Column>)
      requires Solid(kv) && Coherent(kv, cache, hash) && Apart(cache, hash, name) && ValidHash(hash(name)) && RootKey(hash(name)) in kv
      requires (meta.Some? ==> meta.value.id < Pow256(4)) && (col.Some? ==> col.value.id < Pow256(16))
      modifies `kv, `cache
      ensures kv == Defined(old(kv), hash(name), meta, col) && cache == old(cache) - {name}
      ensures Solid(kv) && Coherent(kv, cache, hash) && (old(OneOwner(kv)) ==> OneOwner(kv))
    {
      var h := hash(name);
      if meta.Some? {
        kv := kv[IndexMetaKey(h, meta.value.id) := IndexCell(meta.value)];
      }
      if col.Some? {
        kv := kv[ColumnKey(h, col.value.id) := ColumnCell(col.value)];
      }
      cache := cache - {name};
      DefinedKeeps(old(kv), h, meta, col);
      CoherentAfter(old(kv), kv, old(cache), hash, name);
    }

    /** add_index_meta: one index meta is written; an index under a new id starts without entries. */
    method AddIndexMeta(name: string, indexName: string, columnIds: seq<nat>, ty: IndexType) returns (r: Result<IndexMeta>)
      requires Solid(kv) && Coherent(kv, cache, hash) && Apart(cache, hash, name) && ValidHash(hash(name))
      modifies `kv, `cache
      ensures r.Ok? ==> kv == Defined(old(kv), hash(name), Some(r.value), None) && cache == old(cache) - {name}
      ensures r.Ok? ==> r.value.name == indexName && r.value.columnIds == columnIds && r.value.ty == ty
      ensures r.Ok? ==> forall id :: !AnyIndex(old(kv), hash(name), id, indexName)
      ensures r.Ok? && IndexMetaKey(hash(name), r.value.id) !in old(kv) ==> forall k: Key :: k in kv && k.IndexKey? && k.h == hash(name) ==> k.id != r.value.id
      ensures r.Err? ==> kv == old(kv) && (r.error == TableNotFound <==> !HasColumn(kv, hash(name)))
      ensures r == Err(DuplicateIndex) ==> exists id :: AnyIndex(kv, hash(name), id, indexName)
      ensures Solid(kv) && Coherent(kv, cache, hash) && (old(OneOwner(kv)) ==> OneOwner(kv))
    {
      var t := Lookup(name);
      if t.None? {
        return Err(TableNotFound);
      }
      var added := MetaFor(kv, hash(name), name, t.value, t.value, indexName, columnIds, ty);
      if added.Err? {
        return Err(added.error);
      }
      CatalogHasRoot(kv, hash(name), name, t.value);
      DropUpdated(old(cache), name, t.value);
      WriteDefinitions(name, Some(added.value), None);
      return Ok(added.value);
    }

    /** add_column: the column is written, with one index over it when it is unique. */
    method AddColumn(name: string, col: Column, ifNotExists: bool) returns (r: Result<Added>)
      requires Solid(kv) && Coherent(kv, cache, hash) && Apart(cache, hash, name) && ValidHash(hash(name)) && col.id < Pow256(16)
      modifies `kv, `cache
      ensures r.Ok? && r.value.New? ==> kv == Defined(old(kv), hash(name), r.value.meta, Some(col)) && cache == old(cache) - {name}
      ensures r.Ok? && r.value.New? ==> col.optional && forall id :: !StoredColumn(old(kv), hash(name), id, col.name)
      ensures r.Ok? && r.value.New? ==> (r.value.meta.Some? <==> col.unique)
      ensures r.Ok? && r.value.New? && col.unique ==> var m := r.value.meta.value; m.columnIds == [col.id] && m.valueTy == [col.ty] && m.ty == Unique && m.name == "uk_" + col.name
      ensures r.Ok? && r.value.Existing? ==> ifNotExists && kv == old(kv) && StoredColumn(kv, hash(name), r.value.id, col.name)
      ensures r.Err? ==> kv == old(kv) && (r.error == TableNotFound <==> !HasColumn(kv, hash(name)))
      ensures r == Err(DuplicateColumn) ==> exists id :: StoredColumn(kv, hash(name), id, col.name)
      ensures r == Err(NeedNullAbleOrDefault) ==> !col.optional
      ensures Solid(kv) && Coherent(kv, cache, hash) && (old(OneOwner(kv)) ==> OneOwner(kv))
    {
      var h := hash(name);
      var t := Lookup(name);
      if t.None? {
        return Err(TableNotFound);
      }
      if !col.optional {
        return Err(NeedNullAbleOrDefault);
      }
      SchemaIs(kv, h, name, t.value);
      var found := FindColumn(t.value.schema, col.name);
      if found.Some? {
        assert StoredColumn(kv, h, found.value.id, col.name);
        return if ifNotExists then Ok(Existing(found.value.id)) else Err(DuplicateColumn);
      }
      var meta := None;
      if col.unique {
        var added := MetaFor(kv, h, name, t.value, Catalog.AddColumn(t.value, col), "uk_" + col.name, [col.id], Unique);
        if added.Err? {
          return Err(added.error);
        }
        NewColumnType(t.value, col, "uk_" + col.name, added.value);
        meta := Some(added.value);
      }
      CatalogHasRoot(kv, h, name, t.value);
      DropUpdated(old(cache), name, t.value);
      WriteDefinitions(name, meta, Some(col));
      return Ok(New(meta));
    }

    /** The writes of append_tuple, add_index and save_table_meta, once their table is there. */
    method PutData(k: Key)
      requires Solid(kv) && Coherent(kv, cache, hash) && ValidKey(k) && (k.RowKey? || k.IndexKey? || k.StatisticsKey?)
      requires RootKey(k.h) in kv && (k.IndexKey? ==> IndexMetaKey(k.h, k.id) in kv)
      modifies `kv
      ensures kv == old(kv)[k := OtherCell]
      ensures Solid(kv) && Coherent(kv, cache, hash) && (old(OneOwner(kv)) ==> OneOwner(kv))
    {
      kv := kv[k := OtherCell];
      PutKeeps(old(kv), k, OtherCell);
      CoherentFrame(old(kv), kv, cache, hash);
    }

    // -------------------------------------------------------------- views

    /** view: the cached view, or the stored one, which is then cached. */
    method LookupView(name: string) returns (v: Option<View>)
      requires TypedViews(kv)
      modifies `views
      ensures v == if name in old(views) then Some(old(views)[name])
                   else if ViewKey(hash(name)) in kv then Some(kv[ViewKey(hash(name))].view) else None
      ensures views == if v.Some? then old(views)[name := v.value] else old(views)
      ensures old(ViewsCoherent(kv, views, hash)) ==> ViewsCoherent(kv, views, hash) && (v.Some? <==> ViewKey(hash(name)) in kv)
    {
      if name in views {
        assert views == views[name := views[name]];
        return Some(views[name]);
      }
      if ViewKey(hash(name)) !in kv {
        return None;
      }
      v := Some(kv[ViewKey(hash(name))].view);
      views := views[name := v.value];
    }

    /** create_view: a new view takes the hash of its name. The cache stays right unless another cached name has
        that hash and a different view. */
    method CreateView(view: View, orReplace: bool) returns (r: Result<bool>)
      requires Solid(kv) && Coherent(kv, cache, hash) && ValidHash(hash(view.name))
      modifies `kv, `views
      ensures var exists' := ViewKey(hash(view.name)) in old(kv);
              r == if exists' && !orReplace then Err(ViewExists)
                   else if !exists' && HashKey(hash(view.name)) in old(kv) then Err(DuplicateSourceHash)
                   else Ok(true)
      ensures r.Err? ==> kv == old(kv) && views == old(views)
      ensures r.Ok? ==> kv == ViewStored(old(kv), hash(view.name), view) && views == old(views)[view.name := view]
      ensures r.Ok? && old(ViewsCoherent(kv, views, hash)) ==>
                (ViewsCoherent(kv, views, hash) <==> forall n :: ViewTwin(old(views), hash, view.name, n) ==> old(views)[n] == view)
      ensures Solid(kv) && Coherent(kv, cache, hash) && (old(OneOwner(kv)) ==> OneOwner(kv))
    {
      var h := hash(view.name);
      var already := ViewKey(h) in kv;
      if !orReplace && already {
        return Err(ViewExists);
      }
      if !already {
        if HashKey(h) in kv {
          return Err(DuplicateSourceHash);
        }
        kv := kv[HashKey(h) := OtherCell];
      }
      kv := kv[ViewKey(h) := ViewCell(view)];
      views := views[view.name := view];
      ViewStoredKeeps(old(kv), h, view);
      if old(ViewsCoherent(kv, views, hash)) {
        ViewStoredCoherent(old(kv), old(views), hash, view);
      }
      CoherentFrame(old(kv), kv, cache, hash);
      return Ok(true);
    }

    /** drop_view gives the hash of the name free before it looks for the view. A name stays with one
        owner exactly when it is not a table's; the cache stays right unless another cached name has the hash. */
    method DropView(name: string, ifExists: bool) returns (r: Result<bool>)
      requires Solid(kv) && Coherent(kv, cache, hash) && ValidHash(hash(name))
      modifies `kv, `views
      ensures ViewGone(old(kv), kv, hash(name)) && views == old(views) - {name}
      ensures r == if name in old(views) || ViewKey(hash(name)) in old(kv) then Ok(true) else if ifExists then Ok(false) else Err(ViewNotFound)
      ensures Solid(kv) && Coherent(kv, cache, hash)
      ensures old(ViewsCoherent(kv, views, hash)) ==> (ViewsCoherent(kv, views, hash) <==> forall n :: !ViewTwin(old(views), hash, name, n))
      ensures old(OneOwner(kv)) ==> (OneOwner(kv) <==> RootKey(hash(name)) !in old(kv))
    {
      ViewRemoved(kv, hash(name));
      ViewGoneSolid(kv, kv - {HashKey(hash(name))} - {ViewKey(hash(name))}, hash(name));
      r := RemoveView(name, ifExists);
      if old(ViewsCoherent(kv, views, hash)) {
        ViewGoneCoherent(old(kv), kv, old(views), hash, name);
      }
      CoherentFrame(old(kv), kv, cache, hash);
      if old(OneOwner(kv)) {
        ViewGoneOwner(old(kv), kv, hash(name));
      }
    }

    method RemoveView(name: string, ifExists: bool) returns (r: Result<bool>)
      requires TypedViews(kv)
      modifies `kv, `views
      ensures kv == old(kv) - {HashKey(hash(name))} - {ViewKey(hash(name))} && views == old(views) - {name}
      ensures r == if name in old(views) || ViewKey(hash(name)) in old(kv) then Ok(true) else if ifExists then Ok(false) else Err(ViewNotFound)
    {
      kv := kv - {HashKey(hash(name))};
      var v := LookupView(name);
      if v.None? {
        assert kv - {ViewKey(hash(name))} == kv && views - {name} == views;
        return if ifExists then Ok(false) else Err(ViewNotFound);
      }
      kv := kv - {ViewKey(hash(name))};
      views := views - {name};
      return Ok(true);
    }
  }
}
