/** Table catalogs rebuilt from the columns and index metas the store holds. */
module TableScan {
  import opened KeyBytes
  import opened KeySpace
  import opened Catalog

  predicate Ascending(ks: seq<Key>) { forall i, j :: 0 <= i < j < |ks| ==> LexLt(Encode(ks[i]), Encode(ks[j])) }

  /** The keys of a set in the order a scan returns them. */
  predicate IsListing(ks: seq<Key>, s: set<Key>) {
    Ascending(ks) && (forall k :: k in ks ==> k in s) && (forall k :: k in s ==> k in ks)
  }

  lemma {:induction false} ListingUnique(a: seq<Key>, b: seq<Key>, s: set<Key>)
    requires IsListing(a, s) && IsListing(b, s)
    ensures a == b
    decreases |a|
  {
    assert b != [] ==> b[0] in b;
    if a != [] {
      assert a[0] in b && b != [] && b[0] in a;
      var i :| 0 <= i < |b| && b[i] == a[0];
      var j :| 0 <= j < |a| && a[j] == b[0];
      LtTotal(Encode(a[0]), Encode(b[0]));
      assert a[0] == b[0];
      TailListing(a, s);
      TailListing(b, s);
      ListingUnique(a[1..], b[1..], s - {a[0]});
    }
  }

  lemma TailListing(a: seq<Key>, s: set<Key>)
    requires IsListing(a, s) && a != []
    ensures IsListing(a[1..], s - {a[0]})
  {
    forall k | k in a[1..] ensures k != a[0] {
      var i :| 0 <= i < |a| - 1 && a[1..][i] == k;
      assert LexLt(Encode(a[0]), Encode(a[i + 1]));
      LtTotal(Encode(a[0]), Encode(a[0]));
    }
  }

  function TableKeys(kv: Store, h: Bytes): set<Key> {
    set k | k in kv && Within(TableBound(h), Encode(k))
  }

  predicate ValidKeys(kv: Store) { forall k :: k in kv ==> ValidKey(k) }

  /** Columns and index metas are stored under their own ids. */
  predicate TypedCells(kv: Store) {
    && (forall k: Key :: k in kv && k.ColumnKey? ==> kv[k].ColumnCell? && kv[k].col.id == k.id)
    && (forall k: Key :: k in kv && k.IndexMetaKey? ==> kv[k].IndexCell? && kv[k].meta.id == k.id)
  }

  lemma TableKeysAre(kv: Store, h: Bytes)
    requires ValidKeys(kv) && ValidHash(h)
    ensures TableKeys(kv, h) == set k | k in kv && (k.ColumnKey? || k.IndexMetaKey?) && k.h == h
  {
    forall k | k in kv ensures Within(TableBound(h), Encode(k)) <==> (k.ColumnKey? || k.IndexMetaKey?) && k.h == h {
      TableBoundExact(h, k);
    }
  }

  function ColumnsIn(kv: Store, ks: seq<Key>): seq<Column>
    requires TypedCells(kv) && forall k :: k in ks ==> k in kv
  {
    if ks == [] then [] else (if ks[0].ColumnKey? then [kv[ks[0]].col] else []) + ColumnsIn(kv, ks[1..])
  }

  function MetasIn(kv: Store, ks: seq<Key>): seq<IndexMeta>
    requires TypedCells(kv) && forall k :: k in ks ==> k in kv
  {
    if ks == [] then [] else (if ks[0].IndexMetaKey? then [kv[ks[0]].meta] else []) + MetasIn(kv, ks[1..])
  }

  /** The catalog is the one a fresh scan of the store would rebuild. */
  ghost predicate Agrees(kv: Store, h: Bytes, name: string, t: Table)
    requires TypedCells(kv)
  {
    forall ks :: IsListing(ks, TableKeys(kv, h)) ==> ColumnsIn(kv, ks) != [] && t == Reload(name, ColumnsIn(kv, ks), MetasIn(kv, ks))
  }

  /** Both stores hold the same columns and index metas of a table. */
  ghost predicate SameTable(kv: Store, kv': Store, h: Bytes) {
    forall k: Key :: (k.ColumnKey? || k.IndexMetaKey?) && k.h == h ==> (k in kv <==> k in kv') && (k in kv ==> kv[k] == kv'[k])
  }

  lemma SameKeys(kv: Store, kv': Store, h: Bytes)
    requires ValidKeys(kv) && ValidKeys(kv') && ValidHash(h) && SameTable(kv, kv', h)
    ensures TableKeys(kv, h) == TableKeys(kv', h)
    ensures forall k :: k in TableKeys(kv, h) ==> k in kv && k in kv' && kv[k] == kv'[k]
  {
    TableKeysAre(kv, h);
    TableKeysAre(kv', h);
  }

  /** A step that leaves a table's columns and index metas alone leaves its catalog right. */
  lemma AgreesFrame(kv: Store, kv': Store, h: Bytes, name: string, t: Table)
    requires TypedCells(kv) && TypedCells(kv') && Agrees(kv, h, name, t)
    requires ValidKeys(kv) && ValidKeys(kv') && ValidHash(h) && SameTable(kv, kv', h)
    ensures Agrees(kv', h, name, t)
  {
    SameKeys(kv, kv', h);
    forall ks | IsListing(ks, TableKeys(kv', h))
      ensures ColumnsIn(kv', ks) != [] && t == Reload(name, ColumnsIn(kv', ks), MetasIn(kv', ks))
    {
      SameCells(kv, kv', ks);
    }
  }

  lemma {:induction false} SameCells(kv: Store, kv': Store, ks: seq<Key>)
    requires TypedCells(kv) && TypedCells(kv') && forall k :: k in ks ==> k in kv && k in kv' && kv[k] == kv'[k]
    ensures ColumnsIn(kv, ks) == ColumnsIn(kv', ks) && MetasIn(kv, ks) == MetasIn(kv', ks)
  {
    if ks != [] {
      SameCells(kv, kv', ks[1..]);
    }
  }

  // ---------------------------------------------------------------- a created table, reloaded

  function ColKeys(h: Bytes, cols: seq<Column>): (ks: seq<Key>)
    ensures |ks| == |cols| && forall i :: 0 <= i < |cols| ==> ks[i] == ColumnKey(h, cols[i].id)
  {
    seq(|cols|, i requires 0 <= i < |cols| => ColumnKey(h, cols[i].id))
  }

  function MetaKeys(h: Bytes, metas: seq<IndexMeta>): (ks: seq<Key>)
    ensures |ks| == |metas| && forall i :: 0 <= i < |metas| ==> ks[i] == IndexMetaKey(h, metas[i].id)
  {
    seq(|metas|, i requires 0 <= i < |metas| => IndexMetaKey(h, metas[i].id))
  }

  /** Column ids in generation order. */
  predicate AscendingIds(cols: seq<Column>) {
    && (forall i, j :: 0 <= i < j < |cols| ==> cols[i].id < cols[j].id)
    && forall i :: 0 <= i < |cols| ==> cols[i].id < Pow256(16)
  }

  lemma ColumnOrder(h: Bytes, a: nat, b: nat)
    requires a < b < Pow256(16)
    ensures LexLt(Encode(ColumnKey(h, a)), Encode(ColumnKey(h, b)))
  {
    BigEndianOrder(a, b, 16);
    BelowAfter(h + [48] + [0], BigEndian(a, 16), BigEndian(b, 16));
    BelowGivesLt(Encode(ColumnKey(h, a)), Encode(ColumnKey(h, b)));
  }

  lemma FamilyBefore(h: Bytes, a: Bytes, b: Bytes)
    ensures LexLt(h + [48] + [0] + a, h + [49] + [0] + b)
  {
    BelowAt([48], [49], 0);
    BelowAfter(h, [48], [49]);
    BelowExtends(h + [48], h + [49], [0] + a, [0] + b);
    assert h + [48] + ([0] + a) == h + [48] + [0] + a && h + [49] + ([0] + b) == h + [49] + [0] + b;
    BelowGivesLt(h + [48] + [0] + a, h + [49] + [0] + b);
  }

  lemma ColumnBeforeMeta(h: Bytes, a: nat, b: nat)
    ensures LexLt(Encode(ColumnKey(h, a)), Encode(IndexMetaKey(h, b)))
  {
    FamilyBefore(h, BigEndian(a, 16), LittleEndian(b, 4));
  }

  lemma SmallLittleEndian(n: nat)
    requires n < 256
    ensures LittleEndian(n, 4) == [n, 0, 0, 0]
  {
    assert LittleEndian(0, 1) == [0] && LittleEndian(0, 2) == [0, 0] && LittleEndian(0, 3) == [0, 0, 0];
  }

  /** Index metas are scanned in id order below 256 ... */
  lemma MetaOrder(h: Bytes, a: nat, b: nat)
    requires a < b < 256
    ensures LexLt(Encode(IndexMetaKey(h, a)), Encode(IndexMetaKey(h, b)))
  {
    SmallLittleEndian(a);
    SmallLittleEndian(b);
    BelowAt(LittleEndian(a, 4), LittleEndian(b, 4), 0);
    BelowAfter(h + [49] + [0], LittleEndian(a, 4), LittleEndian(b, 4));
    BelowGivesLt(Encode(IndexMetaKey(h, a)), Encode(IndexMetaKey(h, b)));
  }

  /** ... and out of it from 256 on: the low byte comes first. */
  lemma MetaOrderBreaks(h: Bytes)
    ensures LexLt(Encode(IndexMetaKey(h, 256)), Encode(IndexMetaKey(h, 1)))
  {
    SmallLittleEndian(1);
    assert LittleEndian(256, 4)[0] == 0;
    BelowAt(LittleEndian(256, 4), LittleEndian(1, 4), 0);
    BelowAfter(h + [49] + [0], LittleEndian(256, 4), LittleEndian(1, 4));
    BelowGivesLt(Encode(IndexMetaKey(h, 256)), Encode(IndexMetaKey(h, 1)));
  }

  lemma ListingAscends(h: Bytes, cols: seq<Column>, metas: seq<IndexMeta>)
    requires AscendingIds(cols) && SequentialIds(metas) && |metas| <= 256
    ensures Ascending(ColKeys(h, cols) + MetaKeys(h, metas))
  {
    var ks, n := ColKeys(h, cols) + MetaKeys(h, metas), |cols|;
    forall i, j | 0 <= i < j < |ks| ensures LexLt(Encode(ks[i]), Encode(ks[j])) {
      if j < n {
        ColumnOrder(h, cols[i].id, cols[j].id);
      } else if i < n {
        ColumnBeforeMeta(h, cols[i].id, metas[j - n].id);
      } else {
        MetaOrder(h, metas[i - n].id, metas[j - n].id);
      }
    }
  }

  /** The store holds exactly these columns and index metas for the table. */
  ghost predicate Holds(kv: Store, h: Bytes, cols: seq<Column>, metas: seq<IndexMeta>) {
    && (forall i :: 0 <= i < |cols| ==> ColumnKey(h, cols[i].id) in kv && kv[ColumnKey(h, cols[i].id)] == ColumnCell(cols[i]))
    && (forall i :: 0 <= i < |metas| ==> IndexMetaKey(h, metas[i].id) in kv && kv[IndexMetaKey(h, metas[i].id)] == IndexCell(metas[i]))
    && (forall k: Key :: k in kv && k.h == h && k.ColumnKey? ==> k in ColKeys(h, cols))
    && (forall k: Key :: k in kv && k.h == h && k.IndexMetaKey? ==> k in MetaKeys(h, metas))
  }

  lemma {:induction false} ReadBackColumns(kv: Store, h: Bytes, cols: seq<Column>, rest: seq<Key>)
    requires TypedCells(kv)
    requires forall i :: 0 <= i < |cols| ==> ColumnKey(h, cols[i].id) in kv && kv[ColumnKey(h, cols[i].id)] == ColumnCell(cols[i])
    requires forall k :: k in rest ==> k in kv && k.IndexMetaKey?
    ensures forall k :: k in ColKeys(h, cols) + rest ==> k in kv
    ensures ColumnsIn(kv, ColKeys(h, cols) + rest) == cols && MetasIn(kv, ColKeys(h, cols) + rest) == MetasIn(kv, rest)
    decreases |cols|, |rest|
  {
    var ks := ColKeys(h, cols) + rest;
    if cols != [] {
      ReadBackColumns(kv, h, cols[1..], rest);
      assert ks[1..] == ColKeys(h, cols[1..]) + rest && ks[0] == ColumnKey(h, cols[0].id);
    } else {
      assert ks == rest;
      if rest != [] {
        ReadBackColumns(kv, h, cols, rest[1..]);
        assert ColKeys(h, cols) + rest[1..] == rest[1..];
      }
    }
  }

  lemma {:induction false} ReadBackMetas(kv: Store, h: Bytes, metas: seq<IndexMeta>)
    requires TypedCells(kv)
    requires forall i :: 0 <= i < |metas| ==> IndexMetaKey(h, metas[i].id) in kv && kv[IndexMetaKey(h, metas[i].id)] == IndexCell(metas[i])
    ensures forall k :: k in MetaKeys(h, metas) ==> k in kv
    ensures MetasIn(kv, MetaKeys(h, metas)) == metas
  {
    if metas != [] {
      ReadBackMetas(kv, h, metas[1..]);
      assert MetaKeys(h, metas)[1..] == MetaKeys(h, metas[1..]);
    }
  }

  // ---------------------------------------------------------------- every set of keys has a listing

  lemma EncodeInjective(a: Key, b: Key)
    requires ValidKey(a) && ValidKey(b) && Encode(a) == Encode(b)
    ensures a == b
  {
    KeyStart(a);
    KeyStart(b);
    HashStart(a);
    HashStart(b);
    if OfTable(a) && OfTable(b) {
      assert (a.h + Family(a))[..8] == a.h && (b.h + Family(b))[..8] == b.h;
      assert (a.h + Family(a))[8] == Family(a)[0] && (b.h + Family(b))[8] == Family(b)[0];
      assert Encode(a)[10..] == Suffix(a) && Encode(b)[10..] == Suffix(b);
      SuffixInjective(a, b);
    } else if !OfTable(a) && !OfTable(b) {
      assert Encode(a)[5..] == a.h && Encode(b)[5..] == b.h;
    }
  }

  lemma HashStart(k: Key)
    requires ValidKey(k)
    ensures |Encode(k)| >= 10 && (OfTable(k) ==> Encode(k)[..4] == k.h[..4])
  {
    KeyStart(k);
    if OfTable(k) { assert Encode(k)[..4] == Encode(k)[..9][..4] == k.h[..4]; }
  }

  lemma SuffixInjective(a: Key, b: Key)
    requires ValidKey(a) && ValidKey(b) && OfTable(a) && OfTable(b) && a.h == b.h && Family(a)[0] == Family(b)[0] && Suffix(a) == Suffix(b)
    ensures a == b
  {
    if a.ColumnKey? {
      if a.id < b.id { BigEndianOrder(a.id, b.id, 16); BelowGivesLt(Suffix(a), Suffix(b)); LtTotal(Suffix(a), Suffix(b)); }
      if b.id < a.id { BigEndianOrder(b.id, a.id, 16); BelowGivesLt(Suffix(b), Suffix(a)); LtTotal(Suffix(b), Suffix(a)); }
    } else if a.IndexKey? {
      assert Suffix(a)[..4] == LittleEndian(a.id, 4) && Suffix(b)[..4] == LittleEndian(b.id, 4);
      assert Suffix(a)[5..] == a.rest && Suffix(b)[5..] == b.rest;
      LittleEndianInjective(a.id, b.id, 4);
    } else if !a.RowKey? {
      LittleEndianInjective(a.id, b.id, 4);
    }
  }

  /** A key put in its place among the keys of a scan. */
  function PlaceKey(ks: seq<Key>, k: Key): seq<Key> {
    if ks == [] || LexLt(Encode(k), Encode(ks[0])) then [k] + ks else [ks[0]] + PlaceKey(ks[1..], k)
  }

  lemma ChainFrom<A>(lt: (A, A) -> bool, a: A, s: seq<A>)
    requires forall i, j :: 0 <= i < j < |s| ==> lt(s[i], s[j])
    requires forall i :: 0 <= i < |s| ==> lt(a, s[i])
    ensures forall i, j :: 0 <= i < j < |[a] + s| ==> lt(([a] + s)[i], ([a] + s)[j])
  {
  }

  lemma AscendingFrom(k: Key, ks: seq<Key>)
    requires Ascending(ks) && forall i :: 0 <= i < |ks| ==> LexLt(Encode(k), Encode(ks[i]))
    ensures Ascending([k] + ks)
  {
    var lt := (a: Key, b: Key) => LexLt(Encode(a), Encode(b));
    ChainFrom(lt, k, ks);
    var out := [k] + ks;
    forall i, j | 0 <= i < j < |out| ensures LexLt(Encode(out[i]), Encode(out[j])) {
      assert lt(out[i], out[j]);
    }
  }

  lemma Prepended(k: Key, ks: seq<Key>, s: set<Key>)
    requires IsListing(ks, s) && forall x :: x in s ==> LexLt(Encode(k), Encode(x))
    ensures IsListing([k] + ks, s + {k})
  {
    forall i | 0 <= i < |ks| ensures LexLt(Encode(k), Encode(ks[i])) {
      assert ks[i] in ks;
    }
    AscendingFrom(k, ks);
    assert forall x :: x in [k] + ks <==> x == k || x in ks;
  }

  lemma {:induction false} PlacedListing(ks: seq<Key>, k: Key, s: set<Key>)
    requires IsListing(ks, s) && k !in s && ValidKey(k) && forall k :: k in s ==> ValidKey(k)
    ensures IsListing(PlaceKey(ks, k), s + {k})
    decreases |ks|
  {
    if ks == [] {
      Prepended(k, ks, s);
    } else if LexLt(Encode(k), Encode(ks[0])) {
      forall x | x in s ensures LexLt(Encode(k), Encode(x)) {
        if x != ks[0] {
          HeadBelow(ks, x, s);
          LtTransitive(Encode(k), Encode(ks[0]), Encode(x));
        }
      }
      Prepended(k, ks, s);
    } else {
      var first := ks[0];
      assert first in ks;
      TailListing(ks, s);
      PlacedListing(ks[1..], k, s - {first});
      LtTotal(Encode(k), Encode(first));
      if Encode(k) == Encode(first) { EncodeInjective(k, first); }
      forall x | x in s - {first} + {k} ensures LexLt(Encode(first), Encode(x)) {
        if x != k { HeadBelow(ks, x, s); }
      }
      Prepended(first, PlaceKey(ks[1..], k), s - {first} + {k});
      assert s - {first} + {k} + {first} == s + {k};
    }
  }

  lemma HeadBelow(ks: seq<Key>, k: Key, s: set<Key>)
    requires IsListing(ks, s) && ks != [] && k in s - {ks[0]}
    ensures LexLt(Encode(ks[0]), Encode(k))
  {
    var i :| 0 <= i < |ks| && ks[i] == k;
  }

  lemma {:induction false} ListingExists(s: set<Key>) returns (ks: seq<Key>)
    requires forall k :: k in s ==> ValidKey(k)
    ensures IsListing(ks, s)
    decreases s
  {
    if s == {} {
      ks := [];
    } else {
      var k :| k in s;
      var rest := ListingExists(s - {k});
      PlacedListing(rest, k, s - {k});
      assert s - {k} + {k} == s;
      ks := PlaceKey(rest, k);
    }
  }

  // ---------------------------------------------------------------- when a created table reloads as built

  lemma HoldsListing(kv: Store, h: Bytes, cols: seq<Column>, metas: seq<IndexMeta>)
    requires ValidKeys(kv) && ValidHash(h) && Holds(kv, h, cols, metas)
    requires AscendingIds(cols) && SequentialIds(metas) && |metas| <= 256
    ensures IsListing(ColKeys(h, cols) + MetaKeys(h, metas), TableKeys(kv, h))
  {
    ListingAscends(h, cols, metas);
    TableKeysAre(kv, h);
  }

  lemma HoldsAgrees(kv: Store, h: Bytes, name: string, cols: seq<Column>, metas: seq<IndexMeta>)
    requires ValidKeys(kv) && TypedCells(kv) && ValidHash(h) && Holds(kv, h, cols, metas) && cols != []
    requires AscendingIds(cols) && SequentialIds(metas) && |metas| <= 256
    ensures Agrees(kv, h, name, Reload(name, cols, metas))
  {
    var ks := ColKeys(h, cols) + MetaKeys(h, metas);
    HoldsListing(kv, h, cols, metas);
    ReadBackMetas(kv, h, metas);
    ReadBackColumns(kv, h, cols, MetaKeys(h, metas));
    forall other | IsListing(other, TableKeys(kv, h)) ensures other == ks {
      ListingUnique(other, ks, TableKeys(kv, h));
    }
  }

  /** Where an index meta sits among the keys of a scan. */
  lemma {:induction false} MetaAt(kv: Store, ks: seq<Key>, i: nat) returns (p: nat)
    requires TypedCells(kv) && (forall k :: k in ks ==> k in kv) && i < |MetasIn(kv, ks)|
    ensures p < |ks| && ks[p].IndexMetaKey? && kv[ks[p]].meta == MetasIn(kv, ks)[i]
  {
    if ks[0].IndexMetaKey? && i == 0 {
      p := 0;
    } else {
      p := MetaAt(kv, ks[1..], if ks[0].IndexMetaKey? then i - 1 else i);
      p := p + 1;
    }
  }

  lemma {:induction false} MetaPair(kv: Store, ks: seq<Key>, i: nat, j: nat) returns (p: nat, q: nat)
    requires TypedCells(kv) && (forall k :: k in ks ==> k in kv) && i < j < |MetasIn(kv, ks)|
    ensures p < q < |ks| && ks[p].IndexMetaKey? && ks[q].IndexMetaKey?
    ensures kv[ks[p]].meta == MetasIn(kv, ks)[i] && kv[ks[q]].meta == MetasIn(kv, ks)[j]
  {
    var t, first := ks[1..], if ks[0].IndexMetaKey? then [kv[ks[0]].meta] else [];
    assert (forall k :: k in t ==> k in kv) && MetasIn(kv, ks) == first + MetasIn(kv, t);
    if first != [] && i == 0 {
      p := 0;
      q := MetaAt(kv, t, j - 1);
    } else {
      p, q := MetaPair(kv, t, i - |first|, j - |first|);
      assert ks[p + 1] == t[p];
      p := p + 1;
    }
    assert ks[q + 1] == t[q];
    q := q + 1;
  }

  lemma MetasAscend(kv: Store, ks: seq<Key>, h: Bytes, i: nat, j: nat)
    requires TypedCells(kv) && Ascending(ks) && (forall k :: k in ks ==> k in kv && k.h == h) && i < j < |MetasIn(kv, ks)|
    ensures LexLt(Encode(IndexMetaKey(h, MetasIn(kv, ks)[i].id)), Encode(IndexMetaKey(h, MetasIn(kv, ks)[j].id)))
  {
    var p, q := MetaPair(kv, ks, i, j);
    assert ks[p] in ks && ks[q] in ks;
    assert ks[p] == IndexMetaKey(h, MetasIn(kv, ks)[i].id) && ks[q] == IndexMetaKey(h, MetasIn(kv, ks)[j].id);
  }

  lemma OutOfOrder(kv: Store, h: Bytes, name: string, cols: seq<Column>, metas: seq<IndexMeta>)
    requires ValidKeys(kv) && TypedCells(kv) && ValidHash(h) && SequentialIds(metas) && |metas| > 256
    ensures !Agrees(kv, h, name, Reload(name, cols, metas))
  {
    TableKeysAre(kv, h);
    var ks := ListingExists(TableKeys(kv, h));
    if MetasIn(kv, ks) == metas {
      MetasAscend(kv, ks, h, 1, 256);
      MetaOrderBreaks(h);
      LtTotal(Encode(IndexMetaKey(h, 256)), Encode(IndexMetaKey(h, 1)));
    }
  }

  /** A table written with its indexes numbered from 0 is reloaded as it was built exactly when it has
      at most 256 of them. */
  lemma ReloadsAsBuilt(kv: Store, h: Bytes, name: string, cols: seq<Column>, metas: seq<IndexMeta>)
    requires ValidKeys(kv) && TypedCells(kv) && ValidHash(h) && Holds(kv, h, cols, metas) && cols != []
    requires AscendingIds(cols) && SequentialIds(metas)
    ensures Agrees(kv, h, name, Reload(name, cols, metas)) <==> |metas| <= 256
  {
    if |metas| <= 256 {
      HoldsAgrees(kv, h, name, cols, metas);
    } else {
      OutOfOrder(kv, h, name, cols, metas);
    }
  }

  // ---------------------------------------------------------------- the id of the next index

  lemma {:induction false} MetasInHas(kv: Store, ks: seq<Key>, k: Key)
    requires TypedCells(kv) && (forall k :: k in ks ==> k in kv) && k in ks && k.IndexMetaKey?
    ensures kv[k].meta in MetasIn(kv, ks)
  {
    if ks[0] != k { MetasInHas(kv, ks[1..], k); }
  }

  /** A right catalog lists exactly the stored index metas. */
  lemma IndexesAre(kv: Store, h: Bytes, name: string, t: Table)
    requires ValidKeys(kv) && TypedCells(kv) && ValidHash(h) && Agrees(kv, h, name, t)
    ensures forall m :: m in t.indexes ==> IndexMetaKey(h, m.id) in kv && kv[IndexMetaKey(h, m.id)] == IndexCell(m)
    ensures forall k: Key :: k in kv && k.IndexMetaKey? && k.h == h ==> kv[k].meta in t.indexes
  {
    TableKeysAre(kv, h);
    var ks := ListingExists(TableKeys(kv, h));
    forall m | m in t.indexes ensures IndexMetaKey(h, m.id) in kv && kv[IndexMetaKey(h, m.id)] == IndexCell(m) {
      var i :| 0 <= i < |t.indexes| && t.indexes[i] == m;
      var p := MetaAt(kv, ks, i);
      assert ks[p] in ks && ks[p] == IndexMetaKey(h, m.id);
    }
    forall k: Key | k in kv && k.IndexMetaKey? && k.h == h ensures kv[k].meta in t.indexes {
      MetasInHas(kv, ks, k);
    }
  }

  lemma IndexesAscend(kv: Store, h: Bytes, name: string, t: Table, i: nat, j: nat)
    requires ValidKeys(kv) && TypedCells(kv) && ValidHash(h) && Agrees(kv, h, name, t) && i < j < |t.indexes|
    ensures LexLt(Encode(IndexMetaKey(h, t.indexes[i].id)), Encode(IndexMetaKey(h, t.indexes[j].id)))
  {
    TableKeysAre(kv, h);
    var ks := ListingExists(TableKeys(kv, h));
    MetasAscend(kv, ks, h, i, j);
  }

  /** Of the numbers below `n`, the last one is also the last in little-endian order. */
  predicate TopLittle(n: nat) { n <= 256 || (n % 256 == 0 && TopLittle(n / 256)) }

  lemma LittleStep(a: nat, b: nat, w: nat)
    requires w > 0
    ensures LexLt(LittleEndian(a, w), LittleEndian(b, w))
            <==> a % 256 < b % 256 || (a % 256 == b % 256 && LexLt(LittleEndian(a / 256, w - 1), LittleEndian(b / 256, w - 1)))
  {
    assert LittleEndian(a, w)[1..] == LittleEndian(a / 256, w - 1) && LittleEndian(b, w)[1..] == LittleEndian(b / 256, w - 1);
  }

  /** Every number below `n - 1` comes before it in little-endian order. */
  ghost predicate LastLittle(n: nat, w: nat)
    requires n > 0
  {
    forall m: nat :: m < n - 1 ==> LexLt(LittleEndian(m, w), LittleEndian(n - 1, w))
  }

  lemma {:induction false} TopIsLast(n: nat, w: nat)
    requires 0 < n <= Pow256(w)
    ensures TopLittle(n) <==> LastLittle(n, w)
    decreases w
  {
    if n > 1 {
      if n <= 256 {
        OneByteLast(n, w);
      } else if n % 256 != 0 {
        NotLast(n, w);
      } else {
        TopIsLast(n / 256, w - 1);
        FullLast(n, w);
      }
    }
  }

  /** 255 comes after a number whose low byte is smaller. */
  lemma NotLast(n: nat, w: nat)
    requires n > 256 && n % 256 != 0 && w > 0
    ensures !LastLittle(n, w)
  {
    LittleStep(255, n - 1, w);
    assert !LexLt(LittleEndian(255, w), LittleEndian(n - 1, w));
  }

  lemma FullLast(n: nat, w: nat)
    requires n > 0 && n % 256 == 0 && w > 0
    ensures LastLittle(n, w) <==> LastLittle(n / 256, w - 1)
  {
    assert n == 256 * (n / 256);
    FullByteLast(n / 256, w - 1);
  }

  lemma OneByteLast(n: nat, w: nat)
    requires 1 < n <= 256 && w > 0
    ensures LastLittle(n, w)
  {
    forall m: nat | m < n - 1 ensures LexLt(LittleEndian(m, w), LittleEndian(n - 1, w)) { LittleStep(m, n - 1, w); }
  }

  lemma FullByteLast(q: nat, w: nat)
    requires q > 0
    ensures LastLittle(256 * q, w + 1) <==> LastLittle(q, w)
  {
    var y, top, w' := q - 1, 256 * q - 1, w + 1;
    if LastLittle(q, w) {
      forall m: nat | m < top ensures LexLt(LittleEndian(m, w'), LittleEndian(top, w')) { TopAbove(m, y, w); }
    } else {
      var m: nat :| m < y && !LexLt(LittleEndian(m, w), LittleEndian(y, w));
      TopBelow(m, y, w);
    }
  }

  lemma TopAbove(m: nat, y: nat, w: nat)
    requires m < 256 * y + 255
    requires forall q: nat :: q < y ==> LexLt(LittleEndian(q, w), LittleEndian(y, w))
    ensures LexLt(LittleEndian(m, w + 1), LittleEndian(256 * y + 255, w + 1))
  {
    LowByte(y);
    LittleStep(m, 256 * y + 255, w + 1);
  }

  lemma TopBelow(m: nat, y: nat, w: nat)
    requires m < y && !LexLt(LittleEndian(m, w), LittleEndian(y, w))
    ensures !LexLt(LittleEndian(256 * m + 255, w + 1), LittleEndian(256 * y + 255, w + 1))
  {
    LowByte(m);
    LowByte(y);
    LittleStep(256 * m + 255, 256 * y + 255, w + 1);
  }

  lemma LowByte(m: nat)
    ensures (256 * m + 255) % 256 == 255 && (256 * m + 255) / 256 == m
  {
  }

  lemma MetaKeyOrder(h: Bytes, a: nat, b: nat)
    ensures LexLt(Encode(IndexMetaKey(h, a)), Encode(IndexMetaKey(h, b))) <==> LexLt(LittleEndian(a, 4), LittleEndian(b, 4))
  {
    LtAfterPrefix(h + [49] + [0], LittleEndian(a, 4), LittleEndian(b, 4));
  }

  lemma {:induction false} LtAfterPrefix(p: Bytes, a: Bytes, b: Bytes)
    ensures LexLt(p + a, p + b) <==> LexLt(a, b)
  {
    if p == [] {
      assert p + a == a && p + b == b;
    } else {
      assert (p + a)[1..] == p[1..] + a && (p + b)[1..] == p[1..] + b;
      LtAfterPrefix(p[1..], a, b);
    }
  }

  lemma LastIsTop(n: nat, last: nat)
    requires last < n <= Pow256(4)
    requires forall m: nat :: m < n && m != last ==> LexLt(LittleEndian(m, 4), LittleEndian(last, 4))
    ensures last == n - 1 <==> TopLittle(n)
  {
    TopIsLast(n, 4);
    if LastLittle(n, 4) && last != n - 1 {
      assert LexLt(LittleEndian(last, 4), LittleEndian(n - 1, 4));
      LtTotal(LittleEndian(n - 1, 4), LittleEndian(last, 4));
    }
  }

  lemma ListedBeforeLast(kv: Store, h: Bytes, name: string, t: Table, m: nat)
    requires ValidKeys(kv) && TypedCells(kv) && ValidHash(h) && Agrees(kv, h, name, t)
    requires IndexMetaKey(h, m) in kv
    ensures t.indexes != [] && (m != t.indexes[|t.indexes| - 1].id ==> LexLt(LittleEndian(m, 4), LittleEndian(t.indexes[|t.indexes| - 1].id, 4)))
  {
    IndexesAre(kv, h, name, t);
    var i :| 0 <= i < |t.indexes| && t.indexes[i] == kv[IndexMetaKey(h, m)].meta;
    if i < |t.indexes| - 1 {
      IndexesAscend(kv, h, name, t, i, |t.indexes| - 1);
      MetaKeyOrder(h, m, t.indexes[|t.indexes| - 1].id);
    }
  }

  lemma LastStored(kv: Store, h: Bytes, name: string, t: Table)
    requires ValidKeys(kv) && TypedCells(kv) && ValidHash(h) && Agrees(kv, h, name, t) && t.indexes != []
    ensures IndexMetaKey(h, t.indexes[|t.indexes| - 1].id) in kv
  {
    IndexesAre(kv, h, name, t);
    assert t.indexes[|t.indexes| - 1] in t.indexes;
  }

  /** Whatever ids are stored, gaps included: the listed last one comes last in little-endian order, and the id after
      it is a new one unless its low byte is 255. */
  lemma NextIdAfterLast(kv: Store, h: Bytes, name: string, t: Table)
    requires ValidKeys(kv) && TypedCells(kv) && ValidHash(h) && Agrees(kv, h, name, t) && t.indexes != []
    ensures var last := t.indexes[|t.indexes| - 1].id;
            && IndexMetaKey(h, last) in kv
            && (forall id: nat :: IndexMetaKey(h, id) in kv && id != last ==> LexLt(LittleEndian(id, 4), LittleEndian(last, 4)))
            && (IndexMetaKey(h, last + 1) in kv ==> last % 256 == 255)
  {
    LastStored(kv, h, name, t);
    var last := t.indexes[|t.indexes| - 1].id;
    forall id: nat | IndexMetaKey(h, id) in kv && id != last ensures LexLt(LittleEndian(id, 4), LittleEndian(last, 4)) {
      ListedBeforeLast(kv, h, name, t, id);
    }
    NextSortsLater(last);
  }

  lemma NextSortsLater(n: nat)
    ensures LexLt(LittleEndian(n + 1, 4), LittleEndian(n, 4)) ==> n % 256 == 255
  {
    LittleStep(n + 1, n, 4);
    assert n % 256 < 255 ==> (n + 1) % 256 == n % 256 + 1;
  }

  /** With indexes 0 to n - 1 stored, the id the next index gets is a new one exactly when n is at
      most 256, or a multiple of 256 whose quotient is again such a number; otherwise the new index
      takes the key of an existing one. */
  lemma NextIndexId(kv: Store, h: Bytes, name: string, t: Table, n: nat)
    requires ValidKeys(kv) && TypedCells(kv) && ValidHash(h) && Agrees(kv, h, name, t)
    requires 0 < n && forall id: nat :: IndexMetaKey(h, id) in kv <==> id < n
    ensures t.indexes != [] && (IndexMetaKey(h, t.indexes[|t.indexes| - 1].id + 1) !in kv <==> TopLittle(n))
  {
    assert IndexMetaKey(h, n - 1) in kv && ValidKey(IndexMetaKey(h, n - 1));
    ListedBeforeLast(kv, h, name, t, n - 1);
    LastStored(kv, h, name, t);
    var last := t.indexes[|t.indexes| - 1].id;
    forall m: nat | m < n && m != last ensures LexLt(LittleEndian(m, 4), LittleEndian(last, 4)) {
      ListedBeforeLast(kv, h, name, t, m);
    }
    LastIsTop(n, last);
  }

  /** With 257 indexes the listed last one has id 255, and the next index takes the key of index 256. */
  lemma IndexTakesStoredId(kv: Store, h: Bytes, name: string, t: Table)
    requires ValidKeys(kv) && TypedCells(kv) && ValidHash(h) && Agrees(kv, h, name, t)
    requires forall id: nat :: IndexMetaKey(h, id) in kv <==> id < 257
    ensures t.indexes != [] && t.indexes[|t.indexes| - 1].id == 255 && IndexMetaKey(h, 256) in kv
  {
    assert IndexMetaKey(h, 255) in kv;
    ListedBeforeLast(kv, h, name, t, 255);
    LastStored(kv, h, name, t);
    var last := t.indexes[|t.indexes| - 1].id;
    LittleStep(255, last, 4);
  }
}
