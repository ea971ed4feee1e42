/** The key families of the store and the byte intervals that scan them. */
module KeySpace {
  import opened KeyBytes

  const ROOT: Bytes := [82, 111, 111, 116]
  const VIEW: Bytes := [86, 105, 101, 119]
  const HASH: Bytes := [72, 97, 115, 104]

  /** A table or view is known by the 8 bytes of its name's hash. */
  datatype Key =
    | ColumnKey(h: Bytes, id: nat)
    | IndexMetaKey(h: Bytes, id: nat)
    | IndexKey(h: Bytes, id: nat, rest: Bytes)
    | StatisticsKey(h: Bytes, id: nat)
    | RowKey(h: Bytes, rest: Bytes)
    | RootKey(h: Bytes)
    | ViewKey(h: Bytes)
    | HashKey(h: Bytes)

  function LittleEndian(n: nat, w: nat): (b: Bytes)
    ensures |b| == w
  {
    if w == 0 then [] else [n % 256] + LittleEndian(n / 256, w - 1)
  }

  function Family(k: Key): Bytes {
    match k
    case ColumnKey(_, _) => [48]
    case IndexMetaKey(_, _) => [49]
    case IndexKey(_, _, _) => [51]
    case StatisticsKey(_, _) => [52]
    case RowKey(_, _) => [56]
    case _ => []
  }

  predicate OfTable(k: Key) { !k.RootKey? && !k.ViewKey? && !k.HashKey? }

  /** What follows the zero byte after the family tag. */
  function Suffix(k: Key): Bytes {
    match k
    case ColumnKey(_, id) => BigEndian(id, 16)
    case IndexMetaKey(_, id) => LittleEndian(id, 4)
    case IndexKey(_, id, rest) => LittleEndian(id, 4) + [0] + rest
    case StatisticsKey(_, id) => LittleEndian(id, 4)
    case RowKey(_, rest) => rest
    case _ => k.h
  }

  function Prefix(k: Key): Bytes {
    match k
    case RootKey(_) => ROOT
    case ViewKey(_) => VIEW
    case HashKey(_) => HASH
    case _ => k.h + Family(k)
  }

  function Encode(k: Key): Bytes { Prefix(k) + [0] + Suffix(k) }

  /** A hash that cannot be taken for one of the three markers. */
  predicate ValidHash(h: Bytes) { |h| == 8 && !Starts(h, ROOT) && !Starts(h, VIEW) && !Starts(h, HASH) }

  predicate Starts(h: Bytes, marker: Bytes)
    requires |h| == 8 && |marker| == 4
  {
    h[0] == marker[0] && h[1] == marker[1] && h[2] == marker[2] && h[3] == marker[3]
  }

  lemma NoMarker(h: Bytes)
    requires ValidHash(h)
    ensures h[..4] != ROOT && h[..4] != VIEW && h[..4] != HASH
  {
    assert forall i :: 0 <= i < 4 ==> h[..4][i] == h[i];
  }

  predicate ValidKey(k: Key) {
    && ValidHash(k.h)
    && (k.ColumnKey? ==> k.id < Pow256(16))
    && (k.IndexMetaKey? || k.IndexKey? || k.StatisticsKey? ==> k.id < Pow256(4))
  }

  // ---------------------------------------------------------------- intervals

  datatype Span = Span(lo: Bytes, hi: Bytes)

  function Around(p: Bytes): Span { Span(p + [0], p + [255]) }

  function TupleBound(h: Bytes): Span { Around(h + [56]) }
  function IndexMetaBound(h: Bytes): Span { Around(h + [49]) }
  function IndexBound(h: Bytes, id: nat): Span { Around(h + [51] + [0] + LittleEndian(id, 4)) }
  function AllIndexBound(h: Bytes): Span { Around(h + [51]) }
  function ColumnsBound(h: Bytes): Span { Around(h + [48]) }
  function StatisticsBound(h: Bytes): Span { Around(h + [52]) }
  function RootTableBound(): Span { Around(ROOT) }
  function ViewBound(): Span { Around(VIEW) }
  function TableBound(h: Bytes): Span { Span(h + [48] + [0], h + [49] + [255]) }

  predicate Within(s: Span, k: Bytes) { LexLe(s.lo, k) && LexLe(k, s.hi) }

  /** A key that parts from the prefix is outside. */
  lemma {:induction false} AroundOther(p: Bytes, k: Bytes, n: nat)
    requires n <= |p| && n <= |k| && k[..n] != p[..n]
    ensures !Within(Around(p), k)
    decreases n
  {
    var p', k' := p[1..], k[1..];
    assert (p + [0])[1..] == p' + [0] && (p + [255])[1..] == p' + [255];
    if k[0] == p[0] {
      assert k[..n] == [k[0]] + k'[..n - 1] && p[..n] == [p[0]] + p'[..n - 1];
      AroundOther(p', k', n - 1);
      assert k == [k[0]] + k' && p + [0] == [p[0]] + (p' + [0]) && p + [255] == [p[0]] + (p' + [255]);
    }
  }

  /** A key that continues the prefix with a zero byte is inside. */
  lemma {:induction false} AroundOwn(p: Bytes, rest: Bytes)
    ensures Within(Around(p), p + [0] + rest)
  {
    if p == [] {
      assert p + [0] + rest == [0] + rest && p + [0] == [0] && p + [255] == [255];
      assert ([0] + rest)[1..] == rest && [0][1..] == [];
      assert rest == [] || LexLt([], rest);
      if rest == [] { assert [0] + rest == [0]; } else { assert LexLt([0], [0] + rest); }
    } else {
      var k, k' := p + [0] + rest, p[1..] + [0] + rest;
      AroundOwn(p[1..], rest);
      assert k[1..] == k' && (p + [0])[1..] == p[1..] + [0] && (p + [255])[1..] == p[1..] + [255];
      assert k == [p[0]] + k' && p + [0] == [p[0]] + (p[1..] + [0]) && p + [255] == [p[0]] + (p[1..] + [255]);
    }
  }

  /** Keys of a table start with its hash and family; the others start with a marker. */
  lemma KeyStart(k: Key)
    requires ValidKey(k)
    ensures OfTable(k) ==> |Encode(k)| >= 10 && Encode(k)[..9] == k.h + Family(k)
    ensures !OfTable(k) ==> |Encode(k)| == 13 && Encode(k)[..4] == Prefix(k)
  {
    var e := Encode(k);
    NoMarker(k.h);
    if OfTable(k) {
      assert e[..9] == Prefix(k);
    } else {
      assert e[..4] == Prefix(k);
    }
  }

  lemma FamilyAround(h: Bytes, tag: Byte, k: Key)
    requires ValidHash(h) && ValidKey(k)
    ensures Within(Around(h + [tag]), Encode(k)) <==> OfTable(k) && k.h == h && Family(k) == [tag]
  {
    var p, e := h + [tag], Encode(k);
    KeyStart(k);
    if OfTable(k) {
      if k.h == h && Family(k) == [tag] {
        AroundOwn(p, Suffix(k));
      } else {
        assert p[..8] == h && p[8] == tag && (k.h + Family(k))[..8] == k.h && (k.h + Family(k))[8] == Family(k)[0];
        assert p[..9] == p;
        AroundOther(p, e, 9);
      }
    } else {
      assert p[..4] == h[..4];
      AroundOther(p, e, 4);
    }
  }

  /** Each family's interval holds exactly that family's keys of that table. */
  lemma FamilyBoundsExact(h: Bytes, k: Key)
    requires ValidHash(h) && ValidKey(k)
    ensures Within(ColumnsBound(h), Encode(k)) <==> k.ColumnKey? && k.h == h
    ensures Within(IndexMetaBound(h), Encode(k)) <==> k.IndexMetaKey? && k.h == h
    ensures Within(AllIndexBound(h), Encode(k)) <==> k.IndexKey? && k.h == h
    ensures Within(StatisticsBound(h), Encode(k)) <==> k.StatisticsKey? && k.h == h
    ensures Within(TupleBound(h), Encode(k)) <==> k.RowKey? && k.h == h
  {
    FamilyAround(h, 48, k);
    FamilyAround(h, 49, k);
    FamilyAround(h, 51, k);
    FamilyAround(h, 52, k);
    FamilyAround(h, 56, k);
  }

  lemma {:induction false} LittleEndianInjective(a: nat, b: nat, w: nat)
    requires a < Pow256(w) && b < Pow256(w) && LittleEndian(a, w) == LittleEndian(b, w)
    ensures a == b
    decreases w
  {
    if w > 0 {
      assert LittleEndian(a, w)[0] == LittleEndian(b, w)[0];
      assert LittleEndian(a, w)[1..] == LittleEndian(a / 256, w - 1) && LittleEndian(b, w)[1..] == LittleEndian(b / 256, w - 1);
      LittleEndianInjective(a / 256, b / 256, w - 1);
    }
  }

  lemma IndexEntryAround(h: Bytes, id: nat, other: nat, rest: Bytes)
    requires |h| == 8 && id < Pow256(4) && other < Pow256(4)
    ensures Within(IndexBound(h, id), Encode(IndexKey(h, other, rest))) <==> other == id
  {
    var head := h + [51] + [0];
    var p, e := head + LittleEndian(id, 4), Encode(IndexKey(h, other, rest));
    assert e == head + LittleEndian(other, 4) + [0] + rest;
    if other == id {
      AroundOwn(p, rest);
    } else {
      if LittleEndian(other, 4) == LittleEndian(id, 4) { LittleEndianInjective(other, id, 4); }
      assert e[..14] == head + LittleEndian(other, 4) && p[..14] == p;
      assert e[..14][10..] == LittleEndian(other, 4) && p[10..] == LittleEndian(id, 4);
      AroundOther(p, e, 14);
    }
  }

  /** The interval of one index holds exactly the entries of that index. */
  lemma IndexBoundExact(h: Bytes, id: nat, k: Key)
    requires ValidHash(h) && ValidKey(k) && id < Pow256(4)
    ensures Within(IndexBound(h, id), Encode(k)) <==> k.IndexKey? && k.h == h && k.id == id
  {
    if k.IndexKey? && k.h == h {
      IndexEntryAround(h, id, k.id, k.rest);
    } else {
      var p, start := h + [51] + [0] + LittleEndian(id, 4), h + [51];
      KeyStart(k);
      if OfTable(k) {
        assert start[..8] == h && start[8] == 51 && (k.h + Family(k))[..8] == k.h && (k.h + Family(k))[8] == Family(k)[0];
        assert p[..9] == start;
        AroundOther(p, Encode(k), 9);
      } else {
        assert p[..4] == h[..4];
        AroundOther(p, Encode(k), 4);
      }
    }
  }

  /** The marker intervals hold exactly the tables and the views. */
  lemma MarkerBoundsExact(k: Key)
    requires ValidKey(k)
    ensures Within(RootTableBound(), Encode(k)) <==> k.RootKey?
    ensures Within(ViewBound(), Encode(k)) <==> k.ViewKey?
  {
    var e := Encode(k);
    KeyStart(k);
    if OfTable(k) { assert e[..4] == e[..9][..4] == k.h[..4]; }
    if k.RootKey? { AroundOwn(ROOT, k.h); } else { assert ROOT[..4] == ROOT; AroundOther(ROOT, e, 4); }
    if k.ViewKey? { AroundOwn(VIEW, k.h); } else { assert VIEW[..4] == VIEW; AroundOther(VIEW, e, 4); }
  }

  /** The interval from the columns to the index metas of a table holds exactly those two. */
  lemma TableBoundExact(h: Bytes, k: Key)
    requires ValidHash(h) && ValidKey(k)
    ensures Within(TableBound(h), Encode(k)) <==> (k.ColumnKey? || k.IndexMetaKey?) && k.h == h
    ensures Within(TableBound(h), Encode(k)) ==> (h + [48] + [0] <= Encode(k) <==> k.ColumnKey?)
  {
    var e := Encode(k);
    var lo, hi := h + [48] + [0], h + [49] + [255];
    KeyStart(k);
    if OfTable(k) && k.h == h {
      assert e[..8] == e[..9][..8] == h && e[8] == e[..9][8] == Family(k)[0];
      assert lo[..8] == h && hi[..8] == h && lo[8] == 48 && hi[8] == 49;
      FamilyBoundsExact(h, k);
      if Family(k)[0] > 49 {
        DiffGivesLt(hi, e, 8);
        LtTotal(hi, e);
      } else if k.ColumnKey? {
        DiffGivesLt(e, hi, 8);
      } else {
        DiffGivesLt(lo, e, 8);
      }
      if k.ColumnKey? { assert e == lo + Suffix(k); }
      if lo <= e { assert e[8] == lo[8]; }
    } else {
      if OfTable(k) {
        assert e[..8] == e[..9][..8] == k.h;
        NotWithinSpan(h, e, 8);
      } else {
        assert h[..4] != e[..4];
        NotWithinSpan(h, e, 4);
      }
    }
  }

  lemma NotWithinSpan(h: Bytes, e: Bytes, n: nat)
    requires |h| == 8 && n <= 8 && n <= |e| && e[..n] != h[..n]
    ensures !Within(TableBound(h), e)
  {
    var i := FirstPart(h, e, n);
    var lo, hi := h + [48] + [0], h + [49] + [255];
    assert lo[..i] == h[..i] && hi[..i] == h[..i];
    if e[i] < h[i] {
      DiffGivesLt(e, lo, i);
      LtTotal(e, lo);
    } else {
      DiffGivesLt(hi, e, i);
      LtTotal(e, hi);
    }
  }

  lemma {:induction false} FirstPart(a: Bytes, b: Bytes, n: nat) returns (i: nat)
    requires n <= |a| && n <= |b| && a[..n] != b[..n]
    ensures i < n && a[..i] == b[..i] && a[i] != b[i]
    decreases n
  {
    if a[..n - 1] == b[..n - 1] {
      i := n - 1;
      assert a[..n] == a[..i] + [a[i]] && b[..n] == b[..i] + [b[i]];
    } else {
      i := FirstPart(a, b, n - 1);
    }
  }
}
