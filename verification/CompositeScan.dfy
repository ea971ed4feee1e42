/** From an equality prefix and a trailing range to byte intervals over the ordered store, and which
    index entries those intervals read. */
module CompositeScan {
  import opened Common
  import opened KeyBytes
  import opened Ranges
  import opened Combinations
  import opened TupleKeys

  /** A tuple value; `isUpper` asks for the upper form of its key. */
  datatype Tuple = Tuple(values: seq<Cell>, isUpper: bool)

  // ---------------------------------------------------------------- combining_eqs

  function MergeBound(tuple: seq<Cell>, isUpper: bool, bound: Bound<Scalar>): Bound<Tuple> {
    match bound
    case Included(v) => Included(Val(Tuple(tuple + [v], isUpper)))
    case Excluded(v) => Excluded(Val(Tuple(tuple + [v], isUpper)))
    case Unbounded => if tuple == [] then Unbounded else Excluded(Val(Tuple(tuple, isUpper)))
  }

  function CollectTuple(tuple: seq<Cell>, range: Range<Scalar>): seq<Range<Tuple>>
    decreases range, 0
  {
    match range
    case Scope(min, max) => [Scope(MergeBound(tuple, false, min), MergeBound(tuple, true, max))]
    case Eq(v) => [Eq(Val(Tuple(tuple + [v], false)))]
    case Dummy => [Dummy]
    case SortedRanges(rs) => CollectList(tuple, rs)
  }

  function CollectList(tuple: seq<Cell>, rs: seq<Range<Scalar>>): seq<Range<Tuple>>
    decreases rs, 1
  {
    if rs == [] then [] else CollectTuple(tuple, rs[0]) + CollectList(tuple, rs[1..])
  }

  function CollectAll(tuples: seq<seq<Cell>>, range: Range<Scalar>): seq<Range<Tuple>> {
    if tuples == [] then [] else CollectTuple(tuples[0], range) + CollectAll(tuples[1..], range)
  }

  function CombiningEqs(range: Range<Scalar>, eqs: seq<Range<Scalar>>): Option<Range<Tuple>> {
    match Combine(eqs)
    case None => None
    case Some(tuples) => Some(RangesToRange(CollectAll(tuples, range)))
  }

  /** The ranges an index scan works through. */
  function Pieces(r: Range<Tuple>): seq<Range<Tuple>> {
    if r.SortedRanges? then r.ranges else [r]
  }

  // ---------------------------------------------------------------- byte intervals

  datatype End = Incl(key: Bytes) | Excl(key: Bytes)

  datatype Interval = Interval(lower: End, upper: End)

  predicate ValidBound(b: Bound<Tuple>) {
    b.Unbounded? || (b.value.Val? && ValidTuple(b.value.v.values))
  }

  /** The key of an index bound; an upper one ends in a further 0xFF. */
  function BoundKey(base: Bytes, t: Tuple, isUpper: bool): Bytes
    requires ValidTuple(t.values)
  {
    EncodeTuple(base + [MIN_TAG], t.values, t.isUpper) + if isUpper then [MAX_TAG] else []
  }

  /** An end that is unbounded is the end of the whole index. */
  function EncodeEnd(base: Bytes, b: Bound<Tuple>, isUpper: bool): End
    requires ValidBound(b)
  {
    match b
    case Included(v) => Incl(BoundKey(base, v.v, isUpper))
    case Excluded(v) => Excl(BoundKey(base, v.v, isUpper))
    case Unbounded => Incl(base + [if isUpper then MAX_TAG else MIN_TAG])
  }

  /** The interval for a scope, or for an equality on a non-unique index. */
  function ScanInterval(base: Bytes, piece: Range<Tuple>): Option<Interval>
    requires piece.Scope? ==> ValidBound(piece.min) && ValidBound(piece.max)
    requires piece.Eq? ==> ValidBound(Included(piece.eq))
  {
    match piece
    case Scope(min, max) => Some(Interval(EncodeEnd(base, min, false), EncodeEnd(base, max, true)))
    case Eq(v) => Some(Interval(Incl(BoundKey(base, v.v, false)), Incl(BoundKey(base, v.v, true))))
    case _ => None
  }

  /** What the store iterator returns: an exclusive start is a start one zero byte later. */
  predicate Reads(i: Interval, key: Bytes) {
    && LexLe(if i.lower.Incl? then i.lower.key else i.lower.key + [0], key)
    && if i.upper.Incl? then LexLe(key, i.upper.key) else LexLt(key, i.upper.key)
  }

  /** Appending a zero byte to the start excludes exactly the start. */
  lemma {:induction false} ExclusiveStart(l: Bytes, k: Bytes)
    ensures LexLe(l + [0], k) <==> LexLt(l, k)
  {
    if l == [] {
      assert l + [0] == [0] && [0][1..] == [];
      if k != [] && k[0] == 0 {
        assert k == [0] + k[1..];
        assert k[1..] == [] || LexLt([], k[1..]);
        assert k == [0] || LexLt([0], k);
      }
    } else if k != [] {
      assert (l + [0])[1..] == l[1..] + [0] && (l + [0])[0] == l[0];
      ExclusiveStart(l[1..], k[1..]);
      assert l + [0] == [l[0]] + (l[1..] + [0]) && k == [k[0]] + k[1..];
    }
  }

  /** An index entry: the indexed values, then the id of the row. */
  function EntryKey(base: Bytes, q: seq<Cell>, rowId: Bytes): Bytes
    requires ValidTuple(q)
  {
    EncodeTuple(base + [MIN_TAG], q, false) + rowId
  }

  // ---------------------------------------------------------------- one bound

  lemma EntryForm(base: Bytes, q: seq<Cell>, rowId: Bytes)
    requires Plain(q)
    ensures EntryKey(base, q, rowId) == base + [MIN_TAG] + TupleKey(q, false) + rowId
  {
    PlainAppends(base + [MIN_TAG], q, false);
  }

  lemma KeysPart(base: Bytes, x: Bytes, y: Bytes, s: Bytes, t: Bytes)
    requires Below(x, y)
    ensures LexLt(base + x + s, base + y + t)
    ensures base + x + s != base + y + t && !LexLt(base + y + t, base + x + s)
  {
    BelowWithin(base, x, y, s, t);
    BelowGivesLt(base + x + s, base + y + t);
    LtTotal(base + x + s, base + y + t);
  }

  lemma Regroup(a: Bytes, b: Bytes, c: Bytes, d: Bytes)
    ensures a + (b + c) + d == a + b + (c + d)
  {
  }

  lemma KeyNotEmpty(q: seq<Cell>)
    requires Plain(q) && q != []
    ensures TupleKey(q, false) != []
  {
    assert Keys(q) != [];
  }

  lemma ExtendedKey(base: Bytes, p: seq<Cell>, q: seq<Cell>, rowId: Bytes)
    requires Plain(p) && Plain(q) && |p| <= |q| && SameAll(q[..|p|], p)
    ensures EntryKey(base, q, rowId) == base + [MIN_TAG] + TupleKey(p, false) + (TupleKey(q[|p|..], false) + rowId)
  {
    EntryForm(base, q, rowId);
    LowerPrefix(p, q);
    Regroup(base + [MIN_TAG], TupleKey(p, false), TupleKey(q[|p|..], false), rowId);
  }

  /** A lower bound lets through exactly the entries that are not smaller in its components. */
  lemma LowerBoundExact(base: Bytes, p: seq<Cell>, q: seq<Cell>, rowId: Bytes)
    requires Plain(p) && Plain(q) && |p| <= |q| && SameTypes(p, q[..|p|])
    requires |p| < |q| || rowId != []
    ensures LexLt(base + [MIN_TAG] + TupleKey(p, false), EntryKey(base, q, rowId)) <==> !TupleLess(q, p)
    ensures base + [MIN_TAG] + TupleKey(p, false) != EntryKey(base, q, rowId)
  {
    var b, k := base + [MIN_TAG] + TupleKey(p, false), EntryKey(base, q, rowId);
    CompareWithPrefix(p, q);
    if SameAll(q[..|p|], p) {
      ExtendedKey(base, p, q, rowId);
      if |p| < |q| { KeyNotEmpty(q[|p|..]); }
      PrefixLt(b, TupleKey(q[|p|..], false) + rowId);
      LtTotal(b, k);
    } else {
      EntryForm(base, q, rowId);
      assert b + [] == b;
      if TupleLess(q, p) {
        TupleKeyOrder(q, p, false, false);
        KeysPart(base + [MIN_TAG], TupleKey(q, false), TupleKey(p, false), rowId, []);
      } else {
        TupleKeyOrder(p, q, false, false);
        KeysPart(base + [MIN_TAG], TupleKey(p, false), TupleKey(q, false), [], rowId);
      }
    }
  }

  /** Exactly one of: same in the components of `p`, smaller, larger. */
  lemma CompareWithPrefix(p: seq<Cell>, q: seq<Cell>)
    requires Plain(p) && Plain(q) && |p| <= |q| && SameTypes(p, q[..|p|])
    ensures SameAll(q[..|p|], p) || TupleLess(q, p) || TupleLess(p, q)
    ensures !(TupleLess(q, p) && TupleLess(p, q))
    ensures SameAll(q[..|p|], p) ==> !TupleLess(q, p) && !TupleLess(p, q)
  {
    var q' := q[..|p|];
    assert forall i :: 0 <= i < |p| ==> q'[i] == q[i];
    TupleTrichotomy(q', p);
    if TupleLess(q', p) { var i :| LessAt(q', p, i); assert LessAt(q, p, i); }
    if TupleLess(p, q') { var i :| LessAt(p, q', i); assert LessAt(p, q, i); }
    if TupleLess(q, p) && TupleLess(p, q) {
      TupleKeyOrder(q, p, false, false);
      TupleKeyOrder(p, q, false, false);
      BelowNotEqual(TupleKey(p, false), TupleKey(q, false));
    }
    if SameAll(q', p) {
      forall i ensures !LessAt(q, p, i) && !LessAt(p, q, i) {
        if 0 <= i < |p| { assert Same(q'[i].v, p[i].v); }
      }
    }
  }

  /** An upper bound lets through exactly the entries that are not larger in its components. */
  lemma UpperBoundExact(base: Bytes, p: seq<Cell>, q: seq<Cell>, rowId: Bytes, ext: Bytes)
    requires Plain(p) && Plain(q) && 0 < |p| <= |q| && SameTypes(p, q[..|p|])
    ensures LexLt(EntryKey(base, q, rowId), base + [MIN_TAG] + TupleKey(p, true) + ext) <==> !TupleLess(p, q)
    ensures EntryKey(base, q, rowId) != base + [MIN_TAG] + TupleKey(p, true) + ext
  {
    EntryForm(base, q, rowId);
    CompareWithPrefix(p, q);
    if TupleLess(p, q) {
      TupleKeyOrder(p, q, true, false);
      KeysPart(base + [MIN_TAG], TupleKey(p, true), TupleKey(q, false), ext, rowId);
    } else {
      if SameAll(q[..|p|], p) { UpperAbove(p, q); } else { TupleKeyOrder(q, p, false, true); }
      KeysPart(base + [MIN_TAG], TupleKey(q, false), TupleKey(p, true), rowId, ext);
    }
  }

  // ---------------------------------------------------------------- one range

  predicate Fits(b: Bound<Scalar>, like: Scalar) {
    b.Unbounded? || (b.value.Val? && b.value.v.Valid() && !b.value.v.Utf8? && SameType(b.value.v, like))
  }

  /** The components a bound is made of. */
  function Components(c: seq<Cell>, b: Bound<Scalar>): seq<Cell> {
    if b.Unbounded? then c else c + [b.value]
  }

  predicate AtLeast(min: Bound<Scalar>, x: Scalar) { min.Unbounded? || (min.value.Val? && ScalarLe(min.value.v, x)) }

  predicate AtMost(max: Bound<Scalar>, x: Scalar) { max.Unbounded? || (max.value.Val? && ScalarLe(x, max.value.v)) }

  lemma ComponentsFit(c: seq<Cell>, b: Bound<Scalar>, q: seq<Cell>)
    requires Plain(c) && Plain(q) && |c| < |q| && SameTypes(c, q[..|c|]) && Fits(b, q[|c|].v)
    ensures var p := Components(c, b); Plain(p) && |p| <= |q| && SameTypes(p, q[..|p|])
    ensures ValidBound(MergeBound(c, false, b)) && ValidBound(MergeBound(c, true, b))
  {
    var p := Components(c, b);
    forall i | 0 <= i < |p| ensures SameType(p[i].v, q[i].v) {
      if i < |c| { assert SameType(c[i].v, q[..|c|][i].v); }
    }
  }

  lemma LowerEndExact(base: Bytes, c: seq<Cell>, min: Bound<Scalar>, q: seq<Cell>, rowId: Bytes)
    requires Plain(c) && Plain(q) && |c| < |q| && SameTypes(c, q[..|c|]) && Fits(min, q[|c|].v) && rowId != []
    ensures Plain(Components(c, min)) && ValidBound(MergeBound(c, false, min))
    ensures var e := EncodeEnd(base, MergeBound(c, false, min), false);
            LexLe(if e.Incl? then e.key else e.key + [0], EntryKey(base, q, rowId)) <==> !TupleLess(q, Components(c, min))
  {
    ComponentsFit(c, min, q);
    var p, k := Components(c, min), EntryKey(base, q, rowId);
    var e := EncodeEnd(base, MergeBound(c, false, min), false);
    LowerBoundExact(base, p, q, rowId);
    PlainAppends(base + [MIN_TAG], p, false);
    assert TupleKey([], false) == [];
    assert e.key == base + [MIN_TAG] + TupleKey(p, false);
    ExclusiveStart(e.key, k);
  }

  /** Every entry lies below the end of its index. */
  lemma EntryBelowAll(base: Bytes, q: seq<Cell>, rowId: Bytes)
    requires Plain(q)
    ensures LexLt(EntryKey(base, q, rowId), base + [MAX_TAG])
  {
    EntryForm(base, q, rowId);
    BelowAt([MIN_TAG], [MAX_TAG], 0);
    KeysPart(base, [MIN_TAG], [MAX_TAG], TupleKey(q, false) + rowId, []);
    assert base + [MIN_TAG] + (TupleKey(q, false) + rowId) == EntryKey(base, q, rowId);
    assert base + [MAX_TAG] + [] == base + [MAX_TAG];
  }

  lemma UpperEndExact(base: Bytes, c: seq<Cell>, max: Bound<Scalar>, q: seq<Cell>, rowId: Bytes)
    requires Plain(c) && Plain(q) && |c| < |q| && SameTypes(c, q[..|c|]) && Fits(max, q[|c|].v)
    ensures Plain(Components(c, max)) && ValidBound(MergeBound(c, true, max))
    ensures var e, k := EncodeEnd(base, MergeBound(c, true, max), true), EntryKey(base, q, rowId);
            (if e.Incl? then LexLe(k, e.key) else LexLt(k, e.key)) <==> !TupleLess(Components(c, max), q)
  {
    ComponentsFit(c, max, q);
    var p := Components(c, max);
    if p == [] {
      EntryBelowAll(base, q, rowId);
    } else {
      UpperBoundExact(base, p, q, rowId, [MAX_TAG]);
      PlainAppends(base + [MIN_TAG], p, true);
    }
  }

  lemma LessWithMore(c: seq<Cell>, q: seq<Cell>, p: seq<Cell>)
    requires Plain(c) && Plain(q) && Plain(p) && c <= p
    ensures TupleLess(q, c) ==> TupleLess(q, p)
    ensures TupleLess(c, q) ==> TupleLess(p, q)
  {
    if TupleLess(q, c) { var i :| LessAt(q, c, i); assert LessAt(q, p, i); }
    if TupleLess(c, q) { var i :| LessAt(c, q, i); assert LessAt(p, q, i); }
  }

  lemma LessAfterSame(p: seq<Cell>, q: seq<Cell>)
    requires Plain(p) && Plain(q) && 0 < |p| <= |q| && SameType(p[|p| - 1].v, q[|p| - 1].v)
    requires forall i :: 0 <= i < |p| - 1 ==> Same(p[i].v, q[i].v)
    ensures TupleLess(q, p) <==> !ScalarLe(p[|p| - 1].v, q[|p| - 1].v)
    ensures TupleLess(p, q) <==> !ScalarLe(q[|p| - 1].v, p[|p| - 1].v)
  {
    var n := |p| - 1;
    if !ScalarLe(p[n].v, q[n].v) { assert LessAt(q, p, n); }
    if !ScalarLe(q[n].v, p[n].v) { assert LessAt(p, q, n); }
    forall i ensures LessAt(q, p, i) ==> i == n {
      if 0 <= i < n { assert Same(p[i].v, q[i].v); }
    }
    forall i ensures LessAt(p, q, i) ==> i == n {
      if 0 <= i < n { assert Same(p[i].v, q[i].v); }
    }
  }

  /** How an entry compares with one end of a scope under a prefix. */
  lemma AgainstEnd(c: seq<Cell>, b: Bound<Scalar>, q: seq<Cell>)
    requires Plain(c) && Plain(q) && |c| < |q| && SameTypes(c, q[..|c|]) && Fits(b, q[|c|].v) && Plain(Components(c, b))
    ensures TupleLess(q, c) ==> TupleLess(q, Components(c, b))
    ensures TupleLess(c, q) ==> TupleLess(Components(c, b), q)
    ensures SameAll(q[..|c|], c) ==> (TupleLess(q, Components(c, b)) <==> !AtLeast(b, q[|c|].v))
    ensures SameAll(q[..|c|], c) ==> (TupleLess(Components(c, b), q) <==> !AtMost(b, q[|c|].v))
  {
    var p := Components(c, b);
    LessWithMore(c, q, p);
    if SameAll(q[..|c|], c) {
      if b.Unbounded? {
        CompareWithPrefix(c, q);
      } else {
        forall i | 0 <= i < |c| ensures Same(p[i].v, q[i].v) {
          assert Same(q[..|c|][i].v, c[i].v);
        }
        LessAfterSame(p, q);
      }
    }
  }

  lemma BetweenBounds(c: seq<Cell>, min: Bound<Scalar>, max: Bound<Scalar>, q: seq<Cell>)
    requires Plain(c) && Plain(q) && |c| < |q| && SameTypes(c, q[..|c|])
    requires Fits(min, q[|c|].v) && Fits(max, q[|c|].v)
    ensures Plain(Components(c, min)) && Plain(Components(c, max))
    ensures !TupleLess(q, Components(c, min)) && !TupleLess(Components(c, max), q)
       <==> SameAll(q[..|c|], c) && AtLeast(min, q[|c|].v) && AtMost(max, q[|c|].v)
  {
    ComponentsFit(c, min, q);
    ComponentsFit(c, max, q);
    AgainstEnd(c, min, q);
    AgainstEnd(c, max, q);
    CompareWithPrefix(c, q);
  }

  /** A scope under an equality prefix reads exactly the entries with that prefix whose next
      component lies within the scope, both ends taken as closed. */
  lemma ScopeScanExact(base: Bytes, c: seq<Cell>, min: Bound<Scalar>, max: Bound<Scalar>, q: seq<Cell>, rowId: Bytes)
    requires Plain(c) && Plain(q) && |c| < |q| && SameTypes(c, q[..|c|]) && rowId != []
    requires Fits(min, q[|c|].v) && Fits(max, q[|c|].v)
    ensures var piece := CollectTuple(c, Scope(min, max))[0];
            && ValidBound(piece.min) && ValidBound(piece.max)
            && (Reads(ScanInterval(base, piece).value, EntryKey(base, q, rowId))
                <==> SameAll(q[..|c|], c) && AtLeast(min, q[|c|].v) && AtMost(max, q[|c|].v))
  {
    LowerEndExact(base, c, min, q, rowId);
    UpperEndExact(base, c, max, q, rowId);
    BetweenBounds(c, min, max, q);
  }

  /** An equality under an equality prefix reads exactly the matching entries whose remaining bytes
      are not above a single 0xFF: an entry whose next byte is 0xFF is missed unless it is the last. */
  lemma EqScanExact(base: Bytes, c: seq<Cell>, v: Cell, q: seq<Cell>, rowId: Bytes)
    requires Plain(c) && Plain(q) && |c| < |q| && SameTypes(c, q[..|c|]) && rowId != []
    requires Fits(Included(v), q[|c|].v)
    ensures var p := c + [v];
            && CollectTuple(c, Eq(v)) == [Eq(Val(Tuple(p, false)))] && Plain(p) && ValidTuple(p)
            && (Reads(ScanInterval(base, Eq(Val(Tuple(p, false)))).value, EntryKey(base, q, rowId))
                <==> SameAll(q[..|p|], p) && LexLe(TupleKey(q[|p|..], false) + rowId, [MAX_TAG]))
  {
    ComponentsFit(c, Included(v), q);
    EqInterval(base, c + [v]);
    EqKeysExact(base, c + [v], q, rowId);
  }

  lemma EqInterval(base: Bytes, p: seq<Cell>)
    requires Plain(p)
    ensures ValidTuple(p)
    ensures var b := base + [MIN_TAG] + TupleKey(p, false);
            ScanInterval(base, Eq(Val(Tuple(p, false)))) == Some(Interval(Incl(b), Incl(b + [MAX_TAG])))
  {
    PlainAppends(base + [MIN_TAG], p, false);
    var k := EncodeTuple(base + [MIN_TAG], p, false);
    assert k + [] == k;
  }

  lemma EqKeysExact(base: Bytes, p: seq<Cell>, q: seq<Cell>, rowId: Bytes)
    requires Plain(p) && Plain(q) && |p| <= |q| && SameTypes(p, q[..|p|]) && rowId != []
    ensures var b, k := base + [MIN_TAG] + TupleKey(p, false), EntryKey(base, q, rowId);
            LexLe(b, k) && LexLe(k, b + [MAX_TAG])
            <==> SameAll(q[..|p|], p) && LexLe(TupleKey(q[|p|..], false) + rowId, [MAX_TAG])
  {
    LowerBoundExact(base, p, q, rowId);
    CompareWithPrefix(p, q);
    if SameAll(q[..|p|], p) {
      ExtendedKey(base, p, q, rowId);
      CommonPrefixOrder(base + [MIN_TAG] + TupleKey(p, false), TupleKey(q[|p|..], false) + rowId, [MAX_TAG]);
    } else if TupleLess(p, q) {
      EntryForm(base, q, rowId);
      TupleKeyOrder(p, q, false, false);
      KeysPart(base + [MIN_TAG], TupleKey(p, false), TupleKey(q, false), [MAX_TAG], rowId);
    }
  }

  lemma {:induction false} CommonPrefixOrder(p: Bytes, a: Bytes, b: Bytes)
    ensures LexLe(p + a, p + b) <==> LexLe(a, b)
  {
    if p == [] {
      assert p + a == a && p + b == b;
    } else {
      assert (p + a)[1..] == p[1..] + a && (p + b)[1..] == p[1..] + b;
      CommonPrefixOrder(p[1..], a, b);
      assert p + a == [p[0]] + (p[1..] + a) && p + b == [p[0]] + (p[1..] + b);
    }
  }

  // ---------------------------------------------------------------- the whole scan

  function Elements(r: Range<Scalar>): seq<Range<Scalar>> {
    if r.SortedRanges? then r.ranges else [r]
  }

  /** A trailing range on a column whose values are like `like`; its list has no lists inside. */
  predicate FitsElement(r: Range<Scalar>, like: Scalar) {
    match r
    case Scope(min, max) => Fits(min, like) && Fits(max, like)
    case Eq(v) => Fits(Included(v), like)
    case Dummy => true
    case SortedRanges(_) => false
  }

  predicate FitsRange(r: Range<Scalar>, like: Scalar) {
    forall i :: 0 <= i < |Elements(r)| ==> FitsElement(Elements(r)[i], like)
  }

  predicate HasEq(r: Range<Scalar>) { exists i :: 0 <= i < |Elements(r)| && Elements(r)[i].Eq? }

  predicate ReadBy(base: Bytes, piece: Range<Tuple>, key: Bytes) {
    || (piece.Scope? && ValidBound(piece.min) && ValidBound(piece.max) && Reads(ScanInterval(base, piece).value, key))
    || (piece.Eq? && ValidBound(Included(piece.eq)) && Reads(ScanInterval(base, piece).value, key))
  }

  /** Some interval of the scan reads the key. */
  ghost predicate ReadBySome(base: Bytes, r: Range<Tuple>, key: Bytes) {
    exists piece :: piece in Pieces(r) && ReadBy(base, piece, key)
  }

  lemma ScopeReads(base: Bytes, c: seq<Cell>, e: Range<Scalar>, q: seq<Cell>, rowId: Bytes)
    requires Plain(c) && Plain(q) && |c| < |q| && SameTypes(c, q[..|c|]) && rowId != [] && SameAll(q[..|c|], c)
    requires e.Scope? && Fits(e.min, q[|c|].v) && Fits(e.max, q[|c|].v) && In(ScalarLe, e, q[|c|].v)
    ensures |CollectTuple(c, e)| == 1 && ReadBy(base, CollectTuple(c, e)[0], EntryKey(base, q, rowId))
  {
    StrictIsClosed(e.min, e.max, q[|c|].v);
    ScopeScanExact(base, c, e.min, e.max, q, rowId);
  }

  lemma SameWithOne(c: seq<Cell>, v: Cell, q: seq<Cell>)
    requires Plain(c) && Plain(q) && |c| < |q| && SameAll(q[..|c|], c) && Plain(c + [v]) && v.Val? && Same(q[|c|].v, v.v)
    ensures SameAll(q[..|c + [v]|], c + [v])
  {
    var p := c + [v];
    forall i | 0 <= i < |p| ensures Same(q[..|p|][i].v, p[i].v) {
      if i < |c| { assert Same(q[..|c|][i].v, c[i].v); }
    }
  }

  lemma EqReads(base: Bytes, c: seq<Cell>, v: Cell, q: seq<Cell>, rowId: Bytes)
    requires Plain(c) && Plain(q) && |c| < |q| && SameTypes(c, q[..|c|]) && rowId != [] && SameAll(q[..|c|], c)
    requires Fits(Included(v), q[|c|].v) && Same(q[|c|].v, v.v)
    requires LexLe(TupleKey(q[|c| + 1..], false) + rowId, [MAX_TAG])
    ensures |CollectTuple(c, Eq(v))| == 1 && ReadBy(base, CollectTuple(c, Eq(v))[0], EntryKey(base, q, rowId))
  {
    EqScanExact(base, c, v, q, rowId);
    SameWithOne(c, v, q);
  }

  /** An entry with the prefix whose next component lies in a trailing element is read by its piece. */
  lemma ElementReads(base: Bytes, c: seq<Cell>, e: Range<Scalar>, q: seq<Cell>, rowId: Bytes)
    requires Plain(c) && Plain(q) && |c| < |q| && SameTypes(c, q[..|c|]) && rowId != [] && SameAll(q[..|c|], c)
    requires e.Simple() && FitsRange(e, q[|c|].v) && In(ScalarLe, e, q[|c|].v)
    requires e.Eq? ==> LexLe(TupleKey(q[|c| + 1..], false) + rowId, [MAX_TAG])
    ensures |CollectTuple(c, e)| == 1 && ReadBy(base, CollectTuple(c, e)[0], EntryKey(base, q, rowId))
  {
    assert Elements(e)[0] == e;
    if e.Scope? {
      ScopeReads(base, c, e, q, rowId);
    } else {
      EqReads(base, c, e.eq, q, rowId);
    }
  }

  lemma StrictIsClosed(min: Bound<Scalar>, max: Bound<Scalar>, x: Scalar)
    requires Fits(min, x) && Fits(max, x) && x.Valid() && In(ScalarLe, Scope(min, max), x)
    ensures AtLeast(min, x) && AtMost(max, x)
  {
    if min.Excluded? { ScalarTotal(min.value.v, x); }
    if max.Excluded? { ScalarTotal(x, max.value.v); }
  }

  lemma {:induction false} CollectListMember(c: seq<Cell>, rs: seq<Range<Scalar>>, j: nat)
    requires j < |rs|
    ensures forall piece :: piece in CollectTuple(c, rs[j]) ==> piece in CollectList(c, rs)
    decreases j
  {
    if j > 0 {
      CollectListMember(c, rs[1..], j - 1);
      assert rs[1..][j - 1] == rs[j];
    }
  }

  lemma {:induction false} CollectAllMember(tuples: seq<seq<Cell>>, range: Range<Scalar>, c: seq<Cell>)
    requires c in tuples
    ensures forall piece :: piece in CollectTuple(c, range) ==> piece in CollectAll(tuples, range)
    decreases |tuples|
  {
    if tuples[0] != c {
      CollectAllMember(tuples[1..], range, c);
    }
  }

  lemma {:induction false} CollectNoLists(c: seq<Cell>, range: Range<Scalar>)
    ensures forall piece :: piece in CollectTuple(c, range) ==> !piece.SortedRanges?
    decreases range, 1
  {
    if range.SortedRanges? { CollectListNoLists(c, range.ranges); }
  }

  lemma {:induction false} CollectListNoLists(c: seq<Cell>, rs: seq<Range<Scalar>>)
    ensures forall piece :: piece in CollectList(c, rs) ==> !piece.SortedRanges?
    decreases rs, 0
  {
    if rs != [] {
      CollectNoLists(c, rs[0]);
      CollectListNoLists(c, rs[1..]);
    }
  }

  lemma {:induction false} CollectAllNoLists(tuples: seq<seq<Cell>>, range: Range<Scalar>)
    ensures forall piece :: piece in CollectAll(tuples, range) ==> !piece.SortedRanges?
  {
    if tuples != [] {
      CollectNoLists(tuples[0], range);
      CollectAllNoLists(tuples[1..], range);
    }
  }

  /** Completeness of a composite scan: every entry that agrees with one combination of the
      equality levels and whose next component lies in the trailing range is read by some interval
      of the scan. Only when the trailing range contains an equality must the rest of the entry
      not start with 0xFF (see `EqScanExact`). */
  lemma CompositeScanComplete(base: Bytes, eqs: seq<Range<Scalar>>, trailing: Range<Scalar>, c: seq<Cell>,
                              q: seq<Cell>, rowId: Bytes)
    requires EqLevels(eqs) && Picks(Levels(eqs), c)
    requires Plain(c) && Plain(q) && |c| < |q| && SameTypes(c, q[..|c|]) && rowId != [] && SameAll(q[..|c|], c)
    requires FitsRange(trailing, q[|c|].v) && In(ScalarLe, trailing, q[|c|].v)
    requires HasEq(trailing) ==> LexLe(TupleKey(q[|c| + 1..], false) + rowId, [MAX_TAG])
    ensures CombiningEqs(trailing, eqs).Some?
    ensures ReadBySome(base, CombiningEqs(trailing, eqs).value, EntryKey(base, q, rowId))
  {
    CombineIsProduct(eqs);
    ProductMember(Levels(eqs), c);
    var e := MatchingElement(trailing, q[|c|].v);
    ElementReads(base, c, e, q, rowId);
    PieceOf(Product(Levels(eqs)), trailing, c, e);
    CollectAllNoLists(Product(Levels(eqs)), trailing);
    PiecesOf(CollectAll(Product(Levels(eqs)), trailing));
    assert CollectTuple(c, e)[0] in Pieces(CombiningEqs(trailing, eqs).value);
  }

  /** The piece of one element under one combination is among the pieces of all combinations. */
  lemma PieceOf(tuples: seq<seq<Cell>>, trailing: Range<Scalar>, c: seq<Cell>, e: Range<Scalar>)
    requires c in tuples && e in Elements(trailing) && |CollectTuple(c, e)| == 1
    ensures CollectTuple(c, e)[0] in CollectAll(tuples, trailing)
  {
    var piece := CollectTuple(c, e)[0];
    assert piece in CollectTuple(c, e);
    if trailing.SortedRanges? {
      var j :| 0 <= j < |trailing.ranges| && trailing.ranges[j] == e;
      CollectListMember(c, trailing.ranges, j);
    }
    CollectAllMember(tuples, trailing, c);
  }

  lemma PiecesOf(all: seq<Range<Tuple>>)
    requires all != [] && forall piece :: piece in all ==> !piece.SortedRanges?
    ensures Pieces(RangesToRange(all)) == all
  {
    if |all| == 1 { assert all == [all[0]]; }
  }

  lemma MatchingElement(r: Range<Scalar>, x: Scalar) returns (e: Range<Scalar>)
    requires FitsRange(r, x) && In(ScalarLe, r, x)
    ensures e in Elements(r) && e.Simple() && FitsRange(e, x) && In(ScalarLe, e, x) && (e.Eq? ==> HasEq(r))
  {
    if r.SortedRanges? {
      var i :| 0 <= i < |r.ranges| && In(ScalarLe, r.ranges[i], x);
      e := Elements(r)[i];
    } else {
      e := Elements(r)[0];
    }
    assert Elements(e) == [e];
  }

  /** With an equality as the trailing range the scan can miss: the entry for (1, 1) of the row with
      the Int32 key 2147483647 is not read by the scan for the first two columns (1, 1), because
      the row key starts with 0xFF. */
  lemma EqScanMisses(base: Bytes)
    ensures var one, row := Val(Int(4, 1)), Int(4, 2147483647);
            var c, q := [one], [one, one];
            && Plain(q) && row.Valid() && Plain([one, one])
            && !Reads(ScanInterval(base, Eq(Val(Tuple(q, false)))).value, EntryKey(base, q, ScalarKey(row)))
  {
    MaxIntKey();
    PairMissed(base, [255, 255, 255, 255]);
  }

  lemma MaxIntKey()
    ensures Int(4, 2147483647).Valid() && Int(4, 1).Valid() && ScalarKey(Int(4, 2147483647)) == [255, 255, 255, 255]
    ensures !LexLe([255, 255, 255, 255], [MAX_TAG])
  {
    assert Pow256(0) == 1 && Pow256(1) == 256 && Pow256(2) == 65536 && Pow256(3) == 16777216 && Pow256(4) == 4294967296;
    assert SignFlipped(2147483647, 4) == 4294967295;
    assert BigEndian(255, 1) == [255];
    assert BigEndian(65535, 2) == [255, 255];
    assert BigEndian(16777215, 3) == [255, 255, 255];
    var k: Bytes := [255, 255, 255, 255];
    assert k[1..] == [255, 255, 255] && [MAX_TAG][1..] == [];
    LtTotal(k, [MAX_TAG]);
  }

  lemma PairMissed(base: Bytes, k: Bytes)
    requires Int(4, 1).Valid() && k != [] && !LexLe(k, [MAX_TAG])
    ensures var q := [Val(Int(4, 1)), Val(Int(4, 1))];
            Plain(q) && !Reads(ScanInterval(base, Eq(Val(Tuple(q, false)))).value, EntryKey(base, q, k))
  {
    var one := Val(Int(4, 1));
    var c, q := [one], [one, one];
    EqScanExact(base, c, one, q, k);
    assert c + [one] == q && q[2..] == [];
    assert TupleKey([], false) + k == k;
  }
}
