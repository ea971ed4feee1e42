/** The whole path of an index scan: from a WHERE predicate, column by column, to the byte intervals
    that are read, and the rows those intervals find. */
module IndexRange {
  import opened Common
  import opened KeyBytes
  import opened Ranges
  import opened Predicates
  import opened Narrowing
  import opened Combinations
  import opened TupleKeys
  import opened CompositeScan

  // ---------------------------------------------------------------- one order for all values

  function TypeRank(s: Scalar): nat {
    match s
    case Boolean(_) => 0
    case Dec(_) => 1
    case Utf8(_) => 2
    case Int(w, _) => 3 + 2 * w
    case UInt(w, _) => 4 + 2 * w
  }

  /** `ScalarLe` within a type; types are kept apart. */
  predicate TotalLe(a: Scalar, b: Scalar) {
    if !b.Valid() then true
    else if !a.Valid() then false
    else if SameType(a, b) then ScalarLe(a, b)
    else TypeRank(a) < TypeRank(b)
  }

  lemma TotalLeTotal(a: Scalar, b: Scalar)
    ensures TotalLe(a, b) || TotalLe(b, a)
  {
    if a.Valid() && b.Valid() && SameType(a, b) { ScalarTotal(a, b); }
  }

  lemma TotalLeTransitive(a: Scalar, b: Scalar, c: Scalar)
    requires TotalLe(a, b) && TotalLe(b, c)
    ensures TotalLe(a, c)
  {
    if a.Utf8? && b.Utf8? && c.Utf8? {
      if LexLt(a.text, b.text) && LexLt(b.text, c.text) { LtTransitive(a.text, b.text, c.text); }
    }
  }

  lemma TotalLeOrders()
    ensures TotalPreorder(TotalLe)
  {
    forall a, b ensures TotalLe(a, b) || TotalLe(b, a) { TotalLeTotal(a, b); }
    forall a, b, c ensures TotalLe(a, b) && TotalLe(b, c) ==> TotalLe(a, c) {
      if TotalLe(a, b) && TotalLe(b, c) { TotalLeTransitive(a, b, c); }
    }
  }

  // ---------------------------------------------------------------- where a range's values come from

  ghost predicate BoundOk<T>(b: Bound<T>, ok: Value<T> -> bool) { b.Unbounded? || ok(b.value) }

  /** All values in a range satisfy `ok`. */
  ghost predicate RangeOk<T>(r: Range<T>, ok: Value<T> -> bool) {
    match r
    case Scope(min, max) => BoundOk(min, ok) && BoundOk(max, ok)
    case Eq(v) => ok(v)
    case Dummy => true
    case SortedRanges(rs) => forall i :: 0 <= i < |rs| ==> RangeOk(rs[i], ok)
  }

  lemma MergeSimpleOk<T(!new)>(le: (T, T) -> bool, op: BinaryOp, l: Range<T>, r: Range<T>, ok: Value<T> -> bool)
    requires l.Simple() && r.Simple() && RangeOk(l, ok) && RangeOk(r, ok)
    ensures var m := MergeSimple(le, op, l, r); m.Some? ==> RangeOk(m.value, ok)
  {
  }

  lemma ListOk<T(!new)>(rs: seq<Range<T>>, idx: nat, c: Range<T>, ok: Value<T> -> bool)
    requires RangeOk(SortedRanges(rs), ok)
    ensures idx < |rs| ==> RangeOk(rs[idx], ok) && RangeOk(SortedRanges(RemoveAt(rs, idx)), ok)
    ensures RangeOk(c, ok) ==> RangeOk(SortedRanges(rs + [c]), ok) && (idx <= |rs| ==> RangeOk(SortedRanges(InsertAt(rs, idx, c)), ok))
  {
  }

  lemma {:induction false} ExtractOk<T(!new)>(depth: nat, le: (T, T) -> bool, op: BinaryOp, c: Option<Range<T>>, rs: seq<Range<T>>,
                                              idx: nat, ok: Value<T> -> bool)
    requires (c.Some? ==> RangeOk(c.value, ok)) && RangeOk(SortedRanges(rs), ok)
    ensures var m := Extract(depth, le, op, c, rs, idx); m.Merged? ==> RangeOk(SortedRanges(m.ranges), ok)
    decreases depth, if idx < |rs| then |rs| - idx else 0
  {
    if c.Some? { ListOk(rs, idx, c.value, ok); }
    if c.Some? && idx < |rs| {
      var entry, rs' := rs[idx], RemoveAt(rs, idx);
      if c.value.Dummy? {
        if op.Or? { ExtractOk(depth, le, op, Some(entry), rs', idx, ok); }
      } else if c.value.SortedRanges? {
        if depth > 0 { ExtractOk(depth - 1, le, op, Some(entry), c.value.ranges, 0, ok); }
      } else if entry.Simple() {
        match Decide(le, op, c.value, entry)
        case InsertHere =>
        case SkipEntry => ExtractOk(depth, le, op, c, rs, idx + 1, ok);
        case MergeEntry =>
          MergeSimpleOk(le, op, c.value, entry, ok);
          ExtractOk(depth, le, op, MergeSimple(le, op, c.value, entry), rs', idx, ok);
        case DiscardEntry => ExtractOk(depth, le, op, c, rs', idx, ok);
        case TakeEntry => ExtractOk(depth, le, op, Some(entry), rs', idx, ok);
      }
    }
  }

  lemma {:induction false} MergeListsOk<T(!new)>(depth: nat, le: (T, T) -> bool, op: BinaryOp, l: seq<Range<T>>, r: seq<Range<T>>,
                                                 idx: nat, ok: Value<T> -> bool)
    requires RangeOk(SortedRanges(l), ok) && RangeOk(SortedRanges(r), ok)
    ensures var m := MergeLists(depth, le, op, l, r, idx); m.Merged? ==> RangeOk(SortedRanges(m.ranges), ok)
    decreases |l|
  {
    if l != [] {
      ExtractOk(depth, le, op, Some(l[0]), r, idx, ok);
      var m := Extract(depth, le, op, Some(l[0]), r, idx);
      if m.Merged? { MergeListsOk(depth, le, op, l[1..], m.ranges, m.idx, ok); }
    }
  }

  lemma MergeBinaryOk<T(!new)>(depth: nat, le: (T, T) -> bool, op: BinaryOp, l: Range<T>, r: Range<T>, ok: Value<T> -> bool)
    requires RangeOk(l, ok) && RangeOk(r, ok)
    ensures var m := MergeBinary(depth, le, op, l, r); m.Done? && m.range.Some? ==> RangeOk(m.range.value, ok)
  {
    if !l.Dummy? && !r.Dummy? {
      if l.Simple() && r.Simple() {
        MergeSimpleOk(le, op, l, r, ok);
      } else if l.Simple() {
        ExtractOk(depth, le, op, Some(l), r.ranges, 0, ok);
      } else if r.Simple() {
        ExtractOk(depth, le, op, Some(r), l.ranges, 0, ok);
      } else {
        MergeListsOk(depth, le, op, l.ranges, r.ranges, 0, ok);
      }
    }
  }

  /** Every constant compared with the target column satisfies `ok`. */
  ghost predicate ConstantsOk<T>(target: Column, e: Expr<T>, ok: Value<T> -> bool) {
    match e
    case Not(inner) => ConstantsOk(target, inner, ok)
    case Binary(op, l, r) =>
      && ConstantsOk(target, l, ok) && ConstantsOk(target, r, ok)
      && (UnpackCol(l) == Some(target) && UnpackVal(r).Some? ==> ok(UnpackVal(r).value))
      && (UnpackCol(r) == Some(target) && UnpackVal(l).Some? ==> ok(UnpackVal(l).value))
    case _ => true
  }

  /** A detached range holds only constants the predicate compares with its column. */
  lemma {:induction false} DetachOk<T(!new)>(depth: nat, le: (T, T) -> bool, target: Column, e: Expr<T>, ok: Value<T> -> bool)
    requires ConstantsOk(target, e, ok)
    ensures var out := Detach(depth, le, target, e); out.Done? && out.range.Some? ==> RangeOk(out.range.value, ok)
  {
    match e
    case Not(inner) => DetachOk(depth, le, target, inner, ok);
    case Binary(op, l, r) =>
      DetachOk(depth, le, target, l, ok);
      DetachOk(depth, le, target, r, ok);
      var a, b := Detach(depth, le, target, l), Detach(depth, le, target, r);
      if a.Done? && b.Done? && a.range.Some? && b.range.Some? {
        MergeBinaryOk(depth, le, op, a.range.value, b.range.value, ok);
      }
    case _ =>
  }

  // ---------------------------------------------------------------- composite_range

  predicate OnlyEq<T>(r: Range<T>) {
    match r
    case Eq(_) => true
    case SortedRanges(rs) => forall i :: 0 <= i < |rs| ==> OnlyEq(rs[i])
    case _ => false
  }

  /** Leading columns held to equalities, then possibly one more range. */
  datatype Leading = Leading(eqs: seq<Range<Scalar>>, trailing: Option<Range<Scalar>>, applied: nat) | LeadingOverflow

  function LeadingColumns(depth: nat, e: Expr<Scalar>, cols: seq<Column>, eqs: seq<Range<Scalar>>): Leading {
    if cols == [] then Leading(eqs, None, |eqs|)
    else
      match Detach(depth, TotalLe, cols[0], e)
      case StackOverflow => LeadingOverflow
      case Done(None) => Leading(eqs, None, |eqs|)
      case Done(Some(r)) =>
        if OnlyEq(r) then LeadingColumns(depth, e, cols[1..], eqs + [r])
        else Leading(eqs, Some(r), |eqs| + 1)
  }

  /** An equality on a proper prefix of the columns becomes the scope of everything under it. */
  function EqToScope(r: Range<Tuple>): Range<Tuple> {
    match r
    case Eq(Val(Tuple(values, _))) => Scope(Excluded(Val(Tuple(values, false))), Excluded(Val(Tuple(values, true))))
    case SortedRanges(rs) => SortedRanges(seq(|rs|, i requires 0 <= i < |rs| => EqToScope(rs[i])))
    case _ => r
  }

  function FromLeading(l: Leading, columns: nat): Option<Range<Tuple>>
    requires l.Leading?
  {
    var first := if l.trailing.Some? then CombiningEqs(l.trailing.value, l.eqs) else None;
    var res := if first.None? && l.eqs != [] then CombiningEqs(l.eqs[|l.eqs| - 1], l.eqs[..|l.eqs| - 1]) else first;
    if res.Some? && OnlyEq(res.value) && l.applied != columns then Some(EqToScope(res.value)) else res
  }

  function CompositeRange(depth: nat, e: Expr<Scalar>, cols: seq<Column>): Option<Range<Tuple>> {
    var l := LeadingColumns(depth, e, cols, []);
    if l.LeadingOverflow? then None else FromLeading(l, |cols|)
  }

  // ---------------------------------------------------------------- one column

  function Like(s: Scalar): Cell -> bool { v => Fits(Included(v), s) }

  /** A range without lists inside its list, and no empty list. */
  predicate Flat(r: Range<Scalar>) {
    Elements(r) != [] && forall i :: 0 <= i < |Elements(r)| ==> !Elements(r)[i].SortedRanges?
  }

  /** What is known of a column's range for an accepted row. */
  ghost predicate Catches(r: Range<Scalar>, x: Scalar) {
    Flat(r) && FitsRange(r, x) && In(ScalarLe, r, x)
  }

  /** Conjunctions and mixed trees, each narrowed by any number of conjunctions; or OR trees with lower ends. */
  predicate Supported(target: Column, e: Expr<Scalar>) { Narrowed(target, e) || Floored(target, e) }

  /** `(c1 = a OR c1 = b) AND c2 > k`, whose OR binds one column only. */
  lemma SplitColumnsSupported(c1: Column, c2: Column, a: Scalar, b: Scalar, k: Scalar)
    requires c1 != c2
    ensures var or := Binary(Or, Binary(EqOp, ColumnRef(c1), Constant(Val(a))), Binary(EqOp, ColumnRef(c1), Constant(Val(b))));
            var gt := Binary(Gt, ColumnRef(c2), Constant(Val(k)));
            forall target :: Supported(target, Binary(And, or, gt)) && Supported(target, Binary(And, gt, or))
  {
    var eqA, eqB := Binary(EqOp, ColumnRef(c1), Constant(Val(a))), Binary(EqOp, ColumnRef(c1), Constant(Val(b)));
    var or, gt := Binary(Or, eqA, eqB), Binary(Gt, ColumnRef(c2), Constant(Val(k)));
    forall target: Column ensures Narrowed(target, Binary(And, or, gt)) && Narrowed(target, Binary(And, gt, or)) {
      assert AndTree(eqA) && AndTree(eqB) && Single(target, gt);
      if target == c1 {
        assert ClosedConjunct(target, eqA) && ClosedConjunct(target, eqB);
        assert Mixed(target, eqA) && Mixed(target, eqB) && Mixed(target, or);
      } else {
        assert Quiet(target, eqA) && Quiet(target, eqB);
        QuietIsMixed(target, eqB);
        assert Quiet(target, or);
      }
      assert Narrowed(target, or);
    }
  }

  lemma ColumnCatches(depth: nat, target: Column, e: Expr<Scalar>, row: Column -> Cell, x: Scalar)
    requires Supported(target, e) && ConstantsOk(target, e, Like(x)) && x.Valid()
    requires Eval(TotalLe, row, e).True? && row(target) == Val(x)
    ensures var out := Detach(depth, TotalLe, target, e);
            out.Done? && (out.range.Some? ==> Catches(out.range.value, x))
  {
    TotalLeOrders();
    if Narrowed(target, e) {
      NarrowedRow(depth, TotalLe, target, e, row);
    } else {
      FlooredCovers(depth, TotalLe, target, e);
    }
    DetachOk(depth, TotalLe, target, e, Like(x));
    var out := Detach(depth, TotalLe, target, e);
    if out.range.Some? {
      assert In(TotalLe, out.range.value, x);
      FlatCatches(out.range.value, x);
    }
  }

  lemma FlatCatches(r: Range<Scalar>, x: Scalar)
    requires Flat(r) && RangeOk(r, Like(x)) && In(TotalLe, r, x) && x.Valid()
    ensures Catches(r, x)
  {
    var es := Elements(r);
    forall i | 0 <= i < |es| ensures FitsElement(es[i], x) {
      assert RangeOk(es[i], Like(x));
    }
    if r.SortedRanges? {
      var i :| 0 <= i < |r.ranges| && In(TotalLe, r.ranges[i], x);
      SimpleCatches(es[i], x);
    } else {
      assert es[0] == r;
      SimpleCatches(r, x);
    }
  }

  lemma SimpleCatches(r: Range<Scalar>, x: Scalar)
    requires !r.SortedRanges? && RangeOk(r, Like(x)) && In(TotalLe, r, x) && x.Valid()
    ensures In(ScalarLe, r, x)
  {
  }

  // ---------------------------------------------------------------- the combination a row picks

  predicate Agrees(r: Range<Scalar>, x: Scalar, v: Cell)
    requires EqLevel(r)
  {
    v in Members(r) && v.Val? && v.v.Valid() && !v.v.Utf8? && Same(x, v.v)
  }

  lemma PickMember(r: Range<Scalar>, x: Scalar) returns (v: Cell)
    requires EqLevel(r) && Catches(r, x)
    ensures Agrees(r, x, v)
  {
    var es := Elements(r);
    var i: nat := 0;
    if r.SortedRanges? {
      i :| 0 <= i < |r.ranges| && In(ScalarLe, r.ranges[i], x);
    }
    assert es[i].Eq?;
    v := es[i].eq;
    assert Members(r)[i] == v;
  }

  lemma {:induction false} PickEach(eqs: seq<Range<Scalar>>, q: seq<Cell>) returns (c: seq<Cell>)
    requires EqLevels(eqs) && |eqs| <= |q|
    requires forall i :: 0 <= i < |eqs| ==> q[i].Val? && Catches(eqs[i], q[i].v)
    ensures |c| == |eqs| && forall i :: 0 <= i < |eqs| ==> q[i].Val? && Agrees(eqs[i], q[i].v, c[i])
    decreases |eqs|
  {
    if eqs == [] {
      c := [];
    } else {
      var n := |eqs| - 1;
      var front := PickEach(eqs[..n], q);
      var v := PickMember(eqs[n], q[n].v);
      c := front + [v];
      assert forall i :: 0 <= i < n ==> eqs[..n][i] == eqs[i] && c[i] == front[i];
    }
  }

  lemma PickCombination(eqs: seq<Range<Scalar>>, q: seq<Cell>) returns (c: seq<Cell>)
    requires EqLevels(eqs) && Plain(q) && |eqs| <= |q|
    requires forall i :: 0 <= i < |eqs| ==> Catches(eqs[i], q[i].v)
    ensures Picks(Levels(eqs), c) && Plain(c) && SameAll(q[..|c|], c) && SameTypes(c, q[..|c|])
  {
    c := PickEach(eqs, q);
    forall i | 0 <= i < |c|
      ensures c[i] in Levels(eqs)[i] && c[i].Val? && c[i].v.Valid() && !c[i].v.Utf8? && Same(q[i].v, c[i].v)
    {
      assert Agrees(eqs[i], q[i].v, c[i]);
    }
    assert forall i :: 0 <= i < |c| ==> q[..|c|][i] == q[i];
  }

  lemma OnlyEqIsLevel(r: Range<Scalar>)
    requires Flat(r) && OnlyEq(r)
    ensures EqLevel(r)
  {
    var es := Elements(r);
    assert forall i :: 0 <= i < |es| ==> OnlyEq(es[i]);
  }

  // ---------------------------------------------------------------- the whole path

  /** The row's values in the index columns, each of the type its column is compared with. */
  ghost predicate RowOf(e: Expr<Scalar>, cols: seq<Column>, row: Column -> Cell, q: seq<Cell>) {
    && |q| == |cols| && Plain(q) && Eval(TotalLe, row, e).True?
    && forall i :: 0 <= i < |cols| ==>
                     Supported(cols[i], e) && ConstantsOk(cols[i], e, Like(q[i].v)) && row(cols[i]) == q[i]
  }

  ghost predicate Caught(eqs: seq<Range<Scalar>>, q: seq<Cell>)
    requires Plain(q)
  {
    |eqs| <= |q| && forall i :: 0 <= i < |eqs| ==> EqLevel(eqs[i]) && Catches(eqs[i], q[i].v)
  }

  ghost predicate LeadingCaught(l: Leading, q: seq<Cell>)
    requires Plain(q)
  {
    && l.Leading? && Caught(l.eqs, q) && l.applied == |l.eqs| + (if l.trailing.Some? then 1 else 0)
    && (l.trailing.Some? ==> |l.eqs| < |q| && Catches(l.trailing.value, q[|l.eqs|].v) && !OnlyEq(l.trailing.value))
  }

  lemma {:induction false} LeadingCatches(depth: nat, e: Expr<Scalar>, cols: seq<Column>, row: Column -> Cell, q: seq<Cell>,
                                          eqs: seq<Range<Scalar>>)
    requires RowOf(e, cols, row, q) && Caught(eqs, q)
    ensures LeadingCaught(LeadingColumns(depth, e, cols[|eqs|..], eqs), q)
    decreases |cols| - |eqs|
  {
    var n := |eqs|;
    if n < |cols| {
      assert cols[n..][0] == cols[n] && cols[n..][1..] == cols[n + 1..];
      ColumnCatches(depth, cols[n], e, row, q[n].v);
      var out := Detach(depth, TotalLe, cols[n], e);
      if out.range.Some? && OnlyEq(out.range.value) {
        CaughtMore(eqs, out.range.value, q);
        LeadingCatches(depth, e, cols, row, q, eqs + [out.range.value]);
      }
    }
  }

  lemma CaughtMore(eqs: seq<Range<Scalar>>, r: Range<Scalar>, q: seq<Cell>)
    requires Plain(q) && Caught(eqs, q) && |eqs| < |q| && Catches(r, q[|eqs|].v) && OnlyEq(r)
    ensures Caught(eqs + [r], q)
  {
    OnlyEqIsLevel(r);
  }

  /** A trailing range that is not all equalities leaves a piece that is not one. */
  lemma TrailingNotOnlyEq(eqs: seq<Range<Scalar>>, trailing: Range<Scalar>, c: seq<Cell>)
    requires EqLevels(eqs) && Picks(Levels(eqs), c) && Flat(trailing) && !OnlyEq(trailing)
    ensures CombiningEqs(trailing, eqs).Some? && !OnlyEq(CombiningEqs(trailing, eqs).value)
  {
    CombineIsProduct(eqs);
    ProductMember(Levels(eqs), c);
    var all := CollectAll(Product(Levels(eqs)), trailing);
    var es := Elements(trailing);
    var i :| 0 <= i < |es| && !es[i].Eq?;
    var piece := CollectTuple(c, es[i])[0];
    assert piece in CollectTuple(c, es[i]) && !piece.Eq? && !piece.SortedRanges?;
    if trailing.SortedRanges? { CollectListMember(c, trailing.ranges, i); } else { assert es[i] == trailing; }
    CollectAllMember(Product(Levels(eqs)), trailing, c);
    assert piece in all;
    var j :| 0 <= j < |all| && all[j] == piece;
  }

  /** The equality piece of a combination that picks one member of every level. */
  lemma EqPiece(eqs: seq<Range<Scalar>>, p: seq<Cell>)
    requires EqLevels(eqs) && eqs != [] && Picks(Levels(eqs), p)
    ensures var n := |eqs| - 1;
            var all := CollectAll(Product(Levels(eqs[..n])), eqs[n]);
            Eq(Val(Tuple(p, false))) in all && forall i :: 0 <= i < |all| ==> all[i].Eq? && all[i].eq.Val?
  {
    var n := |eqs| - 1;
    var front, c, v := eqs[..n], p[..n], p[n];
    FrontPicks(eqs, p);
    ProductMember(Levels(front), c);
    MemberElement(eqs[n], v);
    assert c + [v] == p;
    PieceOf(Product(Levels(front)), eqs[n], c, Eq(v));
    CollectAllEq(Product(Levels(front)), eqs[n]);
  }

  lemma FrontPicks(eqs: seq<Range<Scalar>>, p: seq<Cell>)
    requires EqLevels(eqs) && eqs != [] && Picks(Levels(eqs), p)
    ensures var n := |eqs| - 1; EqLevels(eqs[..n]) && Picks(Levels(eqs[..n]), p[..n]) && p[n] in Members(eqs[n])
  {
    var n := |eqs| - 1;
    assert forall i :: 0 <= i < n ==> Levels(eqs[..n])[i] == Levels(eqs)[i];
    assert p[n] in Levels(eqs)[n];
  }

  lemma MemberElement(r: Range<Scalar>, v: Cell)
    requires EqLevel(r) && v in Members(r)
    ensures Eq(v) in Elements(r)
  {
    var j :| 0 <= j < |Members(r)| && Members(r)[j] == v;
    assert Elements(r)[j] == Eq(v);
  }

  lemma {:induction false} CollectListEq(c: seq<Cell>, rs: seq<Range<Scalar>>)
    requires forall i :: 0 <= i < |rs| ==> rs[i].Eq?
    ensures forall piece :: piece in CollectList(c, rs) ==> piece.Eq? && piece.eq.Val?
  {
    if rs != [] { CollectListEq(c, rs[1..]); }
  }

  lemma {:induction false} CollectAllEq(tuples: seq<seq<Cell>>, range: Range<Scalar>)
    requires EqLevel(range)
    ensures var all := CollectAll(tuples, range); forall i :: 0 <= i < |all| ==> all[i].Eq? && all[i].eq.Val?
  {
    if tuples != [] {
      if range.SortedRanges? { CollectListEq(tuples[0], range.ranges); }
      CollectAllEq(tuples[1..], range);
      var head, all := CollectTuple(tuples[0], range), CollectAll(tuples, range);
      forall i | 0 <= i < |all| ensures all[i].Eq? && all[i].eq.Val? {
        if i < |head| { assert all[i] in head; } else { assert all[i] == CollectAll(tuples[1..], range)[i - |head|]; }
      }
    }
  }

  lemma ScopedPiece(all: seq<Range<Tuple>>, piece: Range<Tuple>)
    requires piece in all && forall i :: 0 <= i < |all| ==> all[i].Eq? && all[i].eq.Val?
    ensures OnlyEq(RangesToRange(all)) && EqToScope(piece) in Pieces(EqToScope(RangesToRange(all)))
  {
    var j :| 0 <= j < |all| && all[j] == piece;
    if |all| > 1 {
      assert EqToScope(SortedRanges(all)).ranges[j] == EqToScope(all[j]);
    }
  }

  /** An accepted row all of whose leading columns are held to equalities. */
  lemma EqualitiesRead(base: Bytes, eqs: seq<Range<Scalar>>, q: seq<Cell>, rowId: Bytes)
    requires Plain(q) && Caught(eqs, q) && eqs != [] && rowId != []
    requires |eqs| == |q| ==> LexLe(rowId, [MAX_TAG])
    ensures var res := CombiningEqs(eqs[|eqs| - 1], eqs[..|eqs| - 1]);
            && res.Some? && OnlyEq(res.value)
            && var r := if |eqs| == |q| then res.value else EqToScope(res.value);
            ReadBySome(base, r, EntryKey(base, q, rowId))
  {
    var n := |eqs| - 1;
    var p := PickCombination(eqs, q);
    CombineIsProduct(eqs[..n]);
    EqPiece(eqs, p);
    var all := CollectAll(Product(Levels(eqs[..n])), eqs[n]);
    var piece := Eq(Val(Tuple(p, false)));
    ScopedPiece(all, piece);
    if |eqs| == |q| {
      EqualityReads(base, p, q, rowId);
      assert piece in Pieces(RangesToRange(all));
    } else {
      ScopedEqualityReads(base, p, q, rowId);
    }
  }

  lemma EqualityReads(base: Bytes, p: seq<Cell>, q: seq<Cell>, rowId: Bytes)
    requires Plain(p) && Plain(q) && p != [] && |p| == |q| && SameAll(q[..|p|], p) && SameTypes(p, q[..|p|])
    requires rowId != [] && LexLe(rowId, [MAX_TAG])
    ensures ReadBy(base, Eq(Val(Tuple(p, false))), EntryKey(base, q, rowId))
  {
    EqInterval(base, p);
    EqKeysExact(base, p, q, rowId);
    assert q[|p|..] == [] && TupleKey([], false) + rowId == rowId;
  }

  lemma ScopedEqualityReads(base: Bytes, p: seq<Cell>, q: seq<Cell>, rowId: Bytes)
    requires Plain(p) && Plain(q) && 0 < |p| < |q| && SameAll(q[..|p|], p) && SameTypes(p, q[..|p|]) && rowId != []
    ensures ReadBy(base, EqToScope(Eq(Val(Tuple(p, false)))), EntryKey(base, q, rowId))
  {
    ScopeScanExact(base, p, Unbounded, Unbounded, q, rowId);
    assert CollectTuple(p, Scope(Unbounded, Unbounded))[0] == EqToScope(Eq(Val(Tuple(p, false))));
  }

  /** Only an equality is read up to 0xFF: where the columns after it and the row id start with 0xFF the entry is
      missed (see `CompositeScan.EqScanExact`). */
  predicate RestAllowed(l: Leading, q: seq<Cell>, rowId: Bytes)
    requires Plain(q)
  {
    l.Leading? ==>
      && (l.trailing.Some? && HasEq(l.trailing.value) && |l.eqs| < |q| ==> LexLe(TupleKey(q[|l.eqs| + 1..], false) + rowId, [MAX_TAG]))
      && (l.trailing.None? && |l.eqs| == |q| ==> LexLe(rowId, [MAX_TAG]))
  }

  lemma TrailingRead(base: Bytes, l: Leading, q: seq<Cell>, rowId: Bytes)
    requires Plain(q) && LeadingCaught(l, q) && l.trailing.Some? && rowId != []
    requires RestAllowed(l, q, rowId)
    ensures var r := FromLeading(l, |q|);
            r.Some? && ReadBySome(base, r.value, EntryKey(base, q, rowId))
  {
    var c := PickCombination(l.eqs, q);
    TrailingNotOnlyEq(l.eqs, l.trailing.value, c);
    CompositeScanComplete(base, l.eqs, l.trailing.value, c, q, rowId);
  }

  /** End to end: whenever the optimizer finds a range for a composite index, every row the
      predicate accepts has its index entry inside one of the byte intervals the scan reads. */
  lemma AcceptedRowIsRead(depth: nat, base: Bytes, e: Expr<Scalar>, cols: seq<Column>, row: Column -> Cell, q: seq<Cell>, rowId: Bytes)
    requires RowOf(e, cols, row, q) && rowId != []
    requires RestAllowed(LeadingColumns(depth, e, cols, []), q, rowId)
    ensures var r := CompositeRange(depth, e, cols);
            r.Some? ==> ReadBySome(base, r.value, EntryKey(base, q, rowId))
  {
    assert cols[0..] == cols;
    LeadingCatches(depth, e, cols, row, q, []);
    var l := LeadingColumns(depth, e, cols, []);
    LeadingRead(base, l, q, rowId);
  }

  lemma LeadingRead(base: Bytes, l: Leading, q: seq<Cell>, rowId: Bytes)
    requires Plain(q) && LeadingCaught(l, q) && rowId != [] && RestAllowed(l, q, rowId)
    ensures var r := FromLeading(l, |q|);
            r.Some? ==> ReadBySome(base, r.value, EntryKey(base, q, rowId))
  {
    if l.trailing.Some? {
      TrailingRead(base, l, q, rowId);
    } else if l.eqs != [] {
      LeadingEqualitiesRead(base, l, q, rowId);
    }
  }

  lemma LeadingEqualitiesRead(base: Bytes, l: Leading, q: seq<Cell>, rowId: Bytes)
    requires Plain(q) && LeadingCaught(l, q) && l.trailing.None? && l.eqs != [] && rowId != [] && RestAllowed(l, q, rowId)
    ensures var r := FromLeading(l, |q|); r.Some? && ReadBySome(base, r.value, EntryKey(base, q, rowId))
  {
    EqualitiesRead(base, l.eqs, q, rowId);
  }
}
