/** Turning a WHERE predicate into a range on one column, and what that range means for the rows
    the predicate accepts. */
module Predicates {
  import opened Common
  import opened Ranges
  import opened RangeLaws
  import opened ClosedRanges

  datatype Column = Unrelated(name: string) | InTable(table: string, id: nat)

  datatype Expr<+T> =
    | Constant(v: Value<T>)
    | ColumnRef(col: Column)
    | Binary(op: BinaryOp, l: Expr<T>, r: Expr<T>)
    | Not(e: Expr<T>)

  function UnpackCol<T>(e: Expr<T>): Option<Column> {
    match e
    case ColumnRef(c) => Some(c)
    case Not(inner) => UnpackCol(inner)
    case _ => None
  }

  function UnpackVal<T>(e: Expr<T>): Option<Value<T>> {
    if e.Constant? then Some(e.v) else None
  }

  function FlipOp(op: BinaryOp): BinaryOp {
    match op
    case Gt => Lt
    case Lt => Gt
    case GtEq => LtEq
    case LtEq => GtEq
    case _ => op
  }

  function NewRange<T>(target: Column, op: BinaryOp, col: Column, v: Value<T>, isFlip: bool): Option<Range<T>> {
    if col != target then None
    else
      match if isFlip then FlipOp(op) else op
      case Gt => Some(Scope(Excluded(v), Unbounded))
      case Lt => Some(Scope(Unbounded, Excluded(v)))
      case GtEq => Some(Scope(Included(v), Unbounded))
      case LtEq => Some(Scope(Unbounded, Included(v)))
      case EqOp => Some(Eq(v))
      case Spaceship => Some(Eq(v))
      case _ => None
  }

  function LeafRange<T>(target: Column, op: BinaryOp, l: Expr<T>, r: Expr<T>): Option<Range<T>> {
    if UnpackCol(l).Some? && UnpackVal(r).Some? then NewRange(target, op, UnpackCol(l).value, UnpackVal(r).value, false)
    else if UnpackVal(l).Some? && UnpackCol(r).Some? then NewRange(target, op, UnpackCol(r).value, UnpackVal(l).value, true)
    else None
  }

  function Detach<T>(depth: nat, le: (T, T) -> bool, target: Column, e: Expr<T>): Outcome<T> {
    match e
    case Constant(_) => Done(None)
    case ColumnRef(_) => Done(None)
    case Not(inner) => Detach(depth, le, target, inner)
    case Binary(op, l, r) =>
      match (Detach(depth, le, target, l), Detach(depth, le, target, r))
      case (Done(Some(a)), Done(Some(b))) => MergeBinary(depth, le, op, a, b)
      case (Done(None), Done(None)) => Done(LeafRange(target, op, l, r))
      case (Done(Some(a)), Done(None)) => Done(if op.Or? then None else Some(a))
      case (Done(None), Done(Some(b))) => Done(if op.Or? then None else Some(b))
      case _ => StackOverflow
  }

  // ---------------------------------------------------------------- three-valued meaning

  datatype Truth = True | False | Unknown

  function Bool(b: bool): Truth {
    if b then True else False
  }

  function CompareTruth<T>(le: (T, T) -> bool, op: BinaryOp, a: Value<T>, b: Value<T>): Truth {
    if a.Null? || b.Null? then (if op.Spaceship? then Bool(a.Null? && b.Null?) else Unknown)
    else
      match op
      case Gt => Bool(!le(a.v, b.v))
      case Lt => Bool(!le(b.v, a.v))
      case GtEq => Bool(le(b.v, a.v))
      case LtEq => Bool(le(a.v, b.v))
      case EqOp => Bool(le(a.v, b.v) && le(b.v, a.v))
      case Spaceship => Bool(le(a.v, b.v) && le(b.v, a.v))
      case NotEq => Bool(!(le(a.v, b.v) && le(b.v, a.v)))
      case _ => Unknown
  }

  function Scalar<T>(row: Column -> Value<T>, e: Expr<T>): Value<T> {
    match e
    case Constant(v) => v
    case ColumnRef(c) => row(c)
    case _ => Null
  }

  function Eval<T>(le: (T, T) -> bool, row: Column -> Value<T>, e: Expr<T>): Truth {
    match e
    case Constant(_) => Unknown
    case ColumnRef(_) => Unknown
    case Not(inner) => (match Eval(le, row, inner) case True => False case False => True case Unknown => Unknown)
    case Binary(And, l, r) =>
      var a, b := Eval(le, row, l), Eval(le, row, r);
      if a.False? || b.False? then False else if a.True? && b.True? then True else Unknown
    case Binary(Or, l, r) =>
      var a, b := Eval(le, row, l), Eval(le, row, r);
      if a.True? || b.True? then True else if a.False? && b.False? then False else Unknown
    case Binary(op, l, r) => CompareTruth(le, op, Scalar(row, l), Scalar(row, r))
  }

  /** A row that knows only the target column. */
  function TargetRow<T>(target: Column, x: T): Column -> Value<T> {
    c => if c == target then Val(x) else Null
  }

  // ---------------------------------------------------------------- conjunctions

  predicate Operand<T>(e: Expr<T>) {
    e.ColumnRef? || (e.Constant? && e.v.Val?)
  }

  /** A comparison of columns and non-null constants. */
  predicate Comparison<T>(e: Expr<T>) {
    e.Binary? && !e.op.And? && !e.op.Or? && Operand(e.l) && Operand(e.r)
  }

  predicate AndTree<T>(e: Expr<T>) {
    Comparison(e) || (e.Binary? && e.op.And? && AndTree(e.l) && AndTree(e.r))
  }

  predicate RangeOp(op: BinaryOp) {
    op.Gt? || op.Lt? || op.GtEq? || op.LtEq? || op.EqOp? || op.Spaceship?
  }

  /** The comparison, read with the column on the left, when it bounds the target column. */
  function BoundingOp<T>(target: Column, e: Expr<T>): Option<BinaryOp>
    requires Comparison(e)
  {
    if !RangeOp(e.op) then None
    else if e.l == ColumnRef(target) && e.r.Constant? then Some(e.op)
    else if e.r == ColumnRef(target) && e.l.Constant? then Some(FlipOp(e.op))
    else None
  }

  predicate SomeLeaf<T>(target: Column, e: Expr<T>, ops: set<BinaryOp>)
    requires AndTree(e)
  {
    if Comparison(e) then BoundingOp(target, e).Some? && BoundingOp(target, e).value in ops
    else SomeLeaf(target, e.l, ops) || SomeLeaf(target, e.r, ops)
  }

  predicate AllLeaves<T>(target: Column, e: Expr<T>, ops: set<BinaryOp>)
    requires AndTree(e)
  {
    if Comparison(e) then BoundingOp(target, e).Some? && BoundingOp(target, e).value in ops
    else AllLeaves(target, e.l, ops) && AllLeaves(target, e.r, ops)
  }

  const RANGE_OPS: set<BinaryOp> := {Gt, Lt, GtEq, LtEq, EqOp, Spaceship}
  const FLOOR_OPS: set<BinaryOp> := {Gt, GtEq, EqOp, Spaceship}
  const CEILING_OPS: set<BinaryOp> := {Lt, LtEq, EqOp, Spaceship}
  const CLOSED_OPS: set<BinaryOp> := {GtEq, LtEq, EqOp, Spaceship}

  /** The value meets every conjunct that bounds the target column. */
  ghost predicate Meets<T>(le: (T, T) -> bool, target: Column, e: Expr<T>, x: T)
    requires AndTree(e)
  {
    if Comparison(e) then BoundingOp(target, e).Some? ==> Eval(le, TargetRow(target, x), e).True?
    else Meets(le, target, e.l, x) && Meets(le, target, e.r, x)
  }

  lemma LeafExact<T(!new)>(le: (T, T) -> bool, target: Column, e: Expr<T>)
    requires TotalPreorder(le) && Comparison(e)
    ensures var o := LeafRange(target, e.op, e.l, e.r);
            && (o.Some? <==> BoundingOp(target, e).Some?)
            && (o.Some? ==> o.value.Simple() && Ordered(le, o.value))
            && (o.Some? ==> forall x :: In(le, o.value, x) <==> Eval(le, TargetRow(target, x), e).True?)
  {
  }

  /** AND of two ranges that are no lists: no list, ends the right way round, the intersection. */
  lemma AndMerged<T(!new)>(depth: nat, le: (T, T) -> bool, a: Range<T>, b: Range<T>)
    requires TotalPreorder(le) && !a.SortedRanges? && !b.SortedRanges? && Ordered(le, a) && Ordered(le, b)
    ensures var out := MergeBinary(depth, le, And, a, b);
            && out.Done? && out.range.Some? && !out.range.value.SortedRanges? && Ordered(le, out.range.value)
            && forall x :: In(le, out.range.value, x) <==> In(le, a, x) && In(le, b, x)
  {
    if a.Simple() && b.Simple() {
      var m := MergeSimple(le, And, a, b);
      forall x ensures m.Some? && (In(le, m.value, x) <==> In(le, a, x) && In(le, b, x)) {
        AndSimpleExact(le, a, b, x);
      }
    }
  }

  /** For every AND tree of comparisons over any columns: no range exactly when no conjunct bounds
      the target column; otherwise exactly the values meeting all conjuncts that do. */
  lemma {:induction false} ConjunctionExact<T(!new)>(depth: nat, le: (T, T) -> bool, target: Column, e: Expr<T>)
    requires TotalPreorder(le) && AndTree(e)
    ensures var out := Detach(depth, le, target, e);
            && out.Done?
            && (out.range.Some? <==> SomeLeaf(target, e, RANGE_OPS))
            && (out.range.Some? ==> !out.range.value.SortedRanges? && Ordered(le, out.range.value))
            && (out.range.Some? ==> forall x :: In(le, out.range.value, x) <==> Meets(le, target, e, x))
            && (out.range.None? ==> forall x :: Meets(le, target, e, x))
  {
    if Comparison(e) {
      LeafExact(le, target, e);
    } else {
      ConjunctionExact(depth, le, target, e.l);
      ConjunctionExact(depth, le, target, e.r);
      var a, b := Detach(depth, le, target, e.l).range, Detach(depth, le, target, e.r).range;
      if a.Some? && b.Some? { AndMerged(depth, le, a.value, b.value); }
    }
  }

  /** When every conjunct bounds the target, the predicate is true of a value exactly when the value meets them all. */
  lemma {:induction false} MeetsIsTrue<T(!new)>(le: (T, T) -> bool, target: Column, e: Expr<T>, x: T)
    requires AndTree(e) && AllLeaves(target, e, RANGE_OPS)
    ensures Meets(le, target, e, x) <==> Eval(le, TargetRow(target, x), e).True?
  {
    if !Comparison(e) {
      MeetsIsTrue(le, target, e.l, x);
      MeetsIsTrue(le, target, e.r, x);
    }
  }

  lemma {:induction false} SomeLeafRange<T>(target: Column, e: Expr<T>, ops: set<BinaryOp>)
    requires AndTree(e) && SomeLeaf(target, e, ops)
    ensures SomeLeaf(target, e, RANGE_OPS)
  {
    if !Comparison(e) {
      if SomeLeaf(target, e.l, ops) { SomeLeafRange(target, e.l, ops); } else { SomeLeafRange(target, e.r, ops); }
    }
  }

  lemma AndScopeEnds<T>(depth: nat, le: (T, T) -> bool, a: Range<T>, b: Range<T>)
    requires !a.SortedRanges? && !b.SortedRanges?
    ensures var out := MergeBinary(depth, le, And, a, b);
            && out.Done? && out.range.Some?
            && var m := out.range.value;
            m.Scope? ==>
              && a.Scope? && b.Scope?
              && (m.min == a.min || m.min == b.min) && (m.max == a.max || m.max == b.max)
              && (m.min.Unbounded? ==> a.min.Unbounded? && b.min.Unbounded?)
              && (m.max.Unbounded? ==> a.max.Unbounded? && b.max.Unbounded?)
  {
  }

  ghost predicate EndsFollow<T>(target: Column, e: Expr<T>, r: Range<T>)
    requires AndTree(e)
  {
    r.Scope? ==>
      && (SomeLeaf(target, e, FLOOR_OPS) ==> !r.min.Unbounded?)
      && (SomeLeaf(target, e, CEILING_OPS) ==> !r.max.Unbounded?)
      && (!SomeLeaf(target, e, {Lt}) ==> !r.max.Excluded?)
      && (!SomeLeaf(target, e, {Gt}) ==> !r.min.Excluded?)
  }

  /** The ends of a conjunction's range follow the kinds of its conjuncts. */
  lemma {:induction false} ConjunctionEnds<T(!new)>(depth: nat, le: (T, T) -> bool, target: Column, e: Expr<T>)
    requires TotalPreorder(le) && AndTree(e)
    ensures var out := Detach(depth, le, target, e); out.Done? && (out.range.Some? ==> EndsFollow(target, e, out.range.value))
  {
    ConjunctionExact(depth, le, target, e);
    if !Comparison(e) {
      ConjunctionEnds(depth, le, target, e.l);
      ConjunctionEnds(depth, le, target, e.r);
      ConjunctionExact(depth, le, target, e.l);
      ConjunctionExact(depth, le, target, e.r);
      var a, b := Detach(depth, le, target, e.l).range, Detach(depth, le, target, e.r).range;
      if a.Some? && b.Some? {
        AndScopeEnds(depth, le, a.value, b.value);
      } else if a.Some? {
        OnlyOneSide(target, e.l, e.r, a.value);
      } else if b.Some? {
        OnlyOneSide(target, e.r, e.l, b.value);
      }
    }
  }

  /** A conjunct that does not bound the target leaves the ends to the other one. */
  lemma OnlyOneSide<T>(target: Column, l: Expr<T>, r: Expr<T>, a: Range<T>)
    requires AndTree(l) && AndTree(r) && EndsFollow(target, l, a) && !SomeLeaf(target, r, RANGE_OPS)
    ensures EndsFollow(target, Binary(And, l, r), a) && EndsFollow(target, Binary(And, r, l), a)
  {
    var lr, rl := Binary(And, l, r), Binary(And, r, l);
    forall ops: set<BinaryOp>
      ensures SomeLeaf(target, lr, ops) == SomeLeaf(target, l, ops) && SomeLeaf(target, rl, ops) == SomeLeaf(target, l, ops)
    {
      if SomeLeaf(target, r, ops) { SomeLeafRange(target, r, ops); }
    }
  }

  // ---------------------------------------------------------------- disjunctions

  /** A conjunction that gives the target a lower end and no strict upper end. */
  predicate FloorConjunct<T>(target: Column, e: Expr<T>) {
    AndTree(e) && SomeLeaf(target, e, FLOOR_OPS) && !SomeLeaf(target, e, {Lt})
  }

  /** `c = k`, or closed bounds on both sides, beside whatever is said of other columns. */
  predicate ClosedConjunct<T>(target: Column, e: Expr<T>) {
    && AndTree(e) && SomeLeaf(target, e, FLOOR_OPS) && SomeLeaf(target, e, CEILING_OPS)
    && !SomeLeaf(target, e, {Lt}) && !SomeLeaf(target, e, {Gt})
  }

  /** The same on the target alone. */
  predicate FloorLeaf<T>(target: Column, e: Expr<T>) { FloorConjunct(target, e) && AllLeaves(target, e, RANGE_OPS) }

  predicate ClosedLeaf<T>(target: Column, e: Expr<T>) { ClosedConjunct(target, e) && AllLeaves(target, e, RANGE_OPS) }

  predicate OrTree<T>(target: Column, e: Expr<T>, closed: bool) {
    || (if closed then ClosedLeaf(target, e) else FloorLeaf(target, e))
    || (e.Binary? && e.op.Or? && OrTree(target, e.l, closed) && OrTree(target, e.r, closed))
  }

  /** OR trees of lower-bounded conjunctions denote exactly the values that satisfy them. With
      closed leaves the result is moreover a separated, strictly ascending list. */
  lemma {:induction false} DisjunctionExact<T(!new)>(depth: nat, le: (T, T) -> bool, target: Column, e: Expr<T>, closed: bool)
    requires TotalPreorder(le) && OrTree(target, e, closed)
    ensures var out := Detach(depth, le, target, e);
            && out.Done? && out.range.Some?
            && (if closed then ClosedOperand(le, out.range.value) else OrOperand(le, out.range.value))
            && forall x :: In(le, out.range.value, x) <==> Eval(le, TargetRow(target, x), e).True?
  {
    if if closed then ClosedLeaf(target, e) else FloorLeaf(target, e) {
      SomeLeafRange(target, e, FLOOR_OPS);
      ConjunctionExact(depth, le, target, e);
      ConjunctionEnds(depth, le, target, e);
      forall x {
        MeetsIsTrue(le, target, e, x);
      }
    } else {
      DisjunctionExact(depth, le, target, e.l, closed);
      DisjunctionExact(depth, le, target, e.r, closed);
      var a, b := Detach(depth, le, target, e.l).range.value, Detach(depth, le, target, e.r).range.value;
      if closed { OrClosed(depth, le, a, b); } else { OrExact(depth, le, a, b); }
    }
  }

  // ---------------------------------------------------------------- mixed trees

  /** AND and OR over closed conjunctions on the target and comparisons that do not bound it; an AND has
      at most one side that can become a list. */
  predicate Mixed<T>(target: Column, e: Expr<T>)
    decreases e, 1
  {
    || NeverList(target, e)
    || (e.Binary? && e.op.Or? && Mixed(target, e.l) && Mixed(target, e.r))
    || (e.Binary? && e.op.And? && Mixed(target, e.l) && Mixed(target, e.r) && (NeverList(target, e.l) || NeverList(target, e.r)))
  }

  predicate NeverList<T>(target: Column, e: Expr<T>)
    decreases e, 0, 1
  {
    ClosedConjunct(target, e) || Quiet(target, e)
  }

  /** Bounds the target nowhere, or in an OR only on one side. */
  predicate Quiet<T>(target: Column, e: Expr<T>)
    decreases e, 0, 0
  {
    || (Comparison(e) && BoundingOp(target, e).None?)
    || (e.Binary? && e.op.And? && Quiet(target, e.l) && Quiet(target, e.r))
    || (e.Binary? && e.op.Or? && ((Quiet(target, e.l) && Mixed(target, e.r)) || (Mixed(target, e.l) && Quiet(target, e.r))))
  }

  /** The range covers every row the predicate accepts. */
  ghost predicate Covers<T(!new)>(le: (T, T) -> bool, target: Column, e: Expr<T>, range: Option<Range<T>>) {
    range.Some? ==> forall row :: Eval(le, row, e).True? ==> row(target).Val? && In(le, range.value, row(target).v)
  }

  /** A row accepted by a conjunction meets its bounding conjuncts with its own target value. */
  lemma {:induction false} AcceptedMeets<T(!new)>(le: (T, T) -> bool, target: Column, e: Expr<T>, row: Column -> Value<T>)
    requires AndTree(e) && Eval(le, row, e).True?
    ensures SomeLeaf(target, e, RANGE_OPS) ==> row(target).Val?
    ensures row(target).Val? ==> Meets(le, target, e, row(target).v)
  {
    if !Comparison(e) {
      AcceptedMeets(le, target, e.l, row);
      AcceptedMeets(le, target, e.r, row);
    }
  }

  lemma ConjunctionCovers<T(!new)>(depth: nat, le: (T, T) -> bool, target: Column, e: Expr<T>)
    requires TotalPreorder(le) && AndTree(e)
    ensures Detach(depth, le, target, e).Done? && Covers(le, target, e, Detach(depth, le, target, e).range)
  {
    ConjunctionExact(depth, le, target, e);
    forall row | Eval(le, row, e).True? {
      AcceptedMeets(le, target, e, row);
    }
  }

  lemma QuietLeaf<T(!new)>(depth: nat, le: (T, T) -> bool, target: Column, e: Expr<T>)
    requires TotalPreorder(le) && Comparison(e) && BoundingOp(target, e).None?
    ensures Detach(depth, le, target, e) == Done(None)
  {
    ConjunctionExact(depth, le, target, e);
  }

  /** No accepted row falls outside the range of a mixed tree, whatever its depth. */
  lemma {:induction false} MixedCovers<T(!new)>(depth: nat, le: (T, T) -> bool, target: Column, e: Expr<T>)
    requires TotalPreorder(le) && Mixed(target, e)
    ensures var out := Detach(depth, le, target, e);
            && out.Done? && Covers(le, target, e, out.range)
            && (out.range.Some? ==> ClosedOperand(le, out.range.value))
            && (NeverList(target, e) && out.range.Some? ==> !out.range.value.SortedRanges?)
            && (Quiet(target, e) ==> out.range.None?)
  {
    if ClosedConjunct(target, e) {
      SomeLeafRange(target, e, FLOOR_OPS);
      ConjunctionCovers(depth, le, target, e);
      ConjunctionExact(depth, le, target, e);
      ConjunctionEnds(depth, le, target, e);
      if Quiet(target, e) { QuietNotClosed(target, e); }
    } else if Quiet(target, e) {
      if Comparison(e) {
        QuietLeaf(depth, le, target, e);
      } else {
        QuietIsMixed(target, e.l);
        QuietIsMixed(target, e.r);
        MixedCovers(depth, le, target, e.l);
        MixedCovers(depth, le, target, e.r);
      }
    } else {
      MixedCovers(depth, le, target, e.l);
      MixedCovers(depth, le, target, e.r);
      var a, b := Detach(depth, le, target, e.l).range, Detach(depth, le, target, e.r).range;
      if a.Some? && b.Some? {
        if e.op.Or? { OrClosed(depth, le, a.value, b.value); } else { AndOneList(depth, le, a.value, b.value); }
      }
    }
  }

  lemma QuietIsMixed<T>(target: Column, e: Expr<T>)
    ensures Quiet(target, e) ==> Mixed(target, e)
  {
    assert Quiet(target, e) ==> NeverList(target, e);
  }

  lemma {:induction false} QuietNotClosed<T>(target: Column, e: Expr<T>)
    requires Quiet(target, e) && AndTree(e)
    ensures !SomeLeaf(target, e, RANGE_OPS) && !SomeLeaf(target, e, FLOOR_OPS)
  {
    if !Comparison(e) {
      QuietNotClosed(target, e.l);
      QuietNotClosed(target, e.r);
    }
  }

  // ---------------------------------------------------------------- negations

  /** Something above and something below every value. */
  ghost predicate Endless<T(!new)>(le: (T, T) -> bool) {
    forall a :: HasAbove(le, a) && HasBelow(le, a)
  }

  ghost predicate HasAbove<T(!new)>(le: (T, T) -> bool, a: T) { exists b :: !le(b, a) }

  ghost predicate HasBelow<T(!new)>(le: (T, T) -> bool, a: T) { exists b :: !le(a, b) }

  /** Some value of the target makes a bounding comparison false. */
  lemma FalseLeaf<T(!new)>(le: (T, T) -> bool, target: Column, e: Expr<T>) returns (x: T)
    requires TotalPreorder(le) && Endless(le) && Comparison(e) && BoundingOp(target, e).Some?
    ensures Eval(le, TargetRow(target, x), e).False?
  {
    var k := if e.r.Constant? then e.r.v.v else e.l.v.v;
    assert HasAbove(le, k) && HasBelow(le, k);
    var op := BoundingOp(target, e).value;
    if op.GtEq? {
      x :| !le(k, x);
    } else if op.Gt? || op.Lt? {
      x := k;
    } else {
      x :| !le(x, k);
    }
  }

  lemma {:induction false} FalseConjunct<T(!new)>(le: (T, T) -> bool, target: Column, e: Expr<T>) returns (x: T)
    requires TotalPreorder(le) && Endless(le) && AndTree(e) && SomeLeaf(target, e, RANGE_OPS)
    ensures Eval(le, TargetRow(target, x), e).False? && !Meets(le, target, e, x)
  {
    if Comparison(e) {
      x := FalseLeaf(le, target, e);
    } else if SomeLeaf(target, e.l, RANGE_OPS) {
      x := FalseConjunct(le, target, e.l);
    } else {
      x := FalseConjunct(le, target, e.r);
    }
  }

  /** NOT is passed over: the range of a negated conjunction covers the rows it accepts if and only if no
      conjunct bounds the target, so that there is no range. */
  lemma NotExact<T(!new)>(depth: nat, le: (T, T) -> bool, target: Column, e: Expr<T>)
    requires TotalPreorder(le) && Endless(le) && AndTree(e)
    ensures var out := Detach(depth, le, target, Not(e));
            out.Done? && (Covers(le, target, Not(e), out.range) <==> !SomeLeaf(target, e, RANGE_OPS))
  {
    ConjunctionExact(depth, le, target, e);
    if SomeLeaf(target, e, RANGE_OPS) {
      var x := FalseConjunct(le, target, e);
      var row := TargetRow(target, x);
      assert Eval(le, row, Not(e)).True? && row(target) == Val(x);
    }
  }

  /** Comparisons with the target that are unknown on null. */
  predicate NoSpaceship<T>(e: Expr<T>) {
    match e
    case Not(inner) => NoSpaceship(inner)
    case Binary(op, l, r) => !op.Spaceship? && NoSpaceship(l) && NoSpaceship(r)
    case _ => true
  }

  lemma {:induction false} NullUnknown<T(!new)>(le: (T, T) -> bool, target: Column, e: Expr<T>, row: Column -> Value<T>)
    requires AndTree(e) && AllLeaves(target, e, RANGE_OPS) && NoSpaceship(e)
    ensures row(target).Null? ==> Eval(le, row, e).Unknown?
    ensures row(target).Val? ==> Eval(le, row, e) == Bool(Meets(le, target, e, row(target).v))
  {
    if !Comparison(e) {
      NullUnknown(le, target, e.l, row);
      NullUnknown(le, target, e.r, row);
    }
  }

  /** Over any order, ends or not: when every conjunct bounds the target, the range of the negation covers its rows
      if and only if every value meets every conjunct. */
  lemma NotOfBoundsExact<T(!new)>(depth: nat, le: (T, T) -> bool, target: Column, e: Expr<T>)
    requires TotalPreorder(le) && AndTree(e) && AllLeaves(target, e, RANGE_OPS) && NoSpaceship(e)
    ensures var out := Detach(depth, le, target, Not(e));
            out.Done? && (Covers(le, target, Not(e), out.range) <==> forall x :: Meets(le, target, e, x))
  {
    ConjunctionExact(depth, le, target, e);
    AllIsSome(target, e);
    var r := Detach(depth, le, target, e).range.value;
    if x :| !Meets(le, target, e, x) {
      var row := TargetRow(target, x);
      NullUnknown(le, target, e, row);
      assert Eval(le, row, Not(e)).True? && row(target) == Val(x) && !In(le, r, x);
    } else {
      forall row | Eval(le, row, Not(e)).True? ensures row(target).Val? && In(le, r, row(target).v) {
        NullUnknown(le, target, e, row);
      }
    }
  }

  lemma {:induction false} AllIsSome<T>(target: Column, e: Expr<T>)
    requires AndTree(e) && AllLeaves(target, e, RANGE_OPS)
    ensures SomeLeaf(target, e, RANGE_OPS)
  {
    if !Comparison(e) { AllIsSome(target, e.l); }
  }

  /** Below some value a conjunction with a lower end is false. */
  lemma {:induction false} FalseBelow<T(!new)>(le: (T, T) -> bool, target: Column, e: Expr<T>) returns (b: T)
    requires TotalPreorder(le) && AndTree(e) && SomeLeaf(target, e, FLOOR_OPS)
    ensures forall x :: !le(b, x) ==> Eval(le, TargetRow(target, x), e).False?
  {
    if Comparison(e) {
      b := if e.r.Constant? then e.r.v.v else e.l.v.v;
    } else if SomeLeaf(target, e.l, FLOOR_OPS) {
      b := FalseBelow(le, target, e.l);
    } else {
      b := FalseBelow(le, target, e.r);
    }
  }

  lemma {:induction false} OrFalseBelow<T(!new)>(le: (T, T) -> bool, target: Column, e: Expr<T>, closed: bool) returns (b: T)
    requires TotalPreorder(le) && OrTree(target, e, closed)
    ensures forall x :: !le(b, x) ==> Eval(le, TargetRow(target, x), e).False?
  {
    if if closed then ClosedLeaf(target, e) else FloorLeaf(target, e) {
      b := FalseBelow(le, target, e);
    } else {
      var l := OrFalseBelow(le, target, e.l, closed);
      var r := OrFalseBelow(le, target, e.r, closed);
      b := if le(l, r) then l else r;
    }
  }

  /** The negation of an OR tree of lower-bounded conjunctions always loses rows: below all lower ends. */
  lemma NotOfOrLoses<T(!new)>(depth: nat, le: (T, T) -> bool, target: Column, e: Expr<T>, closed: bool)
    requires TotalPreorder(le) && Endless(le) && OrTree(target, e, closed)
    ensures var out := Detach(depth, le, target, Not(e)); out.Done? && !Covers(le, target, Not(e), out.range)
  {
    DisjunctionExact(depth, le, target, e, closed);
    var b := OrFalseBelow(le, target, e, closed);
    assert HasBelow(le, b);
    var x :| !le(b, x);
    var row := TargetRow(target, x);
    assert Eval(le, row, Not(e)).True? && row(target) == Val(x);
  }
}
