/** Predicates outside the fragments of `Predicates` on which the code loses rows or never returns. */
module RangeLimits {
  import opened Common
  import opened Ranges
  import opened Predicates
  import opened Restarts
  import opened HalfOpenLists

  const C: Column := InTable("t1", 0)

  function IntLe(a: int, b: int): bool { a <= b }

  function Cmp(op: BinaryOp, k: int): Expr<int> { Binary(op, ColumnRef(C), Constant(Val(k))) }

  function Between(a: int, b: int): Expr<int> { Binary(And, Cmp(GtEq, a), Cmp(LtEq, b)) }

  function Point(k: int): Range<int> { Eq(Val(k)) }

  function Interval(a: int, b: int): Range<int> { Scope(Included(Val(a)), Included(Val(b))) }

  function UpTo(b: int): Range<int> { Scope(Unbounded, Included(Val(b))) }

  function RowOf(x: int): Column -> Value<int> { TargetRow(C, x) }

  lemma CmpRange(depth: nat, op: BinaryOp, k: int)
    ensures Detach(depth, IntLe, C, Cmp(op, k)) == Done(NewRange(C, op, C, Val(k), false))
  {
    assert Detach(depth, IntLe, C, ColumnRef(C)) == Done(None);
    assert Detach(depth, IntLe, C, Constant(Val(k))) == Done(None);
  }

  lemma BetweenRange(depth: nat, a: int, b: int)
    requires a < b
    ensures Detach(depth, IntLe, C, Between(a, b)) == Done(Some(Interval(a, b)))
  {
    CmpRange(depth, GtEq, a);
    CmpRange(depth, LtEq, b);
    Join(depth, And, Cmp(GtEq, a), Cmp(LtEq, b));
  }

  lemma BetweenHolds(a: int, b: int, x: int)
    requires a <= x <= b
    ensures Eval(IntLe, RowOf(x), Between(a, b)).True?
  {
    assert Eval(IntLe, RowOf(x), Cmp(GtEq, a)).True? && Eval(IntLe, RowOf(x), Cmp(LtEq, b)).True?;
  }

  lemma Join(depth: nat, op: BinaryOp, l: Expr<int>, r: Expr<int>)
    requires Detach(depth, IntLe, C, l).Done? && Detach(depth, IntLe, C, l).range.Some?
    requires Detach(depth, IntLe, C, r).Done? && Detach(depth, IntLe, C, r).range.Some?
    ensures Detach(depth, IntLe, C, Binary(op, l, r)) ==
            MergeBinary(depth, IntLe, op, Detach(depth, IntLe, C, l).range.value, Detach(depth, IntLe, C, r).range.value)
  {
  }

  /** `c BETWEEN 3 AND 5 OR c = 20 OR c = 30` is fine on its own, but with `OR c <= 10` the merge
      carries a list of two scopes and restarts on it: the entry 30 is dropped. */
  lemma OrLosesRow(depth: nat)
    requires depth > 0
    ensures var list := Binary(Or, Binary(Or, Between(3, 5), Cmp(EqOp, 20)), Cmp(EqOp, 30));
            var e := Binary(Or, list, Cmp(LtEq, 10));
            && Detach(depth, IntLe, C, list) == Done(Some(SortedRanges([Interval(3, 5), Point(20), Point(30)])))
            && Detach(depth, IntLe, C, e) == Done(Some(SortedRanges([Point(20), UpTo(10), Interval(3, 5)])))
            && Eval(IntLe, RowOf(30), e).True?
            && !In(IntLe, SortedRanges([Point(20), UpTo(10), Interval(3, 5)]), 30)
  {
    var list := Binary(Or, Binary(Or, Between(3, 5), Cmp(EqOp, 20)), Cmp(EqOp, 30));
    ThreeEntries(depth);
    CmpRange(depth, LtEq, 10);
    Join(depth, Or, list, Cmp(LtEq, 10));
    OrRestart(depth);
    ThirtyHolds();
  }

  lemma ThirtyHolds()
    ensures Eval(IntLe, RowOf(30), Binary(Or, Binary(Or, Between(3, 5), Cmp(EqOp, 20)), Cmp(EqOp, 30))).True?
  {
    assert Eval(IntLe, RowOf(30), Cmp(EqOp, 30)).True?;
  }

  lemma ThreeEntries(depth: nat)
    ensures Detach(depth, IntLe, C, Binary(Or, Binary(Or, Between(3, 5), Cmp(EqOp, 20)), Cmp(EqOp, 30)))
         == Done(Some(SortedRanges([Interval(3, 5), Point(20), Point(30)])))
  {
    var inner, two := Binary(Or, Between(3, 5), Cmp(EqOp, 20)), [Interval(3, 5), Point(20)];
    TwoEntries(depth);
    CmpRange(depth, EqOp, 30);
    Join(depth, Or, inner, Cmp(EqOp, 30));
    assert Extract(depth, IntLe, Or, Some(Point(30)), two, 2) == Merged(two + [Point(30)], 2);
    assert Extract(depth, IntLe, Or, Some(Point(30)), two, 1) == Merged(two + [Point(30)], 2);
    assert two + [Point(30)] == [Interval(3, 5), Point(20), Point(30)];
  }

  lemma TwoEntries(depth: nat)
    ensures Detach(depth, IntLe, C, Binary(Or, Between(3, 5), Cmp(EqOp, 20))) == Done(Some(SortedRanges([Interval(3, 5), Point(20)])))
  {
    BetweenRange(depth, 3, 5);
    CmpRange(depth, EqOp, 20);
    Join(depth, Or, Between(3, 5), Cmp(EqOp, 20));
  }

  lemma OrRestart(depth: nat)
    requires depth > 0
    ensures Extract(depth, IntLe, Or, Some(UpTo(10)), [Interval(3, 5), Point(20), Point(30)], 0)
         == Merged([Point(20), UpTo(10), Interval(3, 5)], 0)
  {
    var scopes := [UpTo(10), Interval(3, 5)];
    assert Extract(depth - 1, IntLe, Or, Some(Point(20)), scopes, 0) == Merged(InsertAt(scopes, 0, Point(20)), 0);
    var rs := [Interval(3, 5), Point(20), Point(30)];
    assert RemoveAt(rs, 0) == [Point(20), Point(30)];
    assert Extract(depth, IntLe, Or, Some(SortedRanges(scopes)), [Point(20), Point(30)], 0) == Merged(InsertAt(scopes, 0, Point(20)), 0);
  }

  /** AND of two lists: the cut of `[2, 5]` by `[1, 3]` forgets what `[4, 9]` still needs. */
  lemma AndOfListsLosesRow(depth: nat)
    ensures var l := Binary(Or, Between(1, 3), Between(4, 9));
            var r := Binary(Or, Between(2, 5), Between(7, 8));
            && Detach(depth, IntLe, C, Binary(And, l, r)) == Done(Some(SortedRanges([Interval(2, 3), Interval(7, 8)])))
            && Eval(IntLe, RowOf(4), Binary(And, l, r)).True?
            && !In(IntLe, SortedRanges([Interval(2, 3), Interval(7, 8)]), 4)
  {
    var a, b := [Interval(1, 3), Interval(4, 9)], [Interval(2, 5), Interval(7, 8)];
    var l, r := Binary(Or, Between(1, 3), Between(4, 9)), Binary(Or, Between(2, 5), Between(7, 8));
    TwoIntervals(depth, 1, 3, 4, 9);
    TwoIntervals(depth, 2, 5, 7, 8);
    Join(depth, And, l, r);
    AndOfLists(depth, a, b);
    BetweenHolds(4, 9, 4);
    BetweenHolds(2, 5, 4);
  }

  lemma TwoIntervals(depth: nat, a: int, b: int, c: int, d: int)
    requires a < b < c < d
    ensures Detach(depth, IntLe, C, Binary(Or, Between(a, b), Between(c, d))) == Done(Some(SortedRanges([Interval(a, b), Interval(c, d)])))
  {
    BetweenRange(depth, a, b);
    BetweenRange(depth, c, d);
    Join(depth, Or, Between(a, b), Between(c, d));
  }

  lemma AndOfLists(depth: nat, a: seq<Range<int>>, b: seq<Range<int>>)
    requires a == [Interval(1, 3), Interval(4, 9)] && b == [Interval(2, 5), Interval(7, 8)]
    ensures MergeLists(depth, IntLe, And, a, b, 0) == Merged([Interval(2, 3), Interval(7, 8)], 1)
  {
    var c := [Interval(2, 3), Interval(7, 8)];
    FirstCut(depth);
    SecondCut(depth);
    assert a[1..] == [a[1]] && [a[1]][1..] == [];
    assert MergeLists(depth, IntLe, And, [a[1]], c, 0) == Merged(c, 1);
  }

  lemma FirstCut(depth: nat)
    ensures Extract(depth, IntLe, And, Some(Interval(1, 3)), [Interval(2, 5), Interval(7, 8)], 0)
         == Merged([Interval(2, 3), Interval(7, 8)], 0)
  {
    assert RemoveAt([Interval(2, 5), Interval(7, 8)], 0) == [Interval(7, 8)];
    assert Extract(depth, IntLe, And, Some(Interval(2, 3)), [Interval(7, 8)], 0) == Merged(InsertAt([Interval(7, 8)], 0, Interval(2, 3)), 0);
  }

  lemma SecondCut(depth: nat)
    ensures var c := [Interval(2, 3), Interval(7, 8)]; Extract(depth, IntLe, And, Some(Interval(4, 9)), c, 0) == Merged(c, 1)
  {
    var c := [Interval(2, 3), Interval(7, 8)];
    assert RemoveAt(c, 1) == [Interval(2, 3)];
    assert Extract(depth, IntLe, And, Some(Interval(7, 8)), [Interval(2, 3)], 1) == Merged(c, 1);
    assert Extract(depth, IntLe, And, Some(Interval(4, 9)), c, 1) == Merged(c, 1);
  }

  /** NOT is passed over: the range of `NOT c > 1` is the range of `c > 1`. */
  lemma NotLosesRow(depth: nat)
    ensures var e := Not(Cmp(Gt, 1));
            && Detach(depth, IntLe, C, e) == Done(Some(Scope(Excluded(Val(1)), Unbounded)))
            && Eval(IntLe, RowOf(0), e).True?
            && !In(IntLe, Scope(Excluded(Val(1)), Unbounded), 0)
  {
    CmpRange(depth, Gt, 1);
  }

  lemma IntOrder()
    ensures TotalPreorder(IntLe) && Endless(IntLe)
  {
    forall a ensures HasAbove(IntLe, a) && HasBelow(IntLe, a) {
      assert !IntLe(a + 1, a) && !IntLe(a, a - 1);
    }
  }

  /** Over the integers: a negated conjunction covers its rows if and only if it does not bound the column. */
  lemma NotOverIntegers(depth: nat, target: Column, e: Expr<int>)
    requires AndTree(e)
    ensures var out := Detach(depth, IntLe, target, Not(e));
            out.Done? && (Covers(IntLe, target, Not(e), out.range) <==> !SomeLeaf(target, e, RANGE_OPS))
  {
    IntOrder();
    NotExact(depth, IntLe, target, e);
  }

  const ALL: Range<int> := Scope(Unbounded, Unbounded)

  lemma {:induction false} RestartsForever(depth: nat)
    ensures Extract(depth, IntLe, Or, Some(ALL), [UpTo(5), ALL], 0) == MergeOverflow
  {
    var rs := [UpTo(5), ALL];
    assert RemoveAt(rs, 0) == [ALL];
    assert Extract(depth, IntLe, Or, Some(ALL), rs, 0) == Extract(depth, IntLe, Or, Some(SortedRanges(rs)), [ALL], 0);
    if depth > 0 {
      RestartsForever(depth - 1);
    }
  }

  /** `((c < 1 OR c >= 0) OR c <= 5) OR (c < 1 OR c >= 0)` exhausts every stack: the merge
      restarts on the same two scopes for ever. */
  lemma DetachNeverReturns(depth: nat)
    ensures var all := Binary(Or, Cmp(Lt, 1), Cmp(GtEq, 0));
            Detach(depth, IntLe, C, Binary(Or, Binary(Or, all, Cmp(LtEq, 5)), all)) == StackOverflow
  {
    var all := Binary(Or, Cmp(Lt, 1), Cmp(GtEq, 0));
    CmpRange(depth, Lt, 1);
    CmpRange(depth, GtEq, 0);
    CmpRange(depth, LtEq, 5);
    Join(depth, Or, Cmp(Lt, 1), Cmp(GtEq, 0));
    Join(depth, Or, all, Cmp(LtEq, 5));
    Join(depth, Or, Binary(Or, all, Cmp(LtEq, 5)), all);
    RestartsForever(depth);
  }

  function FromTo(a: int, b: int): Expr<int> { Binary(And, Cmp(GtEq, a), Cmp(Lt, b)) }

  function HalfOpen(a: int, b: int): Range<int> { Scope(Included(Val(a)), Excluded(Val(b))) }

  lemma FromToRange(depth: nat, a: int, b: int)
    requires a < b
    ensures Detach(depth, IntLe, C, FromTo(a, b)) == Done(Some(HalfOpen(a, b)))
  {
    CmpRange(depth, GtEq, a);
    CmpRange(depth, Lt, b);
    Join(depth, And, Cmp(GtEq, a), Cmp(Lt, b));
  }

  /** `(c >= 0 AND c < 1) OR c BETWEEN 1 AND 2 OR c BETWEEN 1 AND 3` exhausts every stack too: both intervals stick
      to the half-open one and change places for ever. */
  lemma BoundedNeverReturns(depth: nat)
    ensures Detach(depth, IntLe, C, Binary(Or, Binary(Or, FromTo(0, 1), Between(1, 2)), Between(1, 3))) == StackOverflow
  {
    var two := Binary(Or, FromTo(0, 1), Between(1, 2));
    FromToRange(depth, 0, 1);
    BetweenRange(depth, 1, 2);
    BetweenRange(depth, 1, 3);
    Join(depth, Or, FromTo(0, 1), Between(1, 2));
    Join(depth, Or, two, Between(1, 3));
    IntOrder();
    PairForever(depth, IntLe, Interval(1, 3), HalfOpen(0, 1), Interval(1, 2));
  }

  /** `[1, 3]` merged by OR into `[0, 1)`, `[5, 6]`, `[8, 9]` drops the last: the list of the first two restarts with
      the next entry alone. */
  lemma OrDropsEntry(depth: nat)
    requires depth >= 1
    ensures var rs := [HalfOpen(0, 1), Interval(5, 6), Interval(8, 9)];
            var m := Extract(depth, IntLe, Or, Some(Interval(1, 3)), rs, 0);
            m.Merged? && In(IntLe, SortedRanges(rs), 8) && !In(IntLe, SortedRanges(m.ranges), 8)
  {
    var c, rs := Interval(1, 3), [HalfOpen(0, 1), Interval(5, 6), Interval(8, 9)];
    var u, rest := HalfOpen(0, 1), [Interval(5, 6), Interval(8, 9)];
    IntOrder();
    StickMerges(IntLe, u, c);
    SameTurn(depth, IntLe, c, rs, 0);
    assert RemoveAt(rs, 0) == rest;
    DropsEight(depth);
    assert In(IntLe, rs[2], 8);
  }

  lemma DropsEight(depth: nat)
    requires depth >= 1
    ensures var m := Extract(depth, IntLe, Or, Some(SortedRanges([HalfOpen(0, 1), Interval(1, 3)])), [Interval(5, 6), Interval(8, 9)], 0);
            m.Merged? && !In(IntLe, SortedRanges(m.ranges), 8)
  {
    IntOrder();
    HaltKeeps(depth, IntLe, HalfOpen(0, 1), Interval(1, 3), [Interval(5, 6), Interval(8, 9)], 0, 8);
  }
}
