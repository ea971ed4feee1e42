/** IN lists: the OR chain they are rewritten to, and the range that chain detaches to. */
module InLists {
  import opened Common
  import opened Ranges
  import opened ClosedRanges
  import opened Predicates

  /** The chain the rewrite builds: the first argument innermost, each later one added on the left. */
  function InChain<T>(arg: Expr<T>, values: seq<Expr<T>>, negated: bool): Expr<T>
    requires values != []
  {
    var op1, op2 := if negated then NotEq else EqOp, if negated then And else Or;
    if |values| == 1 then Binary(op1, arg, values[0])
    else Binary(op2, Binary(op1, arg, values[|values| - 1]), InChain(arg, values[..|values| - 1], negated))
  }

  /** The rewrite as its loop; an empty list is left alone. */
  method RewriteIn<T>(arg: Expr<T>, values: seq<Expr<T>>, negated: bool) returns (e: Option<Expr<T>>)
    ensures e == if values == [] then None else Some(InChain(arg, values, negated))
  {
    if values == [] {
      return None;
    }
    var op1, op2 := if negated then NotEq else EqOp, if negated then And else Or;
    var chain := Binary(op1, arg, values[0]);
    for i := 1 to |values|
      invariant chain == InChain(arg, values[..i], negated)
    {
      assert values[..i + 1][..i] == values[..i];
      chain := Binary(op2, Binary(op1, arg, values[i]), chain);
    }
    assert values[..|values|] == values;
    return Some(chain);
  }

  function Constants<T>(ks: seq<T>): (es: seq<Expr<T>>)
    ensures |es| == |ks|
  {
    seq(|ks|, i requires 0 <= i < |ks| => Constant(Val(ks[i])))
  }

  ghost predicate Listed<T>(le: (T, T) -> bool, ks: seq<T>, x: T) {
    exists i :: 0 <= i < |ks| && BothWays(le, ks[i], x)
  }

  predicate AllPoints<T>(rs: seq<Range<T>>) {
    forall i :: 0 <= i < |rs| ==> rs[i].Eq? && rs[i].eq.Val?
  }

  lemma {:induction false} ExtractPoints<T(!new)>(depth: nat, le: (T, T) -> bool, c: Range<T>, rs: seq<Range<T>>, idx: nat)
    requires TotalPreorder(le) && c.Eq? && c.eq.Val? && AllPoints(rs)
    ensures var m := Extract(depth, le, Or, Some(c), rs, idx); m.Merged? && m.ranges != [] && AllPoints(m.ranges)
    decreases if idx < |rs| then |rs| - idx else 0
  {
    if idx < |rs| {
      match Decide(le, Or, c, rs[idx])
      case InsertHere =>
      case SkipEntry => ExtractPoints(depth, le, c, rs, idx + 1);
      case MergeEntry => ExtractPoints(depth, le, MergeSimple(le, Or, c, rs[idx]).value, RemoveAt(rs, idx), idx);
    }
  }

  predicate Points<T>(r: Range<T>) {
    (r.Eq? && r.eq.Val?) || (r.SortedRanges? && AllPoints(r.ranges))
  }

  lemma ListedLast<T>(le: (T, T) -> bool, ks: seq<T>, x: T)
    requires ks != []
    ensures Listed(le, ks, x) <==> BothWays(le, ks[|ks| - 1], x) || Listed(le, ks[..|ks| - 1], x)
  {
    var n := |ks| - 1;
    var init := ks[..n];
    if Listed(le, init, x) { var i :| 0 <= i < n && BothWays(le, init[i], x); assert init[i] == ks[i]; }
    if i :| 0 <= i < |ks| && BothWays(le, ks[i], x) { if i < n { assert init[i] == ks[i]; } }
  }

  lemma {:induction false} InChainClosed<T(!new)>(depth: nat, le: (T, T) -> bool, target: Column, ks: seq<T>)
    requires TotalPreorder(le) && ks != []
    ensures var e := InChain(ColumnRef(target), Constants(ks), false);
            && OrTree(target, e, true)
            && (forall x :: Eval(le, TargetRow(target, x), e).True? <==> Listed(le, ks, x))
            && var out := Detach(depth, le, target, e); out.Done? && out.range.Some? && Points(out.range.value)
  {
    var n := |ks| - 1;
    var es := Constants(ks);
    var last := Binary(EqOp, ColumnRef(target), es[n]);
    assert ClosedLeaf(target, last);
    DisjunctionExact(depth, le, target, last, true);
    forall x ensures Listed(le, ks, x) <==> BothWays(le, ks[n], x) || Listed(le, ks[..n], x) {
      ListedLast(le, ks, x);
    }
    if n > 0 {
      var init := ks[..n];
      assert es[..n] == Constants(init);
      InChainClosed(depth, le, target, init);
      var e := InChain(ColumnRef(target), Constants(init), false);
      var a := Detach(depth, le, target, e).range.value;
      if a.SortedRanges? { ExtractPoints(depth, le, Eq(Val(ks[n])), a.ranges, 0); }
    }
  }

  /** The list in any order, with any duplicates: one point when all constants are the same,
      otherwise the strictly ascending list of the distinct ones. */
  lemma InListRange<T(!new)>(depth: nat, le: (T, T) -> bool, target: Column, ks: seq<T>)
    requires TotalPreorder(le) && ks != []
    ensures var out := Detach(depth, le, target, InChain(ColumnRef(target), Constants(ks), false));
            && out.Done? && out.range.Some?
            && var points := PointList(out.range.value);
            && AllPoints(points) && (out.range.value.SortedRanges? ==> |points| >= 2)
            && (forall i, j :: 0 <= i < j < |points| ==> !le(points[j].eq.v, points[i].eq.v))
            && (forall i :: 0 <= i < |points| ==> Listed(le, ks, points[i].eq.v))
            && (forall k :: 0 <= k < |ks| ==> HasPoint(le, points, ks[k]))
  {
    InChainRange(depth, le, target, ks);
    var r := Detach(depth, le, target, InChain(ColumnRef(target), Constants(ks), false)).range.value;
    PointsAre(le, r, ks);
    PointsAscend(le, r);
  }

  lemma InChainRange<T(!new)>(depth: nat, le: (T, T) -> bool, target: Column, ks: seq<T>)
    requires TotalPreorder(le) && ks != []
    ensures var out := Detach(depth, le, target, InChain(ColumnRef(target), Constants(ks), false));
            && out.Done? && out.range.Some? && Points(out.range.value)
            && (out.range.value.SortedRanges? ==> |out.range.value.ranges| >= 2 && Separated(le, out.range.value.ranges))
            && forall x :: In(le, out.range.value, x) <==> Listed(le, ks, x)
  {
    InChainClosed(depth, le, target, ks);
    DisjunctionExact(depth, le, target, InChain(ColumnRef(target), Constants(ks), false), true);
  }

  /** A list without its range around it. */
  function PointList<T>(r: Range<T>): seq<Range<T>> { if r.SortedRanges? then r.ranges else [r] }

  /** Some point is the value. */
  ghost predicate HasPoint<T>(le: (T, T) -> bool, points: seq<Range<T>>, x: T)
    requires AllPoints(points)
  {
    exists i :: 0 <= i < |points| && BothWays(le, x, points[i].eq.v)
  }

  lemma PointsAre<T(!new)>(le: (T, T) -> bool, r: Range<T>, ks: seq<T>)
    requires TotalPreorder(le) && Points(r) && forall x :: In(le, r, x) <==> Listed(le, ks, x)
    ensures var points := PointList(r);
            && AllPoints(points)
            && (forall i :: 0 <= i < |points| ==> Listed(le, ks, points[i].eq.v))
            && (forall k :: 0 <= k < |ks| ==> HasPoint(le, points, ks[k]))
  {
    var points := PointList(r);
    forall i | 0 <= i < |points| ensures Listed(le, ks, points[i].eq.v) {
      PointIn(le, r, i);
    }
    forall k | 0 <= k < |ks| ensures HasPoint(le, points, ks[k]) {
      OwnListed(le, ks, k);
      PointWith(le, r, ks[k]);
    }
  }

  lemma OwnListed<T(!new)>(le: (T, T) -> bool, ks: seq<T>, k: nat)
    requires TotalPreorder(le) && k < |ks|
    ensures Listed(le, ks, ks[k])
  {
    assert le(ks[k], ks[k]) && BothWays(le, ks[k], ks[k]);
  }

  lemma PointIn<T(!new)>(le: (T, T) -> bool, r: Range<T>, i: nat)
    requires TotalPreorder(le) && Points(r) && i < |PointList(r)|
    ensures PointList(r)[i].Eq? && PointList(r)[i].eq.Val? && In(le, r, PointList(r)[i].eq.v)
  {
    var p := PointList(r)[i];
    assert le(p.eq.v, p.eq.v) && In(le, p, p.eq.v);
  }

  /** A value in one of the points is that point. */
  lemma PointWith<T(!new)>(le: (T, T) -> bool, r: Range<T>, x: T)
    requires Points(r) && In(le, r, x)
    ensures HasPoint(le, PointList(r), x)
  {
    var points := PointList(r);
    var i := 0;
    if r.SortedRanges? { i :| 0 <= i < |points| && In(le, points[i], x); }
    assert BothWays(le, x, points[i].eq.v);
  }

  lemma PointsAscend<T(!new)>(le: (T, T) -> bool, r: Range<T>)
    requires TotalPreorder(le) && (r.Eq? || (r.SortedRanges? && AllPoints(r.ranges) && Separated(le, r.ranges)))
    ensures var points := PointList(r);
            forall i, j :: 0 <= i < j < |points| ==> !le(points[j].eq.v, points[i].eq.v)
  {
    if r.SortedRanges? {
      forall i, j | 0 <= i < j < |r.ranges| ensures !le(r.ranges[j].eq.v, r.ranges[i].eq.v) {
        assert !le(Lo(le, r.ranges[j]), Hi(le, r.ranges[i]));
      }
    }
  }

  /** NOT IN bounds nothing. */
  lemma {:induction false} NotInUnbounded<T(!new)>(depth: nat, le: (T, T) -> bool, target: Column, ks: seq<T>)
    requires TotalPreorder(le) && ks != []
    ensures Detach(depth, le, target, InChain(ColumnRef(target), Constants(ks), true)) == Done(None)
  {
    var n := |ks| - 1;
    var last := Binary(NotEq, ColumnRef(target), Constants(ks)[n]);
    ConjunctionExact(depth, le, target, last);
    if n > 0 {
      assert Constants(ks)[..n] == Constants(ks[..n]);
      NotInUnbounded(depth, le, target, ks[..n]);
    }
  }
}
