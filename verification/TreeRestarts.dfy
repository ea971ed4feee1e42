/** Which predicates detach never returns on. */
module TreeRestarts {
  import opened Common
  import opened Ranges
  import opened Predicates
  import opened Restarts

  /** Any nesting of AND, OR and NOT over comparisons of columns and non-null constants. */
  predicate Tree<T>(e: Expr<T>) {
    match e
    case Not(inner) => Tree(inner)
    case Binary(op, l, r) => Comparison(e) || ((op.And? || op.Or?) && Tree(l) && Tree(r))
    case _ => false
  }

  /** Some OR in the tree merges ranges of its two sides that are stuck. */
  predicate Hangs<T(!new)>(le: (T, T) -> bool, target: Column, e: Expr<T>)
    requires TotalPreorder(le) && Tree(e)
  {
    match e
    case Not(inner) => Hangs(le, target, inner)
    case Binary(op, l, r) =>
      !Comparison(e) &&
      if Hangs(le, target, l) || Hangs(le, target, r) then true
      else op.Or? && HangsHere(le, Detach(5, le, target, l), Detach(5, le, target, r))
  }

  predicate HangsHere<T(!new)>(le: (T, T) -> bool, a: Outcome<T>, b: Outcome<T>)
    requires TotalPreorder(le)
  {
    && a.Done? && b.Done? && a.range.Some? && b.range.Some? && Built(le, a.range.value) && Built(le, b.range.value)
    && StuckMerge(le, a.range.value, b.range.value)
  }

  lemma LeafBuilt<T(!new)>(depth: nat, le: (T, T) -> bool, target: Column, e: Expr<T>)
    requires TotalPreorder(le) && Comparison(e)
    ensures Detach(depth, le, target, e) == Done(LeafRange(target, e.op, e.l, e.r))
    ensures var o := LeafRange(target, e.op, e.l, e.r); o.Some? ==> Built(le, o.value)
  {
    LeafExact(le, target, e);
  }

  /** A detached outcome that more stack does not change. */
  ghost predicate Settled<T>(le: (T, T) -> bool, out: Outcome<T>) {
    out.Done? && (out.range.Some? ==> Built(le, out.range.value))
  }

  lemma {:induction false} TreeReturns<T(!new)>(depth: nat, le: (T, T) -> bool, target: Column, e: Expr<T>)
    requires TotalPreorder(le) && Tree(e) && !Hangs(le, target, e) && depth >= 5
    ensures Detach(depth, le, target, e) == Detach(5, le, target, e) && Settled(le, Detach(depth, le, target, e))
  {
    if e.Not? {
      TreeReturns(depth, le, target, e.e);
    } else if Comparison(e) {
      LeafBuilt(depth, le, target, e);
      LeafBuilt(5, le, target, e);
    } else {
      TreeReturns(depth, le, target, e.l);
      TreeReturns(depth, le, target, e.r);
      var a, b := Detach(depth, le, target, e.l), Detach(depth, le, target, e.r);
      if a.range.Some? && b.range.Some? {
        JoinReturns(depth, le, e.op, a.range.value, b.range.value);
      }
    }
  }

  lemma JoinReturns<T(!new)>(depth: nat, le: (T, T) -> bool, op: BinaryOp, a: Range<T>, b: Range<T>)
    requires TotalPreorder(le) && Built(le, a) && Built(le, b) && depth >= 5 && (op.And? || (op.Or? && !StuckMerge(le, a, b)))
    ensures MergeBinary(depth, le, op, a, b) == MergeBinary(5, le, op, a, b) && Settled(le, MergeBinary(depth, le, op, a, b))
  {
    if op.Or? {
      OrMergeReturns(depth, le, a, b);
    } else {
      AndMergeReturns(depth, le, a, b);
      AndMergeReturns(5, le, a, b);
    }
  }

  /** With any stack detach runs out, or gives what it gives with more. */
  lemma {:induction false} TreeMoreStack<T(!new)>(d: nat, d': nat, le: (T, T) -> bool, target: Column, e: Expr<T>)
    requires d <= d' && Detach(d, le, target, e).Done?
    ensures Detach(d', le, target, e) == Detach(d, le, target, e)
  {
    match e
    case Not(inner) => TreeMoreStack(d, d', le, target, inner);
    case Binary(op, l, r) =>
      TreeMoreStack(d, d', le, target, l);
      TreeMoreStack(d, d', le, target, r);
      var a, b := Detach(d, le, target, l).range, Detach(d, le, target, r).range;
      if a.Some? && b.Some? { MergeMoreStack(d, d', le, op, a.value, b.value); }
    case _ =>
  }

  lemma MergeMoreStack<T(!new)>(d: nat, d': nat, le: (T, T) -> bool, op: BinaryOp, l: Range<T>, r: Range<T>)
    requires d <= d' && MergeBinary(d, le, op, l, r).Done?
    ensures MergeBinary(d', le, op, l, r) == MergeBinary(d, le, op, l, r)
  {
    if !l.Dummy? && !r.Dummy? && !(l.Simple() && r.Simple()) {
      if l.Simple() {
        MoreStack(d, d', le, op, Some(l), r.ranges, 0);
      } else if r.Simple() {
        MoreStack(d, d', le, op, Some(r), l.ranges, 0);
      } else {
        ListsMoreStack(d, d', le, op, l.ranges, r.ranges, 0);
      }
    }
  }

  lemma {:induction false} ListsMoreStack<T(!new)>(d: nat, d': nat, le: (T, T) -> bool, op: BinaryOp, l: seq<Range<T>>, r: seq<Range<T>>, idx: nat)
    requires d <= d' && MergeLists(d, le, op, l, r, idx).Merged?
    ensures MergeLists(d', le, op, l, r, idx) == MergeLists(d, le, op, l, r, idx)
    decreases |l|
  {
    if l != [] {
      MoreStack(d, d', le, op, Some(l[0]), r, idx);
      var m := Extract(d, le, op, Some(l[0]), r, idx);
      ListsMoreStack(d, d', le, op, l[1..], m.ranges, m.idx);
    }
  }

  lemma {:induction false} TreeForever<T(!new)>(depth: nat, le: (T, T) -> bool, target: Column, e: Expr<T>)
    requires TotalPreorder(le) && Tree(e) && Hangs(le, target, e)
    ensures Detach(depth, le, target, e) == StackOverflow
  {
    if e.Not? {
      TreeForever(depth, le, target, e.e);
    } else if Hangs(le, target, e.l) {
      TreeForever(depth, le, target, e.l);
    } else if Hangs(le, target, e.r) {
      TreeForever(depth, le, target, e.r);
    } else {
      var a, b := Detach(depth, le, target, e.l), Detach(depth, le, target, e.r);
      SideSettles(depth, le, target, e.l);
      SideSettles(depth, le, target, e.r);
      if a.Done? && b.Done? { OrMergeForever(depth, le, a.range.value, b.range.value); }
    }
  }

  lemma SideSettles<T(!new)>(depth: nat, le: (T, T) -> bool, target: Column, e: Expr<T>)
    requires TotalPreorder(le) && Tree(e) && !Hangs(le, target, e)
    ensures Detach(depth, le, target, e).Done? ==> Detach(depth, le, target, e) == Detach(5, le, target, e)
  {
    if depth >= 5 {
      TreeReturns(depth, le, target, e);
    } else if Detach(depth, le, target, e).Done? {
      TreeMoreStack(depth, 5, le, target, e);
    }
  }

  /** For every nesting of AND, OR and NOT over comparisons: detach uses up every stack if and only if some OR is
      stuck; otherwise five frames are enough, and more give the same range. */
  lemma DetachStuck<T(!new)>(le: (T, T) -> bool, target: Column, e: Expr<T>)
    requires TotalPreorder(le) && Tree(e)
    ensures (forall depth :: Detach(depth, le, target, e) == StackOverflow) <==> Hangs(le, target, e)
    ensures !Hangs(le, target, e) ==> forall depth :: depth >= 5 ==> Detach(depth, le, target, e).Done? && Detach(depth, le, target, e) == Detach(5, le, target, e)
  {
    if Hangs(le, target, e) {
      forall depth ensures Detach(depth, le, target, e) == StackOverflow {
        TreeForever(depth, le, target, e);
      }
    } else {
      forall depth: nat | depth >= 5 ensures Detach(depth, le, target, e).Done? && Detach(depth, le, target, e) == Detach(5, le, target, e) {
        TreeReturns(depth, le, target, e);
      }
      var enough: nat := 5;
      assert Detach(enough, le, target, e).Done?;
    }
  }
}
