/** Trees narrowed by AND: any number of conjunctions, with open or closed ends and in any order, around one
    tree that may become a list. */
module Narrowing {
  import opened Common
  import opened Ranges
  import opened RangeLaws
  import opened ClosedRanges
  import opened Predicates

  // ---------------------------------------------------------------- lists with cut entries

  /** Both ends given, the right way round. */
  predicate Finite<T>(le: (T, T) -> bool, r: Range<T>) {
    r.Simple() && Ordered(le, r) && (r.Scope? ==> !r.min.Unbounded? && !r.max.Unbounded?)
  }

  function LowEnd<T>(le: (T, T) -> bool, r: Range<T>): T
    requires Finite(le, r)
  {
    if r.Eq? then r.eq.v else r.min.value.v
  }

  function HighEnd<T>(le: (T, T) -> bool, r: Range<T>): T
    requires Finite(le, r)
  {
    if r.Eq? then r.eq.v else r.max.value.v
  }

  predicate AllFinite<T>(le: (T, T) -> bool, rs: seq<Range<T>>) { forall i :: 0 <= i < |rs| ==> Finite(le, rs[i]) }

  /** Finite entries, the ends of each below those of the next. */
  predicate Stacked<T>(le: (T, T) -> bool, rs: seq<Range<T>>) {
    && AllFinite(le, rs)
    && forall i, j :: 0 <= i < j < |rs| ==> !le(LowEnd(le, rs[j]), HighEnd(le, rs[i]))
  }

  /** An entry with an open upper end was cut by a conjunct that the value meets. */
  predicate Under<T>(le: (T, T) -> bool, r: Range<T>, x: T) {
    r.Scope? && r.max.Excluded? ==> r.max.value.Val? && !le(r.max.value.v, x)
  }

  ghost predicate AllUnder<T>(le: (T, T) -> bool, rs: seq<Range<T>>, x: T) { forall i :: 0 <= i < |rs| ==> Under(le, rs[i], x) }

  lemma SeparatedIsStacked<T(!new)>(le: (T, T) -> bool, rs: seq<Range<T>>, x: T)
    requires Separated(le, rs)
    ensures Stacked(le, rs) && AllUnder(le, rs, x)
  {
    forall i | 0 <= i < |rs| ensures Finite(le, rs[i]) && LowEnd(le, rs[i]) == Lo(le, rs[i]) && HighEnd(le, rs[i]) == Hi(le, rs[i]) {
      assert Closed(le, rs[i]);
    }
  }

  lemma InFinite<T(!new)>(le: (T, T) -> bool, r: Range<T>, x: T)
    requires TotalPreorder(le) && Finite(le, r) && In(le, r, x)
    ensures le(LowEnd(le, r), x) && le(x, HighEnd(le, r))
  {
  }

  lemma MeetFinite<T(!new)>(le: (T, T) -> bool, lo: Bound<T>, hi: Bound<T>)
    requires TotalPreorder(le) && Finite(le, Scope(lo, hi))
    ensures var m := MeetEnds(le, lo, hi);
            && Finite(le, m) && le(lo.value.v, LowEnd(le, m)) && le(HighEnd(le, m), hi.value.v)
            && (m.Scope? ==> m.max == hi)
  {
  }

  /** The tighter ends of a scope and a finite scope, when a value of the first lies in the second or above it. */
  lemma TighterEnds<T(!new)>(le: (T, T) -> bool, c: Range<T>, e: Range<T>, x: T)
    requires TotalPreorder(le) && c.Scope? && e.Scope? && Ordered(le, c) && Finite(le, e) && In(le, c, x) && Under(le, e, x)
    requires In(le, e, x) || !le(x, HighEnd(le, e))
    requires BoundCompared(le, c.min, e.max, true) != Some(Greater)
    ensures var lo, hi := TighterMin(le, c.min, e.min), TighterMax(le, c.max, e.max);
            && Finite(le, Scope(lo, hi)) && le(LowEnd(le, e), lo.value.v) && le(hi.value.v, HighEnd(le, e))
            && Under(le, Scope(lo, hi), x) && (In(le, e, x) ==> In(le, Scope(lo, hi), x))
  {
    NarrowerEnds(le, c.min, e.min, x);
    NarrowerEnds(le, c.max, e.max, x);
  }

  lemma ScopesDecide<T(!new)>(le: (T, T) -> bool, c: Range<T>, e: Range<T>, x: T)
    requires TotalPreorder(le) && c.Scope? && e.Scope? && Ordered(le, c) && Finite(le, e) && In(le, c, x)
    requires In(le, e, x) || !le(x, HighEnd(le, e))
    ensures BoundCompared(le, c.max, e.min, false) != Some(Less)
    ensures BoundCompared(le, c.min, e.max, true) == Some(Greater) ==> !In(le, e, x)
  {
  }

  /** What happens to an entry while a value of the range lies in it or above it: it is passed, which the
      value does not mind, or cut to a range that still holds the value if it did. */
  ghost predicate GoodTurn<T>(le: (T, T) -> bool, c: Range<T>, e: Range<T>, x: T)
    requires c.Simple() && Finite(le, e)
  {
    match Decide(le, And, c, e)
    case SkipEntry => !In(le, e, x)
    case MergeEntry =>
      var m := MergeSimple(le, And, c, e);
      && m.Some? && Finite(le, m.value) && Under(le, m.value, x) && (In(le, e, x) ==> In(le, m.value, x))
      && le(LowEnd(le, e), LowEnd(le, m.value)) && le(HighEnd(le, m.value), HighEnd(le, e))
    case _ => false
  }

  lemma CutScope<T(!new)>(le: (T, T) -> bool, c: Range<T>, e: Range<T>, x: T)
    requires TotalPreorder(le) && c.Scope? && e.Scope? && Ordered(le, c) && Finite(le, e) && In(le, c, x) && Under(le, e, x)
    requires In(le, e, x) || !le(x, HighEnd(le, e))
    ensures GoodTurn(le, c, e, x)
  {
    ScopesDecide(le, c, e, x);
    if BoundCompared(le, c.min, e.max, true) != Some(Greater) {
      var lo, hi := TighterMin(le, c.min, e.min), TighterMax(le, c.max, e.max);
      TighterEnds(le, c, e, x);
      MeetFinite(le, lo, hi);
      MetEnds(le, lo, hi, x);
      var m := MeetEnds(le, lo, hi);
      assert MergeSimple(le, And, c, e) == Some(m);
      Steps(le, LowEnd(le, e), lo.value.v, LowEnd(le, m));
      Steps(le, HighEnd(le, m), hi.value.v, HighEnd(le, e));
    }
  }

  lemma Steps<T(!new)>(le: (T, T) -> bool, a: T, b: T, c: T)
    requires TotalPreorder(le) && le(a, b) && le(b, c)
    ensures le(a, c)
  {
  }

  lemma CutEntry<T(!new)>(le: (T, T) -> bool, c: Range<T>, e: Range<T>, x: T)
    requires TotalPreorder(le) && c.Simple() && Ordered(le, c) && Finite(le, e) && In(le, c, x) && Under(le, e, x)
    requires In(le, e, x) || !le(x, HighEnd(le, e))
    ensures GoodTurn(le, c, e, x)
  {
    if c.Scope? && e.Scope? { CutScope(le, c, e, x); }
  }

  lemma NextInserts<T(!new)>(le: (T, T) -> bool, m: Range<T>, next: Range<T>)
    requires TotalPreorder(le) && Finite(le, m) && Finite(le, next) && !le(LowEnd(le, next), HighEnd(le, m))
    ensures Decide(le, And, m, next) == InsertHere
  {
  }

  lemma CutHere<T(!new)>(depth: nat, le: (T, T) -> bool, c: Range<T>, rs: seq<Range<T>>, idx: nat, cut: Range<T>)
    requires TotalPreorder(le) && c.Simple() && Stacked(le, rs) && idx < |rs|
    requires Decide(le, And, c, rs[idx]).MergeEntry? && MergeSimple(le, And, c, rs[idx]) == Some(cut)
    requires Finite(le, cut) && le(HighEnd(le, cut), HighEnd(le, rs[idx]))
    ensures Extract(depth, le, And, Some(c), rs, idx) == Merged(rs[idx := cut], idx)
  {
    var rs' := RemoveAt(rs, idx);
    if idx < |rs'| {
      assert rs'[idx] == rs[idx + 1] && !le(LowEnd(le, rs[idx + 1]), HighEnd(le, rs[idx]));
      NextInserts(le, cut, rs[idx + 1]);
      assert InsertAt(rs', idx, cut) == rs[idx := cut];
    } else {
      assert rs' + [cut] == rs[idx := cut];
    }
  }

  lemma InOrAbove<T(!new)>(le: (T, T) -> bool, rs: seq<Range<T>>, idx: nat, i: nat, x: T)
    requires TotalPreorder(le) && Stacked(le, rs) && idx <= i < |rs| && In(le, rs[i], x)
    ensures In(le, rs[idx], x) || !le(x, HighEnd(le, rs[idx]))
  {
    InFinite(le, rs[i], x);
    if idx < i { assert !le(LowEnd(le, rs[i]), HighEnd(le, rs[idx])); }
  }

  /** AND with a value in the range and in an entry replaces one entry by a cut of it and keeps the value. */
  lemma {:induction false} ExtractNarrow<T(!new)>(depth: nat, le: (T, T) -> bool, c: Range<T>, rs: seq<Range<T>>, idx: nat, i: nat, x: T)
      returns (j: nat, cut: Range<T>)
    requires TotalPreorder(le) && c.Simple() && Ordered(le, c) && Stacked(le, rs) && AllUnder(le, rs, x)
    requires idx <= i < |rs| && In(le, c, x) && In(le, rs[i], x)
    ensures j <= i && Extract(depth, le, And, Some(c), rs, idx) == Merged(rs[j := cut], j)
    ensures Finite(le, cut) && Under(le, cut, x) && (j == i ==> In(le, cut, x))
    ensures le(LowEnd(le, rs[j]), LowEnd(le, cut)) && le(HighEnd(le, cut), HighEnd(le, rs[j]))
    decreases |rs| - idx
  {
    var e := rs[idx];
    InOrAbove(le, rs, idx, i, x);
    CutEntry(le, c, e, x);
    if Decide(le, And, c, e).SkipEntry? {
      j, cut := ExtractNarrow(depth, le, c, rs, idx + 1, i, x);
    } else {
      j, cut := idx, MergeSimple(le, And, c, e).value;
      CutHere(depth, le, c, rs, idx, cut);
    }
  }

  lemma CutStacked<T(!new)>(le: (T, T) -> bool, rs: seq<Range<T>>, j: nat, cut: Range<T>, x: T)
    requires TotalPreorder(le) && Stacked(le, rs) && AllUnder(le, rs, x) && j < |rs| && Finite(le, cut) && Under(le, cut, x)
    requires le(LowEnd(le, rs[j]), LowEnd(le, cut)) && le(HighEnd(le, cut), HighEnd(le, rs[j]))
    ensures Stacked(le, rs[j := cut]) && AllUnder(le, rs[j := cut], x)
  {
    var out := rs[j := cut];
    forall a, b | 0 <= a < b < |out| ensures !le(LowEnd(le, out[b]), HighEnd(le, out[a])) {
      assert !le(LowEnd(le, rs[b]), HighEnd(le, rs[a]));
    }
  }

  /** What is known of a range for a value of an accepted row. */
  ghost predicate Steady<T>(le: (T, T) -> bool, r: Range<T>, x: T) {
    In(le, r, x) && if r.SortedRanges? then Stacked(le, r.ranges) && AllUnder(le, r.ranges, x) else Ordered(le, r)
  }

  lemma NarrowList<T(!new)>(depth: nat, le: (T, T) -> bool, c: Range<T>, rs: seq<Range<T>>, x: T)
    requires TotalPreorder(le) && !c.SortedRanges? && Steady(le, c, x) && Steady(le, SortedRanges(rs), x)
    ensures var m := Extract(depth, le, And, Some(c), rs, 0); m.Merged? && Steady(le, RangesToRange(m.ranges), x)
  {
    var i: nat :| i < |rs| && In(le, rs[i], x);
    var j, cut := ExtractNarrow(depth, le, c, rs, 0, i, x);
    CutStacked(le, rs, j, cut, x);
    var out := rs[j := cut];
    assert out[i] == if i == j then cut else rs[i];
    assert In(le, SortedRanges(out), x);
    InToRange(le, out, x);
  }

  // ---------------------------------------------------------------- no lists inside lists

  predicate NoNested<T>(r: Range<T>) { r.SortedRanges? ==> NoLists(r.ranges) }

  predicate NoLists<T>(rs: seq<Range<T>>) { forall i :: 0 <= i < |rs| ==> !rs[i].SortedRanges? }

  lemma AndSimpleNoList<T>(le: (T, T) -> bool, l: Range<T>, r: Range<T>)
    requires l.Simple() && r.Simple()
    ensures var m := MergeSimple(le, And, l, r); m.Some? && !m.value.SortedRanges?
  {
  }

  lemma {:induction false} AndNoLists<T>(depth: nat, le: (T, T) -> bool, c: Range<T>, rs: seq<Range<T>>, idx: nat)
    requires !c.SortedRanges? && NoLists(rs)
    ensures var m := Extract(depth, le, And, Some(c), rs, idx); m.Merged? && NoLists(m.ranges)
    decreases if idx < |rs| then |rs| - idx else 0
  {
    if idx < |rs| && c.Simple() && rs[idx].Simple() {
      var rs' := RemoveAt(rs, idx);
      match Decide(le, And, c, rs[idx])
      case InsertHere =>
      case SkipEntry => AndNoLists(depth, le, c, rs, idx + 1);
      case MergeEntry =>
        AndSimpleNoList(le, c, rs[idx]);
        AndNoLists(depth, le, MergeSimple(le, And, c, rs[idx]).value, rs', idx);
      case DiscardEntry => AndNoLists(depth, le, c, rs', idx);
      case TakeEntry => AndNoLists(depth, le, rs[idx], rs', idx);
    }
  }

  /** AND of ranges without nested lists, one of them no list. */
  lemma AndStep<T(!new)>(depth: nat, le: (T, T) -> bool, a: Range<T>, b: Range<T>)
    requires NoNested(a) && NoNested(b) && (!a.SortedRanges? || !b.SortedRanges?)
    ensures var m := MergeBinary(depth, le, And, a, b);
            m.Done? && m.range.Some? && NoNested(m.range.value)
            && (!a.SortedRanges? && !b.SortedRanges? ==> !m.range.value.SortedRanges?)
  {
    if a.Simple() && b.Simple() {
      AndSimpleNoList(le, a, b);
    } else if a.Simple() && b.SortedRanges? {
      AndNoLists(depth, le, a, b.ranges, 0);
    } else if a.SortedRanges? && b.Simple() {
      AndNoLists(depth, le, b, a.ranges, 0);
    }
  }

  lemma AndSteady<T(!new)>(depth: nat, le: (T, T) -> bool, a: Range<T>, b: Range<T>, x: T)
    requires TotalPreorder(le) && Steady(le, a, x) && Steady(le, b, x) && (!a.SortedRanges? || !b.SortedRanges?)
    ensures var m := MergeBinary(depth, le, And, a, b); m.Done? && m.range.Some? && Steady(le, m.range.value, x)
  {
    if a.SortedRanges? {
      NarrowList(depth, le, b, a.ranges, x);
    } else if b.SortedRanges? {
      NarrowList(depth, le, a, b.ranges, x);
    } else {
      AndMerged(depth, le, a, b);
    }
  }

  // ---------------------------------------------------------------- narrowed trees

  /** Never a list: conjunctions, with any ends, and what does not bound the target. */
  predicate Single<T>(target: Column, e: Expr<T>) {
    AndTree(e) || Quiet(target, e) || (e.Binary? && e.op.And? && Single(target, e.l) && Single(target, e.r))
  }

  /** At most one side of an AND can become a list. */
  predicate Narrowed<T>(target: Column, e: Expr<T>) {
    || Single(target, e)
    || Mixed(target, e)
    || (e.Binary? && e.op.And? && Narrowed(target, e.l) && Narrowed(target, e.r) && (Single(target, e.l) || Single(target, e.r)))
  }

  ghost predicate RowSteady<T>(le: (T, T) -> bool, target: Column, e: Expr<T>, row: Column -> Value<T>, range: Option<Range<T>>) {
    range.Some? && Eval(le, row, e).True? ==> row(target).Val? && Steady(le, range.value, row(target).v)
  }

  lemma BaseRow<T(!new)>(depth: nat, le: (T, T) -> bool, target: Column, e: Expr<T>, row: Column -> Value<T>)
    requires TotalPreorder(le) && (AndTree(e) || Mixed(target, e))
    ensures var out := Detach(depth, le, target, e);
            && out.Done? && (out.range.Some? ==> NoNested(out.range.value)) && RowSteady(le, target, e, row, out.range)
            && (AndTree(e) && out.range.Some? ==> !out.range.value.SortedRanges?)
            && (Quiet(target, e) ==> out.range.None?)
  {
    if AndTree(e) {
      ConjunctionExact(depth, le, target, e);
      ConjunctionCovers(depth, le, target, e);
      if Quiet(target, e) { QuietNotClosed(target, e); }
    } else {
      MixedCovers(depth, le, target, e);
      var r := Detach(depth, le, target, e).range;
      if r.Some? && r.value.SortedRanges? && row(target).Val? {
        SeparatedIsStacked(le, r.value.ranges, row(target).v);
      }
    }
  }

  /** For every row, accepted or not: no lists inside lists, and an accepted row's value is in the range. */
  lemma {:induction false} NarrowedRow<T(!new)>(depth: nat, le: (T, T) -> bool, target: Column, e: Expr<T>, row: Column -> Value<T>)
    requires TotalPreorder(le) && Narrowed(target, e)
    ensures var out := Detach(depth, le, target, e);
            && out.Done? && (out.range.Some? ==> NoNested(out.range.value)) && RowSteady(le, target, e, row, out.range)
            && (Single(target, e) && out.range.Some? ==> !out.range.value.SortedRanges?)
  {
    QuietIsMixed(target, e);
    if AndTree(e) || Quiet(target, e) || (Mixed(target, e) && !Single(target, e)) {
      BaseRow(depth, le, target, e, row);
    } else {
      NarrowedRow(depth, le, target, e.l, row);
      NarrowedRow(depth, le, target, e.r, row);
      var a, b := Detach(depth, le, target, e.l).range, Detach(depth, le, target, e.r).range;
      if a.Some? && b.Some? {
        AndStep(depth, le, a.value, b.value);
        if Eval(le, row, e).True? { AndSteady(depth, le, a.value, b.value, row(target).v); }
      }
    }
  }

  /** No accepted row falls outside the range of a narrowed tree. */
  lemma NarrowedCovers<T(!new)>(depth: nat, le: (T, T) -> bool, target: Column, e: Expr<T>)
    requires TotalPreorder(le) && Narrowed(target, e)
    ensures var out := Detach(depth, le, target, e); out.Done? && Covers(le, target, e, out.range)
  {
    var none: Column -> Value<T> := c => Null;
    NarrowedRow(depth, le, target, e, none);
    forall row | Eval(le, row, e).True? {
      NarrowedRow(depth, le, target, e, row);
    }
  }

  /** A mixed tree and any conjunction, in either order. */
  lemma MixedAndConjunctionCovers<T(!new)>(depth: nat, le: (T, T) -> bool, target: Column, e: Expr<T>, c: Expr<T>)
    requires TotalPreorder(le) && Mixed(target, e) && AndTree(c)
    ensures var out := Detach(depth, le, target, Binary(And, e, c)); out.Done? && Covers(le, target, Binary(And, e, c), out.range)
    ensures var out := Detach(depth, le, target, Binary(And, c, e)); out.Done? && Covers(le, target, Binary(And, c, e), out.range)
  {
    assert Single(target, c) && Narrowed(target, c) && Narrowed(target, e);
    NarrowedCovers(depth, le, target, Binary(And, e, c));
    NarrowedCovers(depth, le, target, Binary(And, c, e));
  }

  // ---------------------------------------------------------------- trees with lower ends

  /** OR over conjunctions with a lower end and no strict upper end, and what does not bound the target. */
  predicate Floored<T>(target: Column, e: Expr<T>) {
    || FloorConjunct(target, e)
    || Quiet(target, e)
    || (e.Binary? && e.op.Or? && Floored(target, e.l) && Floored(target, e.r))
    || (e.Binary? && e.op.And? && ((Floored(target, e.l) && Quiet(target, e.r)) || (Quiet(target, e.l) && Floored(target, e.r))))
  }

  /** No accepted row falls outside the range of a tree with lower ends. */
  lemma {:induction false} FlooredCovers<T(!new)>(depth: nat, le: (T, T) -> bool, target: Column, e: Expr<T>)
    requires TotalPreorder(le) && Floored(target, e)
    ensures var out := Detach(depth, le, target, e);
            && out.Done? && Covers(le, target, e, out.range)
            && (out.range.Some? ==> OrOperand(le, out.range.value))
            && (Quiet(target, e) ==> out.range.None?)
  {
    QuietIsMixed(target, e);
    if Quiet(target, e) {
      MixedCovers(depth, le, target, e);
    } else if FloorConjunct(target, e) {
      SomeLeafRange(target, e, FLOOR_OPS);
      ConjunctionCovers(depth, le, target, e);
      ConjunctionExact(depth, le, target, e);
      ConjunctionEnds(depth, le, target, e);
    } else {
      FlooredCovers(depth, le, target, e.l);
      FlooredCovers(depth, le, target, e.r);
      var a, b := Detach(depth, le, target, e.l).range, Detach(depth, le, target, e.r).range;
      if a.Some? && b.Some? { OrExact(depth, le, a.value, b.value); }
    }
  }

  /** An OR tree of lower-bounded leaves is one of them. */
  lemma {:induction false} OrTreeFloored<T>(target: Column, e: Expr<T>)
    requires OrTree(target, e, false)
    ensures Floored(target, e)
  {
    if !FloorLeaf(target, e) {
      OrTreeFloored(target, e.l);
      OrTreeFloored(target, e.r);
    }
  }
}
