/** Lists built from `=` and closed intervals: what the merge loop keeps of their order, and what
    AND does to them. */
module ClosedRanges {
  import opened Common
  import opened Ranges
  import opened RangeLaws

  predicate Closed<T>(le: (T, T) -> bool, r: Range<T>) {
    match r
    case Eq(v) => v.Val?
    case Scope(Included(a), Included(b)) => a.Val? && b.Val? && le(a.v, b.v)
    case _ => false
  }

  function Lo<T>(le: (T, T) -> bool, r: Range<T>): T
    requires Closed(le, r)
  {
    if r.Eq? then r.eq.v else r.min.value.v
  }

  function Hi<T>(le: (T, T) -> bool, r: Range<T>): T
    requires Closed(le, r)
  {
    if r.Eq? then r.eq.v else r.max.value.v
  }

  predicate AllClosed<T>(le: (T, T) -> bool, rs: seq<Range<T>>) {
    forall i :: 0 <= i < |rs| ==> Closed(le, rs[i])
  }

  /** Closed entries, each wholly below the next. */
  predicate Separated<T>(le: (T, T) -> bool, rs: seq<Range<T>>) {
    && AllClosed(le, rs)
    && forall i, j :: 0 <= i < j < |rs| ==> !le(Lo(le, rs[j]), Hi(le, rs[i]))
  }

  ghost predicate AllBelow<T>(le: (T, T) -> bool, rs: seq<Range<T>>, n: nat, z: T)
    requires n <= |rs| && AllClosed(le, rs)
  {
    forall i :: 0 <= i < n ==> !le(z, Hi(le, rs[i]))
  }

  ghost predicate AllAbove<T>(le: (T, T) -> bool, rs: seq<Range<T>>, n: nat, z: T)
    requires n <= |rs| && AllClosed(le, rs)
  {
    forall i :: n <= i < |rs| ==> !le(Lo(le, rs[i]), z)
  }

  /** One turn of the loop on closed ranges: the carried range is wholly below the entry, wholly
      above it, or meets it and becomes their join (OR) or their meet (AND). */
  lemma DecideClosed<T(!new)>(le: (T, T) -> bool, op: BinaryOp, c: Range<T>, e: Range<T>)
    requires TotalPreorder(le) && (op.And? || op.Or?)
    requires Closed(le, c) && Closed(le, e)
    ensures match Decide(le, op, c, e)
            case InsertHere => !le(Lo(le, e), Hi(le, c))
            case SkipEntry => !le(Lo(le, c), Hi(le, e))
            case MergeEntry =>
              (var m := MergeSimple(le, op, c, e);
               && m.Some? && Closed(le, m.value)
               && (op.Or? ==> le(Lo(le, m.value), Lo(le, c)) && (le(Lo(le, c), Lo(le, m.value)) || le(Lo(le, e), Lo(le, m.value))))
               && (op.And? ==> le(Hi(le, m.value), Hi(le, c)) && le(Hi(le, m.value), Hi(le, e)) && le(Lo(le, c), Lo(le, m.value))))
            case _ => false
  {
  }

  /** Inserting or appending the carried range keeps the list separated; `z` bounds the entries
      the cursor has passed. */
  lemma InsertSeparated<T(!new)>(le: (T, T) -> bool, c: Range<T>, rs: seq<Range<T>>, idx: nat)
    requires TotalPreorder(le) && Closed(le, c) && Separated(le, rs) && idx <= |rs|
    requires AllBelow(le, rs, idx, Lo(le, c)) && AllAbove(le, rs, idx, Hi(le, c))
    ensures Separated(le, InsertAt(rs, idx, c))
  {
    var s := InsertAt(rs, idx, c);
    forall i | 0 <= i < |s| ensures s[i] == if i < idx then rs[i] else if i == idx then c else rs[i - 1] {}
  }

  lemma RemoveSeparated<T(!new)>(le: (T, T) -> bool, rs: seq<Range<T>>, idx: nat)
    requires Separated(le, rs) && idx < |rs|
    ensures Separated(le, RemoveAt(rs, idx))
    ensures forall i :: 0 <= i < idx ==> RemoveAt(rs, idx)[i] == rs[i]
    ensures forall i :: idx <= i < |rs| - 1 ==> RemoveAt(rs, idx)[i] == rs[i + 1]
  {
  }

  /** The loop invariant of the merge, for the whole run from any cursor: the list stays separated,
      and the entries the cursor has passed stay below the next range to be merged. */
  lemma {:induction false} ExtractSeparated<T(!new)>(depth: nat, le: (T, T) -> bool, op: BinaryOp, c: Range<T>,
                                                     rs: seq<Range<T>>, idx: nat, z: T)
    requires TotalPreorder(le) && (op.And? || op.Or?)
    requires Closed(le, c) && Separated(le, rs) && idx <= |rs| && AllBelow(le, rs, idx, Lo(le, c))
    requires le(Lo(le, c), z) && (op.And? ==> le(Hi(le, c), z))
    ensures var m := Extract(depth, le, op, Some(c), rs, idx);
            m.Merged? && m.ranges != [] && Separated(le, m.ranges) && m.idx <= |m.ranges| && AllBelow(le, m.ranges, m.idx, z)
    decreases |rs| - idx
  {
    if idx == |rs| {
      InsertSeparated(le, c, rs, idx);
      assert InsertAt(rs, idx, c) == rs + [c];
    } else {
      var e := rs[idx];
      DecideClosed(le, op, c, e);
      match Decide(le, op, c, e)
      case InsertHere => InsertSeparated(le, c, rs, idx);
      case SkipEntry => ExtractSeparated(depth, le, op, c, rs, idx + 1, z);
      case MergeEntry =>
        RemoveSeparated(le, rs, idx);
        ExtractSeparated(depth, le, op, MergeSimple(le, op, c, e).value, RemoveAt(rs, idx), idx, z);
    }
  }

  /** AND of any simple range with a closed entry it meets: a simple range ending within the entry. */
  lemma DecideAnd<T(!new)>(le: (T, T) -> bool, c: Range<T>, e: Range<T>, next: Range<T>)
    requires TotalPreorder(le) && c.Simple() && Ordered(le, c)
    requires Closed(le, e) && Closed(le, next) && !le(Lo(le, next), Hi(le, e))
    ensures match Decide(le, And, c, e)
            case InsertHere => true
            case SkipEntry => true
            case MergeEntry =>
              (var m := MergeSimple(le, And, c, e);
               m.Some? && m.value.Simple() && Ordered(le, m.value) && Decide(le, And, m.value, next).InsertHere?)
            case _ => false
  {
  }

  /** The first entry from the cursor on that AND cuts; the length of the list if there is none. */
  function FirstMet<T>(le: (T, T) -> bool, c: Range<T>, rs: seq<Range<T>>, idx: nat): (j: nat)
    requires c.Simple() && idx <= |rs| && forall i :: 0 <= i < |rs| ==> rs[i].Simple()
    ensures idx <= j <= |rs|
    decreases |rs| - idx
  {
    if idx == |rs| then idx
    else
      match Decide(le, And, c, rs[idx])
      case SkipEntry => FirstMet(le, c, rs, idx + 1)
      case InsertHere => |rs|
      case _ => idx
  }

  /** AND of a simple range, whatever its ends, with a separated list: exactly the cut of the first
      entry it meets, next to all other entries whole; next to the range itself when it meets none. So
      every common value is kept, and what is gained lies in one of the two. */
  lemma {:induction false} ExtractAnd<T(!new)>(depth: nat, le: (T, T) -> bool, c: Range<T>, rs: seq<Range<T>>, idx: nat, x: T)
    requires TotalPreorder(le)
    requires c.Simple() && Ordered(le, c) && Separated(le, rs) && idx <= |rs|
    ensures var m, j := Extract(depth, le, And, Some(c), rs, idx), FirstMet(le, c, rs, idx);
            && m.Merged?
            && (In(le, SortedRanges(m.ranges), x)
                <==> if j == |rs| then In(le, c, x) || In(le, SortedRanges(rs), x)
                     else (In(le, c, x) && In(le, rs[j], x)) || In(le, SortedRanges(RemoveAt(rs, j)), x))
    decreases |rs| - idx
  {
    if idx == |rs| {
      InSplit(le, rs, [c], x);
      InOne(le, c, x);
    } else {
      var e := rs[idx];
      var rs' := RemoveAt(rs, idx);
      RemoveSeparated(le, rs, idx);
      if idx < |rs'| {
        assert rs'[idx] == rs[idx + 1];
        DecideAnd(le, c, e, rs'[idx]);
      }
      match Decide(le, And, c, e)
      case InsertHere => InInsert(le, rs, idx, c, x);
      case SkipEntry => ExtractAnd(depth, le, c, rs, idx + 1, x);
      case MergeEntry =>
        var c' := MergeSimple(le, And, c, e).value;
        AndSimpleExact(le, c, e, x);
        if idx < |rs'| {
          InInsert(le, rs', idx, c', x);
        } else {
          InSplit(le, rs', [c'], x);
          InOne(le, c', x);
        }
    }
  }

  /** Consequences of `ExtractAnd` for one value. */
  lemma ExtractAndBounds<T(!new)>(depth: nat, le: (T, T) -> bool, c: Range<T>, rs: seq<Range<T>>, idx: nat, x: T)
    requires TotalPreorder(le)
    requires c.Simple() && Ordered(le, c) && Separated(le, rs) && idx <= |rs|
    ensures var m := Extract(depth, le, And, Some(c), rs, idx);
            && m.Merged?
            && (In(le, c, x) && In(le, SortedRanges(rs), x) ==> In(le, SortedRanges(m.ranges), x))
            && (In(le, SortedRanges(m.ranges), x) ==> In(le, c, x) || In(le, SortedRanges(rs), x))
  {
    ExtractAnd(depth, le, c, rs, idx, x);
    var j := FirstMet(le, c, rs, idx);
    if j < |rs| { InRemove(le, rs, j, x); }
  }

  // ---------------------------------------------------------------- whole merges

  /** What OR and AND of closed leaves produce: nothing, one closed range, or a separated list of
      at least two. */
  predicate ClosedOperand<T>(le: (T, T) -> bool, r: Range<T>) {
    match r
    case Dummy => true
    case SortedRanges(rs) => Separated(le, rs) && |rs| >= 2
    case _ => Closed(le, r)
  }

  lemma ToRangeClosed<T(!new)>(le: (T, T) -> bool, rs: seq<Range<T>>)
    requires Separated(le, rs)
    ensures ClosedOperand(le, RangesToRange(rs))
  {
  }

  lemma {:induction false} MergeListsSeparated<T(!new)>(depth: nat, le: (T, T) -> bool, l: seq<Range<T>>, r: seq<Range<T>>, idx: nat)
    requires TotalPreorder(le) && Separated(le, l) && Separated(le, r)
    requires idx <= |r| && (l != [] ==> AllBelow(le, r, idx, Lo(le, l[0])))
    ensures var m := MergeLists(depth, le, Or, l, r, idx); m.Merged? && Separated(le, m.ranges)
    decreases |l|
  {
    if l != [] {
      var z := Hi(le, l[0]);
      ExtractSeparated(depth, le, Or, l[0], r, idx, z);
      var m := Extract(depth, le, Or, Some(l[0]), r, idx);
      var rest := l[1..];
      assert Separated(le, rest) by {
        assert forall i :: 0 <= i < |rest| ==> rest[i] == l[i + 1];
      }
      if rest != [] {
        assert rest[0] == l[1] && !le(Lo(le, rest[0]), z);
      }
      MergeListsSeparated(depth, le, rest, m.ranges, m.idx);
    }
  }

  lemma SeparatedIsLowerBounded<T(!new)>(le: (T, T) -> bool, r: Range<T>)
    requires TotalPreorder(le) && ClosedOperand(le, r)
    ensures OrOperand(le, r)
  {
  }

  /** OR of closed operands: exactly the union, again a separated list; the list merge carries one
      cursor across all entries of the left list. */
  lemma OrClosed<T(!new)>(depth: nat, le: (T, T) -> bool, l: Range<T>, r: Range<T>)
    requires TotalPreorder(le) && ClosedOperand(le, l) && ClosedOperand(le, r)
    ensures var m := MergeBinary(depth, le, Or, l, r);
            && m.Done? && m.range.Some? && ClosedOperand(le, m.range.value)
            && forall x :: In(le, m.range.value, x) <==> In(le, l, x) || In(le, r, x)
  {
    SeparatedIsLowerBounded(le, l);
    SeparatedIsLowerBounded(le, r);
    OrExact(depth, le, l, r);
    if l.Dummy? || r.Dummy? {
    } else if l.Simple() && r.Simple() {
    } else if l.Simple() {
      ExtractSeparated(depth, le, Or, l, r.ranges, 0, Lo(le, l));
      ToRangeClosed(le, Extract(depth, le, Or, Some(l), r.ranges, 0).ranges);
    } else if r.Simple() {
      ExtractSeparated(depth, le, Or, r, l.ranges, 0, Lo(le, r));
      ToRangeClosed(le, Extract(depth, le, Or, Some(r), l.ranges, 0).ranges);
    } else {
      MergeListsSeparated(depth, le, l.ranges, r.ranges, 0);
      ToRangeClosed(le, MergeLists(depth, le, Or, l.ranges, r.ranges, 0).ranges);
    }
  }

  /** AND of a closed operand with a range that is not a list: no common value is lost and nothing
      outside the two appears; closed again when both are closed. */
  lemma AndOneList<T(!new)>(depth: nat, le: (T, T) -> bool, l: Range<T>, r: Range<T>)
    requires TotalPreorder(le) && Ordered(le, l) && Ordered(le, r)
    requires (ClosedOperand(le, l) && !r.SortedRanges?) || (!l.SortedRanges? && ClosedOperand(le, r))
    ensures var m := MergeBinary(depth, le, And, l, r);
            && m.Done? && m.range.Some?
            && (forall x :: In(le, l, x) && In(le, r, x) ==> In(le, m.range.value, x))
            && (forall x :: In(le, m.range.value, x) ==> In(le, l, x) || In(le, r, x))
            && (ClosedOperand(le, l) && ClosedOperand(le, r) ==> ClosedOperand(le, m.range.value))
  {
    if l.Dummy? || r.Dummy? {
    } else if l.Simple() && r.Simple() {
      forall x {
        AndSimpleExact(le, l, r, x);
      }
    } else {
      var c, rs := if l.Simple() then l else r, if l.Simple() then r.ranges else l.ranges;
      var m := Extract(depth, le, And, Some(c), rs, 0);
      ExtractAndBounds(depth, le, c, rs, 0, Lo(le, rs[0]));
      forall x
        ensures In(le, l, x) && In(le, r, x) ==> In(le, RangesToRange(m.ranges), x)
        ensures In(le, RangesToRange(m.ranges), x) ==> In(le, l, x) || In(le, r, x)
      {
        ExtractAndBounds(depth, le, c, rs, 0, x);
        InToRange(le, m.ranges, x);
      }
      if Closed(le, c) {
        ExtractSeparated(depth, le, And, c, rs, 0, Hi(le, c));
        ToRangeClosed(le, m.ranges);
      }
    }
  }
}
