/** OR of a range with no lower end into a list of closed ranges: where the merge restarts, and when it keeps
    the union. */
module OpenLists {
  import opened Common
  import opened Ranges
  import opened RangeLaws
  import opened ClosedRanges

  function Under<T>(max: Bound<T>): Range<T> { Scope(Unbounded, max) }

  /** The range ends below the entry. */
  predicate EndsBelow<T>(le: (T, T) -> bool, max: Bound<T>, e: Range<T>)
    requires Closed(le, e)
  {
    match max
    case Unbounded => false
    case Included(v) => v.Val? && !le(Lo(le, e), v.v)
    case Excluded(v) => v.Val? && le(v.v, Lo(le, e))
  }

  /** An entry the range ends below stops the merge; an equality is absorbed; any other entry makes a list
      of the two. */
  lemma DecideUnder<T(!new)>(le: (T, T) -> bool, max: Bound<T>, e: Range<T>)
    requires TotalPreorder(le) && BoundNonNull(max) && Closed(le, e)
    ensures Decide(le, Or, Under(max), e) == if EndsBelow(le, max, e) then InsertHere else MergeEntry
    ensures !EndsBelow(le, max, e) ==> MergeSimple(le, Or, Under(max), e) == Some(if e.Eq? then Under(max) else SortedRanges([Under(max), e]))
    ensures Decide(le, Or, e, Under(max)) == InsertHere
  {
  }

  lemma UnderHolds<T(!new)>(le: (T, T) -> bool, max: Bound<T>, e: Range<T>, x: T)
    requires TotalPreorder(le) && BoundNonNull(max) && Closed(le, e) && In(le, e, x)
    ensures e.Eq? && !EndsBelow(le, max, e) ==> In(le, Under(max), x)
    ensures BelowMax(le, max, Hi(le, e)) ==> In(le, Under(max), x)
  {
  }

  /** The first entry from `k` on that is not absorbed. */
  function Stop<T>(le: (T, T) -> bool, max: Bound<T>, rs: seq<Range<T>>, k: nat): (p: nat)
    requires AllClosed(le, rs) && k <= |rs|
    ensures k <= p <= |rs| && forall j :: k <= j < p ==> rs[j].Eq? && !EndsBelow(le, max, rs[j])
    decreases |rs| - k
  {
    if k < |rs| && rs[k].Eq? && !EndsBelow(le, max, rs[k]) then Stop(le, max, rs, k + 1) else k
  }

  /** The merge stops at an interval that the range reaches into. */
  predicate MakesList<T>(le: (T, T) -> bool, max: Bound<T>, rs: seq<Range<T>>)
    requires AllClosed(le, rs)
  {
    var p := Stop(le, max, rs, 0); p < |rs| && !EndsBelow(le, max, rs[p])
  }

  function StoppedAt<T>(depth: nat, le: (T, T) -> bool, max: Bound<T>, rs: seq<Range<T>>, p: nat): Merged<T>
    requires AllClosed(le, rs) && p <= |rs|
  {
    if p == |rs| || EndsBelow(le, max, rs[p]) then Merged([Under(max)] + rs[p..], 0)
    else if p + 1 == |rs| then Merged([SortedRanges([Under(max), rs[p]])], 0)
    else if depth == 0 then MergeOverflow
    else Merged([rs[p + 1], Under(max), rs[p]], 0)
  }

  lemma StopIs<T(!new)>(depth: nat, le: (T, T) -> bool, max: Bound<T>, rs: seq<Range<T>>, k: nat)
    requires TotalPreorder(le) && BoundNonNull(max) && Separated(le, rs) && k <= |rs| && Stop(le, max, rs, k) == k
    ensures Extract(depth, le, Or, Some(Under(max)), rs[k..], 0) == StoppedAt(depth, le, max, rs, k)
  {
    var c, t := Under(max), rs[k..];
    if k < |rs| {
      var e := rs[k];
      assert t[0] == e;
      DecideUnder(le, max, e);
      if EndsBelow(le, max, e) {
        assert InsertAt(t, 0, c) == [c] + t;
      } else {
        assert RemoveAt(t, 0) == rs[k + 1..];
        ListCarried(depth, le, max, rs, k);
      }
    } else {
      assert t + [c] == [c] + t;
    }
  }

  /** A carried list: pushed as one entry at the end, or merged with the next entry and nothing after it. */
  lemma ListCarried<T(!new)>(depth: nat, le: (T, T) -> bool, max: Bound<T>, rs: seq<Range<T>>, k: nat)
    requires TotalPreorder(le) && BoundNonNull(max) && Separated(le, rs) && k < |rs|
    ensures var pair := [Under(max), rs[k]];
            Extract(depth, le, Or, Some(SortedRanges(pair)), rs[k + 1..], 0)
            == if k + 1 == |rs| then Merged([SortedRanges(pair)], 0)
               else if depth == 0 then MergeOverflow else Merged([rs[k + 1]] + pair, 0)
  {
    var pair, t := [Under(max), rs[k]], rs[k + 1..];
    if k + 1 < |rs| {
      assert t[0] == rs[k + 1];
      DecideUnder(le, max, rs[k + 1]);
      if depth > 0 {
        assert InsertAt(pair, 0, rs[k + 1]) == [rs[k + 1]] + pair;
        assert Extract(depth - 1, le, Or, Some(rs[k + 1]), pair, 0) == Merged([rs[k + 1]] + pair, 0);
      }
    } else {
      assert t + [SortedRanges(pair)] == [SortedRanges(pair)];
    }
  }

  lemma {:induction false} ExtractUnder<T(!new)>(depth: nat, le: (T, T) -> bool, max: Bound<T>, rs: seq<Range<T>>, k: nat)
    requires TotalPreorder(le) && BoundNonNull(max) && Separated(le, rs) && k <= |rs|
    ensures Extract(depth, le, Or, Some(Under(max)), rs[k..], 0) == StoppedAt(depth, le, max, rs, Stop(le, max, rs, k))
    decreases |rs| - k
  {
    if Stop(le, max, rs, k) == k {
      StopIs(depth, le, max, rs, k);
    } else {
      var m := StoppedAt(depth, le, max, rs, Stop(le, max, rs, k));
      ExtractUnder(depth, le, max, rs, k + 1);
      assert rs[k..][0] == rs[k] && rs[k..][1..] == rs[k + 1..];
      Absorb(depth, le, max, rs[k..], m);
    }
  }

  lemma Absorb<T(!new)>(depth: nat, le: (T, T) -> bool, max: Bound<T>, t: seq<Range<T>>, m: Merged<T>)
    requires TotalPreorder(le) && BoundNonNull(max) && t != [] && Closed(le, t[0]) && t[0].Eq? && !EndsBelow(le, max, t[0])
    requires Extract(depth, le, Or, Some(Under(max)), t[1..], 0) == m
    ensures Extract(depth, le, Or, Some(Under(max)), t, 0) == m
  {
    DecideUnder(le, max, t[0]);
    assert RemoveAt(t, 0) == t[1..];
  }

  // ---------------------------------------------------------------- the union

  /** Every entry after the two at the stop ends inside the range. */
  ghost predicate RestInside<T>(le: (T, T) -> bool, max: Bound<T>, rs: seq<Range<T>>)
    requires AllClosed(le, rs)
  {
    var p := Stop(le, max, rs, 0); forall j :: p + 2 <= j < |rs| ==> BelowMax(le, max, Hi(le, rs[j]))
  }

  lemma ClosedHolds<T(!new)>(le: (T, T) -> bool, e: Range<T>)
    requires TotalPreorder(le) && Closed(le, e)
    ensures In(le, e, Hi(le, e)) && forall x :: In(le, e, x) ==> le(Lo(le, e), x) && le(x, Hi(le, e))
  {
  }

  lemma InList3<T(!new)>(le: (T, T) -> bool, a: Range<T>, b: Range<T>, c: Range<T>, x: T)
    ensures In(le, SortedRanges([a, b, c]), x) <==> In(le, a, x) || In(le, b, x) || In(le, c, x)
  {
    var rs := [a, b, c];
    assert rs[0] == a && rs[1] == b && rs[2] == c;
  }

  /** What is in the list, by where the merge stops. */
  lemma ListByStop<T(!new)>(le: (T, T) -> bool, max: Bound<T>, rs: seq<Range<T>>, x: T)
    requires TotalPreorder(le) && BoundNonNull(max) && Separated(le, rs)
    ensures var p := Stop(le, max, rs, 0);
            In(le, Under(max), x) || In(le, SortedRanges(rs), x) <==> In(le, Under(max), x) || In(le, SortedRanges(rs[p..]), x)
  {
    var p := Stop(le, max, rs, 0);
    InSplit(le, rs[..p], rs[p..], x);
    assert rs[..p] + rs[p..] == rs;
    if In(le, SortedRanges(rs[..p]), x) {
      var i :| 0 <= i < p && In(le, rs[..p][i], x);
      UnderHolds(le, max, rs[i], x);
    }
  }

  /** Without a list the union is exact. */
  lemma NoListExact<T(!new)>(depth: nat, le: (T, T) -> bool, max: Bound<T>, rs: seq<Range<T>>, x: T)
    requires TotalPreorder(le) && BoundNonNull(max) && Separated(le, rs) && !MakesList(le, max, rs)
    ensures var m := StoppedAt(depth, le, max, rs, Stop(le, max, rs, 0));
            m.Merged? && (In(le, RangesToRange(m.ranges), x) <==> In(le, Under(max), x) || In(le, SortedRanges(rs), x))
  {
    var p := Stop(le, max, rs, 0);
    var out := [Under(max)] + rs[p..];
    InToRange(le, out, x);
    InSplit(le, [Under(max)], rs[p..], x);
    InOne(le, Under(max), x);
    ListByStop(le, max, rs, x);
  }

  /** With a list, exactly the range and the two entries at the stop are kept. */
  lemma ListKeeps<T(!new)>(depth: nat, le: (T, T) -> bool, max: Bound<T>, rs: seq<Range<T>>, x: T)
    requires TotalPreorder(le) && BoundNonNull(max) && Separated(le, rs) && MakesList(le, max, rs) && depth >= 1
    ensures var p := Stop(le, max, rs, 0);
            var m := StoppedAt(depth, le, max, rs, p);
            m.Merged? && (In(le, RangesToRange(m.ranges), x)
                          <==> In(le, Under(max), x) || In(le, rs[p], x) || (p + 1 < |rs| && In(le, rs[p + 1], x)))
  {
    var p := Stop(le, max, rs, 0);
    if p + 1 == |rs| {
      InPair(le, Under(max), rs[p], x);
    } else {
      InList3(le, rs[p + 1], Under(max), rs[p], x);
    }
  }

  /** A value of the list outside the range lies in one of the entries from the stop on. */
  lemma TailEntry<T(!new)>(le: (T, T) -> bool, max: Bound<T>, rs: seq<Range<T>>, x: T) returns (j: nat)
    requires TotalPreorder(le) && BoundNonNull(max) && Separated(le, rs) && In(le, SortedRanges(rs), x) && !In(le, Under(max), x)
    ensures Stop(le, max, rs, 0) <= j < |rs| && In(le, rs[j], x)
  {
    ListByStop(le, max, rs, x);
    var p := Stop(le, max, rs, 0);
    var i :| 0 <= i < |rs| - p && In(le, rs[p..][i], x);
    j := p + i;
  }

  lemma InsideKept<T(!new)>(depth: nat, le: (T, T) -> bool, max: Bound<T>, rs: seq<Range<T>>, x: T)
    requires TotalPreorder(le) && BoundNonNull(max) && Separated(le, rs) && MakesList(le, max, rs) && depth >= 1 && RestInside(le, max, rs)
    ensures var m := StoppedAt(depth, le, max, rs, Stop(le, max, rs, 0));
            m.Merged? && (In(le, RangesToRange(m.ranges), x) <==> In(le, Under(max), x) || In(le, SortedRanges(rs), x))
  {
    ListKeeps(depth, le, max, rs, x);
    if In(le, SortedRanges(rs), x) && !In(le, Under(max), x) {
      var j := TailEntry(le, max, rs, x);
      UnderHolds(le, max, rs[j], x);
    }
  }

  /** The upper end of an entry lies in no earlier one. */
  lemma HiAlone<T(!new)>(le: (T, T) -> bool, rs: seq<Range<T>>, i: nat, j: nat)
    requires TotalPreorder(le) && Separated(le, rs) && i < j < |rs|
    ensures !In(le, rs[i], Hi(le, rs[j])) && In(le, rs[j], Hi(le, rs[j]))
  {
    ClosedHolds(le, rs[i]);
    ClosedHolds(le, rs[j]);
  }

  lemma OutsideLost<T(!new)>(depth: nat, le: (T, T) -> bool, max: Bound<T>, rs: seq<Range<T>>) returns (x: T)
    requires TotalPreorder(le) && BoundNonNull(max) && Separated(le, rs) && MakesList(le, max, rs) && depth >= 1 && !RestInside(le, max, rs)
    ensures var m := StoppedAt(depth, le, max, rs, Stop(le, max, rs, 0));
            m.Merged? && !In(le, RangesToRange(m.ranges), x) && In(le, SortedRanges(rs), x)
  {
    var p := Stop(le, max, rs, 0);
    var j: nat :| p + 2 <= j < |rs| && !BelowMax(le, max, Hi(le, rs[j]));
    x := Hi(le, rs[j]);
    HiAlone(le, rs, p, j);
    HiAlone(le, rs, p + 1, j);
    ListKeeps(depth, le, max, rs, x);
  }

  lemma ListExact<T(!new)>(depth: nat, le: (T, T) -> bool, max: Bound<T>, rs: seq<Range<T>>)
    requires TotalPreorder(le) && BoundNonNull(max) && Separated(le, rs) && MakesList(le, max, rs) && depth >= 1
    ensures var m := StoppedAt(depth, le, max, rs, Stop(le, max, rs, 0));
            m.Merged? && ((forall x :: In(le, RangesToRange(m.ranges), x) <==> In(le, Under(max), x) || In(le, SortedRanges(rs), x))
                          <==> RestInside(le, max, rs))
  {
    if RestInside(le, max, rs) {
      forall x
        ensures var m := StoppedAt(depth, le, max, rs, Stop(le, max, rs, 0));
                m.Merged? && (In(le, RangesToRange(m.ranges), x) <==> In(le, Under(max), x) || In(le, SortedRanges(rs), x))
      {
        InsideKept(depth, le, max, rs, x);
      }
      ListKeeps(depth, le, max, rs, Hi(le, rs[0]));
    } else {
      var x := OutsideLost(depth, le, max, rs);
    }
  }

  /** OR of a range with no lower end into a separated list is exactly the union if and only if it makes no
      list of the range and an interval, or every entry after the next one ends inside the range. One
      restart is enough. */
  lemma OrUnderExact<T(!new)>(depth: nat, le: (T, T) -> bool, max: Bound<T>, rs: seq<Range<T>>)
    requires TotalPreorder(le) && BoundNonNull(max) && Separated(le, rs) && |rs| >= 2
    ensures var m := MergeBinary(depth, le, Or, Under(max), SortedRanges(rs));
            && m == MergeBinary(depth, le, Or, SortedRanges(rs), Under(max))
            && (m.StackOverflow? <==> depth == 0 && MakesList(le, max, rs) && Stop(le, max, rs, 0) + 1 < |rs|)
            && (depth >= 1 ==>
                  && m.Done? && m.range.Some?
                  && ((forall x :: In(le, m.range.value, x) <==> In(le, Under(max), x) || In(le, SortedRanges(rs), x))
                      <==> !MakesList(le, max, rs) || RestInside(le, max, rs)))
  {
    ExtractUnder(depth, le, max, rs, 0);
    assert rs[0..] == rs;
    if depth >= 1 {
      if MakesList(le, max, rs) {
        ListExact(depth, le, max, rs);
      } else {
        forall x
          ensures var m := StoppedAt(depth, le, max, rs, Stop(le, max, rs, 0));
                  m.Merged? && (In(le, RangesToRange(m.ranges), x) <==> In(le, Under(max), x) || In(le, SortedRanges(rs), x))
        {
          NoListExact(depth, le, max, rs, x);
        }
      }
    }
  }
}
