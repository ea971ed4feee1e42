/** The arm of the merge that restarts on a carried list: which merges by OR use up every stack, and how much
    stack all others need. */
module Restarts {
  import opened Common
  import opened Ranges

  // ---------------------------------------------------------------- one turn

  predicate Plain<T>(le: (T, T) -> bool, r: Range<T>) { r.Simple() && Ordered(le, r) }

  predicate TwoEnds<T>(r: Range<T>) { r.Scope? && !r.min.Unbounded? && !r.max.Unbounded? }

  /** Carried `c` without a lower end makes a list with an entry that has two: `c` comes first. */
  predicate Opens<T>(le: (T, T) -> bool, c: Range<T>, e: Range<T>)
    requires c.Simple() && e.Simple()
  {
    c.Scope? && c.min.Unbounded? && TwoEnds(e) && Decide(le, Or, c, e).MergeEntry?
  }

  /** Carried `y` makes a list with the entry `u`, which comes first: `y` is everything and `u` a proper start of
      it, or `u` ends just below the value at which `y` starts. */
  predicate Sticks<T>(le: (T, T) -> bool, u: Range<T>, y: Range<T>) {
    && u.Scope? && y.Scope? && !u.max.Unbounded?
    && if u.min.Unbounded? && y.min.Unbounded? then y.max.Unbounded?
       else u.max.Excluded? && y.min.Included? && SameValue(le, u.max.value, y.min.value) && (u.min.Unbounded? ==> y.max.Unbounded?)
  }

  /** The turn makes a list. */
  predicate Makes<T>(le: (T, T) -> bool, c: Range<T>, e: Range<T>)
    requires c.Simple() && e.Simple()
  {
    Opens(le, c, e) || Sticks(le, e, c)
  }

  lemma StickMerges<T(!new)>(le: (T, T) -> bool, u: Range<T>, y: Range<T>)
    requires TotalPreorder(le) && Plain(le, u) && Plain(le, y) && Sticks(le, u, y)
    ensures Decide(le, Or, y, u) == MergeEntry && MergeSimple(le, Or, y, u) == Some(SortedRanges([u, y]))
  {
  }

  lemma OpenMerges<T(!new)>(le: (T, T) -> bool, c: Range<T>, e: Range<T>)
    requires TotalPreorder(le) && Plain(le, c) && Plain(le, e) && Opens(le, c, e)
    ensures MergeSimple(le, Or, c, e) == Some(SortedRanges([c, e])) && !Sticks(le, e, c)
  {
  }

  lemma OtherScopes<T(!new)>(le: (T, T) -> bool, c: Range<T>, e: Range<T>)
    requires TotalPreorder(le) && c.Scope? && e.Scope? && Ordered(le, c) && Ordered(le, e)
    requires Decide(le, Or, c, e).MergeEntry? && !Opens(le, c, e) && !Sticks(le, e, c)
    ensures Plain(le, OrScopeMerge(le, c.min, c.max, e.min, e.max))
  {
  }

  lemma OtherMerges<T(!new)>(le: (T, T) -> bool, c: Range<T>, e: Range<T>)
    requires TotalPreorder(le) && Plain(le, c) && Plain(le, e) && Decide(le, Or, c, e).MergeEntry? && !Makes(le, c, e)
    ensures MergeSimple(le, Or, c, e).Some? && Plain(le, MergeSimple(le, Or, c, e).value)
  {
    if c.Scope? && e.Scope? { OtherScopes(le, c, e); }
  }

  lemma NoOther<T(!new)>(le: (T, T) -> bool, c: Range<T>, e: Range<T>)
    requires TotalPreorder(le) && Plain(le, c) && Plain(le, e)
    ensures Decide(le, Or, c, e) == InsertHere || Decide(le, Or, c, e) == SkipEntry || Decide(le, Or, c, e) == MergeEntry
  {
  }

  // ---------------------------------------------------------------- a range into a pair

  /** The list that a turn makes. */
  function Made<T>(le: (T, T) -> bool, c: Range<T>, e: Range<T>): seq<Range<T>>
    requires c.Simple() && e.Simple()
  {
    if Opens(le, c, e) then [c, e] else [e, c]
  }

  function AtCursor<T>(m: Merged<T>, idx: nat): Merged<T> {
    if m.Merged? then Merged(m.ranges, idx) else m
  }

  lemma MakesMerges<T(!new)>(le: (T, T) -> bool, c: Range<T>, e: Range<T>)
    requires TotalPreorder(le) && Plain(le, c) && Plain(le, e) && Makes(le, c, e)
    ensures Decide(le, Or, c, e) == MergeEntry && MergeSimple(le, Or, c, e) == Some(SortedRanges(Made(le, c, e)))
  {
    if Opens(le, c, e) { OpenMerges(le, c, e); } else { StickMerges(le, e, c); }
  }

  /** A list made of the first of two restarts with the second. */
  lemma PairTurn<T(!new)>(depth: nat, le: (T, T) -> bool, a: Range<T>, p: Range<T>, q: Range<T>)
    requires TotalPreorder(le) && Plain(le, a) && Plain(le, p) && Plain(le, q) && Makes(le, a, p)
    ensures Extract(depth, le, Or, Some(a), [p, q], 0)
         == if depth == 0 then MergeOverflow else AtCursor(Extract(depth - 1, le, Or, Some(q), Made(le, a, p), 0), 0)
  {
    MakesMerges(le, a, p);
    assert RemoveAt([p, q], 0) == [q];
  }

  /** At the last entry nothing restarts. */
  lemma LastRests<T(!new)>(d: nat, d': nat, le: (T, T) -> bool, a: Range<T>, rs: seq<Range<T>>, idx: nat)
    requires TotalPreorder(le) && Plain(le, a) && idx + 1 == |rs| && Plain(le, rs[idx])
    ensures var m := Extract(d, le, Or, Some(a), rs, idx); m.Merged? && m == Extract(d', le, Or, Some(a), rs, idx)
  {
    NoOther(le, a, rs[idx]);
    if Decide(le, Or, a, rs[idx]).MergeEntry? {
      if Makes(le, a, rs[idx]) { MakesMerges(le, a, rs[idx]); } else { OtherMerges(le, a, rs[idx]); }
      assert |RemoveAt(rs, idx)| == idx;
    }
  }

  lemma PairRests<T(!new)>(d: nat, d': nat, le: (T, T) -> bool, a: Range<T>, p: Range<T>, q: Range<T>)
    requires TotalPreorder(le) && Plain(le, a) && Plain(le, p) && Plain(le, q) && !Makes(le, a, p)
    ensures var m := Extract(d, le, Or, Some(a), [p, q], 0); m.Merged? && m == Extract(d', le, Or, Some(a), [p, q], 0)
  {
    NoOther(le, a, p);
    if Decide(le, Or, a, p).MergeEntry? {
      OtherMerges(le, a, p);
      assert RemoveAt([p, q], 0) == [q];
      LastRests(d, d', le, MergeSimple(le, Or, a, p).value, [q], 0);
    } else if Decide(le, Or, a, p).SkipEntry? {
      LastRests(d, d', le, a, [p, q], 1);
    }
  }

  /** A range and a second entry that both stick to the first change places for ever. */
  lemma {:induction false} PairForever<T(!new)>(depth: nat, le: (T, T) -> bool, a: Range<T>, p: Range<T>, q: Range<T>)
    requires TotalPreorder(le) && Plain(le, a) && Plain(le, p) && Plain(le, q) && Sticks(le, p, a) && Sticks(le, p, q)
    ensures Extract(depth, le, Or, Some(a), [p, q], 0) == MergeOverflow
  {
    PairTurn(depth, le, a, p, q);
    StickNotOpen(le, p, a);
    if depth > 0 { PairForever(depth - 1, le, q, p, a); }
  }

  lemma StickNotOpen<T(!new)>(le: (T, T) -> bool, u: Range<T>, y: Range<T>)
    requires u.Simple() && y.Simple() && Sticks(le, u, y)
    ensures !Opens(le, y, u)
  {
  }

  /** What opens has no lower end, what it opens has two ends. */
  lemma OpenFacts<T>(le: (T, T) -> bool, c: Range<T>, e: Range<T>, y: Range<T>)
    requires c.Simple() && e.Simple() && y.Simple() && Opens(le, c, e)
    ensures !Opens(le, y, c) && !Opens(le, e, y) && !Sticks(le, c, e)
    ensures Sticks(le, e, y) ==> !Opens(le, y, c)
  {
  }

  lemma PairOpened<T(!new)>(d: nat, d': nat, le: (T, T) -> bool, a: Range<T>, p: Range<T>, q: Range<T>)
    requires TotalPreorder(le) && Plain(le, a) && Plain(le, p) && Plain(le, q) && Opens(le, a, p) && d >= 2 && d' >= 2
    ensures var m := Extract(d, le, Or, Some(a), [p, q], 0); m.Merged? && m == Extract(d', le, Or, Some(a), [p, q], 0)
  {
    PairTurn(d, le, a, p, q);
    PairTurn(d', le, a, p, q);
    OpenFacts(le, a, p, q);
    if Makes(le, q, a) {
      PairTurn(d - 1, le, q, a, p);
      PairTurn(d' - 1, le, q, a, p);
      PairRests(d - 2, d' - 2, le, p, a, q);
    } else {
      PairRests(d - 1, d' - 1, le, q, a, p);
    }
  }

  lemma PairReturns<T(!new)>(d: nat, d': nat, le: (T, T) -> bool, a: Range<T>, p: Range<T>, q: Range<T>)
    requires TotalPreorder(le) && Plain(le, a) && Plain(le, p) && Plain(le, q) && !(Sticks(le, p, a) && Sticks(le, p, q))
    requires d >= 3 && d' >= 3
    ensures var m := Extract(d, le, Or, Some(a), [p, q], 0); m.Merged? && m == Extract(d', le, Or, Some(a), [p, q], 0)
  {
    if !Makes(le, a, p) {
      PairRests(d, d', le, a, p, q);
    } else if Opens(le, a, p) {
      PairOpened(d, d', le, a, p, q);
    } else {
      PairTurn(d, le, a, p, q);
      PairTurn(d', le, a, p, q);
      if Makes(le, q, p) {
        PairOpened(d - 1, d' - 1, le, q, p, a);
      } else {
        PairRests(d - 1, d' - 1, le, q, p, a);
      }
    }
  }

  /** The same for a pair that a turn has made, with one frame less. */
  lemma MadeReturns<T(!new)>(d: nat, d': nat, le: (T, T) -> bool, y: Range<T>, c: Range<T>, e: Range<T>)
    requires TotalPreorder(le) && Plain(le, y) && Plain(le, c) && Plain(le, e) && Makes(le, c, e) && d >= 2 && d' >= 2
    requires !(Sticks(le, Made(le, c, e)[0], y) && Sticks(le, Made(le, c, e)[0], Made(le, c, e)[1]))
    ensures var m := Extract(d, le, Or, Some(y), Made(le, c, e), 0); m.Merged? && m == Extract(d', le, Or, Some(y), Made(le, c, e), 0)
  {
    var u, z := Made(le, c, e)[0], Made(le, c, e)[1];
    assert Made(le, c, e) == [u, z];
    if !Makes(le, y, u) {
      PairRests(d, d', le, y, u, z);
    } else if Opens(le, y, u) {
      PairOpened(d, d', le, y, u, z);
    } else {
      OpenFacts(le, c, e, y);
      PairTurn(d, le, y, u, z);
      PairTurn(d', le, y, u, z);
      PairRests(d - 1, d' - 1, le, z, u, y);
    }
  }

  // ---------------------------------------------------------------- a range into a list

  /** What a merge puts into lists: nothing, a range, or a list of two ranges. */
  predicate Nice<T>(le: (T, T) -> bool, r: Range<T>) { r.Dummy? || Plain(le, r) || IsPair(le, r) }

  predicate IsPair<T>(le: (T, T) -> bool, r: Range<T>) {
    r.SortedRanges? && |r.ranges| == 2 && Plain(le, r.ranges[0]) && Plain(le, r.ranges[1])
  }

  predicate AllNice<T>(le: (T, T) -> bool, rs: seq<Range<T>>) { forall i :: 0 <= i < |rs| ==> Nice(le, rs[i]) }

  predicate AllPlain<T>(le: (T, T) -> bool, rs: seq<Range<T>>) { forall i :: 0 <= i < |rs| ==> Plain(le, rs[i]) }

  /** A carried pair meets an entry: two ranges that both stick to the same one. */
  predicate StuckPair<T>(le: (T, T) -> bool, u: Range<T>, z: Range<T>, entry: Range<T>) {
    if entry.SortedRanges? then |entry.ranges| == 2 && Sticks(le, entry.ranges[0], u) && Sticks(le, entry.ranges[0], entry.ranges[1])
    else entry.Simple() && Sticks(le, u, entry) && Sticks(le, u, z)
  }

  /** The walk of the merge up to its first list, and whether the next entry keeps it there for ever. */
  predicate Stuck<T(!new)>(le: (T, T) -> bool, c: Range<T>, rs: seq<Range<T>>, idx: nat)
    requires TotalPreorder(le) && Nice(le, c) && AllNice(le, rs)
    decreases if idx < |rs| then |rs| - idx else 0
  {
    idx < |rs| &&
    var entry := rs[idx];
    if c.Dummy? then Stuck(le, entry, RemoveAt(rs, idx), idx)
    else if c.SortedRanges? then StuckPair(le, c.ranges[0], c.ranges[1], entry)
    else if !entry.Simple() then false
    else
      match Decide(le, Or, c, entry)
      case SkipEntry => Stuck(le, c, rs, idx + 1)
      case MergeEntry => TurnNice(le, c, entry); Stuck(le, MergeSimple(le, Or, c, entry).value, RemoveAt(rs, idx), idx)
      case _ => false
  }

  lemma TurnNice<T(!new)>(le: (T, T) -> bool, c: Range<T>, e: Range<T>)
    requires TotalPreorder(le) && Plain(le, c) && Plain(le, e) && Decide(le, Or, c, e).MergeEntry?
    ensures var m := MergeSimple(le, Or, c, e);
            && m.Some? && Nice(le, m.value) && !m.value.Dummy?
            && (m.value.SortedRanges? <==> Makes(le, c, e)) && (Makes(le, c, e) ==> m.value.ranges == Made(le, c, e))
  {
    if Makes(le, c, e) { MakesMerges(le, c, e); } else { OtherMerges(le, c, e); }
  }

  lemma PairCarried<T(!new)>(depth: nat, le: (T, T) -> bool, c: Range<T>, rs: seq<Range<T>>, idx: nat)
    requires IsPair(le, c) && idx < |rs|
    ensures Extract(depth, le, Or, Some(c), rs, idx)
         == if depth == 0 then MergeOverflow else AtCursor(Extract(depth - 1, le, Or, Some(rs[idx]), c.ranges, 0), idx)
  {
  }

  lemma PairIs<T>(le: (T, T) -> bool, r: Range<T>)
    requires IsPair(le, r)
    ensures r.ranges == [r.ranges[0], r.ranges[1]]
  {
  }

  lemma CarriedForever<T(!new)>(depth: nat, le: (T, T) -> bool, c: Range<T>, rs: seq<Range<T>>, idx: nat)
    requires TotalPreorder(le) && IsPair(le, c) && idx < |rs| && Nice(le, rs[idx]) && StuckPair(le, c.ranges[0], c.ranges[1], rs[idx])
    ensures Extract(depth, le, Or, Some(c), rs, idx) == MergeOverflow
  {
    var entry := rs[idx];
    PairCarried(depth, le, c, rs, idx);
    PairIs(le, c);
    if depth > 0 {
      if entry.Simple() {
        PairForever(depth - 1, le, entry, c.ranges[0], c.ranges[1]);
      } else {
        PairIs(le, entry);
        PairCarried(depth - 1, le, entry, c.ranges, 0);
        if depth > 1 { PairForever(depth - 2, le, c.ranges[0], entry.ranges[0], entry.ranges[1]); }
      }
    }
  }

  lemma CarriedReturns<T(!new)>(d: nat, d': nat, le: (T, T) -> bool, c: Range<T>, rs: seq<Range<T>>, idx: nat)
    requires TotalPreorder(le) && IsPair(le, c) && idx < |rs| && Nice(le, rs[idx]) && !StuckPair(le, c.ranges[0], c.ranges[1], rs[idx])
    requires d >= 5 && d' >= 5
    ensures var m := Extract(d, le, Or, Some(c), rs, idx); m.Merged? && m == Extract(d', le, Or, Some(c), rs, idx)
  {
    var entry := rs[idx];
    PairCarried(d, le, c, rs, idx);
    PairCarried(d', le, c, rs, idx);
    PairIs(le, c);
    if entry.Simple() {
      PairReturns(d - 1, d' - 1, le, entry, c.ranges[0], c.ranges[1]);
    } else if entry.Dummy? {
      assert RemoveAt(c.ranges, 0) == [c.ranges[1]];
      LastRests(d - 1, d' - 1, le, c.ranges[0], [c.ranges[1]], 0);
    } else {
      PairIs(le, entry);
      PairCarried(d - 1, le, entry, c.ranges, 0);
      PairCarried(d' - 1, le, entry, c.ranges, 0);
      PairReturns(d - 2, d' - 2, le, c.ranges[0], entry.ranges[0], entry.ranges[1]);
    }
  }

  /** One turn of the walk changes nothing of the outcome. */
  lemma SameTurn<T(!new)>(depth: nat, le: (T, T) -> bool, c: Range<T>, rs: seq<Range<T>>, idx: nat)
    requires idx < |rs| && c.Simple() && rs[idx].Simple()
    ensures Decide(le, Or, c, rs[idx]).SkipEntry? ==> Extract(depth, le, Or, Some(c), rs, idx) == Extract(depth, le, Or, Some(c), rs, idx + 1)
    ensures Decide(le, Or, c, rs[idx]).MergeEntry? ==>
              Extract(depth, le, Or, Some(c), rs, idx) == Extract(depth, le, Or, MergeSimple(le, Or, c, rs[idx]), RemoveAt(rs, idx), idx)
  {
  }

  lemma {:induction false} ExtractForever<T(!new)>(depth: nat, le: (T, T) -> bool, c: Range<T>, rs: seq<Range<T>>, idx: nat)
    requires TotalPreorder(le) && Nice(le, c) && AllNice(le, rs) && Stuck(le, c, rs, idx)
    ensures Extract(depth, le, Or, Some(c), rs, idx) == MergeOverflow
    decreases if idx < |rs| then |rs| - idx else 0
  {
    var entry := rs[idx];
    if c.Dummy? {
      ExtractForever(depth, le, entry, RemoveAt(rs, idx), idx);
    } else if c.SortedRanges? {
      CarriedForever(depth, le, c, rs, idx);
    } else {
      SameTurn(depth, le, c, rs, idx);
      if Decide(le, Or, c, entry).SkipEntry? {
        ExtractForever(depth, le, c, rs, idx + 1);
      } else {
        TurnNice(le, c, entry);
        ExtractForever(depth, le, MergeSimple(le, Or, c, entry).value, RemoveAt(rs, idx), idx);
      }
    }
  }

  lemma {:induction false} ExtractReturns<T(!new)>(d: nat, d': nat, le: (T, T) -> bool, c: Range<T>, rs: seq<Range<T>>, idx: nat)
    requires TotalPreorder(le) && Nice(le, c) && AllNice(le, rs) && !Stuck(le, c, rs, idx) && d >= 5 && d' >= 5
    ensures var m := Extract(d, le, Or, Some(c), rs, idx); m.Merged? && m == Extract(d', le, Or, Some(c), rs, idx)
    decreases if idx < |rs| then |rs| - idx else 0
  {
    if idx < |rs| {
      var entry := rs[idx];
      if c.Dummy? {
        ExtractReturns(d, d', le, entry, RemoveAt(rs, idx), idx);
      } else if c.SortedRanges? {
        CarriedReturns(d, d', le, c, rs, idx);
      } else if entry.Simple() {
        NoOther(le, c, entry);
        SameTurn(d, le, c, rs, idx);
        SameTurn(d', le, c, rs, idx);
        if Decide(le, Or, c, entry).SkipEntry? {
          ExtractReturns(d, d', le, c, rs, idx + 1);
        } else if Decide(le, Or, c, entry).MergeEntry? {
          TurnNice(le, c, entry);
          ExtractReturns(d, d', le, MergeSimple(le, Or, c, entry).value, RemoveAt(rs, idx), idx);
        }
      }
    }
  }

  /** Lists without lists inside need three frames at most. */
  lemma {:induction false} PlainReturns<T(!new)>(d: nat, d': nat, le: (T, T) -> bool, c: Range<T>, rs: seq<Range<T>>, idx: nat)
    requires TotalPreorder(le) && Plain(le, c) && AllPlain(le, rs) && !Stuck(le, c, rs, idx) && d >= 3 && d' >= 3
    ensures var m := Extract(d, le, Or, Some(c), rs, idx); m.Merged? && m == Extract(d', le, Or, Some(c), rs, idx)
    decreases if idx < |rs| then |rs| - idx else 0
  {
    if idx < |rs| {
      var entry := rs[idx];
      NoOther(le, c, entry);
      SameTurn(d, le, c, rs, idx);
      SameTurn(d', le, c, rs, idx);
      if Decide(le, Or, c, entry).SkipEntry? {
        PlainReturns(d, d', le, c, rs, idx + 1);
      } else if Decide(le, Or, c, entry).MergeEntry? {
        TurnNice(le, c, entry);
        var rs' := RemoveAt(rs, idx);
        if Makes(le, c, entry) {
          MadeCarried(d, d', le, c, entry, rs', idx);
        } else {
          PlainReturns(d, d', le, MergeSimple(le, Or, c, entry).value, rs', idx);
        }
      }
    }
  }

  lemma MadeCarried<T(!new)>(d: nat, d': nat, le: (T, T) -> bool, c: Range<T>, e: Range<T>, rs: seq<Range<T>>, idx: nat)
    requires TotalPreorder(le) && Plain(le, c) && Plain(le, e) && Makes(le, c, e) && AllPlain(le, rs) && d >= 3 && d' >= 3
    requires idx < |rs| ==> !StuckPair(le, Made(le, c, e)[0], Made(le, c, e)[1], rs[idx])
    ensures var made := SortedRanges(Made(le, c, e));
            var m := Extract(d, le, Or, Some(made), rs, idx); m.Merged? && m == Extract(d', le, Or, Some(made), rs, idx)
  {
    if idx < |rs| {
      PairCarried(d, le, SortedRanges(Made(le, c, e)), rs, idx);
      PairCarried(d', le, SortedRanges(Made(le, c, e)), rs, idx);
      MadeReturns(d - 1, d' - 1, le, rs[idx], c, e);
    }
  }

  /** The merge runs out of stack however much there is. */
  ghost predicate NeverReturns<T(!new)>(le: (T, T) -> bool, c: Range<T>, rs: seq<Range<T>>, idx: nat) {
    forall depth :: Extract(depth, le, Or, Some(c), rs, idx) == MergeOverflow
  }

  lemma ReturnsOnce<T(!new)>(depth: nat, le: (T, T) -> bool, c: Range<T>, rs: seq<Range<T>>, idx: nat)
    requires Extract(depth, le, Or, Some(c), rs, idx).Merged?
    ensures !NeverReturns(le, c, rs, idx)
  {
  }

  /** The merge of one range into a list uses up every stack if and only if it is stuck; otherwise five frames
      are enough, and three when no entry is a list. */
  lemma ExtractStuck<T(!new)>(le: (T, T) -> bool, c: Range<T>, rs: seq<Range<T>>, idx: nat)
    requires TotalPreorder(le) && Nice(le, c) && AllNice(le, rs)
    ensures NeverReturns(le, c, rs, idx) <==> Stuck(le, c, rs, idx)
    ensures !Stuck(le, c, rs, idx) ==> forall depth :: depth >= 5 ==> Extract(depth, le, Or, Some(c), rs, idx).Merged?
    ensures !Stuck(le, c, rs, idx) && Plain(le, c) && AllPlain(le, rs) ==>
              forall depth :: depth >= 3 ==> Extract(depth, le, Or, Some(c), rs, idx).Merged?
  {
    if Stuck(le, c, rs, idx) {
      forall depth ensures Extract(depth, le, Or, Some(c), rs, idx) == MergeOverflow {
        ExtractForever(depth, le, c, rs, idx);
      }
    } else {
      ExtractReturns(5, 5, le, c, rs, idx);
      ReturnsOnce(5, le, c, rs, idx);
      forall depth: nat | depth >= 5 ensures Extract(depth, le, Or, Some(c), rs, idx).Merged? {
        ExtractReturns(depth, 5, le, c, rs, idx);
      }
      if Plain(le, c) && AllPlain(le, rs) {
        forall depth: nat | depth >= 3 ensures Extract(depth, le, Or, Some(c), rs, idx).Merged? {
          PlainReturns(depth, 3, le, c, rs, idx);
        }
      }
    }
  }

  // ---------------------------------------------------------------- more stack

  /** A merge that returns does so with more stack too, and with the same result. */
  lemma {:induction false} MoreStack<T(!new)>(d: nat, d': nat, le: (T, T) -> bool, op: BinaryOp, c: Option<Range<T>>, rs: seq<Range<T>>, idx: nat)
    requires d <= d' && Extract(d, le, op, c, rs, idx).Merged?
    ensures Extract(d', le, op, c, rs, idx) == Extract(d, le, op, c, rs, idx)
    decreases d, if idx < |rs| then |rs| - idx else 0
  {
    if c.Some? && idx < |rs| {
      var entry, rs' := rs[idx], RemoveAt(rs, idx);
      if c.value.Dummy? {
        if op.Or? { MoreStack(d, d', le, op, Some(entry), rs', idx); }
      } else if c.value.SortedRanges? {
        MoreStack(d - 1, d' - 1, le, op, Some(entry), c.value.ranges, 0);
      } else if entry.Simple() {
        match Decide(le, op, c.value, entry)
        case InsertHere =>
        case SkipEntry => MoreStack(d, d', le, op, c, rs, idx + 1);
        case MergeEntry => MoreStack(d, d', le, op, MergeSimple(le, op, c.value, entry), rs', idx);
        case DiscardEntry => MoreStack(d, d', le, op, c, rs', idx);
        case TakeEntry => MoreStack(d, d', le, op, Some(entry), rs', idx);
      }
    }
  }

  // ---------------------------------------------------------------- what lists hold

  lemma AndTurnNice<T(!new)>(le: (T, T) -> bool, c: Range<T>, e: Range<T>)
    requires TotalPreorder(le) && Plain(le, c) && Plain(le, e)
    ensures var m := MergeSimple(le, And, c, e); m.Some? && (m.value.Dummy? || Plain(le, m.value))
  {
  }

  lemma PlainDecides<T(!new)>(le: (T, T) -> bool, op: BinaryOp, c: Range<T>, e: Range<T>)
    requires TotalPreorder(le) && Plain(le, c) && Plain(le, e)
    ensures var s := Decide(le, op, c, e); s.InsertHere? || s.SkipEntry? || s.MergeEntry?
  {
  }

  lemma ListNice<T>(le: (T, T) -> bool, rs: seq<Range<T>>, idx: nat, c: Range<T>)
    requires AllNice(le, rs) && Nice(le, c)
    ensures AllNice(le, rs + [c])
    ensures idx < |rs| ==> AllNice(le, RemoveAt(rs, idx)) && AllNice(le, InsertAt(rs, idx, c))
  {
  }

  lemma {:induction false} ExtractNice<T(!new)>(depth: nat, le: (T, T) -> bool, op: BinaryOp, c: Range<T>, rs: seq<Range<T>>, idx: nat)
    requires TotalPreorder(le) && (op.And? || op.Or?) && Nice(le, c) && AllNice(le, rs)
    ensures var m := Extract(depth, le, op, Some(c), rs, idx); m.Merged? ==> AllNice(le, m.ranges)
    decreases depth, if idx < |rs| then |rs| - idx else 0
  {
    ListNice(le, rs, idx, c);
    if idx < |rs| {
      var entry, rs' := rs[idx], RemoveAt(rs, idx);
      if c.Dummy? {
        if op.Or? { ExtractNice(depth, le, op, entry, rs', idx); }
      } else if c.SortedRanges? {
        if depth > 0 { ExtractNice(depth - 1, le, op, entry, c.ranges, 0); }
      } else if entry.Simple() {
        PlainDecides(le, op, c, entry);
        if Decide(le, op, c, entry).SkipEntry? {
          ExtractNice(depth, le, op, c, rs, idx + 1);
        } else if Decide(le, op, c, entry).MergeEntry? {
          if op.Or? { TurnNice(le, c, entry); } else { AndTurnNice(le, c, entry); }
          ExtractNice(depth, le, op, MergeSimple(le, op, c, entry).value, rs', idx);
        }
      }
    }
  }

  // ---------------------------------------------------------------- AND always returns

  lemma {:induction false} AndWalk<T(!new)>(d: nat, d': nat, le: (T, T) -> bool, c: Range<T>, rs: seq<Range<T>>, idx: nat)
    requires TotalPreorder(le) && (c.Dummy? || Plain(le, c)) && AllNice(le, rs)
    ensures var m := Extract(d, le, And, Some(c), rs, idx); m.Merged? && m == Extract(d', le, And, Some(c), rs, idx)
    decreases if idx < |rs| then |rs| - idx else 0
  {
    if idx < |rs| && !c.Dummy? && rs[idx].Simple() {
      PlainDecides(le, And, c, rs[idx]);
      if Decide(le, And, c, rs[idx]).SkipEntry? {
        AndWalk(d, d', le, c, rs, idx + 1);
      } else if Decide(le, And, c, rs[idx]).MergeEntry? {
        AndTurnNice(le, c, rs[idx]);
        AndWalk(d, d', le, MergeSimple(le, And, c, rs[idx]).value, RemoveAt(rs, idx), idx);
      }
    }
  }

  lemma AndReturns<T(!new)>(d: nat, d': nat, le: (T, T) -> bool, c: Range<T>, rs: seq<Range<T>>, idx: nat)
    requires TotalPreorder(le) && Nice(le, c) && AllNice(le, rs) && d >= 2 && d' >= 2
    ensures var m := Extract(d, le, And, Some(c), rs, idx); m.Merged? && m == Extract(d', le, And, Some(c), rs, idx)
  {
    if !c.SortedRanges? {
      AndWalk(d, d', le, c, rs, idx);
    } else if idx < |rs| {
      var entry := rs[idx];
      if entry.SortedRanges? {
        AndWalk(d - 2, d' - 2, le, c.ranges[0], entry.ranges, 0);
      } else {
        AndWalk(d - 1, d' - 1, le, entry, c.ranges, 0);
      }
    }
  }

  // ---------------------------------------------------------------- a list into a list

  /** Some entry of the left list is stuck where the ones before it leave the right list. */
  predicate StuckLists<T(!new)>(le: (T, T) -> bool, l: seq<Range<T>>, r: seq<Range<T>>, idx: nat)
    requires TotalPreorder(le) && AllNice(le, l) && AllNice(le, r)
    decreases |l|
  {
    l != [] &&
    if Stuck(le, l[0], r, idx) then true
    else
      var m := Extract(5, le, Or, Some(l[0]), r, idx);
      ExtractReturns(5, 5, le, l[0], r, idx);
      ExtractNice(5, le, Or, l[0], r, idx);
      StuckLists(le, l[1..], m.ranges, m.idx)
  }

  lemma {:induction false} ListsForever<T(!new)>(depth: nat, le: (T, T) -> bool, l: seq<Range<T>>, r: seq<Range<T>>, idx: nat)
    requires TotalPreorder(le) && AllNice(le, l) && AllNice(le, r) && StuckLists(le, l, r, idx)
    ensures MergeLists(depth, le, Or, l, r, idx) == MergeOverflow
    decreases |l|
  {
    if Stuck(le, l[0], r, idx) {
      ExtractForever(depth, le, l[0], r, idx);
    } else {
      var m := Extract(depth, le, Or, Some(l[0]), r, idx);
      if m.Merged? {
        SameAsEnough(depth, le, l[0], r, idx);
        ExtractNice(depth, le, Or, l[0], r, idx);
        ListsForever(depth, le, l[1..], m.ranges, m.idx);
      }
    }
  }

  lemma SameAsEnough<T(!new)>(depth: nat, le: (T, T) -> bool, c: Range<T>, rs: seq<Range<T>>, idx: nat)
    requires TotalPreorder(le) && Nice(le, c) && AllNice(le, rs) && !Stuck(le, c, rs, idx)
    requires Extract(depth, le, Or, Some(c), rs, idx).Merged?
    ensures Extract(depth, le, Or, Some(c), rs, idx) == Extract(5, le, Or, Some(c), rs, idx)
  {
    if depth < 5 { MoreStack(depth, 5, le, Or, Some(c), rs, idx); } else { ExtractReturns(depth, 5, le, c, rs, idx); }
  }

  lemma {:induction false} ListsReturn<T(!new)>(d: nat, le: (T, T) -> bool, l: seq<Range<T>>, r: seq<Range<T>>, idx: nat)
    requires TotalPreorder(le) && AllNice(le, l) && AllNice(le, r) && !StuckLists(le, l, r, idx) && d >= 5
    ensures var m := MergeLists(d, le, Or, l, r, idx); m.Merged? && AllNice(le, m.ranges) && m == MergeLists(5, le, Or, l, r, idx)
    decreases |l|
  {
    if l != [] {
      ExtractReturns(d, 5, le, l[0], r, idx);
      ExtractNice(d, le, Or, l[0], r, idx);
      var m := Extract(d, le, Or, Some(l[0]), r, idx);
      ListsReturn(d, le, l[1..], m.ranges, m.idx);
    }
  }

  lemma {:induction false} AndListsReturn<T(!new)>(d: nat, le: (T, T) -> bool, l: seq<Range<T>>, r: seq<Range<T>>, idx: nat)
    requires TotalPreorder(le) && AllNice(le, l) && AllNice(le, r) && d >= 2
    ensures var m := MergeLists(d, le, And, l, r, idx); m.Merged? && AllNice(le, m.ranges) && m == MergeLists(2, le, And, l, r, idx)
    decreases |l|
  {
    if l != [] {
      AndReturns(d, 2, le, l[0], r, idx);
      ExtractNice(d, le, And, l[0], r, idx);
      var m := Extract(d, le, And, Some(l[0]), r, idx);
      AndListsReturn(d, le, l[1..], m.ranges, m.idx);
    }
  }

  // ---------------------------------------------------------------- two ranges

  /** The ranges that detaching and merging give. */
  predicate Built<T>(le: (T, T) -> bool, r: Range<T>) {
    r.Dummy? || Plain(le, r) || (r.SortedRanges? && AllNice(le, r.ranges))
  }

  predicate StuckMerge<T(!new)>(le: (T, T) -> bool, l: Range<T>, r: Range<T>)
    requires TotalPreorder(le) && Built(le, l) && Built(le, r)
  {
    if l.Dummy? || r.Dummy? || (l.Simple() && r.Simple()) then false
    else if l.Simple() then Stuck(le, l, r.ranges, 0)
    else if r.Simple() then Stuck(le, r, l.ranges, 0)
    else StuckLists(le, l.ranges, r.ranges, 0)
  }

  lemma OrMergeForever<T(!new)>(depth: nat, le: (T, T) -> bool, l: Range<T>, r: Range<T>)
    requires TotalPreorder(le) && Built(le, l) && Built(le, r) && StuckMerge(le, l, r)
    ensures MergeBinary(depth, le, Or, l, r) == StackOverflow
  {
    if l.Simple() {
      ExtractForever(depth, le, l, r.ranges, 0);
    } else if r.Simple() {
      ExtractForever(depth, le, r, l.ranges, 0);
    } else {
      ListsForever(depth, le, l.ranges, r.ranges, 0);
    }
  }

  lemma PairBuilt<T(!new)>(le: (T, T) -> bool, l: Range<T>, r: Range<T>)
    requires TotalPreorder(le) && Plain(le, l) && Plain(le, r)
    ensures var m := MergeSimple(le, Or, l, r); m.Some? && Built(le, m.value)
    ensures var m := MergeSimple(le, And, l, r); m.Some? && Built(le, m.value)
  {
    AndTurnNice(le, l, r);
    OrPairBuilt(le, l, r);
  }

  lemma OrPairBuilt<T(!new)>(le: (T, T) -> bool, l: Range<T>, r: Range<T>)
    requires TotalPreorder(le) && Plain(le, l) && Plain(le, r)
    ensures var m := MergeSimple(le, Or, l, r); m.Some? && Built(le, m.value)
  {
  }

  lemma OrMergeReturns<T(!new)>(d: nat, le: (T, T) -> bool, l: Range<T>, r: Range<T>)
    requires TotalPreorder(le) && Built(le, l) && Built(le, r) && !StuckMerge(le, l, r) && d >= 5
    ensures var m := MergeBinary(d, le, Or, l, r); m.Done? && m.range.Some? && Built(le, m.range.value) && m == MergeBinary(5, le, Or, l, r)
  {
    if l.Dummy? || r.Dummy? {
    } else if l.Simple() && r.Simple() {
      PairBuilt(le, l, r);
    } else if l.Simple() {
      ExtractReturns(d, 5, le, l, r.ranges, 0);
      ExtractNice(d, le, Or, l, r.ranges, 0);
    } else if r.Simple() {
      ExtractReturns(d, 5, le, r, l.ranges, 0);
      ExtractNice(d, le, Or, r, l.ranges, 0);
    } else {
      ListsReturn(d, le, l.ranges, r.ranges, 0);
    }
  }

  lemma AndMergeReturns<T(!new)>(d: nat, le: (T, T) -> bool, l: Range<T>, r: Range<T>)
    requires TotalPreorder(le) && Built(le, l) && Built(le, r) && d >= 2
    ensures var m := MergeBinary(d, le, And, l, r); m.Done? && m.range.Some? && Built(le, m.range.value) && m == MergeBinary(2, le, And, l, r)
  {
    if l.Dummy? || r.Dummy? {
    } else if l.Simple() && r.Simple() {
      PairBuilt(le, l, r);
    } else if l.Simple() {
      AndReturns(d, 2, le, l, r.ranges, 0);
      ExtractNice(d, le, And, l, r.ranges, 0);
    } else if r.Simple() {
      AndReturns(d, 2, le, r, l.ranges, 0);
      ExtractNice(d, le, And, r, l.ranges, 0);
    } else {
      AndListsReturn(d, le, l.ranges, r.ranges, 0);
    }
  }

  /** OR of two ranges, lists included, uses up every stack if and only if the merge is stuck; otherwise five frames
      are enough and more change nothing. */
  lemma OrMergeStuck<T(!new)>(le: (T, T) -> bool, l: Range<T>, r: Range<T>)
    requires TotalPreorder(le) && Built(le, l) && Built(le, r)
    ensures (forall depth :: MergeBinary(depth, le, Or, l, r) == StackOverflow) <==> StuckMerge(le, l, r)
    ensures !StuckMerge(le, l, r) ==> forall depth :: depth >= 5 ==> MergeBinary(depth, le, Or, l, r) == MergeBinary(5, le, Or, l, r)
    ensures !StuckMerge(le, l, r) && Plain(le, l) && r.SortedRanges? && AllPlain(le, r.ranges) ==>
              forall depth :: depth >= 3 ==> MergeBinary(depth, le, Or, l, r).Done? && MergeBinary(depth, le, Or, r, l).Done?
  {
    if StuckMerge(le, l, r) {
      forall depth ensures MergeBinary(depth, le, Or, l, r) == StackOverflow {
        OrMergeForever(depth, le, l, r);
      }
    } else {
      forall depth: nat | depth >= 5 ensures MergeBinary(depth, le, Or, l, r) == MergeBinary(5, le, Or, l, r) {
        OrMergeReturns(depth, le, l, r);
      }
      var enough: nat := 5;
      OrMergeReturns(enough, le, l, r);
      assert MergeBinary(enough, le, Or, l, r) != StackOverflow;
      if Plain(le, l) && r.SortedRanges? && AllPlain(le, r.ranges) {
        forall depth: nat | depth >= 3 ensures MergeBinary(depth, le, Or, l, r).Done? && MergeBinary(depth, le, Or, r, l).Done? {
          PlainReturns(depth, 3, le, l, r.ranges, 0);
        }
      }
    }
  }
}
