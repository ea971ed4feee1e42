/** OR of ranges that start at a value they hold, strict upper ends included: which entries the restart drops, and
    when the merge is the union. */
module HalfOpenLists {
  import opened Common
  import opened Ranges
  import opened RangeLaws
  import opened Restarts

  /** `=`, `>=`, and this together with `<` or `<=`. */
  predicate Anchored<T>(le: (T, T) -> bool, r: Range<T>) { Plain(le, r) && (r.Scope? ==> r.min.Included?) }

  predicate AllAnchored<T>(le: (T, T) -> bool, rs: seq<Range<T>>) { forall i :: 0 <= i < |rs| ==> Anchored(le, rs[i]) }

  /** Where the merge stands when its first list meets another entry. */
  datatype Halt<T> = NoHalt | Halt(u: Range<T>, z: Range<T>, rest: seq<Range<T>>, k: nat)

  function HaltOf<T(!new)>(le: (T, T) -> bool, c: Range<T>, rs: seq<Range<T>>, idx: nat): (h: Halt<T>)
    requires TotalPreorder(le) && Anchored(le, c) && AllAnchored(le, rs)
    ensures h.Halt? ==> Anchored(le, h.u) && Anchored(le, h.z) && AllAnchored(le, h.rest) && h.k < |h.rest| && Sticks(le, h.u, h.z)
    decreases if idx < |rs| then |rs| - idx else 0
  {
    if |rs| <= idx then NoHalt
    else
      var e, rs' := rs[idx], RemoveAt(rs, idx);
      match Decide(le, Or, c, e)
      case SkipEntry => HaltOf(le, c, rs, idx + 1)
      case MergeEntry =>
        if Sticks(le, e, c) then (if idx < |rs'| then Halt(e, c, rs', idx) else NoHalt)
        else AnchoredTurn(le, c, e); HaltOf(le, MergeSimple(le, Or, c, e).value, rs', idx)
      case _ => NoHalt
  }

  lemma AnchoredTurn<T(!new)>(le: (T, T) -> bool, c: Range<T>, e: Range<T>)
    requires TotalPreorder(le) && Anchored(le, c) && Anchored(le, e) && Decide(le, Or, c, e).MergeEntry? && !Sticks(le, e, c)
    ensures var m := MergeSimple(le, Or, c, e); m.Some? && Anchored(le, m.value)
  {
    OtherMerges(le, c, e);
    LowerEnd(le, c, e);
  }

  lemma LowerEnd<T(!new)>(le: (T, T) -> bool, c: Range<T>, e: Range<T>)
    requires Anchored(le, c) && Anchored(le, e)
    ensures var m := MergeSimple(le, Or, c, e); m.Some? && (m.value.Scope? ==> m.value.min.Included?)
  {
  }

  lemma NoGap<T>(le: (T, T) -> bool, a: Range<T>, b: Range<T>)
    requires Anchored(le, a) && Anchored(le, b)
    ensures !Gap(le, a, b) && !Gap(le, b, a)
  {
  }

  /** The values of the range and the list are those of the two in the list and of what is left. */
  lemma {:induction false} HaltHolds<T(!new)>(le: (T, T) -> bool, c: Range<T>, rs: seq<Range<T>>, idx: nat, x: T)
    requires TotalPreorder(le) && Anchored(le, c) && AllAnchored(le, rs) && HaltOf(le, c, rs, idx).Halt?
    ensures var h := HaltOf(le, c, rs, idx);
            In(le, c, x) || In(le, SortedRanges(rs), x) <==> In(le, h.u, x) || In(le, h.z, x) || In(le, SortedRanges(h.rest), x)
    decreases if idx < |rs| then |rs| - idx else 0
  {
    var e, rs' := rs[idx], RemoveAt(rs, idx);
    InRemove(le, rs, idx, x);
    if Decide(le, Or, c, e).SkipEntry? {
      HaltHolds(le, c, rs, idx + 1, x);
    } else if !Sticks(le, e, c) {
      AnchoredTurn(le, c, e);
      NoGap(le, c, e);
      OrSimpleExact(le, c, e, x);
      HaltHolds(le, MergeSimple(le, Or, c, e).value, rs', idx, x);
    }
  }

  lemma {:induction false} HaltReached<T(!new)>(depth: nat, le: (T, T) -> bool, c: Range<T>, rs: seq<Range<T>>, idx: nat)
    requires TotalPreorder(le) && Anchored(le, c) && AllAnchored(le, rs) && HaltOf(le, c, rs, idx).Halt?
    ensures var h := HaltOf(le, c, rs, idx);
            Extract(depth, le, Or, Some(c), rs, idx) == Extract(depth, le, Or, Some(SortedRanges([h.u, h.z])), h.rest, h.k)
    decreases if idx < |rs| then |rs| - idx else 0
  {
    var e, rs' := rs[idx], RemoveAt(rs, idx);
    SameTurn(depth, le, c, rs, idx);
    if Decide(le, Or, c, e).SkipEntry? {
      HaltReached(depth, le, c, rs, idx + 1);
    } else if Sticks(le, e, c) {
      StickMerges(le, e, c);
    } else {
      AnchoredTurn(le, c, e);
      HaltReached(depth, le, MergeSimple(le, Or, c, e).value, rs', idx);
    }
  }

  /** Without such a halt the merge is the union, and uses no stack. */
  lemma {:induction false} NoHaltExact<T(!new)>(depth: nat, le: (T, T) -> bool, c: Range<T>, rs: seq<Range<T>>, idx: nat, x: T)
    requires TotalPreorder(le) && Anchored(le, c) && AllAnchored(le, rs) && HaltOf(le, c, rs, idx).NoHalt?
    ensures var m := Extract(depth, le, Or, Some(c), rs, idx);
            m.Merged? && (In(le, SortedRanges(m.ranges), x) <==> In(le, c, x) || In(le, SortedRanges(rs), x))
    decreases if idx < |rs| then |rs| - idx else 0
  {
    if |rs| <= idx {
      InSplit(le, rs, [c], x);
      InOne(le, c, x);
    } else {
      var e, rs' := rs[idx], RemoveAt(rs, idx);
      NoOther(le, c, e);
      SameTurn(depth, le, c, rs, idx);
      InRemove(le, rs, idx, x);
      if Decide(le, Or, c, e).InsertHere? {
        InInsert(le, rs, idx, c, x);
      } else if Decide(le, Or, c, e).SkipEntry? {
        NoHaltExact(depth, le, c, rs, idx + 1, x);
      } else if Sticks(le, e, c) {
        StickMerges(le, e, c);
        LastPair(depth, le, e, c, rs', idx, x);
      } else {
        AnchoredTurn(le, c, e);
        NoGap(le, c, e);
        OrSimpleExact(le, c, e, x);
        NoHaltExact(depth, le, MergeSimple(le, Or, c, e).value, rs', idx, x);
      }
    }
  }

  lemma LastPair<T(!new)>(depth: nat, le: (T, T) -> bool, u: Range<T>, z: Range<T>, rs: seq<Range<T>>, idx: nat, x: T)
    requires |rs| <= idx
    ensures var m := Extract(depth, le, Or, Some(SortedRanges([u, z])), rs, idx);
            m.Merged? && (In(le, SortedRanges(m.ranges), x) <==> In(le, u, x) || In(le, z, x) || In(le, SortedRanges(rs), x))
  {
    InSplit(le, rs, [SortedRanges([u, z])], x);
    InOne(le, SortedRanges([u, z]), x);
    InPair(le, u, z, x);
  }

  /** At a halt exactly the two in the list and the entry they meet are kept. */
  lemma HaltKeeps<T(!new)>(depth: nat, le: (T, T) -> bool, u: Range<T>, z: Range<T>, rest: seq<Range<T>>, k: nat, x: T)
    requires TotalPreorder(le) && Anchored(le, u) && Anchored(le, z) && AllAnchored(le, rest) && k < |rest| && !Sticks(le, u, rest[k]) && depth >= 1
    ensures var m := Extract(depth, le, Or, Some(SortedRanges([u, z])), rest, k);
            m.Merged? && (In(le, SortedRanges(m.ranges), x) <==> In(le, u, x) || In(le, z, x) || In(le, rest[k], x))
  {
    var y := rest[k];
    PairCarried(depth, le, SortedRanges([u, z]), rest, k);
    PairHalts(le, y, u, z);
    NoHaltExact(depth - 1, le, y, [u, z], 0, x);
    InPair(le, u, z, x);
  }

  lemma PairHalts<T(!new)>(le: (T, T) -> bool, y: Range<T>, u: Range<T>, z: Range<T>)
    requires TotalPreorder(le) && Anchored(le, y) && Anchored(le, u) && Anchored(le, z) && !Sticks(le, u, y)
    ensures HaltOf(le, y, [u, z], 0).NoHalt?
  {
    assert RemoveAt([u, z], 0) == [z];
    if Decide(le, Or, y, u).MergeEntry? {
      AnchoredTurn(le, y, u);
      LastHalts(le, MergeSimple(le, Or, y, u).value, [z], 0);
    } else if Decide(le, Or, y, u).SkipEntry? {
      LastHalts(le, y, [u, z], 1);
    }
  }

  lemma LastHalts<T(!new)>(le: (T, T) -> bool, c: Range<T>, rs: seq<Range<T>>, idx: nat)
    requires TotalPreorder(le) && Anchored(le, c) && AllAnchored(le, rs) && idx + 1 == |rs|
    ensures HaltOf(le, c, rs, idx).NoHalt?
  {
    if Decide(le, Or, c, rs[idx]).MergeEntry? && !Sticks(le, rs[idx], c) { AnchoredTurn(le, c, rs[idx]); }
  }

  /** Every value of a dropped entry lies in what is kept. */
  ghost predicate RestKept<T(!new)>(le: (T, T) -> bool, h: Halt<T>)
    requires h.Halt? && h.k < |h.rest|
  {
    forall j, x :: 0 <= j < |h.rest| && j != h.k && In(le, h.rest[j], x) ==> In(le, h.u, x) || In(le, h.z, x) || In(le, h.rest[h.k], x)
  }

  /** OR of such a range into a list of them, in any order: without a halt it is the union; at a halt it uses up every
      stack if and only if the next entry sticks too, and otherwise is the union if and only if the entries it drops
      lie in the three it keeps. One frame is enough. */
  lemma OrAnchoredExact<T(!new)>(depth: nat, le: (T, T) -> bool, c: Range<T>, rs: seq<Range<T>>)
    requires TotalPreorder(le) && Anchored(le, c) && AllAnchored(le, rs) && depth >= 1
    ensures var h := HaltOf(le, c, rs, 0);
            var m := Extract(depth, le, Or, Some(c), rs, 0);
            && (m.MergeOverflow? <==> h.Halt? && Sticks(le, h.u, h.rest[h.k]))
            && (m.Merged? ==>
                  ((forall x :: In(le, SortedRanges(m.ranges), x) <==> In(le, c, x) || In(le, SortedRanges(rs), x))
                   <==> h.NoHalt? || RestKept(le, h)))
  {
    var h := HaltOf(le, c, rs, 0);
    if h.NoHalt? {
      forall x { NoHaltExact(depth, le, c, rs, 0, x); }
      NoHaltMerged(depth, le, c, rs);
    } else {
      HaltReached(depth, le, c, rs, 0);
      if Sticks(le, h.u, h.rest[h.k]) {
        CarriedForever(depth, le, SortedRanges([h.u, h.z]), h.rest, h.k);
      } else {
        HaltExact(depth, le, c, rs);
      }
    }
  }

  lemma NoHaltMerged<T(!new)>(depth: nat, le: (T, T) -> bool, c: Range<T>, rs: seq<Range<T>>)
    requires TotalPreorder(le) && Anchored(le, c) && AllAnchored(le, rs) && HaltOf(le, c, rs, 0).NoHalt?
    ensures Extract(depth, le, Or, Some(c), rs, 0).Merged?
  {
    NoHaltExact(depth, le, c, rs, 0, if c.Eq? then c.eq.v else c.min.value.v);
  }

  lemma HaltExact<T(!new)>(depth: nat, le: (T, T) -> bool, c: Range<T>, rs: seq<Range<T>>)
    requires TotalPreorder(le) && Anchored(le, c) && AllAnchored(le, rs) && depth >= 1
    requires var h := HaltOf(le, c, rs, 0); h.Halt? && !Sticks(le, h.u, h.rest[h.k])
    ensures var h := HaltOf(le, c, rs, 0);
            var m := Extract(depth, le, Or, Some(c), rs, 0);
            && m.Merged?
            && ((forall x :: In(le, SortedRanges(m.ranges), x) <==> In(le, c, x) || In(le, SortedRanges(rs), x)) <==> RestKept(le, h))
  {
    var h := HaltOf(le, c, rs, 0);
    HaltReached(depth, le, c, rs, 0);
    HaltKeeps(depth, le, h.u, h.z, h.rest, h.k, h.z.min.value.v);
    var out := Extract(depth, le, Or, Some(SortedRanges([h.u, h.z])), h.rest, h.k).ranges;
    forall x ensures In(le, SortedRanges(out), x) <==> In(le, h.u, x) || In(le, h.z, x) || In(le, h.rest[h.k], x) {
      HaltKeeps(depth, le, h.u, h.z, h.rest, h.k, x);
    }
    forall x ensures In(le, c, x) || In(le, SortedRanges(rs), x) <==> In(le, h.u, x) || In(le, h.z, x) || In(le, SortedRanges(h.rest), x) {
      HaltHolds(le, c, rs, 0, x);
    }
    UnionIff(le, out, c, rs, h);
  }

  lemma UnionIff<T(!new)>(le: (T, T) -> bool, out: seq<Range<T>>, c: Range<T>, rs: seq<Range<T>>, h: Halt<T>)
    requires h.Halt? && h.k < |h.rest|
    requires forall x :: In(le, SortedRanges(out), x) <==> In(le, h.u, x) || In(le, h.z, x) || In(le, h.rest[h.k], x)
    requires forall x :: In(le, c, x) || In(le, SortedRanges(rs), x) <==> In(le, h.u, x) || In(le, h.z, x) || In(le, SortedRanges(h.rest), x)
    ensures (forall x :: In(le, SortedRanges(out), x) <==> In(le, c, x) || In(le, SortedRanges(rs), x)) <==> RestKept(le, h)
  {
    if RestKept(le, h) {
      forall x ensures In(le, SortedRanges(out), x) <==> In(le, c, x) || In(le, SortedRanges(rs), x) {
        if j :| 0 <= j < |h.rest| && In(le, h.rest[j], x) {
          assert j == h.k || In(le, h.u, x) || In(le, h.z, x) || In(le, h.rest[h.k], x);
        }
      }
    } else {
      var j, x :| 0 <= j < |h.rest| && j != h.k && In(le, h.rest[j], x) && !(In(le, h.u, x) || In(le, h.z, x) || In(le, h.rest[h.k], x));
      assert In(le, SortedRanges(h.rest), x);
      assert !In(le, SortedRanges(out), x) && (In(le, c, x) || In(le, SortedRanges(rs), x));
    }
  }
}
