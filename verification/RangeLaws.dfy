/** What merging ranges means, for lists of any length and for every cursor. */
module RangeLaws {
  import opened Common
  import opened Ranges

  // ---------------------------------------------------------------- lists

  lemma InSplit<T(!new)>(le: (T, T) -> bool, a: seq<Range<T>>, b: seq<Range<T>>, x: T)
    ensures In(le, SortedRanges(a + b), x) <==> In(le, SortedRanges(a), x) || In(le, SortedRanges(b), x)
  {
    var s := a + b;
    if i :| 0 <= i < |a| && In(le, a[i], x) {
      assert s[i] == a[i];
    }
    if i :| 0 <= i < |b| && In(le, b[i], x) {
      assert s[|a| + i] == b[i];
    }
    if i :| 0 <= i < |s| && In(le, s[i], x) {
      if i < |a| { assert s[i] == a[i]; } else { assert s[i] == b[i - |a|]; }
    }
  }

  lemma InOne<T(!new)>(le: (T, T) -> bool, r: Range<T>, x: T)
    ensures In(le, SortedRanges([r]), x) <==> In(le, r, x)
  {
    assert [r][0] == r;
  }

  lemma InInsert<T(!new)>(le: (T, T) -> bool, rs: seq<Range<T>>, i: nat, r: Range<T>, x: T)
    requires i <= |rs|
    ensures In(le, SortedRanges(InsertAt(rs, i, r)), x) <==> In(le, SortedRanges(rs), x) || In(le, r, x)
  {
    InSplit(le, rs[..i] + [r], rs[i..], x);
    InSplit(le, rs[..i], [r], x);
    InOne(le, r, x);
    InSplit(le, rs[..i], rs[i..], x);
    assert rs[..i] + rs[i..] == rs;
  }

  lemma InRemove<T(!new)>(le: (T, T) -> bool, rs: seq<Range<T>>, i: nat, x: T)
    requires i < |rs|
    ensures In(le, SortedRanges(rs), x) <==> In(le, SortedRanges(RemoveAt(rs, i)), x) || In(le, rs[i], x)
  {
    InInsert(le, RemoveAt(rs, i), i, rs[i], x);
    assert InsertAt(RemoveAt(rs, i), i, rs[i]) == rs;
  }

  lemma InToRange<T(!new)>(le: (T, T) -> bool, rs: seq<Range<T>>, x: T)
    ensures In(le, RangesToRange(rs), x) <==> In(le, SortedRanges(rs), x)
  {
    if |rs| == 1 {
      InOne(le, rs[0], x);
      assert rs == [rs[0]];
    }
  }

  // ---------------------------------------------------------------- OR

  /** A range with a lower end and no strict upper end: `=`, `>`, `>=`, and these together with `<=`. */
  predicate LowerBounded<T>(le: (T, T) -> bool, r: Range<T>) {
    r.Simple() && Ordered(le, r) && (r.Scope? ==> !r.min.Unbounded? && !r.max.Excluded?)
  }

  predicate AllLowerBounded<T>(le: (T, T) -> bool, rs: seq<Range<T>>) {
    forall i :: 0 <= i < |rs| ==> LowerBounded(le, rs[i])
  }

  lemma OrMergeStaysSimple<T(!new)>(le: (T, T) -> bool, c: Range<T>, entry: Range<T>)
    requires TotalPreorder(le) && LowerBounded(le, c) && LowerBounded(le, entry)
    requires Decide(le, Or, c, entry).MergeEntry?
    ensures MergeSimple(le, Or, c, entry).Some? && LowerBounded(le, MergeSimple(le, Or, c, entry).value)
  {
  }

  lemma {:induction false} ExtractOr<T(!new)>(depth: nat, le: (T, T) -> bool, c: Range<T>, rs: seq<Range<T>>, idx: nat)
    requires TotalPreorder(le) && LowerBounded(le, c) && AllLowerBounded(le, rs)
    ensures var m := Extract(depth, le, Or, Some(c), rs, idx);
            && m.Merged? && AllLowerBounded(le, m.ranges) && m.ranges != []
            && forall x :: In(le, SortedRanges(m.ranges), x) <==> In(le, c, x) || In(le, SortedRanges(rs), x)
    decreases if idx < |rs| then |rs| - idx else 0
  {
    var m := Extract(depth, le, Or, Some(c), rs, idx);
    if |rs| <= idx {
      forall x ensures In(le, SortedRanges(m.ranges), x) <==> In(le, c, x) || In(le, SortedRanges(rs), x) {
        InSplit(le, rs, [c], x);
        InOne(le, c, x);
      }
    } else {
      var entry := rs[idx];
      match Decide(le, Or, c, entry)
      case InsertHere =>
        forall x ensures In(le, SortedRanges(m.ranges), x) <==> In(le, c, x) || In(le, SortedRanges(rs), x) {
          InInsert(le, rs, idx, c, x);
        }
      case SkipEntry => ExtractOr(depth, le, c, rs, idx + 1);
      case MergeEntry =>
        OrMergeStaysSimple(le, c, entry);
        var c' := MergeSimple(le, Or, c, entry).value;
        var rs' := RemoveAt(rs, idx);
        ExtractOr(depth, le, c', rs', idx);
        forall x ensures In(le, SortedRanges(m.ranges), x) <==> In(le, c, x) || In(le, SortedRanges(rs), x) {
          OrSimpleExact(le, c, entry, x);
          InRemove(le, rs, idx, x);
        }
    }
  }

  /** Operands of the OR law: nothing, a lower-bounded range, or a list of them. */
  predicate OrOperand<T>(le: (T, T) -> bool, r: Range<T>) {
    match r
    case Dummy => true
    case SortedRanges(rs) => AllLowerBounded(le, rs)
    case _ => LowerBounded(le, r)
  }

  lemma {:induction false} MergeListsOr<T(!new)>(depth: nat, le: (T, T) -> bool, l: seq<Range<T>>, r: seq<Range<T>>, idx: nat)
    requires TotalPreorder(le) && AllLowerBounded(le, l) && AllLowerBounded(le, r)
    ensures var m := MergeLists(depth, le, Or, l, r, idx);
            && m.Merged? && AllLowerBounded(le, m.ranges)
            && forall x :: In(le, SortedRanges(m.ranges), x) <==> In(le, SortedRanges(l), x) || In(le, SortedRanges(r), x)
    decreases |l|
  {
    if l != [] {
      ExtractOr(depth, le, l[0], r, idx);
      var m := Extract(depth, le, Or, Some(l[0]), r, idx);
      MergeListsOr(depth, le, l[1..], m.ranges, m.idx);
      forall x ensures In(le, SortedRanges(l), x) <==> In(le, l[0], x) || In(le, SortedRanges(l[1..]), x) {
        InRemove(le, l, 0, x);
        assert RemoveAt(l, 0) == l[1..];
      }
    }
  }

  /** OR on such operands is exactly the union: no value is lost or gained, for lists of any
      length, whatever the order of their entries, and no stack is used. */
  lemma OrExact<T(!new)>(depth: nat, le: (T, T) -> bool, l: Range<T>, r: Range<T>)
    requires TotalPreorder(le) && OrOperand(le, l) && OrOperand(le, r)
    ensures var m := MergeBinary(depth, le, Or, l, r);
            && m.Done? && m.range.Some? && OrOperand(le, m.range.value)
            && forall x :: In(le, m.range.value, x) <==> In(le, l, x) || In(le, r, x)
  {
    var m := MergeBinary(depth, le, Or, l, r);
    if l.Dummy? || r.Dummy? {
    } else if l.Simple() && r.Simple() {
      forall x ensures In(le, m.range.value, x) <==> In(le, l, x) || In(le, r, x) {
        OrSimpleExact(le, l, r, x);
      }
    } else {
      var rs: seq<Range<T>>;
      if l.Simple() {
        ExtractOr(depth, le, l, r.ranges, 0);
        rs := Extract(depth, le, Or, Some(l), r.ranges, 0).ranges;
      } else if r.Simple() {
        ExtractOr(depth, le, r, l.ranges, 0);
        rs := Extract(depth, le, Or, Some(r), l.ranges, 0).ranges;
      } else {
        MergeListsOr(depth, le, l.ranges, r.ranges, 0);
        rs := MergeLists(depth, le, Or, l.ranges, r.ranges, 0).ranges;
      }
      forall x ensures In(le, m.range.value, x) <==> In(le, l, x) || In(le, r, x) {
        InToRange(le, rs, x);
      }
    }
  }
}
