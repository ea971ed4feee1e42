/** AND of two lists of closed ranges: what the merge makes of them, and when it keeps every common value. */
module AndLists {
  import opened Common
  import opened Ranges
  import opened RangeLaws
  import opened ClosedRanges

  predicate Meet<T>(le: (T, T) -> bool, a: Range<T>, b: Range<T>)
    requires Closed(le, a) && Closed(le, b)
  {
    le(Lo(le, a), Hi(le, b)) && le(Lo(le, b), Hi(le, a))
  }

  /** One turn of the loop on closed ranges, exactly. */
  lemma DecideMeet<T(!new)>(le: (T, T) -> bool, c: Range<T>, e: Range<T>)
    requires TotalPreorder(le) && Closed(le, c) && Closed(le, e)
    ensures Decide(le, And, c, e)
         == if !le(Lo(le, e), Hi(le, c)) then InsertHere else if !le(Lo(le, c), Hi(le, e)) then SkipEntry else MergeEntry
  {
  }

  /** The common part of two ranges that meet. */
  function Cut<T(!new)>(le: (T, T) -> bool, c: Range<T>, e: Range<T>): Range<T>
    requires Closed(le, c) && Closed(le, e)
  {
    MergeSimple(le, And, c, e).value
  }

  lemma CutIs<T(!new)>(le: (T, T) -> bool, c: Range<T>, e: Range<T>)
    requires TotalPreorder(le) && Closed(le, c) && Closed(le, e) && Meet(le, c, e)
    ensures Closed(le, Cut(le, c, e)) && le(Hi(le, Cut(le, c, e)), Hi(le, c)) && le(Hi(le, Cut(le, c, e)), Hi(le, e))
    ensures forall x :: In(le, Cut(le, c, e), x) <==> In(le, c, x) && In(le, e, x)
  {
    DecideMeet(le, c, e);
    DecideClosed(le, And, c, e);
    forall x ensures In(le, Cut(le, c, e), x) <==> In(le, c, x) && In(le, e, x) {
      AndSimpleExact(le, c, e, x);
    }
  }

  lemma InClosed<T(!new)>(le: (T, T) -> bool, r: Range<T>, x: T)
    requires TotalPreorder(le) && Closed(le, r)
    ensures In(le, r, x) <==> le(Lo(le, r), x) && le(x, Hi(le, r))
    ensures le(Lo(le, r), Hi(le, r))
  {
  }

  /** In separated lists a value lies in one entry at most. */
  lemma OneEntry<T(!new)>(le: (T, T) -> bool, rs: seq<Range<T>>, i: nat, j: nat, x: T)
    requires TotalPreorder(le) && Separated(le, rs) && i < |rs| && j < |rs| && In(le, rs[i], x) && In(le, rs[j], x)
    ensures i == j
  {
    InClosed(le, rs[i], x);
    InClosed(le, rs[j], x);
  }

  /** Separated lists do not meet crosswise. */
  lemma NoCross<T(!new)>(le: (T, T) -> bool, l: seq<Range<T>>, r: seq<Range<T>>, a: nat, b: nat, c: nat, d: nat)
    requires TotalPreorder(le) && Separated(le, l) && Separated(le, r) && a < b < |l| && c < d < |r|
    ensures !(Meet(le, l[a], r[d]) && Meet(le, l[b], r[c]))
  {
    assert !le(Lo(le, l[b]), Hi(le, l[a])) && !le(Lo(le, r[d]), Hi(le, r[c]));
  }

  // ---------------------------------------------------------------- one entry into the list

  /** The first entry from `k` on that does not lie wholly below `c`. */
  function SkipTo<T>(le: (T, T) -> bool, c: Range<T>, r: seq<Range<T>>, k: nat): (j: nat)
    requires Closed(le, c) && AllClosed(le, r) && k <= |r|
    ensures k <= j <= |r| && (forall i :: k <= i < j ==> !le(Lo(le, c), Hi(le, r[i])))
    ensures j < |r| ==> le(Lo(le, c), Hi(le, r[j]))
    decreases |r| - k
  {
    if k < |r| && !le(Lo(le, c), Hi(le, r[k])) then SkipTo(le, c, r, k + 1) else k
  }

  predicate Hits<T>(le: (T, T) -> bool, c: Range<T>, r: seq<Range<T>>, j: nat)
    requires Closed(le, c) && AllClosed(le, r)
  {
    j < |r| && Meet(le, c, r[j])
  }

  /** What takes the place of the entry `c` stops at, and what follows it. */
  function Placed<T(!new)>(le: (T, T) -> bool, c: Range<T>, r: seq<Range<T>>, j: nat): seq<Range<T>>
    requires Closed(le, c) && AllClosed(le, r) && j <= |r|
  {
    if Hits(le, c, r, j) then [Cut(le, c, r[j])] + r[j + 1..] else [c] + r[j..]
  }

  lemma InsertMiddle<A>(d: seq<A>, t: seq<A>, c: A)
    ensures InsertAt(d + t, |d|, c) == d + ([c] + t)
  {
  }

  lemma RemoveMiddle<A>(d: seq<A>, t: seq<A>)
    requires t != []
    ensures (d + t)[|d|] == t[0] && RemoveAt(d + t, |d|) == d + t[1..]
  {
  }

  /** The cut of the entry under the cursor is put in its place. */
  lemma CutHere<T(!new)>(depth: nat, le: (T, T) -> bool, c: Range<T>, rs: seq<Range<T>>, n: nat, rs': seq<Range<T>>)
    requires TotalPreorder(le) && Closed(le, c) && n < |rs| && Closed(le, rs[n]) && Meet(le, c, rs[n])
    requires rs' == RemoveAt(rs, n) && (n < |rs'| ==> Closed(le, rs'[n]) && !le(Lo(le, rs'[n]), Hi(le, rs[n])))
    ensures Extract(depth, le, And, Some(c), rs, n) == Merged(InsertAt(rs', n, Cut(le, c, rs[n])), n)
  {
    var cut := Cut(le, c, rs[n]);
    DecideMeet(le, c, rs[n]);
    CutIs(le, c, rs[n]);
    if n < |rs'| {
      DecideMeet(le, cut, rs'[n]);
    } else {
      assert InsertAt(rs', n, cut) == rs' + [cut];
    }
  }

  lemma PutHere<T(!new)>(depth: nat, le: (T, T) -> bool, c: Range<T>, rs: seq<Range<T>>, n: nat)
    requires TotalPreorder(le) && Closed(le, c) && n <= |rs|
    requires n < |rs| ==> Closed(le, rs[n]) && !Meet(le, c, rs[n]) && le(Lo(le, c), Hi(le, rs[n]))
    ensures Extract(depth, le, And, Some(c), rs, n) == Merged(InsertAt(rs, n, c), n)
  {
    if n < |rs| {
      DecideMeet(le, c, rs[n]);
    } else {
      assert InsertAt(rs, n, c) == rs + [c];
    }
  }

  lemma PlacedHere<T(!new)>(depth: nat, le: (T, T) -> bool, c: Range<T>, d: seq<Range<T>>, r: seq<Range<T>>, k: nat)
    requires TotalPreorder(le) && Closed(le, c) && Separated(le, r) && k <= |r| && (k < |r| ==> le(Lo(le, c), Hi(le, r[k])))
    ensures Extract(depth, le, And, Some(c), d + r[k..], |d|) == Merged(d + Placed(le, c, r, k), |d|)
  {
    var t := r[k..];
    if k < |r| {
      assert t[0] == r[k] && t[1..] == r[k + 1..];
      RemoveMiddle(d, t);
    }
    if Hits(le, c, r, k) {
      var rs' := d + r[k + 1..];
      assert k + 1 < |r| ==> rs'[|d|] == r[k + 1] && !le(Lo(le, r[k + 1]), Hi(le, r[k]));
      CutHere(depth, le, c, d + t, |d|, rs');
      InsertMiddle(d, r[k + 1..], Cut(le, c, r[k]));
    } else {
      PutHere(depth, le, c, d + t, |d|);
      InsertMiddle(d, t, c);
    }
  }

  lemma SkipLast<T(!new)>(depth: nat, le: (T, T) -> bool, c: Range<T>, rs: seq<Range<T>>, n: nat)
    requires TotalPreorder(le) && Closed(le, c) && n < |rs| && Closed(le, rs[n]) && !le(Lo(le, c), Hi(le, rs[n]))
    ensures Extract(depth, le, And, Some(c), rs, n) == Extract(depth, le, And, Some(c), rs, n + 1)
  {
    DecideMeet(le, c, rs[n]);
  }

  lemma {:induction false} SkipRun<T(!new)>(depth: nat, le: (T, T) -> bool, c: Range<T>, rs: seq<Range<T>>, n: nat, m: nat)
    requires TotalPreorder(le) && Closed(le, c) && n <= m <= |rs|
    requires forall i :: n <= i < m ==> Closed(le, rs[i]) && !le(Lo(le, c), Hi(le, rs[i]))
    ensures Extract(depth, le, And, Some(c), rs, n) == Extract(depth, le, And, Some(c), rs, m)
    decreases m - n
  {
    if n < m {
      SkipLast(depth, le, c, rs, n);
      SkipRun(depth, le, c, rs, n + 1, m);
    }
  }

  lemma SplitAt<A>(d: seq<A>, r: seq<A>, k: nat, j: nat)
    requires k <= j <= |r|
    ensures d + r[k..] == d + r[k..j] + r[j..] && |d + r[k..j]| == |d| + (j - k)
    ensures forall i :: |d| <= i < |d| + (j - k) ==> (d + r[k..])[i] == r[k + i - |d|]
  {
  }

  lemma PlacedAfter<T(!new)>(depth: nat, le: (T, T) -> bool, c: Range<T>, d: seq<Range<T>>, r: seq<Range<T>>, k: nat)
    requires TotalPreorder(le) && Closed(le, c) && Separated(le, r) && k <= |r|
    ensures var j := SkipTo(le, c, r, k);
            Extract(depth, le, And, Some(c), d + r[k..], |d|) == Merged(d + r[k..j] + Placed(le, c, r, j), |d| + (j - k))
  {
    var j := SkipTo(le, c, r, k);
    SplitAt(d, r, k, j);
    SkipRun(depth, le, c, d + r[k..], |d|, |d| + (j - k));
    PlacedHere(depth, le, c, d + r[k..j], r, j);
  }

  // ---------------------------------------------------------------- a whole list into the list

  /** Entries of the right list passed before `l[i]` is merged. */
  function After<T>(le: (T, T) -> bool, l: seq<Range<T>>, r: seq<Range<T>>, i: nat): (k: nat)
    requires AllClosed(le, l) && AllClosed(le, r) && i <= |l|
    ensures k <= |r|
    decreases i, 0
  {
    if i == 0 then 0 else Target(le, l, r, i - 1) + (if Cuts(le, l, r, i - 1) then 1 else 0)
  }

  /** The entry `l[i]` stops at. */
  function Target<T>(le: (T, T) -> bool, l: seq<Range<T>>, r: seq<Range<T>>, i: nat): (j: nat)
    requires AllClosed(le, l) && AllClosed(le, r) && i < |l|
    ensures After(le, l, r, i) <= j <= |r|
    decreases i, 1
  {
    SkipTo(le, l[i], r, After(le, l, r, i))
  }

  predicate Cuts<T>(le: (T, T) -> bool, l: seq<Range<T>>, r: seq<Range<T>>, i: nat)
    requires AllClosed(le, l) && AllClosed(le, r) && i < |l|
    ensures Cuts(le, l, r, i) ==> Target(le, l, r, i) < |r|
    decreases i, 2
  {
    Hits(le, l[i], r, Target(le, l, r, i))
  }

  function Piece<T(!new)>(le: (T, T) -> bool, l: seq<Range<T>>, r: seq<Range<T>>, i: nat): Range<T>
    requires AllClosed(le, l) && AllClosed(le, r) && i < |l|
  {
    if Cuts(le, l, r, i) then Cut(le, l[i], r[Target(le, l, r, i)]) else l[i]
  }

  /** The part of the list that is done before `l[i]` is merged. */
  function Passed<T(!new)>(le: (T, T) -> bool, l: seq<Range<T>>, r: seq<Range<T>>, i: nat): seq<Range<T>>
    requires AllClosed(le, l) && AllClosed(le, r) && i <= |l|
  {
    if i == 0 then []
    else Passed(le, l, r, i - 1) + r[After(le, l, r, i - 1)..Target(le, l, r, i - 1)] + [Piece(le, l, r, i - 1)]
  }

  lemma PieceEnds<T(!new)>(le: (T, T) -> bool, l: seq<Range<T>>, r: seq<Range<T>>, i: nat)
    requires TotalPreorder(le) && AllClosed(le, l) && AllClosed(le, r) && i < |l|
    ensures Closed(le, Piece(le, l, r, i)) && le(Hi(le, Piece(le, l, r, i)), Hi(le, l[i]))
  {
    if Cuts(le, l, r, i) { CutIs(le, l[i], r[Target(le, l, r, i)]); } else { InClosed(le, l[i], Hi(le, l[i])); }
  }

  lemma PieceIn<T(!new)>(le: (T, T) -> bool, l: seq<Range<T>>, r: seq<Range<T>>, i: nat, x: T)
    requires TotalPreorder(le) && Separated(le, l) && Separated(le, r) && i < |l|
    ensures In(le, Piece(le, l, r, i), x) <==> In(le, l[i], x) && (Cuts(le, l, r, i) ==> In(le, r[Target(le, l, r, i)], x))
  {
    if Cuts(le, l, r, i) { CutIs(le, l[i], r[Target(le, l, r, i)]); }
  }

  /** The list before `l[i]` is merged. */
  function Before<T(!new)>(le: (T, T) -> bool, l: seq<Range<T>>, r: seq<Range<T>>, i: nat): seq<Range<T>>
    requires AllClosed(le, l) && AllClosed(le, r) && i <= |l|
  {
    Passed(le, l, r, i) + r[After(le, l, r, i)..]
  }

  lemma BeforeNext<T(!new)>(le: (T, T) -> bool, l: seq<Range<T>>, r: seq<Range<T>>, i: nat)
    requires AllClosed(le, l) && AllClosed(le, r) && i < |l|
    ensures var d, k, j := Passed(le, l, r, i), After(le, l, r, i), Target(le, l, r, i);
            && d + r[k..j] + Placed(le, l[i], r, j) == Before(le, l, r, i + 1)
            && |Passed(le, l, r, i + 1)| == |d| + (j - k) + 1
  {
    var d, k, j := Passed(le, l, r, i), After(le, l, r, i), Target(le, l, r, i);
    PassedNext(le, l, r, i);
    PlacedIs(le, l, r, i);
    Regroup(d + r[k..j], [Piece(le, l, r, i)], r[After(le, l, r, i + 1)..]);
  }

  lemma PassedNext<T(!new)>(le: (T, T) -> bool, l: seq<Range<T>>, r: seq<Range<T>>, i: nat)
    requires AllClosed(le, l) && AllClosed(le, r) && i < |l|
    ensures Passed(le, l, r, i + 1) == Passed(le, l, r, i) + r[After(le, l, r, i)..Target(le, l, r, i)] + [Piece(le, l, r, i)]
  {
  }

  lemma PlacedIs<T(!new)>(le: (T, T) -> bool, l: seq<Range<T>>, r: seq<Range<T>>, i: nat)
    requires AllClosed(le, l) && AllClosed(le, r) && i < |l|
    ensures Placed(le, l[i], r, Target(le, l, r, i)) == [Piece(le, l, r, i)] + r[After(le, l, r, i + 1)..]
  {
    PlacedFrom(le, l[i], r, Target(le, l, r, i), Piece(le, l, r, i), After(le, l, r, i + 1));
  }

  lemma PlacedFrom<T(!new)>(le: (T, T) -> bool, c: Range<T>, r: seq<Range<T>>, j: nat, e: Range<T>, next: nat)
    requires Closed(le, c) && AllClosed(le, r) && j <= |r|
    requires if Hits(le, c, r, j) then e == Cut(le, c, r[j]) && next == j + 1 else e == c && next == j
    ensures Placed(le, c, r, j) == [e] + r[next..]
  {
  }

  lemma Regroup<A>(a: seq<A>, b: seq<A>, c: seq<A>)
    ensures a + (b + c) == a + b + c
  {
  }

  /** The cursor stands on the last piece, which the next entry skips. */
  function Cursor<T(!new)>(le: (T, T) -> bool, l: seq<Range<T>>, r: seq<Range<T>>, i: nat): nat
    requires AllClosed(le, l) && AllClosed(le, r) && i <= |l|
  {
    if i == 0 then 0 else |Passed(le, l, r, i)| - 1
  }

  lemma LastPassed<T(!new)>(le: (T, T) -> bool, l: seq<Range<T>>, r: seq<Range<T>>, i: nat)
    requires AllClosed(le, l) && AllClosed(le, r) && 0 < i <= |l|
    ensures var p, rs := |Passed(le, l, r, i)|, Before(le, l, r, i); 0 < p <= |rs| && rs[p - 1] == Piece(le, l, r, i - 1)
  {
  }

  lemma NotUpTo<T(!new)>(le: (T, T) -> bool, a: T, b: T, c: T)
    requires TotalPreorder(le) && le(a, b) && !le(c, b)
    ensures !le(c, a)
  {
  }

  lemma CursorSkips<T(!new)>(depth: nat, le: (T, T) -> bool, l: seq<Range<T>>, i: nat, rs: seq<Range<T>>, p: nat)
    requires TotalPreorder(le) && Separated(le, l) && 0 < i < |l| && p < |rs| && Closed(le, rs[p]) && le(Hi(le, rs[p]), Hi(le, l[i - 1]))
    ensures Extract(depth, le, And, Some(l[i]), rs, p) == Extract(depth, le, And, Some(l[i]), rs, p + 1)
  {
    NotUpTo(le, Hi(le, rs[p]), Hi(le, l[i - 1]), Lo(le, l[i]));
    SkipLast(depth, le, l[i], rs, p);
  }

  lemma CursorAt<T(!new)>(le: (T, T) -> bool, l: seq<Range<T>>, r: seq<Range<T>>, i: nat) returns (rs: seq<Range<T>>, p: nat)
    requires TotalPreorder(le) && Separated(le, l) && Separated(le, r) && 0 < i < |l|
    ensures rs == Before(le, l, r, i) && p == Cursor(le, l, r, i) && p + 1 == |Passed(le, l, r, i)|
    ensures p < |rs| && Closed(le, rs[p]) && le(Hi(le, rs[p]), Hi(le, l[i - 1]))
  {
    rs, p := Before(le, l, r, i), Cursor(le, l, r, i);
    LastPassed(le, l, r, i);
    LastPieceEnds(le, l, r, i - 1, rs[p]);
  }

  lemma LastPieceEnds<T(!new)>(le: (T, T) -> bool, l: seq<Range<T>>, r: seq<Range<T>>, i: nat, e: Range<T>)
    requires TotalPreorder(le) && AllClosed(le, l) && AllClosed(le, r) && i < |l| && e == Piece(le, l, r, i)
    ensures Closed(le, e) && le(Hi(le, e), Hi(le, l[i]))
  {
    PieceEnds(le, l, r, i);
  }

  lemma StepFrom<T(!new)>(depth: nat, le: (T, T) -> bool, l: seq<Range<T>>, r: seq<Range<T>>, i: nat)
    requires TotalPreorder(le) && Separated(le, l) && Separated(le, r) && i < |l|
    ensures Extract(depth, le, And, Some(l[i]), Before(le, l, r, i), |Passed(le, l, r, i)|)
         == Merged(Before(le, l, r, i + 1), Cursor(le, l, r, i + 1))
  {
    PlacedAfter(depth, le, l[i], Passed(le, l, r, i), r, After(le, l, r, i));
    BeforeNext(le, l, r, i);
  }

  lemma StepIs<T(!new)>(depth: nat, le: (T, T) -> bool, l: seq<Range<T>>, r: seq<Range<T>>, i: nat)
    requires TotalPreorder(le) && Separated(le, l) && Separated(le, r) && i < |l|
    ensures Extract(depth, le, And, Some(l[i]), Before(le, l, r, i), Cursor(le, l, r, i)) == Merged(Before(le, l, r, i + 1), Cursor(le, l, r, i + 1))
  {
    StepFrom(depth, le, l, r, i);
    if i > 0 { StepSkips(depth, le, l, r, i); }
  }

  lemma StepSkips<T(!new)>(depth: nat, le: (T, T) -> bool, l: seq<Range<T>>, r: seq<Range<T>>, i: nat)
    requires TotalPreorder(le) && Separated(le, l) && Separated(le, r) && 0 < i < |l|
    ensures Extract(depth, le, And, Some(l[i]), Before(le, l, r, i), Cursor(le, l, r, i))
         == Extract(depth, le, And, Some(l[i]), Before(le, l, r, i), |Passed(le, l, r, i)|)
  {
    var rs, p := CursorAt(le, l, r, i);
    CursorSkips(depth, le, l, i, rs, p);
  }

  /** Where the merge stands before each entry of the left list, and at the end. */
  ghost function States<T(!new)>(le: (T, T) -> bool, l: seq<Range<T>>, r: seq<Range<T>>): (ms: seq<Merged<T>>)
    requires AllClosed(le, l) && AllClosed(le, r)
    ensures |ms| == |l| + 1 && forall i :: 0 <= i <= |l| ==> ms[i] == Merged(Before(le, l, r, i), Cursor(le, l, r, i))
  {
    seq(|l| + 1, i requires 0 <= i <= |l| => Merged(Before(le, l, r, i), Cursor(le, l, r, i)))
  }

  /** One state follows from the one before. */
  ghost predicate Follows<T>(depth: nat, le: (T, T) -> bool, c: Range<T>, m: Merged<T>, m': Merged<T>) {
    m.Merged? && m'.Merged? && Extract(depth, le, And, Some(c), m.ranges, m.idx) == m'
  }

  lemma {:induction false} MergeListsRun<T(!new)>(depth: nat, le: (T, T) -> bool, l: seq<Range<T>>, ms: seq<Merged<T>>, i: nat)
    requires |ms| == |l| + 1 && i <= |l| && ms[i].Merged? && forall k :: 0 <= k < |l| ==> Follows(depth, le, l[k], ms[k], ms[k + 1])
    ensures MergeLists(depth, le, And, l[i..], ms[i].ranges, ms[i].idx) == ms[|l|]
    decreases |l| - i
  {
    if i < |l| {
      assert Follows(depth, le, l[i], ms[i], ms[i + 1]);
      MergeListsRun(depth, le, l, ms, i + 1);
      assert l[i..][0] == l[i] && l[i..][1..] == l[i + 1..];
    }
  }

  lemma MergeListsIs<T(!new)>(depth: nat, le: (T, T) -> bool, l: seq<Range<T>>, r: seq<Range<T>>, i: nat)
    requires TotalPreorder(le) && Separated(le, l) && Separated(le, r) && i <= |l|
    ensures MergeLists(depth, le, And, l[i..], Before(le, l, r, i), Cursor(le, l, r, i)) == Merged(Before(le, l, r, |l|), Cursor(le, l, r, |l|))
  {
    var ms := States(le, l, r);
    forall k | 0 <= k < |l| ensures Follows(depth, le, l[k], ms[k], ms[k + 1]) {
      StepFollows(depth, le, l, r, k, ms[k], ms[k + 1]);
    }
    MergeListsRun(depth, le, l, ms, i);
  }

  lemma StepFollows<T(!new)>(depth: nat, le: (T, T) -> bool, l: seq<Range<T>>, r: seq<Range<T>>, i: nat, m: Merged<T>, m': Merged<T>)
    requires TotalPreorder(le) && Separated(le, l) && Separated(le, r) && i < |l|
    requires m == Merged(Before(le, l, r, i), Cursor(le, l, r, i)) && m' == Merged(Before(le, l, r, i + 1), Cursor(le, l, r, i + 1))
    ensures Follows(depth, le, l[i], m, m')
  {
    StepIs(depth, le, l, r, i);
  }

  // ---------------------------------------------------------------- what each entry cuts

  lemma {:induction false} AfterGrows<T>(le: (T, T) -> bool, l: seq<Range<T>>, r: seq<Range<T>>, i: nat, k: nat)
    requires AllClosed(le, l) && AllClosed(le, r) && i < k <= |l|
    ensures Target(le, l, r, i) + (if Cuts(le, l, r, i) then 1 else 0) <= After(le, l, r, k)
    decreases k - i
  {
    if i + 1 < k { AfterGrows(le, l, r, i, k - 1); }
  }

  /** The entry `r[j]` is cut by one of the first `n` of the left list. */
  ghost predicate CutBefore<T>(le: (T, T) -> bool, l: seq<Range<T>>, r: seq<Range<T>>, j: nat, n: nat)
    requires AllClosed(le, l) && AllClosed(le, r) && n <= |l|
  {
    exists i :: 0 <= i < n && Cuts(le, l, r, i) && Target(le, l, r, i) == j
  }

  /** An entry that is passed by was cut, or lies wholly below. */
  lemma {:induction false} PassedBy<T(!new)>(le: (T, T) -> bool, l: seq<Range<T>>, r: seq<Range<T>>, i: nat, j: nat)
    requires TotalPreorder(le) && Separated(le, l) && Separated(le, r) && i < |l| && j < Target(le, l, r, i)
    ensures CutBefore(le, l, r, j, i) || !le(Lo(le, l[i]), Hi(le, r[j]))
    decreases i
  {
    if j < After(le, l, r, i) {
      if j < Target(le, l, r, i - 1) {
        PassedBy(le, l, r, i - 1, j);
        if CutBefore(le, l, r, j, i - 1) {
          var k :| 0 <= k < i - 1 && Cuts(le, l, r, k) && Target(le, l, r, k) == j;
          assert CutBefore(le, l, r, j, i);
        } else {
          InClosed(le, l[i - 1], Hi(le, l[i - 1]));
          assert !le(Lo(le, l[i]), Hi(le, l[i - 1]));
        }
      } else {
        assert Cuts(le, l, r, i - 1) && Target(le, l, r, i - 1) == j;
      }
    }
  }

  /** Where two entries meet, the left one cuts from there back, or the right one was cut before. */
  lemma MeetingCuts<T(!new)>(le: (T, T) -> bool, l: seq<Range<T>>, r: seq<Range<T>>, i: nat, j: nat)
    requires TotalPreorder(le) && Separated(le, l) && Separated(le, r) && i < |l| && j < |r| && Meet(le, l[i], r[j])
    ensures (Cuts(le, l, r, i) && Target(le, l, r, i) <= j) || (CutBefore(le, l, r, j, i) && j < Target(le, l, r, i))
  {
    var k := Target(le, l, r, i);
    if j < k {
      PassedBy(le, l, r, i, j);
    } else if k < j {
      InClosed(le, r[k], Lo(le, r[k]));
      assert !le(Lo(le, r[j]), Hi(le, r[k]));
    }
  }

  // ---------------------------------------------------------------- which common values are kept

  ghost predicate SomePiece<T(!new)>(le: (T, T) -> bool, l: seq<Range<T>>, r: seq<Range<T>>, n: nat, x: T)
    requires AllClosed(le, l) && AllClosed(le, r) && n <= |l|
  {
    exists i :: 0 <= i < n && In(le, Piece(le, l, r, i), x)
  }

  ghost predicate SomeUncut<T(!new)>(le: (T, T) -> bool, l: seq<Range<T>>, r: seq<Range<T>>, n: nat, to: nat, x: T)
    requires AllClosed(le, l) && AllClosed(le, r) && n <= |l| && to <= |r|
  {
    exists j :: 0 <= j < to && !CutBefore(le, l, r, j, n) && In(le, r[j], x)
  }

  ghost predicate SomeSkipped<T(!new)>(le: (T, T) -> bool, r: seq<Range<T>>, k: nat, j: nat, x: T)
    requires k <= j <= |r|
  {
    exists q :: k <= q < j && In(le, r[q], x)
  }

  lemma SliceIn<T(!new)>(le: (T, T) -> bool, r: seq<Range<T>>, k: nat, j: nat, x: T)
    requires k <= j <= |r|
    ensures In(le, SortedRanges(r[k..j]), x) <==> SomeSkipped(le, r, k, j, x)
  {
    if q :| k <= q < j && In(le, r[q], x) { assert r[k..j][q - k] == r[q]; }
    if q :| 0 <= q < j - k && In(le, r[k..j][q], x) { assert r[k..j][q] == r[k + q]; }
  }

  /** What is cut after one more entry of the left list. */
  lemma CutSoFar<T(!new)>(le: (T, T) -> bool, l: seq<Range<T>>, r: seq<Range<T>>, q: nat, n: nat)
    requires AllClosed(le, l) && AllClosed(le, r) && 0 < n <= |l| && q < |r|
    ensures var k, j := After(le, l, r, n - 1), Target(le, l, r, n - 1);
            && (q < k ==> (CutBefore(le, l, r, q, n) <==> CutBefore(le, l, r, q, n - 1)))
            && (k <= q && q != j ==> !CutBefore(le, l, r, q, n))
            && (q == j ==> (CutBefore(le, l, r, q, n) <==> Cuts(le, l, r, n - 1)))
  {
    var k, j := After(le, l, r, n - 1), Target(le, l, r, n - 1);
    forall i | 0 <= i < n - 1 && Cuts(le, l, r, i) ensures Target(le, l, r, i) < k {
      AfterGrows(le, l, r, i, n - 1);
    }
    if CutBefore(le, l, r, q, n - 1) {
      var i :| 0 <= i < n - 1 && Cuts(le, l, r, i) && Target(le, l, r, i) == q;
      assert CutBefore(le, l, r, q, n);
    }
    if q == j && Cuts(le, l, r, n - 1) { assert CutBefore(le, l, r, q, n); }
  }

  lemma UncutStep<T(!new)>(le: (T, T) -> bool, l: seq<Range<T>>, r: seq<Range<T>>, n: nat, x: T)
    requires AllClosed(le, l) && AllClosed(le, r) && 0 < n <= |l|
    ensures var k, j := After(le, l, r, n - 1), Target(le, l, r, n - 1);
            SomeUncut(le, l, r, n, After(le, l, r, n), x)
            <==> SomeUncut(le, l, r, n - 1, k, x) || SomeSkipped(le, r, k, j, x)
  {
    var k, j := After(le, l, r, n - 1), Target(le, l, r, n - 1);
    forall q | 0 <= q < |r|
      ensures q < k ==> (CutBefore(le, l, r, q, n) <==> CutBefore(le, l, r, q, n - 1))
      ensures k <= q && q != j ==> !CutBefore(le, l, r, q, n)
      ensures q == j ==> (CutBefore(le, l, r, q, n) <==> Cuts(le, l, r, n - 1))
    {
      CutSoFar(le, l, r, q, n);
    }
  }

  lemma InThree<T(!new)>(le: (T, T) -> bool, a: seq<Range<T>>, b: seq<Range<T>>, c: Range<T>, x: T)
    ensures In(le, SortedRanges(a + b + [c]), x) <==> In(le, SortedRanges(a), x) || In(le, SortedRanges(b), x) || In(le, c, x)
  {
    InSplit(le, a + b, [c], x);
    InSplit(le, a, b, x);
    InOne(le, c, x);
  }

  lemma PassedStep<T(!new)>(le: (T, T) -> bool, l: seq<Range<T>>, r: seq<Range<T>>, n: nat, x: T)
    requires AllClosed(le, l) && AllClosed(le, r) && 0 < n <= |l|
    ensures In(le, SortedRanges(Passed(le, l, r, n)), x)
            <==> || In(le, SortedRanges(Passed(le, l, r, n - 1)), x)
                 || In(le, Piece(le, l, r, n - 1), x)
                 || SomeSkipped(le, r, After(le, l, r, n - 1), Target(le, l, r, n - 1), x)
  {
    var d, k, j := Passed(le, l, r, n - 1), After(le, l, r, n - 1), Target(le, l, r, n - 1);
    InThree(le, d, r[k..j], Piece(le, l, r, n - 1), x);
    SliceIn(le, r, k, j, x);
  }

  lemma {:induction false} PassedIn<T(!new)>(le: (T, T) -> bool, l: seq<Range<T>>, r: seq<Range<T>>, n: nat, x: T)
    requires AllClosed(le, l) && AllClosed(le, r) && n <= |l|
    ensures In(le, SortedRanges(Passed(le, l, r, n)), x) <==> SomePiece(le, l, r, n, x) || SomeUncut(le, l, r, n, After(le, l, r, n), x)
  {
    if n == 0 {
      assert !SomePiece(le, l, r, n, x) && !SomeUncut(le, l, r, n, 0, x);
    } else {
      PassedIn(le, l, r, n - 1, x);
      PassedStep(le, l, r, n, x);
      UncutStep(le, l, r, n, x);
      PieceStep(le, l, r, n, x);
    }
  }

  lemma PieceStep<T(!new)>(le: (T, T) -> bool, l: seq<Range<T>>, r: seq<Range<T>>, n: nat, x: T)
    requires AllClosed(le, l) && AllClosed(le, r) && 0 < n <= |l|
    ensures SomePiece(le, l, r, n, x) <==> SomePiece(le, l, r, n - 1, x) || In(le, Piece(le, l, r, n - 1), x)
  {
    if SomePiece(le, l, r, n, x) {
      var i :| 0 <= i < n && In(le, Piece(le, l, r, i), x);
      if i < n - 1 { assert SomePiece(le, l, r, n - 1, x); }
    }
  }

  /** The merged list: the pieces, and the right entries that nothing cut. */
  lemma BeforeIn<T(!new)>(le: (T, T) -> bool, l: seq<Range<T>>, r: seq<Range<T>>, x: T)
    requires AllClosed(le, l) && AllClosed(le, r)
    ensures In(le, SortedRanges(Before(le, l, r, |l|)), x) <==> SomePiece(le, l, r, |l|, x) || SomeUncut(le, l, r, |l|, |r|, x)
  {
    var n, k := |l|, After(le, l, r, |l|);
    PassedIn(le, l, r, n, x);
    InSplit(le, Passed(le, l, r, n), r[k..], x);
    SliceIn(le, r, k, |r|, x);
    assert r[k..|r|] == r[k..];
    forall q | k <= q < |r| ensures !CutBefore(le, l, r, q, n) {
      forall i | 0 <= i < n && Cuts(le, l, r, i) ensures Target(le, l, r, i) != q {
        AfterGrows(le, l, r, i, n);
      }
    }
  }

  /** Two entries that meet, one cutting another entry and the other cut by another. */
  ghost predicate Lost<T>(le: (T, T) -> bool, l: seq<Range<T>>, r: seq<Range<T>>, i: nat, j: nat)
    requires AllClosed(le, l) && AllClosed(le, r)
  {
    && i < |l| && j < |r| && Meet(le, l[i], r[j])
    && Cuts(le, l, r, i) && Target(le, l, r, i) != j && CutBefore(le, l, r, j, |l|)
  }

  lemma KeptExact<T(!new)>(le: (T, T) -> bool, l: seq<Range<T>>, r: seq<Range<T>>, i: nat, j: nat, x: T)
    requires TotalPreorder(le) && Separated(le, l) && Separated(le, r)
    requires i < |l| && j < |r| && In(le, l[i], x) && In(le, r[j], x)
    ensures Meet(le, l[i], r[j]) && (In(le, SortedRanges(Before(le, l, r, |l|)), x) <==> !Lost(le, l, r, i, j))
  {
    BeforeIn(le, l, r, x);
    InClosed(le, l[i], x);
    InClosed(le, r[j], x);
    PieceIn(le, l, r, i, x);
    forall k | 0 <= k < |l| && In(le, Piece(le, l, r, k), x) ensures k == i {
      PieceIn(le, l, r, k, x);
      OneEntry(le, l, i, k, x);
    }
    forall k | 0 <= k < |r| && In(le, r[k], x) ensures k == j {
      OneEntry(le, r, j, k, x);
    }
    assert SomePiece(le, l, r, |l|, x) <==> In(le, Piece(le, l, r, i), x);
    assert SomeUncut(le, l, r, |l|, |r|, x) <==> !CutBefore(le, l, r, j, |l|);
  }

  /** Two entries that meet have a value in common. */
  lemma MeetValue<T(!new)>(le: (T, T) -> bool, a: Range<T>, b: Range<T>) returns (x: T)
    requires TotalPreorder(le) && Closed(le, a) && Closed(le, b) && Meet(le, a, b)
    ensures In(le, a, x) && In(le, b, x)
  {
    x := if le(Lo(le, a), Lo(le, b)) then Lo(le, b) else Lo(le, a);
    InClosed(le, a, x);
    InClosed(le, b, x);
  }

  // ---------------------------------------------------------------- the exact condition

  predicate MeetsAnother<T>(le: (T, T) -> bool, a: Range<T>, rs: seq<Range<T>>, j: nat)
    requires Closed(le, a) && AllClosed(le, rs)
  {
    exists k :: 0 <= k < |rs| && k != j && Meet(le, a, rs[k])
  }

  predicate Knot<T>(le: (T, T) -> bool, l: seq<Range<T>>, r: seq<Range<T>>, i: nat, j: nat)
    requires AllClosed(le, l) && AllClosed(le, r) && i < |l| && j < |r|
  {
    Meet(le, l[i], r[j]) && MeetsAnother(le, l[i], r, j) && MeetsAnother(le, r[j], l, i)
  }

  /** Two entries meet, and each of them meets another one besides. */
  predicate Tangled<T>(le: (T, T) -> bool, l: seq<Range<T>>, r: seq<Range<T>>)
    requires AllClosed(le, l) && AllClosed(le, r)
  {
    exists i, j :: 0 <= i < |l| && 0 <= j < |r| && Knot(le, l, r, i, j)
  }

  lemma LostIsTangled<T(!new)>(le: (T, T) -> bool, l: seq<Range<T>>, r: seq<Range<T>>, i: nat, j: nat)
    requires Separated(le, l) && Separated(le, r) && Lost(le, l, r, i, j)
    ensures Tangled(le, l, r)
  {
    var i' :| 0 <= i' < |l| && Cuts(le, l, r, i') && Target(le, l, r, i') == j;
    assert Meet(le, l[i], r[Target(le, l, r, i)]) && Meet(le, r[j], l[i']);
    assert Knot(le, l, r, i, j);
  }

  /** An entry that meets an earlier one leaves `r[j]` no earlier entry to be cut by. */
  lemma NoEarlierCut<T(!new)>(le: (T, T) -> bool, l: seq<Range<T>>, r: seq<Range<T>>, i: nat, j': nat, j: nat)
    requires TotalPreorder(le) && Separated(le, l) && Separated(le, r) && i < |l| && j' < j < |r| && Meet(le, l[i], r[j'])
    ensures !CutBefore(le, l, r, j, i)
  {
    forall k | 0 <= k < i ensures !Meet(le, l[k], r[j]) {
      NoCross(le, l, r, k, i, j', j);
    }
  }

  /** Nor does a later entry stop before `r[j]`, when an earlier one meets it. */
  lemma NoEarlierTarget<T(!new)>(le: (T, T) -> bool, l: seq<Range<T>>, r: seq<Range<T>>, i: nat, i': nat, j: nat)
    requires TotalPreorder(le) && Separated(le, l) && Separated(le, r) && i < i' < |l| && j < |r| && Meet(le, l[i], r[j])
    ensures Cuts(le, l, r, i') ==> j <= Target(le, l, r, i')
  {
    forall q | 0 <= q < j ensures !Meet(le, l[i'], r[q]) {
      NoCross(le, l, r, i, i', q, j);
    }
  }

  lemma CutLater<T(!new)>(le: (T, T) -> bool, l: seq<Range<T>>, r: seq<Range<T>>, j: nat, n: nat)
    requires AllClosed(le, l) && AllClosed(le, r) && n <= |l|
    ensures CutBefore(le, l, r, j, n) ==> CutBefore(le, l, r, j, |l|)
    ensures forall i :: 0 <= i < n && CutBefore(le, l, r, j, i) ==> CutBefore(le, l, r, j, n)
    ensures forall i :: 0 <= i < |l| && Cuts(le, l, r, i) && Target(le, l, r, i) == j ==> CutBefore(le, l, r, j, |l|)
  {
  }

  /** An entry cut before is none a later entry stops at. */
  lemma CutOnce<T(!new)>(le: (T, T) -> bool, l: seq<Range<T>>, r: seq<Range<T>>, j: nat, i: nat)
    requires AllClosed(le, l) && AllClosed(le, r) && i < |l| && CutBefore(le, l, r, j, i)
    ensures Target(le, l, r, i) != j
  {
    var k :| 0 <= k < i && Cuts(le, l, r, k) && Target(le, l, r, k) == j;
    AfterGrows(le, l, r, k, i);
  }

  /** `l[i]` meets an earlier entry too, and `r[j]` a later one. */
  lemma TangleUp<T(!new)>(le: (T, T) -> bool, l: seq<Range<T>>, r: seq<Range<T>>, i: nat, j: nat, i': nat, j': nat)
    requires TotalPreorder(le) && Separated(le, l) && Separated(le, r)
    requires i < i' < |l| && j' < j < |r| && Meet(le, l[i], r[j]) && Meet(le, l[i], r[j']) && Meet(le, l[i'], r[j])
    ensures Lost(le, l, r, i, j) || Lost(le, l, r, i, j')
  {
    NoEarlierCut(le, l, r, i, j', j);
    MeetingCuts(le, l, r, i, j);
    MeetingCuts(le, l, r, i, j');
    MeetingCuts(le, l, r, i', j);
    NoEarlierTarget(le, l, r, i, i', j);
    CutLater(le, l, r, j, i');
    CutLater(le, l, r, j', i);
  }

  /** `l[i]` meets a later entry too, and `r[j]` an earlier one. */
  lemma TangleDown<T(!new)>(le: (T, T) -> bool, l: seq<Range<T>>, r: seq<Range<T>>, i: nat, j: nat, i': nat, j': nat)
    requires TotalPreorder(le) && Separated(le, l) && Separated(le, r)
    requires i' < i < |l| && j < j' < |r| && Meet(le, l[i], r[j]) && Meet(le, l[i], r[j']) && Meet(le, l[i'], r[j])
    ensures Lost(le, l, r, i, j) || Lost(le, l, r, i', j)
  {
    NoEarlierCut(le, l, r, i, j, j');
    MeetingCuts(le, l, r, i, j);
    MeetingCuts(le, l, r, i, j');
    MeetingCuts(le, l, r, i', j);
    NoEarlierTarget(le, l, r, i', i, j);
    CutLater(le, l, r, j, i);
    CutLater(le, l, r, j, i');
    if CutBefore(le, l, r, j, i) { CutOnce(le, l, r, j, i); }
  }

  /** The other entries lie on opposite sides. */
  lemma TangleSides<T(!new)>(le: (T, T) -> bool, l: seq<Range<T>>, r: seq<Range<T>>, i: nat, j: nat, i': nat, j': nat)
    requires TotalPreorder(le) && Separated(le, l) && Separated(le, r)
    requires i < |l| && i' < |l| && i != i' && j < |r| && j' < |r| && j != j' && Meet(le, l[i], r[j']) && Meet(le, l[i'], r[j])
    ensures i < i' <==> j' < j
  {
    if i < i' {
      if j < j' { NoCross(le, l, r, i, i', j, j'); }
    } else {
      if j' < j { NoCross(le, l, r, i', i, j', j); }
    }
  }

  lemma TangledIsLost<T(!new)>(le: (T, T) -> bool, l: seq<Range<T>>, r: seq<Range<T>>) returns (i: nat, j: nat)
    requires TotalPreorder(le) && Separated(le, l) && Separated(le, r) && Tangled(le, l, r)
    ensures Lost(le, l, r, i, j)
  {
    var a: nat, b: nat :| a < |l| && b < |r| && Knot(le, l, r, a, b);
    var b': nat :| b' < |r| && b' != b && Meet(le, l[a], r[b']);
    var a': nat :| a' < |l| && a' != a && Meet(le, r[b], l[a']);
    assert Meet(le, l[a'], r[b]);
    TangleSides(le, l, r, a, b, a', b');
    if a < a' {
      TangleUp(le, l, r, a, b, a', b');
      i, j := a, if Lost(le, l, r, a, b) then b else b';
    } else {
      TangleDown(le, l, r, a, b, a', b');
      i, j := if Lost(le, l, r, a, b) then a else a', b;
    }
  }

  lemma EntryOf<T(!new)>(le: (T, T) -> bool, rs: seq<Range<T>>, x: T) returns (i: nat)
    requires In(le, SortedRanges(rs), x)
    ensures i < |rs| && In(le, rs[i], x)
  {
    i :| 0 <= i < |rs| && In(le, rs[i], x);
  }

  lemma EntryIn<T(!new)>(le: (T, T) -> bool, rs: seq<Range<T>>, i: nat, x: T)
    requires i < |rs| && In(le, rs[i], x)
    ensures In(le, SortedRanges(rs), x)
  {
  }

  lemma TangledLoses<T(!new)>(le: (T, T) -> bool, l: seq<Range<T>>, r: seq<Range<T>>) returns (x: T)
    requires TotalPreorder(le) && Separated(le, l) && Separated(le, r) && Tangled(le, l, r)
    ensures In(le, SortedRanges(l), x) && In(le, SortedRanges(r), x) && !In(le, SortedRanges(Before(le, l, r, |l|)), x)
  {
    var i, j := TangledIsLost(le, l, r);
    x := MeetValue(le, l[i], r[j]);
    KeptExact(le, l, r, i, j, x);
    EntryIn(le, l, i, x);
    EntryIn(le, r, j, x);
  }

  lemma UntangledKeeps<T(!new)>(le: (T, T) -> bool, l: seq<Range<T>>, r: seq<Range<T>>, x: T)
    requires TotalPreorder(le) && Separated(le, l) && Separated(le, r) && !Tangled(le, l, r)
    requires In(le, SortedRanges(l), x) && In(le, SortedRanges(r), x)
    ensures In(le, SortedRanges(Before(le, l, r, |l|)), x)
  {
    var i := EntryOf(le, l, x);
    var j := EntryOf(le, r, x);
    KeptExact(le, l, r, i, j, x);
    if Lost(le, l, r, i, j) { LostIsTangled(le, l, r, i, j); }
  }

  /** AND of two separated lists keeps every common value if and only if no two entries that meet each meet
      another one besides. */
  lemma AndListsExact<T(!new)>(depth: nat, le: (T, T) -> bool, l: seq<Range<T>>, r: seq<Range<T>>)
    requires TotalPreorder(le) && Separated(le, l) && Separated(le, r)
    ensures var m := MergeLists(depth, le, And, l, r, 0);
            && m.Merged?
            && ((forall x :: In(le, SortedRanges(l), x) && In(le, SortedRanges(r), x) ==> In(le, SortedRanges(m.ranges), x))
                <==> !Tangled(le, l, r))
  {
    MergeListsIs(depth, le, l, r, 0);
    assert l[0..] == l && Before(le, l, r, 0) == r;
    if Tangled(le, l, r) {
      var x := TangledLoses(le, l, r);
    } else {
      forall x | In(le, SortedRanges(l), x) && In(le, SortedRanges(r), x) ensures In(le, SortedRanges(Before(le, l, r, |l|)), x) {
        UntangledKeeps(le, l, r, x);
      }
    }
  }

  /** The same for the ranges that the lists stand for. */
  lemma AndOfListsExact<T(!new)>(depth: nat, le: (T, T) -> bool, l: Range<T>, r: Range<T>)
    requires TotalPreorder(le) && ClosedOperand(le, l) && ClosedOperand(le, r) && l.SortedRanges? && r.SortedRanges?
    ensures var m := MergeBinary(depth, le, And, l, r);
            && m.Done? && m.range.Some?
            && ((forall x :: In(le, l, x) && In(le, r, x) ==> In(le, m.range.value, x)) <==> !Tangled(le, l.ranges, r.ranges))
  {
    AndListsExact(depth, le, l.ranges, r.ranges);
    var rs := MergeLists(depth, le, And, l.ranges, r.ranges, 0).ranges;
    forall x ensures In(le, RangesToRange(rs), x) <==> In(le, SortedRanges(rs), x) {
      InToRange(le, rs, x);
    }
  }
}
