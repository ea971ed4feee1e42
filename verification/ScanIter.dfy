/** The row iterators: offset and limit over the entries of several ranges. */
module ScanIter {
  import opened Common

  /** What a range resolves to: the entries of an interval, a point lookup that finds a row or not,
      or nothing to do (`Dummy`, and lists, which never reach the iterator). */
  datatype Source<+V> = Scan(rows: seq<V>) | Point(row: Option<V>) | Nothing

  /** One item per entry, and one per point lookup, found or not. */
  function Items<V>(s: Source<V>): seq<Option<V>> {
    match s
    case Scan(rows) => Found(rows)
    case Point(row) => [row]
    case Nothing => []
  }

  function Found<V>(rows: seq<V>): (r: seq<Option<V>>)
    ensures |r| == |rows| && forall i :: 0 <= i < |rows| ==> r[i] == Some(rows[i])
  {
    seq(|rows|, i requires 0 <= i < |rows| => Some(rows[i]))
  }

  function AllItems<V>(ss: seq<Source<V>>): seq<Option<V>> {
    if ss == [] then [] else Items(ss[0]) + AllItems(ss[1..])
  }

  // ---------------------------------------------------------------- the window

  function Drop<A>(s: seq<A>, n: nat): seq<A> { if n <= |s| then s[n..] else [] }

  function Window<A>(s: seq<A>, offset: nat, limit: Option<nat>): seq<A> {
    if limit.Some? then Take(Drop(s, offset), limit.value) else Drop(s, offset)
  }

  /** What a caller that stops at the first None collects. */
  function UntilMiss<V>(items: seq<Option<V>>): seq<V> {
    if items == [] || items[0].None? then [] else [items[0].value] + UntilMiss(items[1..])
  }

  // ---------------------------------------------------------------- IndexIter

  datatype State<+V> = Init | Range(rest: seq<V>) | Over

  class IndexIter<V> {
    var offset: nat
    var limit: Option<nat>
    var ranges: seq<Source<V>>
    var state: State<V>

    constructor (offset: nat, limit: Option<nat>, ranges: seq<Source<V>>)
      ensures this.offset == offset && this.limit == limit && Pending() == AllItems(ranges)
    {
      this.offset, this.limit, this.ranges, this.state := offset, limit, ranges, Init;
    }

    /** The items still to come. */
    ghost function Pending(): seq<Option<V>>
      reads this
    {
      PendingOf(state, ranges)
    }

    /** One call: skips what is left of the offset, then returns the next item and counts it
        against the limit; past the end, or at limit 0, it returns None for ever. */
    method NextTuple() returns (tuple: Option<V>)
      modifies this
      ensures var next := Drop(old(Pending()), old(offset));
              if old(limit) == Some(0) || next == [] then tuple.None? && Pending() == [] && limit == old(limit)
              else tuple == next[0] && Pending() == next[1..] && offset == 0 && limit == Less(old(limit))
    {
      if limit == Some(0) {
        state := Over;
        return None;
      }
      ghost var next := Drop(Pending(), offset);
      while true
        invariant limit == old(limit) && Drop(Pending(), offset) == next
        decreases |ranges|, match state case Init => 1 case Range(_) => 2 case Over => 0
      {
        match state {
          case Init =>
            if ranges == [] {
              state := Over;
            } else {
              var item := NextSource(next);
              if item.Some? {
                return item.value;
              }
            }
          case Range(rest) =>
            tuple := NextInRange(rest, next);
            if tuple.Some? {
              return;
            }
          case Over => return None;
        }
      }
    }

    /** Takes the next range: the item of a point lookup past the offset, or None and more to do. */
    method NextSource(ghost next: seq<Option<V>>) returns (item: Option<Option<V>>)
      requires state.Init? && ranges != [] && limit != Some(0) && Drop(Pending(), offset) == next
      modifies this
      ensures item.Some? ==> next != [] && item.value == next[0] && Pending() == next[1..] && offset == 0 && limit == Less(old(limit))
      ensures item.None? ==> Drop(Pending(), offset) == next && limit == old(limit)
      ensures |ranges| < |old(ranges)|
    {
      var source := ranges[0];
      TakeSource(ranges, offset, next);
      ranges := ranges[1..];
      match source {
        case Scan(rows) => state := Range(rows);
        case Point(row) =>
          if offset > 0 {
            offset := offset - 1;
          } else {
            limit := Less(limit);
            return Some(row);
          }
        case Nothing =>
      }
      return None;
    }

    /** The loop over the entries of one range; None when they are used up. */
    method NextInRange(rest: seq<V>, ghost next: seq<Option<V>>) returns (tuple: Option<V>)
      requires state == Range(rest) && limit != Some(0) && Drop(Pending(), offset) == next
      modifies this
      ensures tuple.Some? ==> next != [] && tuple == next[0] && Pending() == next[1..] && offset == 0 && limit == Less(old(limit))
      ensures tuple.None? ==> state.Init? && Drop(Pending(), offset) == next && limit == old(limit)
      ensures ranges == old(ranges)
    {
      var rows := rest;
      ghost var tail := AllItems(ranges);
      while rows != []
        invariant state == Range(rows) && ranges == old(ranges) && limit == old(limit)
        invariant Drop(Found(rows) + tail, offset) == next
        decreases |rows|
      {
        var row := rows[0];
        DropFound(rows, tail, offset);
        rows := rows[1..];
        state := Range(rows);
        if offset > 0 {
          offset := offset - 1;
        } else {
          limit := Less(limit);
          return Some(row);
        }
      }
      assert Found<V>([]) + tail == tail;
      state := Init;
      return None;
    }
  }

  ghost function PendingOf<V>(state: State<V>, ranges: seq<Source<V>>): seq<Option<V>> {
    match state
    case Init => AllItems(ranges)
    case Range(rest) => Found(rest) + AllItems(ranges)
    case Over => []
  }

  lemma DropHead<A>(x: A, rest: seq<A>, n: nat)
    ensures Drop([x] + rest, n) == if n > 0 then Drop(rest, n - 1) else [x] + rest
  {
  }

  lemma DropFound<V>(rows: seq<V>, tail: seq<Option<V>>, n: nat)
    requires rows != []
    ensures Drop(Found(rows) + tail, n) ==
            if n > 0 then Drop(Found(rows[1..]) + tail, n - 1) else [Some(rows[0])] + (Found(rows[1..]) + tail)
  {
    assert Found(rows) + tail == [Some(rows[0])] + (Found(rows[1..]) + tail);
    DropHead(Some(rows[0]), Found(rows[1..]) + tail, n);
  }

  lemma PopSource<V>(ss: seq<Source<V>>)
    requires ss != []
    ensures AllItems(ss) == match ss[0] case Scan(rows) => Found(rows) + AllItems(ss[1..])
                                        case Point(row) => [row] + AllItems(ss[1..])
                                        case Nothing => AllItems(ss[1..])
  {
  }

  lemma TakeSource<V>(ss: seq<Source<V>>, offset: nat, next: seq<Option<V>>)
    requires ss != [] && Drop(AllItems(ss), offset) == next
    ensures ss[0].Scan? ==> Drop(Found(ss[0].rows) + AllItems(ss[1..]), offset) == next
    ensures ss[0].Point? && offset > 0 ==> Drop(AllItems(ss[1..]), offset - 1) == next
    ensures ss[0].Point? && offset == 0 ==> next != [] && next[0] == ss[0].row && next[1..] == AllItems(ss[1..])
    ensures ss[0].Nothing? ==> Drop(AllItems(ss[1..]), offset) == next
  {
    PopSource(ss);
    if ss[0].Point? { DropHead(ss[0].row, AllItems(ss[1..]), offset); }
  }

  function Less(limit: Option<nat>): Option<nat>
    requires limit != Some(0)
  {
    if limit.Some? then Some(limit.value - 1) else None
  }

  /** Calling until None collects the window of all items, up to the first miss in it. */
  method DrainIndex<V>(iter: IndexIter<V>) returns (out: seq<V>)
    modifies iter
    ensures out == UntilMiss(Window(old(iter.Pending()), old(iter.offset), old(iter.limit)))
  {
    out := [];
    ghost var all := UntilMiss(Window(iter.Pending(), iter.offset, iter.limit));
    while true
      invariant out + UntilMiss(Window(iter.Pending(), iter.offset, iter.limit)) == all
      decreases |iter.Pending()|
    {
      ghost var pending, offset, limit := iter.Pending(), iter.offset, iter.limit;
      var tuple := iter.NextTuple();
      WindowStep(pending, offset, limit);
      if tuple.None? {
        return;
      }
      UntilMissStep(tuple, Window(iter.Pending(), iter.offset, iter.limit));
      MoveFront(out, tuple.value, UntilMiss(Window(iter.Pending(), iter.offset, iter.limit)));
      out := out + [tuple.value];
    }
  }

  lemma UntilMissStep<V>(head: Option<V>, rest: seq<Option<V>>)
    ensures UntilMiss([head] + rest) == if head.None? then [] else [head.value] + UntilMiss(rest)
  {
    assert ([head] + rest)[1..] == rest;
  }

  /** One item of the window: the one at the offset, then the rest with offset 0 and one less to go. */
  lemma WindowStep<A>(s: seq<A>, offset: nat, limit: Option<nat>)
    ensures limit == Some(0) || Drop(s, offset) == [] ==> Window(s, offset, limit) == []
    ensures limit != Some(0) && Drop(s, offset) != [] ==>
              Window(s, offset, limit) == [Drop(s, offset)[0]] + Window(Drop(s, offset)[1..], 0, Less(limit))
  {
  }

  // ---------------------------------------------------------------- TupleIter

  /** What one call hands out and leaves. */
  ghost predicate Taken<V>(rows: seq<V>, offset: nat, limit: Option<nat>, tuple: Option<V>, rows': seq<V>, offset': nat, limit': Option<nat>) {
    var next := Drop(rows, offset);
    if next == [] then tuple.None? && rows' == [] && limit' == limit
    else if limit == Some(0) then tuple.None? && rows' == next[1..] && offset' == 0 && limit' == limit
    else tuple == Some(next[0]) && rows' == next[1..] && offset' == 0 && limit' == Less(limit)
  }

  lemma TakenWindow<V>(rows: seq<V>, offset: nat, limit: Option<nat>, tuple: Option<V>, rows': seq<V>, offset': nat, limit': Option<nat>)
    requires Taken(rows, offset, limit, tuple, rows', offset', limit')
    ensures tuple.None? ==> Window(rows, offset, limit) == []
    ensures tuple.Some? ==> Window(rows, offset, limit) == [tuple.value] + Window(rows', offset', limit') && |rows'| < |rows|
  {
    WindowStep(rows, offset, limit);
  }

  lemma MoveFront<V>(out: seq<V>, v: V, rest: seq<V>)
    ensures out + ([v] + rest) == out + [v] + rest
  {
  }

  class TupleIter<V> {
    var offset: nat
    var limit: Option<nat>
    var iter: seq<V>

    constructor (offset: nat, limit: Option<nat>, rows: seq<V>)
      ensures this.offset == offset && this.limit == limit && this.iter == rows
    {
      this.offset, this.limit, this.iter := offset, limit, rows;
    }

    method NextTuple() returns (tuple: Option<V>)
      modifies this
      ensures Taken(old(iter), old(offset), old(limit), tuple, iter, offset, limit)
    {
      ghost var next := Drop(iter, offset);
      while offset > 0
        invariant Drop(iter, offset) == next && limit == old(limit)
        decreases offset
      {
        if iter == [] {
          return None;
        }
        assert iter == [iter[0]] + iter[1..];
        DropHead(iter[0], iter[1..], offset);
        iter := iter[1..];
        offset := offset - 1;
      }
      if iter != [] {
        var value := iter[0];
        iter := iter[1..];
        if limit.Some? {
          if limit.value == 0 {
            return None;
          }
          limit := Some(limit.value - 1);
        }
        return Some(value);
      }
      return None;
    }
  }

  /** A table scan returns exactly the window of its rows. */
  method DrainTable<V>(t: TupleIter<V>) returns (out: seq<V>)
    modifies t
    ensures out == Window(old(t.iter), old(t.offset), old(t.limit))
  {
    out := [];
    ghost var all := Window(t.iter, t.offset, t.limit);
    while true
      invariant out + Window(t.iter, t.offset, t.limit) == all
      decreases |t.iter|
    {
      ghost var rows, offset, limit := t.iter, t.offset, t.limit;
      var tuple := t.NextTuple();
      TakenWindow(rows, offset, limit, tuple, t.iter, t.offset, t.limit);
      if tuple.None? {
        return;
      }
      MoveFront(out, tuple.value, Window(t.iter, t.offset, t.limit));
      out := out + [tuple.value];
    }
  }

  // ---------------------------------------------------------------- misses

  /** The rows that were found. */
  function Hits<V>(items: seq<Option<V>>): seq<V> {
    if items == [] then [] else (if items[0].Some? then [items[0].value] else []) + Hits(items[1..])
  }

  predicate NoHitAfterMiss<V>(items: seq<Option<V>>) {
    forall i, j :: 0 <= i < j < |items| && items[i].None? ==> items[j].None?
  }

  lemma {:induction false} NoHits<V>(items: seq<Option<V>>)
    ensures Hits(items) == [] <==> forall i :: 0 <= i < |items| ==> items[i].None?
  {
    if items != [] {
      NoHits(items[1..]);
      assert forall i :: 0 < i < |items| ==> items[i] == items[1..][i - 1];
    }
  }

  lemma {:induction false} MissEndsAll<V>(items: seq<Option<V>>)
    ensures UntilMiss(items) == Hits(items) <==> NoHitAfterMiss(items)
  {
    if items != [] {
      MissEndsAll(items[1..]);
      assert forall i :: 0 < i < |items| ==> items[i] == items[1..][i - 1];
      NoHits(items[1..]);
      if items[0].Some? {
        assert (UntilMiss(items) == Hits(items)) <==> (UntilMiss(items[1..]) == Hits(items[1..])) by {
          assert UntilMiss(items)[1..] == UntilMiss(items[1..]) && Hits(items)[1..] == Hits(items[1..]);
        }
      }
    }
  }

  function Misses<V>(n: nat): (items: seq<Option<V>>)
    ensures |items| == n && forall i :: 0 <= i < n ==> items[i] == None
  {
    seq(n, _ => None)
  }

  lemma {:induction false} FoundThenMissed<V>(rows: seq<V>, n: nat)
    ensures UntilMiss(Found(rows) + Misses(n)) == rows
  {
    var items := Found(rows) + Misses(n);
    if rows != [] {
      assert items[1..] == Found(rows[1..]) + Misses(n);
      FoundThenMissed(rows[1..], n);
    }
  }

  lemma OnlyMisses<V>(items: seq<Option<V>>)
    requires forall i :: 0 <= i < |items| ==> items[i].None?
    ensures Hits(items) == [] && items == Found([]) + Misses(|items|)
  {
    NoHits(items);
  }

  /** Without a hit after a miss the items are the hits, then misses. */
  lemma {:induction false} HitsFirst<V>(items: seq<Option<V>>)
    requires NoHitAfterMiss(items)
    ensures |Hits(items)| <= |items| && items == Found(Hits(items)) + Misses(|items| - |Hits(items)|)
  {
    if items == [] || items[0].None? {
      OnlyMisses(items);
    } else {
      var rest := items[1..];
      assert forall i :: 0 <= i < |rest| ==> rest[i] == items[i + 1];
      HitsFirst(rest);
      HitInFront(items[0].value, rest, Hits(rest), Misses(|rest| - |Hits(rest)|));
      assert items == [items[0]] + rest;
    }
  }

  lemma HitInFront<V>(v: V, rest: seq<Option<V>>, rows: seq<V>, misses: seq<Option<V>>)
    requires rest == Found(rows) + misses
    ensures [Some(v)] + rest == Found([v] + rows) + misses
  {
    FoundFirst(v, rows);
    Regroup([Some(v)], Found(rows), misses);
  }

  lemma FoundFirst<V>(v: V, rows: seq<V>)
    ensures Found([v] + rows) == [Some(v)] + Found(rows)
  {
  }

  lemma Regroup<A>(a: seq<A>, b: seq<A>, c: seq<A>)
    ensures a + (b + c) == a + b + c
  {
  }

  /** A window over hits and then misses is a window of the hits, then misses. */
  lemma WindowSplit<V>(rows: seq<V>, n: nat, offset: nat, limit: Option<nat>) returns (m: nat)
    ensures Window(Found(rows) + Misses(n), offset, limit) == Found(Window(rows, offset, limit)) + Misses(m)
  {
    var items := Found(rows) + Misses(n);
    var k := |Drop(items, offset)| - |Drop(rows, offset)|;
    assert Drop(items, offset) == Found(Drop(rows, offset)) + Misses(k);
    var left := Drop(rows, offset);
    if limit.None? {
      m := k;
    } else if limit.value <= |left| {
      m := 0;
      assert Take(Found(left) + Misses(k), limit.value) == Found(left[..limit.value]) + Misses(0);
    } else {
      m := |Take(Found(left) + Misses(k), limit.value)| - |left|;
      assert Take(Found(left) + Misses(k), limit.value) == Found(left) + Misses(m);
    }
  }

  /** Stopping at the first None gives the window of the rows that were found, for every offset and limit,
      exactly when no row is found after a point lookup that missed. */
  lemma MissEndsScan<V>(items: seq<Option<V>>)
    ensures (forall offset, limit :: UntilMiss(Window(items, offset, limit)) == Window(Hits(items), offset, limit))
            <==> NoHitAfterMiss(items)
  {
    if NoHitAfterMiss(items) {
      HitsFirst(items);
      forall offset, limit ensures UntilMiss(Window(items, offset, limit)) == Window(Hits(items), offset, limit) {
        var m := WindowSplit(Hits(items), |items| - |Hits(items)|, offset, limit);
        FoundThenMissed(Window(Hits(items), offset, limit), m);
      }
    } else {
      MissEndsAll(items);
      assert Window(items, 0, None) == items && Window(Hits(items), 0, None) == Hits(items);
    }
  }

  /** A lookup that misses hides the row of the next one. */
  lemma MissHidesRow<V>(row: V)
    ensures var items := AllItems([Point(None), Point(Some(row))]); UntilMiss(items) == [] && Hits(items) == [row]
  {
    var ss := [Point(None), Point(Some(row))];
    assert ss[1..] == [Point(Some(row))] && ss[1..][1..] == [];
    assert AllItems(ss[1..]) == [Some(row)];
    assert AllItems(ss) == [None, Some(row)];
    assert [None, Some(row)][1..] == [Some(row)];
    assert Hits([Some(row)]) == [row] by { assert [Some(row)][1..] == []; }
  }

  predicate OnlyScans<V>(ss: seq<Source<V>>) { forall i :: 0 <= i < |ss| ==> !ss[i].Point? }

  function Rows<V>(ss: seq<Source<V>>): seq<V> {
    if ss == [] then [] else (if ss[0].Scan? then ss[0].rows else []) + Rows(ss[1..])
  }

  lemma {:induction false} ScanItems<V>(ss: seq<Source<V>>)
    requires OnlyScans(ss)
    ensures AllItems(ss) == Found(Rows(ss))
  {
    if ss != [] {
      ScanItems(ss[1..]);
    }
  }

  lemma {:induction false} FoundUntilMiss<V>(rows: seq<V>)
    ensures UntilMiss(Found(rows)) == rows
  {
    if rows != [] {
      assert Found(rows)[1..] == Found(rows[1..]);
      FoundUntilMiss(rows[1..]);
    }
  }

  /** On scopes, and on equalities of non-unique indexes, an index scan returns exactly the window
      of the concatenated rows. */
  lemma ScanWindow<V>(ss: seq<Source<V>>, offset: nat, limit: Option<nat>)
    requires OnlyScans(ss)
    ensures UntilMiss(Window(AllItems(ss), offset, limit)) == Window(Rows(ss), offset, limit)
  {
    ScanItems(ss);
    var rows := Rows(ss);
    assert Window(Found(rows), offset, limit) == Found(Window(rows, offset, limit));
    FoundUntilMiss(Window(rows, offset, limit));
  }
}
