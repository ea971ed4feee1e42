/** Ranges on one column: the bound comparison, the AND/OR merge of two ranges and
    the cursor-driven merge of a range into a list.

    Column values come from any type `T` with a total preorder `le`: two values that
    compare as equal (1.0 and 1.00 as decimals) need not be identical. */
module Ranges {
  import opened Common

  datatype Ordering = Less | Equal | Greater {
    function Reverse(): Ordering {
      match this
      case Less => Greater
      case Equal => Equal
      case Greater => Less
    }

    function Then(next: Ordering): Ordering {
      if Equal? then next else this
    }
  }

  datatype Value<+T> = Null | Val(v: T)

  datatype Bound<+T> = Included(value: Value<T>) | Excluded(value: Value<T>) | Unbounded

  datatype Range<+T> =
    | Scope(min: Bound<T>, max: Bound<T>)
    | Eq(eq: Value<T>)
    | Dummy
    | SortedRanges(ranges: seq<Range<T>>)
  {
    predicate Simple() { Scope? || Eq? }
  }

  datatype BinaryOp = And | Or | Gt | Lt | GtEq | LtEq | EqOp | Spaceship | NotEq | OtherOp

  ghost predicate TotalPreorder<T(!new)>(le: (T, T) -> bool) {
    && (forall a, b :: le(a, b) || le(b, a))
    && (forall a, b, c :: le(a, b) && le(b, c) ==> le(a, c))
  }

  // ---------------------------------------------------------------- comparison

  function Compare<T>(le: (T, T) -> bool, a: T, b: T): Ordering {
    if !le(b, a) then Less else if !le(a, b) then Greater else Equal
  }

  /** Null only compares with Null. */
  function PartialCmp<T>(le: (T, T) -> bool, a: Value<T>, b: Value<T>): Option<Ordering> {
    match (a, b)
    case (Val(x), Val(y)) => Some(Compare(le, x, y))
    case (Null, Null) => Some(Equal)
    case (_, _) => None
  }

  predicate SameValue<T>(le: (T, T) -> bool, a: Value<T>, b: Value<T>) {
    PartialCmp(le, a, b) == Some(Equal)
  }

  function OrderFor(isMin: bool, order: Ordering): Ordering {
    if isMin then order else order.Reverse()
  }

  function BoundCompared<T>(le: (T, T) -> bool, left: Bound<T>, right: Bound<T>, isMin: bool): Option<Ordering> {
    match (left, right)
    case (Unbounded, Unbounded) => Some(Equal)
    case (Unbounded, _) => Some(OrderFor(isMin, Less))
    case (_, Unbounded) => Some(OrderFor(isMin, Greater))
    case (Included(l), Included(r)) => PartialCmp(le, l, r)
    case (Included(l), Excluded(r)) => ThenOrder(PartialCmp(le, l, r), OrderFor(isMin, Less))
    case (Excluded(l), Excluded(r)) => PartialCmp(le, l, r)
    case (Excluded(l), Included(r)) => ThenOrder(PartialCmp(le, l, r), OrderFor(isMin, Greater))
  }

  function ThenOrder(order: Option<Ordering>, next: Ordering): Option<Ordering> {
    match order
    case None => None
    case Some(o) => Some(o.Then(next))
  }

  // ---------------------------------------------------------------- two scopes

  /** What two ends that compare as equal stand for. */
  function Collapse<T>(min: Bound<T>): Range<T> {
    match min
    case Included(v) => Eq(v)
    case Excluded(_) => Dummy
    case Unbounded => Scope(Unbounded, Unbounded)
  }

  function OrScopeMerge<T>(le: (T, T) -> bool, lmin: Bound<T>, lmax: Bound<T>, rmin: Bound<T>, rmax: Bound<T>): Range<T>
  {
    if BoundCompared(le, lmax, rmin, false) == Some(Less) || BoundCompared(le, rmax, lmin, false) == Some(Less) then
      if BoundCompared(le, lmin, rmin, true) == Some(Less) then
        SortedRanges([Scope(lmin, lmax), Scope(rmin, rmax)])
      else
        SortedRanges([Scope(rmin, rmax), Scope(lmin, lmax)])
    else
      var min := if BoundCompared(le, lmin, rmin, true) == Some(Less) then lmin else rmin;
      var max := if BoundCompared(le, lmax, rmax, false) == Some(Greater) then lmax else rmax;
      if BoundCompared(le, min, max, min.Unbounded?) == Some(Equal) then Collapse(min) else Scope(min, max)
  }

  function TighterMin<T>(le: (T, T) -> bool, a: Bound<T>, b: Bound<T>): (c: Bound<T>)
    ensures BoundNonNull(a) && BoundNonNull(b) ==> BoundNonNull(c)
  {
    if BoundCompared(le, a, b, true) == Some(Greater) then a else b
  }

  function TighterMax<T>(le: (T, T) -> bool, a: Bound<T>, b: Bound<T>): (c: Bound<T>)
    ensures BoundNonNull(a) && BoundNonNull(b) ==> BoundNonNull(c)
  {
    if BoundCompared(le, a, b, false) == Some(Less) then a else b
  }

  function AndScopeMerge<T>(le: (T, T) -> bool, lmin: Bound<T>, lmax: Bound<T>, rmin: Bound<T>, rmax: Bound<T>): Range<T>
  {
    MeetEnds(le, TighterMin(le, lmin, rmin), TighterMax(le, lmax, rmax))
  }

  function MeetEnds<T>(le: (T, T) -> bool, min: Bound<T>, max: Bound<T>): Range<T> {
    match BoundCompared(le, min, max, min.Unbounded?)
    case Some(Greater) => Dummy
    case Some(Equal) => Collapse(min)
    case _ => Scope(min, max)
  }

  // ---------------------------------------------------------------- meaning

  ghost predicate AboveMin<T>(le: (T, T) -> bool, min: Bound<T>, x: T) {
    match min
    case Unbounded => true
    case Included(v) => v.Val? && le(v.v, x)
    case Excluded(v) => v.Val? && !le(x, v.v)
  }

  ghost predicate BelowMax<T>(le: (T, T) -> bool, max: Bound<T>, x: T) {
    match max
    case Unbounded => true
    case Included(v) => v.Val? && le(x, v.v)
    case Excluded(v) => v.Val? && !le(v.v, x)
  }

  /** The non-null column values a range stands for. */
  ghost predicate In<T>(le: (T, T) -> bool, r: Range<T>, x: T) {
    match r
    case Scope(min, max) => AboveMin(le, min, x) && BelowMax(le, max, x)
    case Eq(v) => v.Val? && le(v.v, x) && le(x, v.v)
    case Dummy => false
    case SortedRanges(rs) => exists i :: 0 <= i < |rs| && In(le, rs[i], x)
  }

  predicate BoundNonNull<T>(b: Bound<T>) {
    b.Unbounded? || b.value.Val?
  }

  predicate NonNull<T>(r: Range<T>) {
    match r
    case Scope(min, max) => BoundNonNull(min) && BoundNonNull(max)
    case Eq(v) => v.Val?
    case Dummy => true
    case SortedRanges(rs) => forall i :: 0 <= i < |rs| ==> NonNull(rs[i])
  }

  /** Both ends finite means they are the right way round; every range the code builds has this. */
  predicate Ordered<T>(le: (T, T) -> bool, r: Range<T>) {
    match r
    case Scope(min, max) =>
      && BoundNonNull(min) && BoundNonNull(max)
      && (min.Unbounded? || max.Unbounded? ||
          (le(min.value.v, max.value.v) && (max.Excluded? ==> !le(max.value.v, min.value.v))))
    case Eq(v) => v.Val?
    case Dummy => true
    case SortedRanges(rs) => forall i :: 0 <= i < |rs| ==> rs[i].Simple() && Ordered(le, rs[i])
  }

  // ---------------------------------------------------------------- two ranges, neither a list

  function IncludeIfEq<T>(le: (T, T) -> bool, bound: Bound<T>, eq: Value<T>): Bound<T> {
    if bound.Excluded? && SameValue(le, bound.value, eq) then Included(bound.value) else bound
  }

  function AndScopeEq<T>(le: (T, T) -> bool, min: Bound<T>, max: Bound<T>, eq: Value<T>): Range<T> {
    var low := BoundCompared(le, Included(eq), min, true);
    var isLess := if low.None? then !min.Unbounded? else low == Some(Less);
    if isLess || BoundCompared(le, Included(eq), max, false) == Some(Greater) then Dummy else Eq(eq)
  }

  function OrScopeEq<T>(le: (T, T) -> bool, min: Bound<T>, max: Bound<T>, eq: Value<T>): Range<T> {
    if eq.Null? then
      if min.Excluded? then SortedRanges([Eq(eq), Scope(min, max)]) else Scope(min, max)
    else
      match BoundCompared(le, Excluded(eq), min, true)
      case Some(Less) => SortedRanges([Eq(eq), Scope(min, max)])
      case Some(Equal) => Scope(IncludeIfEq(le, min, eq), max)
      case _ =>
        match BoundCompared(le, Excluded(eq), max, false)
        case Some(Greater) => SortedRanges([Scope(min, max), Eq(eq)])
        case Some(Equal) => Scope(min, IncludeIfEq(le, max, eq))
        case _ => Scope(min, max)
  }

  function MergeEqs<T>(le: (T, T) -> bool, op: BinaryOp, l: Value<T>, r: Value<T>): Option<Range<T>> {
    if SameValue(le, l, r) && (op.And? || op.Or?) then Some(Eq(l))
    else
      match op
      case And => Some(Dummy)
      case Or =>
        if PartialCmp(le, l, r) == Some(Greater) then Some(SortedRanges([Eq(r), Eq(l)]))
        else Some(SortedRanges([Eq(l), Eq(r)]))
      case _ => None
  }

  function MergeScopeEq<T>(le: (T, T) -> bool, op: BinaryOp, min: Bound<T>, max: Bound<T>, eq: Value<T>): Option<Range<T>> {
    match op
    case And => Some(AndScopeEq(le, min, max, eq))
    case Or => Some(OrScopeEq(le, min, max, eq))
    case _ => None
  }

  /** merge_binary on two operands that are each a Scope or an Eq. */
  function MergeSimple<T>(le: (T, T) -> bool, op: BinaryOp, l: Range<T>, r: Range<T>): Option<Range<T>>
    requires l.Simple() && r.Simple()
  {
    match (l, r)
    case (Scope(lmin, lmax), Scope(rmin, rmax)) =>
      (match op
       case And => Some(AndScopeMerge(le, lmin, lmax, rmin, rmax))
       case Or => Some(OrScopeMerge(le, lmin, lmax, rmin, rmax))
       case _ => None)
    case (Scope(min, max), Eq(v)) => MergeScopeEq(le, op, min, max, v)
    case (Eq(v), Scope(min, max)) => MergeScopeEq(le, op, min, max, v)
    case (Eq(a), Eq(b)) => MergeEqs(le, op, a, b)
  }

  function LowerOf<T>(le: (T, T) -> bool, a: Bound<T>, b: Bound<T>): Bound<T> {
    if BoundCompared(le, a, b, true) == Some(Less) then a else b
  }

  function UpperOf<T>(le: (T, T) -> bool, a: Bound<T>, b: Bound<T>): Bound<T> {
    if BoundCompared(le, a, b, false) == Some(Greater) then a else b
  }

  /** The smaller lower end lets in what either does, the greater upper end likewise. */
  lemma WiderEnds<T(!new)>(le: (T, T) -> bool, a: Bound<T>, b: Bound<T>, x: T)
    requires TotalPreorder(le) && BoundNonNull(a) && BoundNonNull(b)
    ensures AboveMin(le, LowerOf(le, a, b), x) <==> AboveMin(le, a, x) || AboveMin(le, b, x)
    ensures BelowMax(le, UpperOf(le, a, b), x) <==> BelowMax(le, a, x) || BelowMax(le, b, x)
  {
  }

  /** The greater lower end lets in what both do, the smaller upper end likewise. */
  lemma NarrowerEnds<T(!new)>(le: (T, T) -> bool, a: Bound<T>, b: Bound<T>, x: T)
    requires TotalPreorder(le) && BoundNonNull(a) && BoundNonNull(b)
    ensures AboveMin(le, TighterMin(le, a, b), x) <==> AboveMin(le, a, x) && AboveMin(le, b, x)
    ensures BelowMax(le, TighterMax(le, a, b), x) <==> BelowMax(le, a, x) && BelowMax(le, b, x)
  {
  }

  /** Ends that meet stand for one value or none, ends the wrong way round for none. */
  lemma Collapsed<T(!new)>(le: (T, T) -> bool, min: Bound<T>, max: Bound<T>, x: T)
    requires TotalPreorder(le) && BoundNonNull(min) && BoundNonNull(max)
    ensures var order := BoundCompared(le, min, max, min.Unbounded?);
            && (order == Some(Equal) ==> (In(le, Collapse(min), x) <==> In(le, Scope(min, max), x)))
            && (order == Some(Greater) ==> !In(le, Scope(min, max), x))
  {
  }

  lemma MetEnds<T(!new)>(le: (T, T) -> bool, min: Bound<T>, max: Bound<T>, x: T)
    requires TotalPreorder(le) && BoundNonNull(min) && BoundNonNull(max)
    ensures In(le, MeetEnds(le, min, max), x) <==> AboveMin(le, min, x) && BelowMax(le, max, x)
  {
    Collapsed(le, min, max, x);
  }

  lemma AndScopesExact<T(!new)>(le: (T, T) -> bool, l: Range<T>, r: Range<T>, x: T)
    requires TotalPreorder(le) && l.Scope? && r.Scope? && NonNull(l) && NonNull(r)
    ensures In(le, AndScopeMerge(le, l.min, l.max, r.min, r.max), x) <==> In(le, l, x) && In(le, r, x)
  {
    NarrowerEnds(le, l.min, r.min, x);
    NarrowerEnds(le, l.max, r.max, x);
    MetEnds(le, TighterMin(le, l.min, r.min), TighterMax(le, l.max, r.max), x);
  }

  /** AND of two simple ranges is exactly their intersection, whatever their ends. */
  lemma AndSimpleExact<T(!new)>(le: (T, T) -> bool, l: Range<T>, r: Range<T>, x: T)
    requires TotalPreorder(le)
    requires l.Simple() && r.Simple() && NonNull(l) && NonNull(r)
    ensures MergeSimple(le, And, l, r).Some?
    ensures In(le, MergeSimple(le, And, l, r).value, x) <==> In(le, l, x) && In(le, r, x)
  {
    if l.Scope? && r.Scope? { AndScopesExact(le, l, r, x); }
  }

  /** `a` ends just below the value just above which `b` starts, and the code does not take the
      two for disjoint: the merged scope takes that value in. */
  predicate Gap<T>(le: (T, T) -> bool, a: Range<T>, b: Range<T>) {
    && a.Scope? && b.Scope? && a.max.Excluded? && b.min.Excluded?
    && SameValue(le, a.max.value, b.min.value)
    && (a.min.Unbounded? ==> b.max.Unbounded?)
  }

  lemma InPair<T(!new)>(le: (T, T) -> bool, a: Range<T>, b: Range<T>, x: T)
    ensures In(le, SortedRanges([a, b]), x) <==> In(le, a, x) || In(le, b, x)
  {
    var rs := [a, b];
    assert rs[0] == a && rs[1] == b;
  }

  /** Every value lies below the one end or above the other, unless it is the value in a gap. */
  lemma Touching<T(!new)>(le: (T, T) -> bool, max: Bound<T>, min: Bound<T>, x: T)
    requires TotalPreorder(le) && BoundNonNull(max) && BoundNonNull(min)
    requires BoundCompared(le, max, min, false) != Some(Less)
    ensures BelowMax(le, max, x) || AboveMin(le, min, x) || (max.Excluded? && min.Excluded? && SameValue(le, max.value, min.value) && BothWays(le, x, max.value.v))
  {
  }

  predicate BothWays<T>(le: (T, T) -> bool, x: T, y: T) { le(x, y) && le(y, x) }

  predicate Apart<T>(le: (T, T) -> bool, l: Range<T>, r: Range<T>)
    requires l.Scope? && r.Scope?
  {
    BoundCompared(le, l.max, r.min, false) == Some(Less) || BoundCompared(le, r.max, l.min, false) == Some(Less)
  }

  lemma OrScopesEnds<T(!new)>(le: (T, T) -> bool, l: Range<T>, r: Range<T>, x: T)
    requires TotalPreorder(le) && l.Scope? && r.Scope? && Ordered(le, l) && Ordered(le, r) && !Apart(le, l, r)
    ensures In(le, OrScopeMerge(le, l.min, l.max, r.min, r.max), x)
            <==> (AboveMin(le, l.min, x) || AboveMin(le, r.min, x)) && (BelowMax(le, l.max, x) || BelowMax(le, r.max, x))
  {
    WiderEnds(le, l.min, r.min, x);
    WiderEnds(le, l.max, r.max, x);
    Collapsed(le, LowerOf(le, l.min, r.min), UpperOf(le, l.max, r.max), x);
  }

  lemma OrScopesExact<T(!new)>(le: (T, T) -> bool, l: Range<T>, r: Range<T>, x: T)
    requires TotalPreorder(le)
    requires l.Scope? && r.Scope? && Ordered(le, l) && Ordered(le, r)
    requires !Gap(le, l, r) && !Gap(le, r, l)
    ensures In(le, OrScopeMerge(le, l.min, l.max, r.min, r.max), x) <==> In(le, l, x) || In(le, r, x)
  {
    if Apart(le, l, r) {
      InPair(le, l, r, x);
      InPair(le, r, l, x);
    } else {
      OrScopesEnds(le, l, r, x);
      Touching(le, l.max, r.min, x);
      Touching(le, r.max, l.min, x);
    }
  }

  lemma OrScopeEqExact<T(!new)>(le: (T, T) -> bool, min: Bound<T>, max: Bound<T>, v: Value<T>, x: T)
    requires TotalPreorder(le)
    requires Ordered(le, Scope(min, max)) && v.Val?
    ensures In(le, OrScopeEq(le, min, max, v), x) <==> In(le, Scope(min, max), x) || In(le, Eq(v), x)
  {
    InPair(le, Eq(v), Scope(min, max), x);
    InPair(le, Scope(min, max), Eq(v), x);
  }

  lemma OrSimpleExact<T(!new)>(le: (T, T) -> bool, l: Range<T>, r: Range<T>, x: T)
    requires TotalPreorder(le)
    requires l.Simple() && r.Simple() && Ordered(le, l) && Ordered(le, r)
    requires !Gap(le, l, r) && !Gap(le, r, l)
    ensures MergeSimple(le, Or, l, r).Some?
    ensures In(le, MergeSimple(le, Or, l, r).value, x) <==> In(le, l, x) || In(le, r, x)
  {
    match (l, r)
    case (Scope(lmin, lmax), Scope(rmin, rmax)) => OrScopesExact(le, l, r, x);
    case (Scope(min, max), Eq(v)) => OrScopeEqExact(le, min, max, v, x);
    case (Eq(v), Scope(min, max)) => OrScopeEqExact(le, min, max, v, x);
    case (Eq(a), Eq(b)) =>
      InPair(le, l, r, x);
      InPair(le, r, l, x);
  }

  /** Over a gap the merged scope takes in the value in the gap and nothing else. */
  lemma OrSimpleGap<T(!new)>(le: (T, T) -> bool, l: Range<T>, r: Range<T>, x: T)
    requires TotalPreorder(le)
    requires l.Simple() && r.Simple() && Ordered(le, l) && Ordered(le, r)
    requires Gap(le, l, r) || Gap(le, r, l)
    ensures MergeSimple(le, Or, l, r).Some?
    ensures var gap := if Gap(le, l, r) then l.max.value else r.max.value;
            && gap.Val? && !In(le, l, gap.v) && !In(le, r, gap.v)
            && (In(le, MergeSimple(le, Or, l, r).value, x) <==> In(le, l, x) || In(le, r, x) || BothWays(le, x, gap.v))
  {
    GapNotApart(le, l, r);
    OrScopesEnds(le, l, r, x);
    Touching(le, l.max, r.min, x);
    Touching(le, r.max, l.min, x);
  }

  lemma GapNotApart<T(!new)>(le: (T, T) -> bool, l: Range<T>, r: Range<T>)
    requires TotalPreorder(le) && l.Scope? && r.Scope? && Ordered(le, l) && Ordered(le, r) && (Gap(le, l, r) || Gap(le, r, l))
    ensures !Apart(le, l, r)
  {
  }

  /** OR is exactly the union if and only if there is no gap between the operands. */
  lemma OrSimpleUnion<T(!new)>(le: (T, T) -> bool, l: Range<T>, r: Range<T>)
    requires TotalPreorder(le)
    requires l.Simple() && r.Simple() && Ordered(le, l) && Ordered(le, r)
    ensures MergeSimple(le, Or, l, r).Some?
    ensures (forall x :: In(le, MergeSimple(le, Or, l, r).value, x) <==> In(le, l, x) || In(le, r, x)) <==> !Gap(le, l, r) && !Gap(le, r, l)
  {
    if Gap(le, l, r) || Gap(le, r, l) {
      var gap := if Gap(le, l, r) then l.max.value else r.max.value;
      OrSimpleGap(le, l, r, gap.v);
      assert In(le, MergeSimple(le, Or, l, r).value, gap.v);
    } else {
      forall x ensures In(le, MergeSimple(le, Or, l, r).value, x) <==> In(le, l, x) || In(le, r, x) {
        OrSimpleExact(le, l, r, x);
      }
      OrSimpleSome(le, l, r);
    }
  }

  lemma OrSimpleSome<T>(le: (T, T) -> bool, l: Range<T>, r: Range<T>)
    requires l.Simple() && r.Simple()
    ensures MergeSimple(le, Or, l, r).Some?
  {
  }

  // ---------------------------------------------------------------- a range into a list

  function InsertAt<A>(s: seq<A>, i: nat, a: A): seq<A>
    requires i <= |s|
  {
    s[..i] + [a] + s[i..]
  }

  function RemoveAt<A>(s: seq<A>, i: nat): seq<A>
    requires i < |s|
  {
    s[..i] + s[i + 1..]
  }

  /** What one turn of the merge loop does with the carried range and the entry under the cursor. */
  datatype Step = InsertHere | SkipEntry | MergeEntry | DiscardEntry | TakeEntry

  function Decide<T>(le: (T, T) -> bool, op: BinaryOp, carried: Range<T>, entry: Range<T>): Step
    requires carried.Simple() && entry.Simple()
  {
    match (carried, entry)
    case (Scope(lmin, lmax), Scope(rmin, rmax)) =>
      if BoundCompared(le, lmax, rmin, false) == Some(Less) then InsertHere
      else if BoundCompared(le, lmin, rmax, true) == Some(Greater) then SkipEntry
      else MergeEntry
    case (Scope(lmin, lmax), Eq(r)) =>
      if BoundCompared(le, lmax, Included(r), false) == Some(Less) then InsertHere
      else
        var low := BoundCompared(le, lmin, Included(r), true);
        if (if low.None? then op.Or? else low == Some(Greater)) then SkipEntry
        else if r.Null? then DiscardEntry
        else MergeEntry
    case (Eq(l), Eq(r)) =>
      if PartialCmp(le, l, r) == Some(Less) then InsertHere
      else if PartialCmp(le, l, r) == Some(Greater) then SkipEntry
      else MergeEntry
    case (Eq(l), Scope(rmin, rmax)) =>
      var low := BoundCompared(le, Included(l), rmin, false);
      if (if low.None? then op.Or? else low == Some(Less)) then InsertHere
      else if BoundCompared(le, Included(l), rmax, true) == Some(Greater) then SkipEntry
      else if l.Null? then TakeEntry
      else MergeEntry
  }

  /** A run of the merge loop: the list and the cursor it leaves, or no more stack. */
  datatype Merged<T> = Merged(ranges: seq<Range<T>>, idx: nat) | MergeOverflow

  /** The merge loop as a function of its state. `depth` is the stack left for the arm that
      restarts the merge on a carried list; that arm keeps only the carried list and the entry
      under the cursor. */
  function Extract<T>(depth: nat, le: (T, T) -> bool, op: BinaryOp, carried: Option<Range<T>>,
                      ranges: seq<Range<T>>, idx: nat): Merged<T>
    decreases depth, if idx < |ranges| then |ranges| - idx else 0
  {
    if carried.None? then Merged(ranges, idx)
    else if |ranges| <= idx then Merged(ranges + [carried.value], idx)
    else
      var c, entry := carried.value, ranges[idx];
      if c.Dummy? then
        match op
        case And => Merged([], idx)
        case Or => Extract(depth, le, op, Some(entry), RemoveAt(ranges, idx), idx)
        case _ => Merged(ranges, idx)
      else if c.SortedRanges? then
        if depth == 0 then MergeOverflow
        else
          match Extract(depth - 1, le, op, Some(entry), c.ranges, 0)
          case Merged(rs, _) => Merged(rs, idx)
          case MergeOverflow => MergeOverflow
      else if !entry.Simple() then Merged([], idx)
      else
        match Decide(le, op, c, entry)
        case InsertHere => Merged(InsertAt(ranges, idx, c), idx)
        case SkipEntry => Extract(depth, le, op, carried, ranges, idx + 1)
        case MergeEntry => Extract(depth, le, op, MergeSimple(le, op, c, entry), RemoveAt(ranges, idx), idx)
        case DiscardEntry => Extract(depth, le, op, carried, RemoveAt(ranges, idx), idx)
        case TakeEntry => Extract(depth, le, op, Some(entry), RemoveAt(ranges, idx), idx)
  }

  /** Merging the entries of one list into another with one cursor. */
  function MergeLists<T>(depth: nat, le: (T, T) -> bool, op: BinaryOp, left: seq<Range<T>>,
                         right: seq<Range<T>>, idx: nat): Merged<T>
    decreases |left|
  {
    if left == [] then Merged(right, idx)
    else
      match Extract(depth, le, op, Some(left[0]), right, idx)
      case Merged(rs, i) => MergeLists(depth, le, op, left[1..], rs, i)
      case MergeOverflow => MergeOverflow
  }

  function RangesToRange<T>(rs: seq<Range<T>>): Range<T> {
    if rs == [] then Dummy else if |rs| == 1 then rs[0] else SortedRanges(rs)
  }

  datatype Outcome<T> = Done(range: Option<Range<T>>) | StackOverflow

  function FromMerged<T>(m: Merged<T>): Outcome<T> {
    match m
    case Merged(rs, _) => Done(Some(RangesToRange(rs)))
    case MergeOverflow => StackOverflow
  }

  function MergeBinary<T>(depth: nat, le: (T, T) -> bool, op: BinaryOp, l: Range<T>, r: Range<T>): Outcome<T> {
    if l.Dummy? || r.Dummy? then
      match op
      case And => Done(Some(Dummy))
      case Or => Done(Some(if l.Dummy? then r else l))
      case _ => Done(None)
    else if l.Simple() && r.Simple() then Done(MergeSimple(le, op, l, r))
    else if l.Simple() then FromMerged(Extract(depth, le, op, Some(l), r.ranges, 0))
    else if r.Simple() then FromMerged(Extract(depth, le, op, Some(r), l.ranges, 0))
    else FromMerged(MergeLists(depth, le, op, l.ranges, r.ranges, 0))
  }

  /** extract_merge_ranges as the loop it is. */
  method ExtractMergeRanges<T>(depth: nat, le: (T, T) -> bool, op: BinaryOp, binary: Option<Range<T>>,
                               input: seq<Range<T>>, start: nat) returns (out: Merged<T>)
    ensures out == Extract(depth, le, op, binary, input, start)
    decreases depth
  {
    var carried, ranges := binary, input;
    var idx: nat := start;
    while idx < |ranges|
      invariant Extract(depth, le, op, carried, ranges, idx) == Extract(depth, le, op, binary, input, start)
      decreases |ranges| - idx
    {
      if carried.None? {
        break;
      }
      var c, entry := carried.value, ranges[idx];
      if c.Dummy? {
        match op {
          case And => return Merged([], idx);
          case Or =>
            carried := Some(entry);
            ranges := RemoveAt(ranges, idx);
          case _ => return Merged(ranges, idx);
        }
      } else if c.SortedRanges? {
        if depth == 0 {
          return MergeOverflow;
        }
        var inner := ExtractMergeRanges(depth - 1, le, op, Some(entry), c.ranges, 0);
        match inner {
          case Merged(rs, _) => return Merged(rs, idx);
          case MergeOverflow => return MergeOverflow;
        }
      } else if !entry.Simple() {
        return Merged([], idx);
      } else {
        match Decide(le, op, c, entry) {
          case InsertHere => return Merged(InsertAt(ranges, idx, c), idx);
          case SkipEntry => idx := idx + 1;
          case MergeEntry =>
            carried := MergeSimple(le, op, c, entry);
            ranges := RemoveAt(ranges, idx);
          case DiscardEntry => ranges := RemoveAt(ranges, idx);
          case TakeEntry =>
            carried := Some(entry);
            ranges := RemoveAt(ranges, idx);
        }
      }
    }
    return Merged(if carried.Some? then ranges + [carried.value] else ranges, idx);
  }
}
