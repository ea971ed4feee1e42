/** Moving constants across a comparison: the visitor records each arithmetic node on a stack while
    it descends, and the comparison pops them onto its other side. Integer meaning; `+` and `-`. */
module Simplify {
  import opened Common

  datatype ArithOp = Plus | Minus

  datatype CmpOp = Gt | Lt | GtEq | LtEq | Eq | NotEq

  datatype Expr =
    | Col(name: string)
    | Const(k: int)
    | Arith(op: ArithOp, l: Expr, r: Expr)
    | Empty

  datatype Comparison = Comparison(op: CmpOp, l: Expr, r: Expr)

  datatype Replace = Replace(column: string, val: Expr, op: ArithOp, isColumnLeft: bool)

  function UnpackCol(e: Expr, isDeep: bool): Option<string> {
    match e
    case Col(c) => Some(c)
    case Arith(_, l, r) =>
      if !isDeep then None
      else if UnpackCol(l, true).Some? then UnpackCol(l, true) else UnpackCol(r, true)
    case _ => None
  }

  /** The side that holds the column to record, looking deep only when something is recorded already. */
  function ColumnSide(l: Expr, r: Expr, stackEmpty: bool): Option<(string, bool)> {
    var a, b := UnpackCol(l, false), UnpackCol(r, false);
    if a.Some? || b.Some? then OneSide(a, b)
    else if stackEmpty then None
    else OneSide(UnpackCol(l, true), UnpackCol(r, true))
  }

  function OneSide(a: Option<string>, b: Option<string>): Option<(string, bool)> {
    if a.Some? && b.None? then Some((a.value, true))
    else if a.None? && b.Some? then Some((b.value, false))
    else None
  }

  /** Recording an arithmetic node takes the constant out of it. */
  function Record(op: ArithOp, l: Expr, r: Expr, stack: seq<Replace>): (Expr, seq<Replace>) {
    match ColumnSide(l, r, stack == [])
    case Some((c, true)) => (Arith(op, l, Empty), stack + [Replace(c, r, op, true)])
    case Some((c, false)) => (Arith(op, Empty, r), stack + [Replace(c, l, op, false)])
    case None => (Arith(op, l, r), stack)
  }

  /** Visiting an arithmetic expression: the expression it leaves and the stack it leaves. */
  function Visit(e: Expr, stack: seq<Replace>): (Expr, seq<Replace>) {
    if !e.Arith? then (e, stack)
    else
      var left := Visit(e.l, stack);
      var right := Visit(e.r, left.1);
      Record(e.op, left.0, right.0, right.1)
  }

  function OpFlip(op: ArithOp): ArithOp { if op.Plus? then Minus else Plus }

  function ComparisonFlip(op: CmpOp): CmpOp {
    match op
    case Gt => Lt
    case GtEq => LtEq
    case Lt => Gt
    case LtEq => GtEq
    case _ => op
  }

  /** One popped node moved across `left op right`. */
  function FixBinary(rep: Replace, cmp: Comparison): Comparison {
    if rep.isColumnLeft then
      Comparison(cmp.op, Col(rep.column), Arith(OpFlip(rep.op), cmp.r, rep.val))
    else
      Comparison(if rep.op.Minus? then ComparisonFlip(cmp.op) else cmp.op, Col(rep.column), Arith(rep.op, rep.val, cmp.r))
  }

  function PopAll(stack: seq<Replace>, cmp: Comparison): Comparison {
    if stack == [] then cmp else PopAll(stack[..|stack| - 1], FixBinary(stack[|stack| - 1], cmp))
  }

  function Swap(cmp: Comparison): Comparison { Comparison(cmp.op, cmp.r, cmp.l) }

  /** fix_expr on one side: visit it, then pop everything recorded. */
  function FixExpr(cmp: Comparison): Comparison {
    var (l, stack) := Visit(cmp.l, []);
    PopAll(stack, Comparison(cmp.op, l, cmp.r))
  }

  /** Both sides in turn, as the visitor does at a comparison. */
  function SimplifyComparison(cmp: Comparison): Comparison {
    Swap(FixExpr(Swap(FixExpr(cmp))))
  }

  /** fix_expr as the loop it is. */
  method FixExprLoop(cmp: Comparison) returns (out: Comparison)
    ensures out == FixExpr(cmp)
  {
    var (l, pending) := Visit(cmp.l, []);
    out := Comparison(cmp.op, l, cmp.r);
    while pending != []
      invariant PopAll(pending, out) == FixExpr(cmp)
      decreases |pending|
    {
      var top := pending[|pending| - 1];
      pending := pending[..|pending| - 1];
      out := FixBinary(top, out);
    }
  }

  // ---------------------------------------------------------------- meaning

  function Value(env: string -> int, e: Expr): int {
    match e
    case Col(c) => env(c)
    case Const(k) => k
    case Arith(Plus, l, r) => Value(env, l) + Value(env, r)
    case Arith(Minus, l, r) => Value(env, l) - Value(env, r)
    case Empty => 0
  }

  predicate Compare(op: CmpOp, a: int, b: int) {
    match op
    case Gt => a > b
    case Lt => a < b
    case GtEq => a >= b
    case LtEq => a <= b
    case Eq => a == b
    case NotEq => a != b
  }

  predicate Holds(env: string -> int, cmp: Comparison) { Compare(cmp.op, Value(env, cmp.l), Value(env, cmp.r)) }

  /** Constants only. */
  predicate Constant(e: Expr) {
    match e
    case Const(_) => true
    case Arith(_, l, r) => Constant(l) && Constant(r)
    case _ => false
  }

  function ConstantValue(e: Expr): int
    requires Constant(e)
  {
    match e
    case Const(k) => k
    case Arith(Plus, l, r) => ConstantValue(l) + ConstantValue(r)
    case Arith(Minus, l, r) => ConstantValue(l) - ConstantValue(r)
  }

  /** One column with constants added, subtracted, or subtracted from, on either side, to any depth. */
  predicate Chain(e: Expr, column: string) {
    match e
    case Col(c) => c == column
    case Arith(_, l, r) => (Chain(l, column) && Constant(r)) || (Constant(l) && Chain(r, column))
    case _ => false
  }

  function Signed(s: int, n: int): int { if s == 1 then n else -n }

  /** +1 or -1: the sign with which the column enters the chain. */
  function Sign(e: Expr, column: string): int
    requires Chain(e, column)
  {
    if e.Col? then 1
    else if Chain(e.l, column) && Constant(e.r) then Sign(e.l, column)
    else if e.op.Minus? then -Sign(e.r, column)
    else Sign(e.r, column)
  }

  /** How far the moved constant is off: twice the sum of the constants that stand to the left of a
      `+`, each with the sign of the column below it. */
  function Skew(e: Expr, column: string): int
    requires Chain(e, column)
  {
    if e.Col? then 0
    else if Chain(e.l, column) && Constant(e.r) then Skew(e.l, column)
    else if e.op.Minus? then Skew(e.r, column)
    else Skew(e.r, column) + Signed(Sign(e.r, column), 2 * ConstantValue(e.l))
  }

  lemma {:induction false} ConstantIsValue(env: string -> int, e: Expr)
    requires Constant(e)
    ensures Value(env, e) == ConstantValue(e)
  {
    if e.Arith? {
      ConstantIsValue(env, e.l);
      ConstantIsValue(env, e.r);
    }
  }

  /** Visiting constants changes nothing. */
  lemma {:induction false} VisitConstant(e: Expr, stack: seq<Replace>)
    requires Constant(e)
    ensures Visit(e, stack) == (e, stack)
    ensures UnpackCol(e, false).None? && UnpackCol(e, true).None?
  {
    if e.Arith? {
      VisitConstant(e.l, stack);
      VisitConstant(e.r, stack);
    }
  }

  lemma {:induction false} NoConstantChain(e: Expr, column: string)
    requires Chain(e, column)
    ensures !Constant(e)
  {
    if e.Arith? {
      if Chain(e.l, column) { NoConstantChain(e.l, column); } else { NoConstantChain(e.r, column); }
    }
  }

  /** The entries a chain leaves on the stack, innermost first. */
  function Entries(e: Expr, column: string): seq<Replace>
    requires Chain(e, column)
  {
    if e.Col? then []
    else if Chain(e.l, column) && Constant(e.r) then Entries(e.l, column) + [Replace(column, e.r, e.op, true)]
    else Entries(e.r, column) + [Replace(column, e.l, e.op, false)]
  }

  lemma {:induction false} VisitChain(e: Expr, column: string, stack: seq<Replace>)
    requires Chain(e, column)
    ensures Visit(e, stack).1 == stack + Entries(e, column)
    ensures UnpackCol(Visit(e, stack).0, true) == Some(column)
    ensures UnpackCol(Visit(e, stack).0, false) == if e.Col? then Some(column) else None
    ensures e.Col? ==> Visit(e, stack).0 == e
  {
    if e.Arith? {
      if Chain(e.l, column) && Constant(e.r) {
        VisitChain(e.l, column, stack);
        VisitConstant(e.r, Visit(e.l, stack).1);
        assert e.l.Arith? ==> Entries(e.l, column) != [];
      } else {
        VisitConstant(e.l, stack);
        VisitChain(e.r, column, stack);
        assert e.r.Arith? ==> Entries(e.r, column) != [];
      }
    }
  }

  /** Popping a chain's entries leaves the column compared with one constant. */
  lemma {:induction false} PopChain(e: Expr, column: string, cmp: Comparison)
    requires Chain(e, column) && Constant(cmp.r) && (e.Col? ==> cmp.l == e)
    ensures var out := PopAll(Entries(e, column), cmp);
            && out.l == Col(column) && Constant(out.r)
            && out.op == (if Sign(e, column) == 1 then cmp.op else ComparisonFlip(cmp.op))
            && Sign(e, column) in {1, -1}
    decreases e
  {
    if e.Arith? {
      var left := Chain(e.l, column) && Constant(e.r);
      var inner, val := if left then e.l else e.r, if left then e.r else e.l;
      assert Entries(e, column)[..|Entries(e, column)| - 1] == Entries(inner, column);
      PopChain(inner, column, FixBinary(Replace(column, val, e.op, left), cmp));
    }
  }

  /** The constant it is compared with, as an integer. */
  lemma {:induction false} PopValue(e: Expr, column: string, cmp: Comparison, env: string -> int)
    requires Chain(e, column) && Constant(cmp.r)
    ensures Value(env, PopAll(Entries(e, column), cmp).r) == Skew(e, column) + env(column) + Signed(Sign(e, column), Value(env, cmp.r) - Value(env, e))
    decreases e
  {
    if e.Arith? {
      var left := Chain(e.l, column) && Constant(e.r);
      var inner, val := if left then e.l else e.r, if left then e.r else e.l;
      var next := FixBinary(Replace(column, val, e.op, left), cmp);
      assert Entries(e, column)[..|Entries(e, column)| - 1] == Entries(inner, column);
      assert PopAll(Entries(e, column), cmp) == PopAll(Entries(inner, column), next);
      PopValue(inner, column, next, env);
      PopStep(e, column, cmp, env);
    }
  }

  /** Moving one node across keeps the balance of both sides, up to the skew. */
  lemma PopStep(e: Expr, column: string, cmp: Comparison, env: string -> int)
    requires Chain(e, column) && e.Arith?
    ensures var left := Chain(e.l, column) && Constant(e.r);
            var inner, val := if left then e.l else e.r, if left then e.r else e.l;
            var next := FixBinary(Replace(column, val, e.op, left), cmp);
            Skew(inner, column) + Signed(Sign(inner, column), Value(env, next.r) - Value(env, inner))
            == Skew(e, column) + Signed(Sign(e, column), Value(env, cmp.r) - Value(env, e))
  {
    var left := Chain(e.l, column) && Constant(e.r);
    var inner, val := if left then e.l else e.r, if left then e.r else e.l;
    PopValues(e, column, cmp, env);
    SignIsUnit(inner, column);
  }

  /** What the node adds to one side it takes from the other. */
  lemma PopValues(e: Expr, column: string, cmp: Comparison, env: string -> int)
    requires Chain(e, column) && e.Arith?
    ensures var left := Chain(e.l, column) && Constant(e.r);
            var inner, val := if left then e.l else e.r, if left then e.r else e.l;
            var next := FixBinary(Replace(column, val, e.op, left), cmp);
            var moved, before := Value(env, next.r) - Value(env, inner), Value(env, cmp.r) - Value(env, e);
            moved == if left then before else if e.op.Minus? then -before else before + 2 * ConstantValue(val)
  {
    var left := Chain(e.l, column) && Constant(e.r);
    ConstantIsValue(env, if left then e.r else e.l);
  }

  lemma {:induction false} SignIsUnit(e: Expr, column: string)
    requires Chain(e, column)
    ensures Sign(e, column) == 1 || Sign(e, column) == -1
  {
    if e.Arith? {
      if Chain(e.l, column) && Constant(e.r) { SignIsUnit(e.l, column); } else { SignIsUnit(e.r, column); }
    }
  }

  /** A side of constants comes through unchanged. */
  lemma ConstantSide(cmp: Comparison)
    requires Constant(cmp.l)
    ensures FixExpr(cmp) == cmp
  {
    VisitConstant(cmp.l, []);
  }

  lemma ChainSide(cmp: Comparison, column: string)
    requires Chain(cmp.l, column)
    ensures FixExpr(cmp) == PopAll(Entries(cmp.l, column), Comparison(cmp.op, Visit(cmp.l, []).0, cmp.r))
    ensures cmp.l.Col? ==> Visit(cmp.l, []).0 == cmp.l
  {
    VisitChain(cmp.l, column, []);
    assert [] + Entries(cmp.l, column) == Entries(cmp.l, column);
  }

  /** One side fixed: the column against a constant, off by the skew. */
  lemma SideMoves(cmp: Comparison, column: string, env: string -> int)
    requires Chain(cmp.l, column) && Constant(cmp.r)
    ensures var out := FixExpr(cmp);
            && out.l == Col(column) && Constant(out.r)
            && out.op == (if Sign(cmp.l, column) == 1 then cmp.op else ComparisonFlip(cmp.op))
            && Sign(cmp.l, column) in {1, -1}
            && Value(env, out.r) == Skew(cmp.l, column) + env(column) + Signed(Sign(cmp.l, column), Value(env, cmp.r) - Value(env, cmp.l))
  {
    ChainSide(cmp, column);
    var start := Comparison(cmp.op, Visit(cmp.l, []).0, cmp.r);
    PopChain(cmp.l, column, start);
    PopValue(cmp.l, column, start, env);
  }

  /** A chain against a constant becomes the column against a constant, off by the skew. */
  lemma ChainMoves(cmp: Comparison, column: string, env: string -> int)
    requires Chain(cmp.l, column) && Constant(cmp.r)
    ensures var out := SimplifyComparison(cmp);
            && out.l == Col(column) && Constant(out.r)
            && out.op == (if Sign(cmp.l, column) == 1 then cmp.op else ComparisonFlip(cmp.op))
            && Sign(cmp.l, column) in {1, -1}
            && Value(env, out.r) == Skew(cmp.l, column) + env(column) + Signed(Sign(cmp.l, column), Value(env, cmp.r) - Value(env, cmp.l))
  {
    SideMoves(cmp, column, env);
    ConstantSide(Swap(FixExpr(cmp)));
  }

  /** The same with the chain on the right. */
  lemma RightChainMoves(cmp: Comparison, column: string, env: string -> int)
    requires Constant(cmp.l) && Chain(cmp.r, column)
    ensures var out := SimplifyComparison(cmp);
            && out.r == Col(column) && Constant(out.l)
            && out.op == (if Sign(cmp.r, column) == 1 then cmp.op else ComparisonFlip(cmp.op))
            && Sign(cmp.r, column) in {1, -1}
            && Value(env, out.l) == Skew(cmp.r, column) + env(column) + Signed(Sign(cmp.r, column), Value(env, cmp.l) - Value(env, cmp.r))
  {
    ConstantSide(cmp);
    SideMoves(Swap(cmp), column, env);
  }

  /** Two comparisons of the same number that agree everywhere have the same threshold. */
  lemma ThresholdsDiffer(op: CmpOp, a: int, b: int)
    requires a != b
    ensures exists x :: Compare(op, x, a) != Compare(op, x, b)
  {
    var x := if op.Gt? || op.LtEq? then (if a < b then b else a) else if op.Lt? || op.GtEq? then (if a < b then a else b) else a;
    assert Compare(op, x, a) != Compare(op, x, b);
  }

  /** The column takes any value whatever the other columns hold. */
  function With(column: string, x: int): string -> int { c => if c == column then x else 0 }

  /** A chain is its sign times the column plus a constant. */
  lemma {:induction false} ChainIsAffine(e: Expr, column: string, x: int)
    requires Chain(e, column)
    ensures Value(With(column, x), e) - Signed(Sign(e, column), x) == Value(With(column, 0), e)
    ensures Sign(e, column) in {1, -1}
  {
    if e.Arith? {
      var left := Chain(e.l, column) && Constant(e.r);
      var inner, val := if left then e.l else e.r, if left then e.r else e.l;
      ChainIsAffine(inner, column, x);
      ConstantIsValue(With(column, x), val);
      ConstantIsValue(With(column, 0), val);
    }
  }

  lemma CompareAffine(op: CmpOp, s: int, x: int, k: int, t: int)
    requires s == 1 || s == -1
    ensures Compare(op, Signed(s, x) + k, t) == Compare(if s == 1 then op else ComparisonFlip(op), x, Signed(s, t - k))
    ensures Compare(op, t, x) == Compare(ComparisonFlip(op), x, t)
    ensures ComparisonFlip(ComparisonFlip(op)) == op
  {
  }

  function LeftOp(cmp: Comparison, s: int): CmpOp { if s == 1 then cmp.op else ComparisonFlip(cmp.op) }

  /** The integer a chain against a constant compares the column with. */
  function Threshold(cmp: Comparison, column: string): int
    requires Chain(cmp.l, column) && Constant(cmp.r)
  {
    Signed(Sign(cmp.l, column), ConstantValue(cmp.r) - Value(With(column, 0), cmp.l))
  }

  lemma BeforeMove(cmp: Comparison, column: string, x: int)
    requires Chain(cmp.l, column) && Constant(cmp.r)
    ensures Holds(With(column, x), cmp) == Compare(LeftOp(cmp, Sign(cmp.l, column)), x, Threshold(cmp, column))
  {
    ChainIsAffine(cmp.l, column, x);
    ConstantIsValue(With(column, x), cmp.r);
    CompareAffine(cmp.op, Sign(cmp.l, column), x, Value(With(column, 0), cmp.l), ConstantValue(cmp.r));
  }

  lemma MovedValue(cmp: Comparison, column: string, x: int)
    requires Chain(cmp.l, column) && Constant(cmp.r)
    ensures var env := With(column, x);
            x + Signed(Sign(cmp.l, column), Value(env, cmp.r) - Value(env, cmp.l)) == Threshold(cmp, column)
  {
    ChainIsAffine(cmp.l, column, x);
    ConstantIsValue(With(column, x), cmp.r);
    Balance(Sign(cmp.l, column), x, Value(With(column, 0), cmp.l), ConstantValue(cmp.r));
  }

  lemma Balance(s: int, x: int, k: int, t: int)
    requires s == 1 || s == -1
    ensures x + Signed(s, t - (Signed(s, x) + k)) == Signed(s, t - k)
  {
  }

  /** Before the move, and after it as `ChainMoves` describes the outcome. */
  lemma MoveAt(cmp: Comparison, out: Comparison, column: string, x: int, skew: int)
    requires Moved(cmp, out, column, x, skew)
    ensures var op, n := LeftOp(cmp, Sign(cmp.l, column)), Threshold(cmp, column);
            && Holds(With(column, x), cmp) == Compare(op, x, n)
            && Holds(With(column, x), out) == Compare(op, x, n + skew)
  {
    BeforeMove(cmp, column, x);
    MovedValue(cmp, column, x);
  }

  /** The rewrite keeps the truth value for every integer exactly when the skew is zero, that is,
      when the constants standing to the left of a `+` cancel; in particular always when there is
      none. */
  lemma ArithmeticMoveExact(cmp: Comparison, column: string)
    requires Chain(cmp.l, column) && Constant(cmp.r)
    ensures (forall x :: Holds(With(column, x), SimplifyComparison(cmp)) == Holds(With(column, x), cmp))
       <==> Skew(cmp.l, column) == 0
  {
    var out := SimplifyComparison(cmp);
    forall x ensures Moved(cmp, out, column, x, Skew(cmp.l, column)) {
      ChainMoves(cmp, column, With(column, x));
    }
    MoveExact(cmp, out, column, Skew(cmp.l, column));
  }

  /** What `ChainMoves` says of the outcome. */
  ghost predicate Moved(cmp: Comparison, out: Comparison, column: string, x: int, skew: int) {
    && Chain(cmp.l, column) && Constant(cmp.r)
    && out.l == Col(column) && out.op == LeftOp(cmp, Sign(cmp.l, column))
    && var env := With(column, x);
    Value(env, out.r) == skew + x + Signed(Sign(cmp.l, column), Value(env, cmp.r) - Value(env, cmp.l))
  }

  lemma MoveExact(cmp: Comparison, out: Comparison, column: string, skew: int)
    requires forall x :: Moved(cmp, out, column, x, skew)
    ensures (forall x :: Holds(With(column, x), out) == Holds(With(column, x), cmp)) <==> skew == 0
  {
    assert Moved(cmp, out, column, 0, skew);
    var op, n := LeftOp(cmp, Sign(cmp.l, column)), Threshold(cmp, column);
    forall x ensures Holds(With(column, x), cmp) == Compare(op, x, n) && Holds(With(column, x), out) == Compare(op, x, n + skew) {
      assert Moved(cmp, out, column, x, skew);
      MoveAt(cmp, out, column, x, skew);
    }
    ThresholdsDecide(cmp, out, column, op, n, skew);
  }

  lemma ThresholdsDecide(cmp: Comparison, out: Comparison, column: string, op: CmpOp, n: int, skew: int)
    requires forall x :: Holds(With(column, x), cmp) == Compare(op, x, n) && Holds(With(column, x), out) == Compare(op, x, n + skew)
    ensures (forall x :: Holds(With(column, x), out) == Holds(With(column, x), cmp)) <==> skew == 0
  {
    if skew != 0 {
      ThresholdsDiffer(op, n, n + skew);
      var x :| Compare(op, x, n) != Compare(op, x, n + skew);
      assert Holds(With(column, x), out) != Holds(With(column, x), cmp);
    }
  }

  function Mirror(cmp: Comparison): Comparison { Comparison(ComparisonFlip(cmp.op), cmp.r, cmp.l) }

  lemma MirrorHolds(env: string -> int, cmp: Comparison)
    ensures Holds(env, Mirror(cmp)) == Holds(env, cmp)
  {
  }

  /** The same with the chain on the right of the comparison. */
  lemma RightArithmeticMoveExact(cmp: Comparison, column: string)
    requires Constant(cmp.l) && Chain(cmp.r, column)
    ensures (forall x :: Holds(With(column, x), SimplifyComparison(cmp)) == Holds(With(column, x), cmp))
       <==> Skew(cmp.r, column) == 0
  {
    var out := SimplifyComparison(cmp);
    forall x ensures Moved(Mirror(cmp), Mirror(out), column, x, Skew(cmp.r, column)) {
      RightChainMoves(cmp, column, With(column, x));
    }
    MoveExact(Mirror(cmp), Mirror(out), column, Skew(cmp.r, column));
    forall x ensures Holds(With(column, x), Mirror(cmp)) == Holds(With(column, x), cmp)
             ensures Holds(With(column, x), Mirror(out)) == Holds(With(column, x), out)
    {
      MirrorHolds(With(column, x), cmp);
      MirrorHolds(With(column, x), out);
    }
  }

  /** `k + c > t` is rewritten to `c > k + t`, wrong for every k but 0. */
  lemma LeftPlusIsWrong(k: int, t: int)
    requires k != 0
    ensures var cmp := Comparison(Gt, Arith(Plus, Const(k), Col("c")), Const(t));
            exists x :: Holds(With("c", x), SimplifyComparison(cmp)) != Holds(With("c", x), cmp)
  {
    var cmp := Comparison(Gt, Arith(Plus, Const(k), Col("c")), Const(t));
    assert Skew(cmp.l, "c") == 2 * k by { assert Skew(Col("c"), "c") == 0 && Sign(Col("c"), "c") == 1; }
    ArithmeticMoveExact(cmp, "c");
  }
}
