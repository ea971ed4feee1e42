/** Keys of scalar values and of tuples of them: the memcomparable encoding. */
module TupleKeys {
  import opened KeyBytes
  import opened DecimalKeys
  import Ranges

  type Cell = Ranges.Value<Scalar>

  /** Dates and times share the integer encodings of their width. */
  datatype Scalar = Boolean(b: bool) | Int(w: nat, i: int) | UInt(w: nat, u: nat) | Dec(d: Decimal) | Utf8(text: Bytes) {
    predicate Valid() {
      match this
      case Int(w, i) => w > 0 && -(128 * Pow256(w - 1)) <= i < 128 * Pow256(w - 1)
      case UInt(w, u) => u < Pow256(w)
      case Dec(d) => d.Valid()
      case _ => true
    }
  }

  predicate SameType(a: Scalar, b: Scalar) {
    match (a, b)
    case (Boolean(_), Boolean(_)) => true
    case (Int(v, _), Int(w, _)) => v == w
    case (UInt(v, _), UInt(w, _)) => v == w
    case (Dec(_), Dec(_)) => true
    case (Utf8(_), Utf8(_)) => true
    case _ => false
  }

  /** The order of two values of one type. */
  predicate ScalarLe(a: Scalar, b: Scalar) {
    && SameType(a, b) && a.Valid() && b.Valid()
    && match (a, b)
       case (Boolean(x), Boolean(y)) => !x || y
       case (Int(_, x), Int(_, y)) => x <= y
       case (UInt(_, x), UInt(_, y)) => x <= y
       case (Dec(x), Dec(y)) => Scaled(x) <= Scaled(y)
       case (Utf8(x), Utf8(y)) => LexLe(x, y)
  }

  /** What a value appends; text also reallocates, see `Encode`. */
  function ScalarKey(s: Scalar): Bytes
    requires s.Valid()
  {
    match s
    case Boolean(b) => [if b then 0x31 else 0x30]
    case Int(w, i) => BigEndian(SignFlipped(i, w), w)
    case UInt(w, u) => BigEndian(u, w)
    case Dec(d) => DecimalKey(d)
    case Utf8(text) => Groups(text)
  }

  predicate ValidValue(v: Cell) { v.Val? ==> v.v.Valid() }

  /** memcomparable_encode of a scalar into a buffer; Null writes nothing. */
  function Encode(b: Bytes, v: Cell): Bytes
    requires ValidValue(v)
  {
    match v
    case Null => b
    case Val(Utf8(text)) => EncodeBytes(b, text)
    case Val(s) => b + ScalarKey(s)
  }

  lemma IntKeyOrder(w: nat, x: int, y: int)
    requires Int(w, x).Valid() && Int(w, y).Valid() && x < y
    ensures Below(BigEndian(SignFlipped(x, w), w), BigEndian(SignFlipped(y, w), w))
  {
    BigEndianOrder(SignFlipped(x, w), SignFlipped(y, w), w);
  }

  lemma TextGroupsOrder(x: Bytes, y: Bytes)
    ensures !LexLe(y, x) ==> Below(Groups(x), Groups(y))
    ensures LexLe(x, y) && LexLe(y, x) ==> x == y
  {
    LtTotal(x, y);
    if !LexLe(y, x) { GroupsOrder(x, y); }
  }

  /** Different values of one type have keys that part at a byte; equal ones have equal keys. */
  lemma ScalarKeyOrder(a: Scalar, b: Scalar)
    requires SameType(a, b) && a.Valid() && b.Valid()
    ensures !ScalarLe(b, a) ==> Below(ScalarKey(a), ScalarKey(b))
    ensures ScalarLe(a, b) && ScalarLe(b, a) ==> ScalarKey(a) == ScalarKey(b)
  {
    match (a, b)
    case (Boolean(x), Boolean(y)) => if !x && y { BelowAt(ScalarKey(a), ScalarKey(b), 0); }
    case (Int(w, x), Int(_, y)) => if x < y { IntKeyOrder(w, x, y); }
    case (UInt(w, x), UInt(_, y)) => if x < y { BigEndianOrder(x, y, w); }
    case (Dec(x), Dec(y)) => DecimalKeyOrder(x, y);
    case (Utf8(x), Utf8(y)) => TextGroupsOrder(x, y);
  }

  // ---------------------------------------------------------------- tuples

  const MIN_TAG: Byte := 0
  const MAX_TAG: Byte := 255

  function Tag(v: Cell, isLast: bool, isUpper: bool): Byte {
    if (v.Null? || isLast) && isUpper then MAX_TAG else MIN_TAG
  }

  predicate ValidTuple(vs: seq<Cell>) { forall i :: 0 <= i < |vs| ==> ValidValue(vs[i]) }

  /** memcomparable_encode of a tuple: each component followed by its tag. */
  function EncodeTuple(b: Bytes, vs: seq<Cell>, isUpper: bool): Bytes
    requires ValidTuple(vs)
    decreases |vs|
  {
    if vs == [] then b
    else EncodeTuple(Encode(b, vs[0]) + [Tag(vs[0], |vs| == 1, isUpper)], vs[1..], isUpper)
  }

  method EncodeTupleLoop(buffer: Bytes, vs: seq<Cell>, isUpper: bool) returns (b: Bytes)
    requires ValidTuple(vs)
    ensures b == EncodeTuple(buffer, vs, isUpper)
  {
    b := buffer;
    var last := |vs| - 1;
    for i := 0 to |vs|
      invariant EncodeTuple(b, vs[i..], isUpper) == EncodeTuple(buffer, vs, isUpper)
    {
      ghost var rest := vs[i..];
      assert rest[0] == vs[i] && rest[1..] == vs[i + 1..];
      b := Encode(b, vs[i]);
      if (vs[i].Null? || i == last) && isUpper {
        b := b + [MAX_TAG];
      } else {
        b := b + [MIN_TAG];
      }
    }
  }

  /** No text, so the bytes do not depend on the buffer. */
  predicate Plain(vs: seq<Cell>) { forall i :: 0 <= i < |vs| ==> vs[i].Val? && vs[i].v.Valid() && !vs[i].v.Utf8? }

  /** The key of such a tuple: component keys joined by tags. */
  function TupleKey(vs: seq<Cell>, isUpper: bool): Bytes
    requires Plain(vs)
  {
    Join(Keys(vs), isUpper)
  }

  function Keys(vs: seq<Cell>): (ks: seq<Bytes>)
    requires Plain(vs)
    ensures |ks| == |vs| && forall i :: 0 <= i < |vs| ==> ks[i] == ScalarKey(vs[i].v)
  {
    seq(|vs|, i requires 0 <= i < |vs| => ScalarKey(vs[i].v))
  }

  function Join(ks: seq<Bytes>, isUpper: bool): Bytes {
    if ks == [] then []
    else ks[0] + [if |ks| == 1 && isUpper then MAX_TAG else MIN_TAG] + Join(ks[1..], isUpper)
  }

  lemma {:induction false} PlainAppends(b: Bytes, vs: seq<Cell>, isUpper: bool)
    requires Plain(vs)
    ensures EncodeTuple(b, vs, isUpper) == b + TupleKey(vs, isUpper)
    decreases |vs|
  {
    if vs != [] {
      assert Keys(vs)[1..] == Keys(vs[1..]);
      var key, tag, rest := ScalarKey(vs[0].v), [Tag(vs[0], |vs| == 1, isUpper)], TupleKey(vs[1..], isUpper);
      PlainAppends(Encode(b, vs[0]) + tag, vs[1..], isUpper);
      assert Encode(b, vs[0]) == b + key && TupleKey(vs, isUpper) == key + tag + rest;
      Assoc(b, key + tag, rest);
      Assoc(b, key, tag);
    }
  }

  // ---------------------------------------------------------------- joined keys

  /** Keys that first part at component `i` part for good, whatever follows and however they end. */
  lemma {:induction false} JoinOrder(a: seq<Bytes>, b: seq<Bytes>, i: nat, ua: bool, ub: bool)
    requires i < |a| && i < |b| && a[..i] == b[..i] && Below(a[i], b[i])
    ensures Below(Join(a, ua), Join(b, ub))
    decreases i
  {
    var ta, tb := Join(a, ua)[|a[0]|..], Join(b, ub)[|b[0]|..];
    assert Join(a, ua) == a[0] + ta && Join(b, ub) == b[0] + tb;
    if i == 0 {
      BelowExtends(a[0], b[0], ta, tb);
    } else {
      assert a[0] == a[..i][0] == b[..i][0] == b[0];
      assert a[1..][..i - 1] == a[..i][1..] == b[..i][1..] == b[1..][..i - 1];
      JoinOrder(a[1..], b[1..], i - 1, ua, ub);
      BelowAfter(a[0] + [MIN_TAG], Join(a[1..], ua), Join(b[1..], ub));
    }
  }

  lemma {:induction false} JoinPrefix(a: seq<Bytes>, b: seq<Bytes>)
    ensures Join(a + b, false) == Join(a, false) + Join(b, false)
  {
    if a == [] {
      assert a + b == b;
    } else {
      assert (a + b)[1..] == a[1..] + b && (a + b)[0] == a[0];
      JoinPrefix(a[1..], b);
    }
  }

  lemma {:induction false} JoinUpper(p: seq<Bytes>, rest: seq<Bytes>)
    requires p != []
    ensures Below(Join(p + rest, false), Join(p, true))
    decreases |p|
  {
    var q := p + rest;
    assert q[0] == p[0] && q[1..] == p[1..] + rest;
    var tail := Join(q[1..], false);
    assert Join(q, false) == p[0] + ([MIN_TAG] + tail);
    if |p| == 1 {
      assert Join(p, true) == p[0] + [MAX_TAG];
      BelowAt([MIN_TAG] + tail, [MAX_TAG], 0);
      BelowAfter(p[0], [MIN_TAG] + tail, [MAX_TAG]);
    } else {
      JoinUpper(p[1..], rest);
      BelowAfter(p[0] + [MIN_TAG], tail, Join(p[1..], true));
    }
  }

  // ---------------------------------------------------------------- the order of tuples

  /** Same types position by position. */
  predicate SameTypes(a: seq<Cell>, b: seq<Cell>)
    requires Plain(a) && Plain(b)
  {
    forall i :: 0 <= i < |a| && i < |b| ==> SameType(a[i].v, b[i].v)
  }

  predicate Same(a: Scalar, b: Scalar) { ScalarLe(a, b) && ScalarLe(b, a) }

  predicate SameAll(a: seq<Cell>, b: seq<Cell>)
    requires Plain(a) && Plain(b)
  {
    |a| == |b| && forall i :: 0 <= i < |a| ==> Same(a[i].v, b[i].v)
  }

  /** Lexicographically smaller within the common length. */
  ghost predicate TupleLess(a: seq<Cell>, b: seq<Cell>)
    requires Plain(a) && Plain(b)
  {
    exists i :: LessAt(a, b, i)
  }

  predicate LessAt(a: seq<Cell>, b: seq<Cell>, i: int)
    requires Plain(a) && Plain(b)
  {
    && 0 <= i < |a| && i < |b|
    && (forall j :: 0 <= j < i ==> Same(a[j].v, b[j].v))
    && SameType(a[i].v, b[i].v) && !ScalarLe(b[i].v, a[i].v)
  }

  lemma SameKeys(a: seq<Cell>, b: seq<Cell>)
    requires Plain(a) && Plain(b) && SameAll(a, b)
    ensures Keys(a) == Keys(b)
  {
    forall i | 0 <= i < |a| ensures Keys(a)[i] == Keys(b)[i] {
      assert Same(a[i].v, b[i].v);
      ScalarKeyOrder(a[i].v, b[i].v);
    }
  }

  /** Smaller tuples have smaller keys, whatever their lengths and whether or not they are upper
      bounds, so an upper bound is below every tuple whose prefix is larger. */
  lemma TupleKeyOrder(a: seq<Cell>, b: seq<Cell>, ua: bool, ub: bool)
    requires Plain(a) && Plain(b) && TupleLess(a, b)
    ensures Below(TupleKey(a, ua), TupleKey(b, ub))
  {
    var i :| LessAt(a, b, i);
    var ka, kb := Keys(a), Keys(b);
    forall j | 0 <= j < i ensures ka[j] == kb[j] {
      assert Same(a[j].v, b[j].v);
      ScalarKeyOrder(a[j].v, b[j].v);
    }
    ScalarKeyOrder(a[i].v, b[i].v);
    JoinOrder(ka, kb, i, ua, ub);
  }

  /** The lower form of a tuple is a prefix of the key of every tuple that extends it. */
  lemma LowerPrefix(p: seq<Cell>, q: seq<Cell>)
    requires Plain(p) && Plain(q) && |p| <= |q| && SameAll(q[..|p|], p)
    ensures TupleKey(q, false) == TupleKey(p, false) + TupleKey(q[|p|..], false)
  {
    SameKeys(q[..|p|], p);
    assert Keys(q) == Keys(q[..|p|]) + Keys(q[|p|..]);
    JoinPrefix(Keys(p), Keys(q[|p|..]));
  }

  /** The upper form of a prefix is above every tuple that extends it. */
  lemma UpperAbove(p: seq<Cell>, q: seq<Cell>)
    requires Plain(p) && Plain(q) && 0 < |p| <= |q| && SameAll(q[..|p|], p)
    ensures Below(TupleKey(q, false), TupleKey(p, true))
  {
    SameKeys(q[..|p|], p);
    assert Keys(q) == Keys(q[..|p|]) + Keys(q[|p|..]);
    JoinUpper(Keys(p), Keys(q[|p|..]));
  }

  lemma ScalarTotal(a: Scalar, b: Scalar)
    requires SameType(a, b) && a.Valid() && b.Valid()
    ensures ScalarLe(a, b) || ScalarLe(b, a)
  {
    if a.Utf8? { LtTotal(a.text, b.text); }
  }

  lemma TupleTrichotomy(a: seq<Cell>, b: seq<Cell>)
    requires Plain(a) && Plain(b) && |a| == |b| && SameTypes(a, b)
    ensures SameAll(a, b) || TupleLess(a, b) || TupleLess(b, a)
  {
    var i := 0;
    while i < |a| && Same(a[i].v, b[i].v)
      invariant 0 <= i <= |a|
      invariant forall j :: 0 <= j < i ==> Same(a[j].v, b[j].v) && Same(b[j].v, a[j].v)
    {
      i := i + 1;
    }
    if i < |a| {
      ScalarTotal(a[i].v, b[i].v);
      assert LessAt(a, b, i) || LessAt(b, a, i);
    }
  }

  /** Byte order of equal-length tuples is exactly their lexicographic order, and equal bytes mean
      equal tuples. */
  lemma TupleKeysExact(a: seq<Cell>, b: seq<Cell>)
    requires Plain(a) && Plain(b) && |a| == |b| && SameTypes(a, b)
    ensures TupleLess(a, b) <==> LexLt(TupleKey(a, false), TupleKey(b, false))
    ensures SameAll(a, b) <==> TupleKey(a, false) == TupleKey(b, false)
  {
    TupleTrichotomy(a, b);
    var x, y := TupleKey(a, false), TupleKey(b, false);
    LtTotal(x, y);
    if TupleLess(a, b) {
      TupleKeyOrder(a, b, false, false);
      BelowGivesLt(x, y);
    }
    if TupleLess(b, a) {
      TupleKeyOrder(b, a, false, false);
      BelowGivesLt(y, x);
    }
    if SameAll(a, b) { SameKeys(a, b); }
  }
}
