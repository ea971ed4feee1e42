/** Byte strings in lexicographic order, fixed-width integers and the 8-byte group encoding. */
module KeyBytes {
  type Byte = x: int | 0 <= x < 256

  type Bytes = seq<Byte>

  lemma Assoc<A>(a: seq<A>, b: seq<A>, c: seq<A>)
    ensures a + (b + c) == a + b + c
  {
  }

  lemma Assoc4<A>(a: seq<A>, b: seq<A>, c: seq<A>, d: seq<A>)
    ensures a + (b + c + d) == a + b + c + d
  {
    Assoc(a, b + c, d);
    Assoc(a, b, c);
  }

  /** Lexicographic order. */
  predicate LexLt(a: Bytes, b: Bytes) {
    b != [] && (a == [] || a[0] < b[0] || (a[0] == b[0] && LexLt(a[1..], b[1..])))
  }

  predicate LexLe(a: Bytes, b: Bytes) { a == b || LexLt(a, b) }

  /** The strings agree up to `i`, where `a` has the smaller byte. */
  predicate PartAt(a: Bytes, b: Bytes, i: int) {
    0 <= i < |a| && i < |b| && a[..i] == b[..i] && a[i] < b[i]
  }

  /** `a` is smaller at a byte both have, so no suffix can change their order. */
  ghost predicate Below(a: Bytes, b: Bytes) { exists i :: PartAt(a, b, i) }

  lemma {:induction false} DiffGivesLt(a: Bytes, b: Bytes, i: nat)
    requires i < |a| && i < |b| && a[..i] == b[..i] && a[i] < b[i]
    ensures LexLt(a, b)
    decreases i
  {
    if i > 0 {
      assert a[0] == a[..i][0] == b[..i][0] == b[0];
      assert a[1..][..i - 1] == a[..i][1..] == b[..i][1..] == b[1..][..i - 1];
      DiffGivesLt(a[1..], b[1..], i - 1);
    }
  }

  lemma BelowGivesLt(a: Bytes, b: Bytes)
    requires Below(a, b)
    ensures LexLt(a, b)
  {
    var i :| PartAt(a, b, i);
    DiffGivesLt(a, b, i);
  }

  /** Two different strings part at a byte, or one is a proper prefix of the other. */
  lemma {:induction false} LtCases(a: Bytes, b: Bytes)
    requires LexLt(a, b)
    ensures Below(a, b) || (|a| < |b| && a == b[..|a|])
  {
    if a != [] {
      if a[0] < b[0] {
        assert PartAt(a, b, 0);
      } else {
        LtCases(a[1..], b[1..]);
        if Below(a[1..], b[1..]) {
          var i :| PartAt(a[1..], b[1..], i);
          assert a[..i + 1] == [a[0]] + a[1..][..i] == [b[0]] + b[1..][..i] == b[..i + 1];
          assert PartAt(a, b, i + 1);
        } else {
          assert b[..|a|] == [b[0]] + b[1..][..|a| - 1];
          assert a == [a[0]] + a[1..];
        }
      }
    }
  }

  lemma {:induction false} PrefixLt(a: Bytes, s: Bytes)
    requires s != []
    ensures LexLt(a, a + s)
  {
    if a != [] {
      assert (a + s)[1..] == a[1..] + s;
      PrefixLt(a[1..], s);
    }
  }

  lemma {:induction false} LtTotal(a: Bytes, b: Bytes)
    ensures a == b || LexLt(a, b) || LexLt(b, a)
    ensures !(LexLt(a, b) && LexLt(b, a))
    ensures a == b ==> !LexLt(a, b)
  {
    if a != [] && b != [] {
      LtTotal(a[1..], b[1..]);
      assert a == [a[0]] + a[1..] && b == [b[0]] + b[1..];
    }
  }

  lemma {:induction false} LtTransitive(a: Bytes, b: Bytes, c: Bytes)
    requires LexLt(a, b) && LexLt(b, c)
    ensures LexLt(a, c)
  {
    if a != [] && a[0] == b[0] && b[0] == c[0] {
      LtTransitive(a[1..], b[1..], c[1..]);
    }
  }

  lemma BelowExtends(a: Bytes, b: Bytes, s: Bytes, t: Bytes)
    requires Below(a, b)
    ensures Below(a + s, b + t)
  {
    var i :| PartAt(a, b, i);
    assert (a + s)[..i] == a[..i] && (b + t)[..i] == b[..i];
    assert PartAt(a + s, b + t, i);
  }

  lemma BelowAfter(p: Bytes, a: Bytes, b: Bytes)
    requires Below(a, b)
    ensures Below(p + a, p + b)
  {
    var i :| PartAt(a, b, i);
    assert (p + a)[..|p| + i] == p + a[..i] == p + b[..i] == (p + b)[..|p| + i];
    assert PartAt(p + a, p + b, |p| + i);
  }

  lemma BelowWithin(p: Bytes, a: Bytes, b: Bytes, s: Bytes, t: Bytes)
    requires Below(a, b)
    ensures Below(p + a + s, p + b + t)
  {
    BelowAfter(p, a, b);
    BelowExtends(p + a, p + b, s, t);
  }

  lemma BelowNotEqual(a: Bytes, b: Bytes)
    requires Below(a, b)
    ensures a != b && !Below(b, a)
  {
    BelowGivesLt(a, b);
    if Below(b, a) { BelowGivesLt(b, a); }
    LtTotal(a, b);
  }

  // ---------------------------------------------------------------- fixed-width integers

  function Pow256(w: nat): nat { if w == 0 then 1 else 256 * Pow256(w - 1) }

  function BigEndian(n: nat, w: nat): (b: Bytes)
    ensures |b| == w
  {
    if w == 0 then [] else BigEndian(n / 256, w - 1) + [n % 256]
  }

  lemma {:induction false} BigEndianOrder(n: nat, m: nat, w: nat)
    requires n < m < Pow256(w)
    ensures Below(BigEndian(n, w), BigEndian(m, w))
    decreases w
  {
    var p, q := BigEndian(n / 256, w - 1), BigEndian(m / 256, w - 1);
    if n / 256 < m / 256 {
      BigEndianOrder(n / 256, m / 256, w - 1);
      BelowExtends(p, q, [n % 256], [m % 256]);
    } else {
      var a, b := BigEndian(n, w), BigEndian(m, w);
      assert a[..w - 1] == p && b[..w - 1] == q;
      assert PartAt(a, b, w - 1);
    }
  }

  /** Two's complement of width `w` bytes with its top bit inverted. */
  function SignFlipped(v: int, w: nat): nat
    requires w > 0 && -(128 * Pow256(w - 1)) <= v < 128 * Pow256(w - 1)
  {
    var twos := if v < 0 then v + Pow256(w) else v;
    if twos >= 128 * Pow256(w - 1) then twos - 128 * Pow256(w - 1) else twos + 128 * Pow256(w - 1)
  }

  // ---------------------------------------------------------------- byte strings in groups

  const GROUP := 8
  const MARKER: Byte := 0xFF

  function Zeros(n: nat): (b: Bytes)
    ensures |b| == n && forall i :: 0 <= i < n ==> b[i] == 0
  {
    seq(n, _ => 0)
  }

  /** The groups of the encoding: 8 bytes and a marker saying how many of them are padding. */
  function Groups(data: Bytes): (b: Bytes)
    ensures |b| == GroupsLength(|data|)
  {
    if |data| < GROUP then data + Zeros(GROUP - |data|) + [MARKER - (GROUP - |data|)]
    else data[..GROUP] + [MARKER] + Groups(data[GROUP..])
  }

  function GroupsLength(n: nat): (r: nat)
    ensures r == (n / GROUP + 1) * (GROUP + 1)
  {
    if n < GROUP then GROUP + 1 else GROUP + 1 + GroupsLength(n - GROUP)
  }

  /** Grows the buffer to `size` with zeros; never shrinks it. */
  function Realloc(b: Bytes, size: nat): Bytes {
    if size > |b| then b + Zeros(size - |b|) else b
  }

  /** The whole effect on the key buffer, zero padding included. */
  function EncodeBytes(b: Bytes, data: Bytes): Bytes {
    Realloc(b, GroupsLength(|data|)) + Groups(data)
  }

  lemma GroupStep(b: Bytes, data: Bytes)
    ensures |data| >= GROUP ==> b + Groups(data) == b + data[..GROUP] + [MARKER] + Groups(data[GROUP..])
    ensures |data| < GROUP ==> b + Groups(data) == b + data + Zeros(GROUP - |data|) + [MARKER - (GROUP - |data|)]
  {
    if |data| >= GROUP {
      var x, y, z := data[..GROUP], [MARKER], Groups(data[GROUP..]);
      assert Groups(data) == x + y + z;
      Assoc4(b, x, y, z);
    } else {
      var x, y, z := data, Zeros(GROUP - |data|), [MARKER - (GROUP - |data|)];
      assert Groups(data) == x + y + z;
      Assoc4(b, x, y, z);
    }
  }

  /** With the groups of the data from `idx` on, the buffer is complete. */
  ghost predicate Encoded(b: Bytes, data: Bytes, idx: nat, whole: Bytes) {
    if idx <= |data| then b + Groups(data[idx..]) == whole else b == whole
  }

  method PushGroup(buffer: Bytes, data: Bytes, idx: nat, ghost whole: Bytes) returns (b: Bytes)
    requires idx <= |data| && Encoded(buffer, data, idx, whole)
    ensures Encoded(b, data, idx + GROUP, whole)
  {
    b := buffer;
    var remain := |data| - idx;
    var padCount := 0;
    ghost var rest := data[idx..];
    GroupStep(b, rest);
    if remain >= GROUP {
      b := b + data[idx..idx + GROUP];
      assert rest[..GROUP] == data[idx..idx + GROUP] && rest[GROUP..] == data[idx + GROUP..];
    } else {
      padCount := GROUP - remain;
      b := b + data[idx..] + Zeros(padCount);
    }
    b := b + [MARKER - padCount];
  }

  /** encode_bytes as the loop it is. */
  method EncodeBytesLoop(buffer: Bytes, data: Bytes) returns (b: Bytes)
    ensures b == EncodeBytes(buffer, data)
  {
    ghost var whole := EncodeBytes(buffer, data);
    b := Realloc(buffer, (|data| / GROUP + 1) * (GROUP + 1));
    var idx := 0;
    assert data[0..] == data;
    while idx <= |data|
      invariant 0 <= idx <= |data| + GROUP && Encoded(b, data, idx, whole)
    {
      b := PushGroup(b, data, idx, whole);
      idx := idx + GROUP;
    }
  }

  /** The first nine bytes of the groups, byte by byte. */
  function HeadByte(data: Bytes, i: nat): Byte
    requires i <= GROUP
  {
    if i == GROUP then (if |data| < GROUP then MARKER - (GROUP - |data|) else MARKER)
    else if i < |data| then data[i]
    else 0
  }

  lemma GroupsHead(data: Bytes, i: nat)
    requires i <= GROUP
    ensures Groups(data)[i] == HeadByte(data, i)
  {
  }

  /** The groups order as the strings do and none is a prefix of another. */
  lemma {:induction false} GroupsOrder(x: Bytes, y: Bytes)
    requires LexLt(x, y)
    ensures Below(Groups(x), Groups(y))
    decreases |x|
  {
    if |x| >= GROUP && |y| >= GROUP && x[..GROUP] == y[..GROUP] {
      LtAfterCommon(x, y, GROUP);
      GroupsOrder(x[GROUP..], y[GROUP..]);
      BelowAfter(x[..GROUP] + [MARKER], Groups(x[GROUP..]), Groups(y[GROUP..]));
    } else {
      HeadOrder(x, y);
    }
  }

  lemma {:induction false} LtAfterCommon(x: Bytes, y: Bytes, n: nat)
    requires LexLt(x, y) && n <= |x| && n <= |y| && x[..n] == y[..n]
    ensures LexLt(x[n..], y[n..])
    decreases n
  {
    if n > 0 {
      assert x[0] == x[..n][0] == y[..n][0] == y[0];
      assert x[1..][..n - 1] == x[..n][1..] == y[..n][1..] == y[1..][..n - 1];
      LtAfterCommon(x[1..], y[1..], n - 1);
      assert x[1..][n - 1..] == x[n..] && y[1..][n - 1..] == y[n..];
    }
  }

  lemma BelowAt(a: Bytes, b: Bytes, i: nat)
    requires i < |a| && i < |b| && (forall j :: 0 <= j < i ==> a[j] == b[j]) && a[i] < b[i]
    ensures Below(a, b)
  {
    assert a[..i] == b[..i];
    assert PartAt(a, b, i);
  }

  lemma CommonPrefix(x: Bytes, y: Bytes, i: nat)
    requires i <= |x| && i <= |y| && x[..i] == y[..i]
    ensures forall j :: 0 <= j < i ==> x[j] == y[j]
    ensures forall n {:trigger x[..n]} :: 0 <= n <= i ==> x[..n] == y[..n]
  {
    forall j | 0 <= j < i ensures x[j] == y[j] { assert x[..i][j] == y[..i][j]; }
  }

  /** Strings whose first groups differ. */
  lemma HeadDifference(x: Bytes, y: Bytes) returns (i: nat)
    requires LexLt(x, y)
    requires !(|x| >= GROUP && |y| >= GROUP && x[..GROUP] == y[..GROUP])
    ensures i <= GROUP && HeadByte(x, i) < HeadByte(y, i)
    ensures forall j :: 0 <= j < i ==> HeadByte(x, j) == HeadByte(y, j)
  {
    LtCases(x, y);
    if Below(x, y) {
      i :| PartAt(x, y, i);
      CommonPrefix(x, y, i);
    } else {
      i := |x|;
      assert x[..i] == x;
      CommonPrefix(x, y, i);
      while i < GROUP && i < |y| && y[i] == 0
        invariant |x| <= i <= GROUP && i <= |y|
        invariant forall j :: |x| <= j < i ==> y[j] == 0
      {
        i := i + 1;
      }
      if i == |y| { i := GROUP; }
    }
  }

  lemma HeadOrder(x: Bytes, y: Bytes)
    requires LexLt(x, y)
    requires !(|x| >= GROUP && |y| >= GROUP && x[..GROUP] == y[..GROUP])
    ensures Below(Groups(x), Groups(y))
  {
    var i := HeadDifference(x, y);
    var a, b := Groups(x), Groups(y);
    forall j | 0 <= j <= i ensures a[j] == HeadByte(x, j) && b[j] == HeadByte(y, j) {
      GroupsHead(x, j);
      GroupsHead(y, j);
    }
    BelowAt(a, b, i);
  }

  // ---------------------------------------------------------------- the buffer

  /** Different strings never give the same buffer, whatever it held before. */
  lemma EncodeBytesInjective(b: Bytes, x: Bytes, y: Bytes)
    requires x != y
    ensures EncodeBytes(b, x) != EncodeBytes(b, y)
  {
    if |EncodeBytes(b, x)| == |EncodeBytes(b, y)| {
      var p := Realloc(b, GroupsLength(|x|));
      assert p == Realloc(b, GroupsLength(|y|));
      LtTotal(x, y);
      if LexLt(x, y) {
        GroupsOrder(x, y);
        BelowAfter(p, Groups(x), Groups(y));
        BelowNotEqual(EncodeBytes(b, x), EncodeBytes(b, y));
      } else {
        GroupsOrder(y, x);
        BelowAfter(p, Groups(y), Groups(x));
        BelowNotEqual(EncodeBytes(b, y), EncodeBytes(b, x));
      }
    }
  }

  /** Where the groups of a string of length `n` start in a buffer that held `m` bytes. */
  function GroupStart(m: nat, n: nat): nat {
    if GroupsLength(n) > m then GroupsLength(n) else m
  }

  lemma ShorterStartSortsLast(b: Bytes, x: Bytes, y: Bytes)
    requires x != [] && x[0] != 0 && GroupStart(|b|, |x|) < GroupStart(|b|, |y|)
    ensures Below(EncodeBytes(b, y), EncodeBytes(b, x))
  {
    var p := GroupStart(|b|, |x|);
    var ex, ey := EncodeBytes(b, x), EncodeBytes(b, y);
    assert ex[p] == Groups(x)[0] by { GroupsHead(x, 0); }
    GroupsHead(x, 0);
    assert ey[p] == 0;
    BelowAt(ey, ex, p);
  }

  /** The bytes of the empty text, and of a text that starts no earlier, from the common buffer on. */
  lemma EmptyAgainst(b: Bytes, y: Bytes, i: nat)
    requires y != []
    ensures GroupStart(|b|, 0) <= GroupStart(|b|, |y|)
    ensures i < |b| ==> EncodeBytes(b, [])[i] == EncodeBytes(b, y)[i] == b[i]
    ensures |b| <= i < GroupStart(|b|, 0) + GROUP ==> EncodeBytes(b, [])[i] == 0
    ensures i == GroupStart(|b|, 0) + GROUP ==> |EncodeBytes(b, [])| == i + 1 && EncodeBytes(b, [])[i] == MARKER - GROUP
    ensures |b| <= i < GroupStart(|b|, |y|) ==> EncodeBytes(b, y)[i] == 0
    ensures i == GroupStart(|b|, |y|) ==> i < |EncodeBytes(b, y)| && EncodeBytes(b, y)[i] == y[0]
  {
    GroupsHead(y, 0);
    assert Groups([]) == Zeros(GROUP) + [MARKER - GROUP];
  }

  /** The empty text sorts before a text unless that starts eight bytes later or more; eight bytes later it
      meets the marker of the empty text. */
  lemma EmptyOrderExact(b: Bytes, y: Bytes)
    requires y != [] && y[0] != 0
    ensures var late := GroupStart(|b|, |y|) - GroupStart(|b|, 0);
            Below(EncodeBytes(b, []), EncodeBytes(b, y)) <==> late < GROUP || (late == GROUP && y[0] > MARKER - GROUP)
  {
    var p, q := GroupStart(|b|, 0), GroupStart(|b|, |y|);
    var ex, ey := EncodeBytes(b, []), EncodeBytes(b, y);
    forall i: nat | i <= p + GROUP
      ensures i < q && i < p + GROUP ==> ex[i] == ey[i]
      ensures i == p + GROUP ==> |ex| == i + 1 && ex[i] == MARKER - GROUP && (i < q ==> ey[i] == 0)
      ensures i == q ==> i < |ey| && ey[i] == y[0] && (i < p + GROUP ==> ex[i] == 0)
    {
      EmptyAgainst(b, y, i);
    }
    if q < p + GROUP {
      BelowAt(ex, ey, q);
    } else if q == p + GROUP {
      if y[0] > MARKER - GROUP {
        BelowAt(ex, ey, q);
      } else {
        assert forall i :: 0 <= i < |ex| && i < |ey| ==> ex[i] >= ey[i];
      }
    } else {
      BelowAt(ey, ex, p + GROUP);
      BelowNotEqual(ey, ex);
    }
  }

  /** Where the padded buffer leaves the order of two texts, the first the smaller, alone. */
  predicate StartsInOrder(m: nat, x: Bytes, y: Bytes)
    requires y != []
  {
    var p, q := GroupStart(m, |x|), GroupStart(m, |y|);
    if x == [] then q < p + GROUP || (q == p + GROUP && y[0] > MARKER - GROUP) else q <= p
  }

  /** For texts (no leading NUL) the key order is the text order exactly when the smaller text does not
      start earlier in the padded buffer; the empty text may start up to seven bytes earlier. */
  lemma TextOrderExact(b: Bytes, x: Bytes, y: Bytes)
    requires LexLt(x, y) && (x != [] ==> x[0] != 0) && y[0] != 0
    ensures Below(EncodeBytes(b, x), EncodeBytes(b, y)) <==> StartsInOrder(|b|, x, y)
  {
    if x == [] {
      EmptyOrderExact(b, y);
    } else if GroupStart(|b|, |x|) < GroupStart(|b|, |y|) {
      ShorterStartSortsLast(b, x, y);
      BelowNotEqual(EncodeBytes(b, y), EncodeBytes(b, x));
    } else if GroupStart(|b|, |x|) > GroupStart(|b|, |y|) {
      ShorterStartSortsLast(b, y, x);
    } else {
      GroupsOrder(x, y);
      BelowAfter(Realloc(b, GroupsLength(|x|)), Groups(x), Groups(y));
    }
  }

  /** "b" and "cccccccc" after the 10-byte prefix of a primary key sort the wrong way round. */
  lemma LongTextSortsFirst(prefix: Bytes)
    requires |prefix| == 10
    ensures var x, y := [98], [99, 99, 99, 99, 99, 99, 99, 99];
            LexLt(x, y) && Below(EncodeBytes(prefix, y), EncodeBytes(prefix, x))
  {
    ShorterStartSortsLast(prefix, [98], [99, 99, 99, 99, 99, 99, 99, 99]);
  }
}
