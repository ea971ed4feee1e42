/** Decimal keys: the digit loops of the encoder against a key defined from the number alone, and
    the order of those keys. */
module DecimalKeys {
  import opened KeyBytes

  const MAX_MANTISSA: nat := 0x1_0000_0000_0000_0000_0000_0000
  const MAX_SCALE := 28

  datatype Decimal = Decimal(negative: bool, mantissa: nat, scale: nat) {
    predicate Valid() { mantissa < MAX_MANTISSA && scale <= MAX_SCALE }
  }

  function Times10(n: nat, k: nat): nat { if k == 0 then n else 10 * Times10(n, k - 1) }

  /** The value in units of 10^-28: `1.0` and `1.00` have the same. */
  function Scaled(d: Decimal): int
    requires d.Valid()
  {
    var n: int := Times10(d.mantissa, MAX_SCALE - d.scale);
    if d.negative then -n else n
  }

  // ---------------------------------------------------------------- the key of a number

  type Digit = d: nat | d < 100

  function Twice(d: Digit): int { (d as int) * 2 }

  /** Base-100 digits, most significant first. */
  function Digits(n: nat): (ds: seq<Digit>)
    ensures n > 0 ==> ds != [] && ds[0] > 0
    ensures n == 0 ==> ds == []
  {
    if n == 0 then [] else Digits(n / 100) + [n % 100]
  }

  /** How many of the first `n` digits are left without trailing zeros. */
  function Significant(ds: seq<Digit>, n: nat): (k: nat)
    requires n <= |ds|
    ensures k <= n && (forall i :: k <= i < n ==> ds[i] == 0) && (k > 0 ==> ds[k - 1] > 0)
  {
    if n == 0 || ds[n - 1] > 0 then n else Significant(ds, n - 1)
  }

  /** The digits without trailing zeros as bytes: 2d+1 for all but the last, 2d for the last. */
  function Mark(ds: seq<Digit>): Bytes {
    MarkFirst(ds, Significant(ds, |ds|))
  }

  function MarkFirst(ds: seq<Digit>, k: nat): (b: Bytes)
    requires k <= |ds|
    ensures |b| == k && forall i :: 0 <= i < k ==> b[i] == Twice(ds[i]) + (if i < k - 1 then 1 else 0)
  {
    if k == 0 then [] else OddFirst(ds, k - 1) + [Twice(ds[k - 1])]
  }

  function OddFirst(ds: seq<Digit>, n: nat): (b: Bytes)
    requires n <= |ds|
    ensures |b| == n && forall i :: 0 <= i < n ==> b[i] == Twice(ds[i]) + 1
  {
    if n == 0 then [] else OddFirst(ds, n - 1) + [Twice(ds[n - 1]) + 1]
  }

  function Odd(ds: seq<Digit>): Bytes { OddFirst(ds, |ds|) }

  function Complement(b: Bytes): (c: Bytes)
    ensures |c| == |b| && forall i :: 0 <= i < |b| ==> c[i] == 255 - b[i]
  {
    if b == [] then [] else [255 - b[0]] + Complement(b[1..])
  }

  /** Casting to a byte keeps the residue. */
  function Cast(n: nat): Byte { if n < 256 then n else n % 256 }

  /** The exponent bytes; complementing one gives 255 less it. */
  function Header(e: int, negative: bool): Bytes {
    if !negative then
      if e >= 11 then [0x22, Cast(e)] else if e >= 0 then [0x17 + e] else [0x16, 255 - Cast(-e)]
    else
      if e >= 11 then [0x08, 255 - Cast(e)] else if e >= 0 then [0x13 - e] else [0x14, Cast(-e)]
  }

  function Assemble(e: int, marks: Bytes, negative: bool): Bytes {
    Header(e, negative) + if negative then Complement(marks) else marks
  }

  /** Exponent and digits of a number, complemented for a negative one. */
  function MagnitudeKey(ds: seq<Digit>, negative: bool): Bytes {
    Assemble(|ds| - 14, Mark(ds), negative)
  }

  /** The key of a number of 10^-28 units: it depends on the number and nothing else. */
  function NumberKey(v: int): Bytes {
    if v == 0 then [0x15] else MagnitudeKey(Digits(if v > 0 then v else -v), v < 0)
  }

  // ---------------------------------------------------------------- order of number keys

  predicate LessDigit(a: seq<Digit>, b: seq<Digit>, i: int) {
    0 <= i < |a| && i < |b| && a[..i] == b[..i] && a[i] < b[i]
  }

  ghost predicate FirstLess(a: seq<Digit>, b: seq<Digit>) { exists i :: LessDigit(a, b, i) }

  lemma {:induction false} DigitsMonotone(n: nat, m: nat)
    requires n < m
    ensures |Digits(n)| <= |Digits(m)|
    ensures |Digits(n)| == |Digits(m)| ==> FirstLess(Digits(n), Digits(m))
    decreases m
  {
    if n > 0 {
      var a, b := Digits(n / 100), Digits(m / 100);
      if n / 100 < m / 100 {
        DigitsMonotone(n / 100, m / 100);
        if |a| == |b| {
          var i :| LessDigit(a, b, i);
          assert Digits(n)[..i] == a[..i] && Digits(m)[..i] == b[..i];
          assert LessDigit(Digits(n), Digits(m), i);
        }
      } else {
        assert Digits(n)[..|a|] == a && Digits(m)[..|a|] == b;
        assert |Digits(n)| == |Digits(m)| ==> LessDigit(Digits(n), Digits(m), |a|);
      }
    }
  }

  /** Mark, position by position: `n` digits up to the last that is not zero. */
  lemma MarkShape(ds: seq<Digit>) returns (n: nat)
    requires ds != [] && ds[0] > 0
    ensures 0 < n <= |ds| && ds[n - 1] > 0 && forall i :: n <= i < |ds| ==> ds[i] == 0
    ensures |Mark(ds)| == n && forall i :: 0 <= i < n ==> Mark(ds)[i] == Twice(ds[i]) + (if i < n - 1 then 1 else 0)
  {
    n := Significant(ds, |ds|);
  }

  lemma MarkOrder(a: seq<Digit>, b: seq<Digit>)
    requires a != [] && b != [] && a[0] > 0 && b[0] > 0 && |a| == |b| && FirstLess(a, b)
    ensures Below(Mark(a), Mark(b))
  {
    var i :| LessDigit(a, b, i);
    var n := MarkShape(a);
    var m := MarkShape(b);
    forall j | 0 <= j < i ensures a[j] == b[j] { assert a[..i][j] == b[..i][j]; }
    BelowAt(Mark(a), Mark(b), if n <= i then n - 1 else i);
  }

  lemma ComplementOrder(a: Bytes, b: Bytes)
    requires Below(a, b)
    ensures Below(Complement(b), Complement(a))
  {
    var i :| PartAt(a, b, i);
    forall j | 0 <= j < i ensures a[j] == b[j] { assert a[..i][j] == b[..i][j]; }
    BelowAt(Complement(b), Complement(a), i);
  }

  predicate Exponent(e: int) { -13 <= e <= 15 }

  lemma HeaderOrder(e: int, f: int)
    requires Exponent(e) && Exponent(f) && e < f
    ensures Below(Header(e, false), Header(f, false))
    ensures Below(Header(f, true), Header(e, true))
  {
    HeaderParts(e, f);
    BelowAt(Header(e, false), Header(f, false), if Header(e, false)[0] == Header(f, false)[0] then 1 else 0);
    BelowAt(Header(f, true), Header(e, true), if Header(e, true)[0] == Header(f, true)[0] then 1 else 0);
  }

  /** Headers of different exponents differ in their first byte, or have a second one each and differ there. */
  lemma HeaderParts(e: int, f: int)
    requires Exponent(e) && Exponent(f) && e < f
    ensures var a, b := Header(e, false), Header(f, false); a[0] < b[0] || (a[0] == b[0] && |a| == |b| == 2 && a[1] < b[1])
    ensures var a, b := Header(f, true), Header(e, true); a[0] < b[0] || (a[0] == b[0] && |a| == |b| == 2 && a[1] < b[1])
  {
  }

  lemma FirstByte(v: int)
    requires InRange(v)
    ensures NumberKey(v) != []
    ensures if v > 0 then NumberKey(v)[0] > 0x15 else if v < 0 then NumberKey(v)[0] < 0x15 else NumberKey(v)[0] == 0x15
  {
    if v != 0 {
      var ds := Digits(if v > 0 then v else -v);
      HeaderSide(|ds| - 14, v < 0);
      assert NumberKey(v)[0] == Header(|ds| - 14, v < 0)[0];
    }
  }

  lemma HeaderSide(e: int, negative: bool)
    requires Exponent(e)
    ensures Header(e, negative) != [] && (if negative then Header(e, negative)[0] < 0x15 else Header(e, negative)[0] > 0x15)
  {
  }

  /** A number whose exponent fits: every valid decimal. */
  predicate InRange(v: int) {
    v == 0 || Exponent(|Digits(if v > 0 then v else -v)| - 14)
  }

  lemma PositiveKeyOrder(v: int, w: int)
    requires 0 < v < w && InRange(v) && InRange(w)
    ensures Below(NumberKey(v), NumberKey(w))
    ensures Below(NumberKey(-w), NumberKey(-v))
  {
    DigitsMonotone(v, w);
    UpOrder(Digits(v), Digits(w));
    DownOrder(Digits(v), Digits(w));
  }

  /** Digits of two magnitudes in range, the first smaller. */
  ghost predicate Smaller(a: seq<Digit>, b: seq<Digit>) {
    && a != [] && b != [] && a[0] > 0 && b[0] > 0 && Exponent(|a| - 14) && Exponent(|b| - 14)
    && (|a| < |b| || (|a| == |b| && FirstLess(a, b)))
  }

  ghost predicate MarkedBelow(e: int, f: int, a: Bytes, b: Bytes) {
    Exponent(e) && Exponent(f) && e <= f && (e == f ==> Below(a, b))
  }

  lemma MarksInOrder(a: seq<Digit>, b: seq<Digit>)
    requires Smaller(a, b)
    ensures MarkedBelow(|a| - 14, |b| - 14, Mark(a), Mark(b))
  {
    if |a| == |b| { MarkOrder(a, b); }
  }

  lemma UpOrder(a: seq<Digit>, b: seq<Digit>)
    requires Smaller(a, b)
    ensures Below(MagnitudeKey(a, false), MagnitudeKey(b, false))
  {
    MarksInOrder(a, b);
    MarkedOrder(|a| - 14, |b| - 14, Mark(a), Mark(b));
  }

  lemma DownOrder(a: seq<Digit>, b: seq<Digit>)
    requires Smaller(a, b)
    ensures Below(MagnitudeKey(b, true), MagnitudeKey(a, true))
  {
    MarksInOrder(a, b);
    MarkedOrder(|a| - 14, |b| - 14, Mark(a), Mark(b));
  }

  lemma MarkedOrder(e: int, f: int, a: Bytes, b: Bytes)
    requires MarkedBelow(e, f, a, b)
    ensures Below(Assemble(e, a, false), Assemble(f, b, false))
    ensures Below(Assemble(f, b, true), Assemble(e, a, true))
  {
    if e < f { KeysByHeader(e, f, a, b); } else { KeysByDigits(e, a, b); }
  }

  lemma KeysByHeader(e: int, f: int, a: Bytes, b: Bytes)
    requires Exponent(e) && Exponent(f) && e < f
    ensures Below(Assemble(e, a, false), Assemble(f, b, false))
    ensures Below(Assemble(f, b, true), Assemble(e, a, true))
  {
    HeaderOrder(e, f);
    BelowExtends(Header(e, false), Header(f, false), a, b);
    BelowExtends(Header(f, true), Header(e, true), Complement(b), Complement(a));
  }

  lemma KeysByDigits(e: int, a: Bytes, b: Bytes)
    requires Below(a, b)
    ensures Below(Assemble(e, a, false), Assemble(e, b, false))
    ensures Below(Assemble(e, b, true), Assemble(e, a, true))
  {
    ComplementOrder(a, b);
    BelowAfter(Header(e, false), a, b);
    BelowAfter(Header(e, true), Complement(b), Complement(a));
  }

  lemma NumberKeyOrder(v: int, w: int)
    requires v < w && InRange(v) && InRange(w)
    ensures Below(NumberKey(v), NumberKey(w))
  {
    if v > 0 {
      PositiveKeyOrder(v, w);
    } else if w < 0 {
      PositiveKeyOrder(-w, -v);
      assert -(-w) == w && -(-v) == v;
    } else {
      SidesOrder(v, w);
    }
  }

  lemma SidesOrder(v: int, w: int)
    requires v <= 0 <= w && v < w && InRange(v) && InRange(w)
    ensures Below(NumberKey(v), NumberKey(w))
  {
    FirstByte(v);
    FirstByte(w);
    BelowAt(NumberKey(v), NumberKey(w), 0);
  }

  // ---------------------------------------------------------------- the encoder

  function Pow10(k: nat): nat { Times10(1, k) }

  /** partition_point over the table of the first 30 powers of ten. */
  function Precision(m: nat, i: nat): nat
    requires i <= 30
    decreases 30 - i
  {
    if i < 30 && Pow10(i) <= m then Precision(m, i + 1) else i
  }

  lemma MantissaFits()
    ensures MAX_MANTISSA <= Pow10(29)
  {
    assert Pow10(5) == 100000;
    assert Pow10(10) == 10000000000;
    assert Pow10(15) == 1000000000000000;
    assert Pow10(20) == 100000000000000000000;
    assert Pow10(25) == 10000000000000000000000000;
    assert Pow10(29) == 100000000000000000000000000000;
  }

  lemma {:induction false} PrecisionBounds(m: nat, i: nat)
    requires i <= 29 && m < MAX_MANTISSA && (i > 0 ==> Pow10(i - 1) <= m)
    ensures var p := Precision(m, i); i <= p <= 29 && m < Pow10(p) && (p > 0 ==> Pow10(p - 1) <= m)
    decreases 30 - i
  {
    MantissaFits();
    if Pow10(i) <= m {
      PrecisionBounds(m, i + 1);
    }
  }

  lemma {:induction false} Times10Bounds(m: nat, p: nat, k: nat)
    requires p > 0 && Pow10(p - 1) <= m < Pow10(p)
    ensures Pow10(p + k - 1) <= Times10(m, k) < Pow10(p + k)
  {
    if k > 0 {
      Times10Bounds(m, p, k - 1);
    }
  }

  lemma {:induction false} DigitsLength(n: nat, p: nat)
    requires p > 0 && Pow10(p - 1) <= n < Pow10(p)
    ensures |Digits(n)| == (p + 1) / 2
    decreases p
  {
    if p <= 2 {
      assert Pow10(0) == 1 && Pow10(1) == 10 && Pow10(2) == 100;
      assert Digits(n / 100) == [];
    } else {
      assert Pow10(p) == 100 * Pow10(p - 2) && Pow10(p - 1) == 100 * Pow10(p - 3);
      DigitsLength(n / 100, p - 2);
    }
  }

  lemma {:induction false} SignificantIs(ds: seq<Digit>, n: nat, k: nat)
    requires k <= n <= |ds| && (forall i :: k <= i < n ==> ds[i] == 0) && (k > 0 ==> ds[k - 1] > 0)
    ensures Significant(ds, n) == k
  {
    if k < n { SignificantIs(ds, n - 1, k); }
  }

  lemma MarkZero(ds: seq<Digit>)
    ensures Mark(ds + [0]) == Mark(ds)
  {
    var k := Significant(ds, |ds|);
    SignificantIs(ds + [0], |ds| + 1, k);
    forall i | 0 <= i < k ensures MarkFirst(ds + [0], k)[i] == MarkFirst(ds, k)[i] {
      assert (ds + [0])[i] == ds[i];
    }
  }

  lemma Mark100(n: nat)
    requires n > 0
    ensures Mark(Digits(100 * n)) == Mark(Digits(n))
  {
    assert 100 * n / 100 == n && 100 * n % 100 == 0;
    assert Digits(100 * n) == Digits(n) + [0];
    MarkZero(Digits(n));
  }

  /** A number without its trailing pairs of zeros. */
  function Core(n: nat): nat { if n > 0 && n % 100 == 0 then Core(n / 100) else n }

  lemma {:induction false} MarkCore(n: nat)
    requires n > 0
    ensures Mark(Digits(n)) == Mark(Digits(Core(n)))
  {
    if n % 100 == 0 {
      assert n == 100 * (n / 100);
      Mark100(n / 100);
      MarkCore(n / 100);
    }
  }

  lemma {:induction false} CoreTimes10(m: nat, t: nat)
    requires m % 10 != 0
    ensures Times10(m, t) > 0 && Core(Times10(m, t)) == if t % 2 == 0 then m else 10 * m
    decreases t
  {
    if t >= 2 {
      var n := Times10(m, t - 2);
      CoreTimes10(m, t - 2);
      assert Times10(m, t) == 10 * Times10(m, t - 1) == 100 * n;
      assert 100 * n / 100 == n && 100 * n % 100 == 0;
    } else {
      LastPair(m);
    }
  }

  lemma LastPair(m: nat)
    requires m % 10 != 0
    ensures m % 100 != 0 && 10 * m % 100 != 0
  {
    NotTens(m / 10, m % 10, m / 100);
    NotTens(m / 10, m % 10, 10 * m / 100);
  }

  lemma NotTens(q: nat, r: nat, c: nat)
    requires 1 <= r <= 9
    ensures 10 * q + r != 100 * c && 10 * (10 * q + r) != 100 * c
  {
  }

  function Reverse(b: Bytes): (r: Bytes)
    ensures |r| == |b| && forall i :: 0 <= i < |b| ==> r[i] == b[|b| - 1 - i]
  {
    if b == [] then [] else Reverse(b[1..]) + [b[0]]
  }

  /** Pushes the base-100 digits of `m`, least significant first, each as 2d+1. */
  method PushDigits(m: nat) returns (byteArray: Bytes)
    ensures Reverse(byteArray) == Odd(Digits(m))
  {
    byteArray := [];
    var mantissa := m;
    while mantissa / 0x1_0000_0000_0000_0000 != 0
      invariant Odd(Digits(mantissa)) + Reverse(byteArray) == Odd(Digits(m))
      decreases mantissa
    {
      byteArray := PushDigit(byteArray, mantissa, m);
      mantissa := mantissa / 100;
    }
    while mantissa != 0
      invariant Odd(Digits(mantissa)) + Reverse(byteArray) == Odd(Digits(m))
    {
      byteArray := PushDigit(byteArray, mantissa, m);
      mantissa := mantissa / 100;
    }
  }

  method PushDigit(byteArray: Bytes, mantissa: nat, ghost m: nat) returns (b: Bytes)
    requires mantissa != 0 && Odd(Digits(mantissa)) + Reverse(byteArray) == Odd(Digits(m))
    ensures b == byteArray + [mantissa % 100 * 2 + 1]
    ensures Odd(Digits(mantissa / 100)) + Reverse(b) == Odd(Digits(m))
  {
    var digit: Byte := mantissa % 100 * 2 + 1;
    b := byteArray + [digit];
    assert Reverse(b) == [digit] + Reverse(byteArray);
    assert Odd(Digits(mantissa)) == Odd(Digits(mantissa / 100)) + [digit];
  }

  /** The base-100 exponent; Rust's division truncates towards zero. */
  function Exponent100(e10: int): int {
    if e10 >= 0 then (e10 + 1) / 2 else -(-e10 / 2)
  }

  lemma ExponentIsLength(m: nat, scale: nat)
    requires 0 < m < MAX_MANTISSA && scale <= MAX_SCALE
    ensures Exponent100(Precision(m, 0) - scale) == |Digits(Times10(m, MAX_SCALE - scale))| - 14
  {
    var p, t := Precision(m, 0), MAX_SCALE - scale;
    PrecisionBounds(m, 0);
    assert Pow10(0) == 1;
    Times10Bounds(m, p, t);
    DigitsLength(Times10(m, t), p + t);
  }

  /** Removes trailing zeros: each takes one from the digit count. */
  method StripZeros(start: nat, digits: int, ghost scaleUp: nat) returns (mantissa: nat, digitNum: int, ghost t: nat)
    requires start > 0
    ensures mantissa % 10 != 0 && Times10(mantissa, t) == Times10(start, scaleUp)
    ensures digitNum - digits == scaleUp - t
  {
    mantissa, digitNum, t := start, digits, scaleUp;
    while mantissa % 10 == 0 && mantissa != 0
      invariant mantissa > 0 && Times10(mantissa, t) == Times10(start, scaleUp)
      invariant digitNum - digits == scaleUp - t
      decreases mantissa
    {
      Times10Step(mantissa / 10, t);
      mantissa := mantissa / 10;
      digitNum := digitNum - 1;
      t := t + 1;
    }
  }

  lemma SameParity(digitNum: int, t: nat, digits: int, scaleUp: nat)
    requires (digits - scaleUp) % 2 == 0 && digitNum - digits == scaleUp - t
    ensures digitNum % 2 == t % 2
  {
    assert digitNum + t == (digits - scaleUp) + 2 * scaleUp;
  }

  /** The mantissa without trailing zeros, with one put back where the digit count is odd. */
  method EvenMantissa(start: nat, digits: int, ghost scaleUp: nat) returns (mantissa: nat)
    requires start > 0 && (digits - scaleUp) % 2 == 0
    ensures mantissa == Core(Times10(start, scaleUp)) && mantissa % 100 != 0
  {
    var digitNum;
    ghost var t;
    mantissa, digitNum, t := StripZeros(start, digits, scaleUp);
    CoreTimes10(mantissa, t);
    LastPair(mantissa);
    SameParity(digitNum, t, digits, scaleUp);
    if digitNum % 2 == 1 {
      mantissa := mantissa * 10;
    }
  }

  /** The digit bytes, from the mantissa and a digit count of the right parity. */
  method Significand(start: nat, digits: int, ghost scaleUp: nat) returns (significand: Bytes)
    requires start > 0 && (digits - scaleUp) % 2 == 0
    ensures significand == Mark(Digits(Times10(start, scaleUp)))
  {
    var mantissa := EvenMantissa(start, digits, scaleUp);
    Times10Positive(start, scaleUp);
    MarkCore(Times10(start, scaleUp));
    var byteArray := PushDigits(mantissa);
    byteArray := MarkLast(byteArray, mantissa);
    return Reverse(byteArray);
  }

  lemma {:induction false} Times10Positive(m: nat, t: nat)
    requires m > 0
    ensures Times10(m, t) > 0
  {
    if t > 0 { Times10Positive(m, t - 1); }
  }

  lemma DigitParity(prec: int, scale: nat, digits: int)
    requires scale <= MAX_SCALE && digits == if prec - scale == 2 * Exponent100(prec - scale) then prec else prec + 1
    ensures (digits - (MAX_SCALE - scale)) % 2 == 0
  {
    var e10 := prec - scale;
    assert digits - (MAX_SCALE - scale) == (if e10 % 2 == 0 then e10 else e10 + 1) + 2 * (scale - 14);
  }

  /** The exponent, and the digit count the digit loops start from. */
  method ExponentAndCount(m: nat, scale: nat) returns (e100: int, digits: int)
    requires 0 < m < MAX_MANTISSA && scale <= MAX_SCALE
    ensures e100 == |Digits(Times10(m, MAX_SCALE - scale))| - 14
    ensures (digits - (MAX_SCALE - scale)) % 2 == 0
  {
    var prec := Precision(m, 0);
    var e10 := prec - scale;
    e100 := Exponent100(e10);
    digits := if e10 == 2 * e100 then prec else prec + 1;
    ExponentIsLength(m, scale);
    DigitParity(prec, scale, digits);
  }

  /** decimal_e_m: the exponent and the marked digits of the number, from mantissa and scale. */
  method DecimalEM(d: Decimal) returns (exponent: int, significand: Bytes)
    requires d.Valid() && d.mantissa > 0
    ensures exponent == |Digits(Times10(d.mantissa, MAX_SCALE - d.scale))| - 14
    ensures significand == Mark(Digits(Times10(d.mantissa, MAX_SCALE - d.scale)))
  {
    var digits: int;
    exponent, digits := ExponentAndCount(d.mantissa, d.scale);
    significand := Significand(d.mantissa, digits, MAX_SCALE - d.scale);
  }

  lemma {:induction false} Times10Step(m: nat, t: nat)
    ensures Times10(10 * m, t) == Times10(m, t + 1)
  {
    if t > 0 {
      Times10Step(m, t - 1);
    }
  }

  /** Lowering the first pushed byte by one marks the last digit. */
  method MarkLast(byteArray: Bytes, ghost m: nat) returns (b: Bytes)
    requires m % 100 != 0 && Reverse(byteArray) == Odd(Digits(m))
    ensures Reverse(b) == Mark(Digits(m))
  {
    ghost var n := |byteArray|;
    assert n == |Digits(m)| && Digits(m)[n - 1] == m % 100;
    assert byteArray[0] == Reverse(byteArray)[n - 1] == 2 * (m % 100) + 1;
    b := byteArray[0 := byteArray[0] - 1];
    ghost var ds, r := Digits(m), Reverse(byteArray);
    assert Significant(ds, n) == n;
    forall i | 0 <= i < n ensures Reverse(b)[i] == Mark(ds)[i] {
      assert r[i] == Odd(ds)[i] == Twice(ds[i]) + 1;
    }
  }

  /** serialize_decimal appends exactly the key of the number. */
  method SerializeDecimal(d: Decimal, buffer: Bytes) returns (bytes: Bytes)
    requires d.Valid()
    ensures bytes == buffer + NumberKey(Scaled(d))
  {
    if d.mantissa == 0 {
      ScaledZero(d);
      KeyOfZero(Scaled(d));
      return buffer + [0x15];
    }
    bytes := SerializeMagnitude(d, buffer);
  }

  lemma ScaledZero(d: Decimal)
    requires d.Valid() && d.mantissa == 0
    ensures Scaled(d) == 0
  {
    ZeroScales(MAX_SCALE - d.scale);
  }

  lemma KeyOfZero(v: int)
    requires v == 0
    ensures NumberKey(v) == [0x15]
  {
  }

  method SerializeMagnitude(d: Decimal, buffer: Bytes) returns (bytes: Bytes)
    requires d.Valid() && d.mantissa > 0
    ensures bytes == buffer + NumberKey(Scaled(d))
  {
    var exponent, significand := DecimalEM(d);
    MagnitudeInRange(d.mantissa, d.scale);
    KeyFrom(Scaled(d), Times10(d.mantissa, MAX_SCALE - d.scale), d.negative, exponent, significand);
    bytes := PushNumber(exponent, significand, d.negative, buffer);
  }

  lemma KeyFrom(v: int, n: nat, negative: bool, exponent: int, significand: Bytes)
    requires n > 0 && v == (if negative then -(n as int) else n as int)
    requires exponent == |Digits(n)| - 14 && significand == Mark(Digits(n))
    ensures NumberKey(v) == Assemble(exponent, significand, negative)
  {
  }

  method PushNumber(exponent: int, significand: Bytes, negative: bool, buffer: Bytes) returns (bytes: Bytes)
    requires Exponent(exponent)
    ensures bytes == buffer + Assemble(exponent, significand, negative)
  {
    bytes := PushHeader(exponent, negative, buffer);
    if !negative {
      bytes := bytes + significand;
    } else {
      bytes := bytes + Complement(significand);
    }
  }

  method PushHeader(exponent: int, negative: bool, buffer: Bytes) returns (bytes: Bytes)
    requires Exponent(exponent)
    ensures bytes == buffer + Header(exponent, negative)
  {
    bytes := buffer;
    if !negative {
      if exponent >= 11 {
        bytes := bytes + [0x22];
        bytes := bytes + [Cast(exponent)];
      } else if exponent >= 0 {
        bytes := bytes + [0x17 + exponent];
      } else {
        bytes := bytes + [0x16];
        bytes := bytes + [255 - Cast(-exponent)];
      }
    } else {
      if exponent >= 11 {
        bytes := bytes + [0x08];
        bytes := bytes + [255 - Cast(exponent)];
      } else if exponent >= 0 {
        bytes := bytes + [0x13 - exponent];
      } else {
        bytes := bytes + [0x14];
        bytes := bytes + [Cast(-exponent)];
      }
    }
  }

  lemma {:induction false} ZeroScales(k: nat)
    ensures Times10(0, k) == 0
  {
    if k > 0 {
      ZeroScales(k - 1);
    }
  }

  lemma ScaledInRange(d: Decimal)
    requires d.Valid()
    ensures InRange(Scaled(d))
    ensures Scaled(d) == 0 <==> d.mantissa == 0
  {
    if d.mantissa == 0 {
      ZeroScales(MAX_SCALE - d.scale);
    } else {
      MagnitudeInRange(d.mantissa, d.scale);
    }
  }

  lemma MagnitudeInRange(m: nat, scale: nat)
    requires 0 < m < MAX_MANTISSA && scale <= MAX_SCALE
    ensures var n := Times10(m, MAX_SCALE - scale); n > 0 && Exponent(|Digits(n)| - 14)
  {
    var t, p := MAX_SCALE - scale, Precision(m, 0);
    PrecisionBounds(m, 0);
    Times10Bounds(m, p, t);
    assert Pow10(0) == 1;
    DigitsLength(Times10(m, t), p + t);
    PowPositive(p + t - 1);
  }

  lemma {:induction false} PowPositive(k: nat)
    ensures Pow10(k) > 0
  {
    if k > 0 {
      PowPositive(k - 1);
    }
  }

  function DecimalKey(d: Decimal): Bytes
    requires d.Valid()
  {
    NumberKey(Scaled(d))
  }

  /** Decimal keys order as numbers, for any signs, mantissas and scales; equal numbers have equal
      keys, and no key is a prefix of a different one. */
  lemma DecimalKeyOrder(a: Decimal, b: Decimal)
    requires a.Valid() && b.Valid()
    ensures Scaled(a) < Scaled(b) <==> Below(DecimalKey(a), DecimalKey(b))
    ensures Scaled(a) == Scaled(b) <==> DecimalKey(a) == DecimalKey(b)
    ensures DecimalKey(a) <= DecimalKey(b) ==> DecimalKey(a) == DecimalKey(b)
  {
    ScaledInRange(a);
    ScaledInRange(b);
    if Scaled(a) < Scaled(b) {
      NumberKeyOrder(Scaled(a), Scaled(b));
      BelowNotEqual(DecimalKey(a), DecimalKey(b));
    } else if Scaled(b) < Scaled(a) {
      NumberKeyOrder(Scaled(b), Scaled(a));
      BelowNotEqual(DecimalKey(b), DecimalKey(a));
    } else {
      NotBelowSelf(DecimalKey(a));
    }
  }

  lemma NotBelowSelf(b: Bytes)
    ensures !Below(b, b)
  {
  }
}
