/** Rows as bytes: a bitmap of nulls, then the values in column order, read back through a projection. */
module RowCodec {
  import opened Common
  import opened KeyBytes
  import opened KeySpace

  /** Integers stand for dates and times too; floats and decimals are their library's bytes; texts are
      their UTF-8 bytes. */
  datatype Type = BoolTy | IntTy(w: nat) | UIntTy(w: nat) | RawTy(w: nat) | VarcharTy | CharTy(len: nat, octets: bool)

  datatype Value = Null | Bool(b: bool) | Int(n: int) | UInt(u: nat) | Raw(bs: Bytes) | Text(s: Bytes)

  // ---------------------------------------------------------------- one value

  /** Characters of a UTF-8 text: its bytes but the continuation bytes. */
  function Chars(s: Bytes): (n: nat)
    ensures n <= |s|
  {
    if s == [] then 0 else (if 128 <= s[0] < 192 then 0 else 1) + Chars(s[1..])
  }

  function Spaces(n: nat): (b: Bytes)
    ensures |b| == n && forall i :: 0 <= i < n ==> b[i] == 32
  {
    seq(n, i => 32)
  }

  function Padded(s: Bytes, len: nat, octets: bool): Bytes {
    var have := if octets then |s| else Chars(s);
    s + Spaces(if have < len then len - have else 0)
  }

  function Trimmed(s: Bytes): Bytes {
    if s != [] && s[|s| - 1] == 32 then Trimmed(s[..|s| - 1]) else s
  }

  predicate Fits(v: Value, ty: Type) {
    match ty
    case BoolTy => v.Bool?
    case IntTy(w) => v.Int? && w > 0 && 0 <= 2 * v.n + Pow256(w) && 2 * v.n < Pow256(w)
    case UIntTy(w) => v.UInt? && v.u < Pow256(w)
    case RawTy(w) => v.Raw? && |v.bs| == w
    case VarcharTy => v.Text? && |v.s| < Pow256(4)
    case CharTy(len, octets) => v.Text? && (if octets then |v.s| <= len else |Padded(v.s, len, octets)| < Pow256(4))
  }

  /** What a stored value reads back as: a CHAR loses its trailing spaces. */
  function Retrieved(v: Value, ty: Type): Value {
    if ty.CharTy? && v.Text? then Text(Trimmed(v.s)) else v
  }

  /** DataValue::to_raw. */
  function ToRaw(v: Value, ty: Type): Bytes
    requires Fits(v, ty)
  {
    match ty
    case BoolTy => [if v.b then 1 else 0]
    case IntTy(w) => LittleEndian(if v.n < 0 then v.n + Pow256(w) else v.n, w)
    case UIntTy(w) => LittleEndian(v.u, w)
    case RawTy(_) => v.bs
    case VarcharTy => LittleEndian(|v.s|, 4) + v.s
    case CharTy(len, octets) => (if octets then [] else LittleEndian(|Padded(v.s, len, false)|, 4)) + Padded(v.s, len, octets)
  }

  function LittleValue(b: Bytes): nat { if b == [] then 0 else b[0] + 256 * LittleValue(b[1..]) }

  datatype Read = Done(value: Option<Value>, rest: Bytes) | Short

  /** The length of the value at the cursor, read where it is stored, and what follows. */
  function Payload(b: Bytes, ty: Type): Option<(nat, Bytes)> {
    match ty
    case BoolTy => Some((1, b))
    case IntTy(w) => Some((w, b))
    case UIntTy(w) => Some((w, b))
    case RawTy(w) => Some((w, b))
    case VarcharTy => if |b| < 4 then None else Some((LittleValue(b[..4]), b[4..]))
    case CharTy(len, octets) =>
      if octets then Some((len, b)) else if |b| < 4 then None else Some((LittleValue(b[..4]), b[4..]))
  }

  function Parse(b: Bytes, ty: Type): Value {
    match ty
    case BoolTy => Bool(b != [] && b[0] != 0)
    case IntTy(w) => var n := LittleValue(b); Int(if 2 * n < Pow256(w) then n else n - Pow256(w))
    case UIntTy(_) => UInt(LittleValue(b))
    case RawTy(_) => Raw(b)
    case VarcharTy => Text(b)
    case CharTy(_, _) => Text(Trimmed(b))
  }

  /** DataValue::from_raw: skipping a value moves the cursor, past the end if need be; reading one needs its bytes. */
  function FromRaw(b: Bytes, ty: Type, projected: bool): Read {
    match Payload(b, ty)
    case None => Short
    case Some((n, r)) =>
      if !projected then Done(None, if n <= |r| then r[n..] else [])
      else if |r| < n then Short
      else Done(Some(Parse(r[..n], ty)), r[n..])
  }

  lemma {:induction false} LittleBack(n: nat, w: nat)
    requires n < Pow256(w)
    ensures LittleValue(LittleEndian(n, w)) == n
  {
    if w > 0 {
      LittleBack(n / 256, w - 1);
      assert LittleEndian(n, w)[1..] == LittleEndian(n / 256, w - 1);
    }
  }

  lemma {:induction false} TrimPadding(s: Bytes, n: nat)
    ensures Trimmed(s + Spaces(n)) == Trimmed(s)
  {
    var p := s + Spaces(n);
    if n == 0 {
      assert p == s;
    } else {
      TrimPadding(s, n - 1);
      assert p[..|p| - 1] == s + Spaces(n - 1);
    }
  }

  lemma PrefixedPayload(s: Bytes, rest: Bytes)
    requires |s| < Pow256(4)
    ensures var b := LittleEndian(|s|, 4) + s + rest; |b| >= 4 && LittleValue(b[..4]) == |s| && b[4..] == s + rest
  {
    var b := LittleEndian(|s|, 4) + s + rest;
    assert b[..4] == LittleEndian(|s|, 4);
    LittleBack(|s|, 4);
  }

  /** The bytes of a value without the length before them. */
  function Bare(v: Value, ty: Type): Bytes
    requires Fits(v, ty)
  {
    if ty.VarcharTy? then v.s else if ty.CharTy? then Padded(v.s, ty.len, ty.octets) else ToRaw(v, ty)
  }

  lemma PayloadBack(v: Value, ty: Type, rest: Bytes)
    requires Fits(v, ty)
    ensures Payload(ToRaw(v, ty) + rest, ty) == Some((|Bare(v, ty)|, Bare(v, ty) + rest))
  {
    if ty.VarcharTy? || (ty.CharTy? && !ty.octets) {
      PrefixedPayload(Bare(v, ty), rest);
    } else if ty.CharTy? {
      assert ToRaw(v, ty) == Bare(v, ty);
    }
  }

  lemma ParseBack(v: Value, ty: Type)
    requires Fits(v, ty)
    ensures Parse(Bare(v, ty), ty) == Retrieved(v, ty)
  {
    if ty.IntTy? {
      LittleBack(if v.n < 0 then v.n + Pow256(ty.w) else v.n, ty.w);
    } else if ty.UIntTy? {
      LittleBack(v.u, ty.w);
    } else if ty.CharTy? {
      var p := Padded(v.s, ty.len, ty.octets);
      TrimPadding(v.s, |p| - |v.s|);
      assert p == v.s + Spaces(|p| - |v.s|);
    }
  }

  /** A value read where it was written comes back, less a CHAR's trailing spaces; skipped or read, the
      cursor ends behind it. */
  lemma ValueBack(v: Value, ty: Type, rest: Bytes, projected: bool)
    requires Fits(v, ty)
    ensures FromRaw(ToRaw(v, ty) + rest, ty, projected) == Done(if projected then Some(Retrieved(v, ty)) else None, rest)
  {
    PayloadBack(v, ty, rest);
    ParseBack(v, ty);
    var bare := Bare(v, ty);
    assert (bare + rest)[..|bare|] == bare && (bare + rest)[|bare|..] == rest;
  }

  // ---------------------------------------------------------------- the bitmap of nulls

  function Pow2(n: nat): (p: nat)
    ensures p > 0
  {
    if n == 0 then 1 else 2 * Pow2(n - 1)
  }

  /** Bit `k` of a byte, from the low end. */
  predicate Bit(b: nat, k: nat) { if k == 0 then b % 2 == 1 else Bit(b / 2, k - 1) }

  function SetBit(b: nat, k: nat): nat {
    if k == 0 then (if b % 2 == 1 then b else b + 1) else b % 2 + 2 * SetBit(b / 2, k - 1)
  }

  lemma {:induction false} SetsOne(b: nat, k: nat, m: nat)
    ensures Bit(SetBit(b, k), m) <==> k == m || Bit(b, m)
  {
    if k > 0 && m > 0 {
      SetsOne(b / 2, k - 1, m - 1);
    }
  }

  lemma SetsOnly(b: nat, k: nat)
    ensures forall m: nat :: Bit(SetBit(b, k), m) <==> k == m || Bit(b, m)
  {
    forall m: nat ensures Bit(SetBit(b, k), m) <==> k == m || Bit(b, m) { SetsOne(b, k, m); }
  }

  lemma {:induction false} SetBitBound(b: nat, k: nat, n: nat)
    requires k < n && b < Pow2(n)
    ensures SetBit(b, k) < Pow2(n)
  {
    assert Pow2(n) == 2 * Pow2(n - 1) && b == b % 2 + 2 * (b / 2);
    if k > 0 { SetBitBound(b / 2, k - 1, n - 1); }
  }

  /** The bit of column `i` in the bitmap, high bits first. */
  predicate IsNone(bits: Byte, i: nat)
    requires i < 8
  {
    Bit(bits, 7 - i)
  }

  function FlipBit(bits: Byte, i: nat): (r: Byte)
    requires i < 8
    ensures forall j :: 0 <= j < 8 ==> (IsNone(r, j) <==> i == j || IsNone(bits, j))
  {
    SetBitBound(bits, 7 - i, 8);
    SetsOnly(bits, 7 - i);
    SetBit(bits, 7 - i)
  }

  predicate NullAt(bytes: Bytes, i: nat)
    requires i / 8 < |bytes|
  {
    IsNone(bytes[i / 8], i % 8)
  }

  /** Flipping the bit of one column leaves the others. */
  lemma FlipsColumn(bytes: Bytes, i: nat, j: nat)
    requires i / 8 < |bytes| && j / 8 < |bytes|
    ensures NullAt(bytes[i / 8 := FlipBit(bytes[i / 8], i % 8)], j) <==> j == i || NullAt(bytes, j)
  {
  }

  lemma {:induction false} ZeroBits(k: nat)
    ensures !Bit(0, k)
  {
    if k > 0 { ZeroBits(k - 1); }
  }

  // ---------------------------------------------------------------- rows

  ghost predicate RowFits(row: seq<Value>, types: seq<Type>) {
    |row| == |types| && forall i :: 0 <= i < |row| ==> row[i].Null? || Fits(row[i], types[i])
  }

  function BitsLen(n: nat): nat { (n + 8) / 8 }

  /** The values from column `i` on, nulls left out. */
  ghost function Body(row: seq<Value>, types: seq<Type>, i: nat): Bytes
    requires RowFits(row, types) && i <= |row|
    decreases |row| - i
  {
    if i == |row| then [] else (if row[i].Null? then [] else ToRaw(row[i], types[i])) + Body(row, types, i + 1)
  }

  /** The bytes are a bitmap of the row's nulls followed by its other values. */
  ghost predicate Encodes(bytes: Bytes, row: seq<Value>, types: seq<Type>)
    requires RowFits(row, types)
  {
    && |bytes| >= BitsLen(|row|)
    && (forall i :: 0 <= i < |row| ==> (NullAt(bytes, i) <==> row[i].Null?))
    && bytes[BitsLen(|row|)..] == Body(row, types, 0)
  }

  lemma BodyStep(row: seq<Value>, types: seq<Type>, i: nat, done: Bytes)
    requires RowFits(row, types) && i < |row|
    ensures row[i].Null? ==> Body(row, types, i) == Body(row, types, i + 1)
    ensures !row[i].Null? ==> done + Body(row, types, i) == done + ToRaw(row[i], types[i]) + Body(row, types, i + 1)
  {
    if !row[i].Null? { Assoc(done, ToRaw(row[i], types[i]), Body(row, types, i + 1)); }
  }

  /** The bitmap says which of the first `i` columns are null, and nothing of the rest. */
  ghost predicate NullsUpTo(bytes: Bytes, row: seq<Value>, i: nat)
    requires BitsLen(|row|) <= |bytes|
  {
    forall j :: 0 <= j < |row| ==> (NullAt(bytes, j) <==> j < i && row[j].Null?)
  }

  lemma NullSet(bytes: Bytes, row: seq<Value>, i: nat)
    requires BitsLen(|row|) <= |bytes| && i < |row| && NullsUpTo(bytes, row, i) && row[i].Null?
    ensures NullsUpTo(bytes[i / 8 := FlipBit(bytes[i / 8], i % 8)], row, i + 1)
  {
    forall j | 0 <= j < |row| ensures NullAt(bytes[i / 8 := FlipBit(bytes[i / 8], i % 8)], j) <==> j < i + 1 && row[j].Null? {
      FlipsColumn(bytes, i, j);
    }
  }

  lemma NullSkipped(bytes: Bytes, row: seq<Value>, i: nat, more: Bytes)
    requires BitsLen(|row|) <= |bytes| && i < |row| && NullsUpTo(bytes, row, i) && !row[i].Null?
    ensures NullsUpTo(bytes + more, row, i + 1)
  {
    forall j | 0 <= j < |row| ensures NullAt(bytes + more, j) <==> j < i + 1 && row[j].Null? {
      assert NullAt(bytes + more, j) <==> NullAt(bytes, j) by { assert (bytes + more)[j / 8] == bytes[j / 8]; }
    }
  }

  /** The first `i` columns are written. */
  ghost predicate Written(bytes: Bytes, row: seq<Value>, types: seq<Type>, i: nat)
    requires RowFits(row, types) && i <= |row|
  {
    && BitsLen(|row|) <= |bytes|
    && NullsUpTo(bytes, row, i)
    && bytes[BitsLen(|row|)..] + Body(row, types, i) == Body(row, types, 0)
  }

  lemma WrittenNone(row: seq<Value>, types: seq<Type>)
    requires RowFits(row, types)
    ensures Written(seq(BitsLen(|row|), _ => 0), row, types, 0)
  {
    var bytes: Bytes := seq(BitsLen(|row|), _ => 0);
    forall j | 0 <= j < |row| ensures !NullAt(bytes, j) {
      ZeroBits(7 - j % 8);
    }
    assert bytes[BitsLen(|row|)..] == [];
  }

  lemma WrittenNull(bytes: Bytes, row: seq<Value>, types: seq<Type>, i: nat)
    requires RowFits(row, types) && i < |row| && Written(bytes, row, types, i) && row[i].Null?
    ensures Written(bytes[i / 8 := FlipBit(bytes[i / 8], i % 8)], row, types, i + 1)
  {
    NullSet(bytes, row, i);
    BodyStep(row, types, i, []);
    var n := BitsLen(|row|);
    assert bytes[i / 8 := FlipBit(bytes[i / 8], i % 8)][n..] == bytes[n..];
  }

  lemma WrittenValue(bytes: Bytes, row: seq<Value>, types: seq<Type>, i: nat)
    requires RowFits(row, types) && i < |row| && Written(bytes, row, types, i) && !row[i].Null?
    ensures Written(bytes + ToRaw(row[i], types[i]), row, types, i + 1)
  {
    var n, raw := BitsLen(|row|), ToRaw(row[i], types[i]);
    NullSkipped(bytes, row, i, raw);
    BodyStep(row, types, i, bytes[n..]);
    TailAppend(bytes, raw, n);
  }

  lemma TailAppend(bytes: Bytes, raw: Bytes, n: nat)
    requires n <= |bytes|
    ensures (bytes + raw)[n..] == bytes[n..] + raw
  {
  }

  lemma WrittenAll(bytes: Bytes, row: seq<Value>, types: seq<Type>)
    requires RowFits(row, types) && Written(bytes, row, types, |row|)
    ensures Encodes(bytes, row, types)
  {
  }

  /** Tuple::serialize_to. */
  method Serialize(row: seq<Value>, types: seq<Type>) returns (bytes: Bytes)
    requires RowFits(row, types)
    ensures Encodes(bytes, row, types)
  {
    bytes := seq(BitsLen(|row|), _ => 0);
    WrittenNone(row, types);
    for i := 0 to |row|
      invariant Written(bytes, row, types, i)
    {
      bytes := WriteColumn(bytes, row, types, i);
    }
    WrittenAll(bytes, row, types);
  }

  method WriteColumn(buffer: Bytes, row: seq<Value>, types: seq<Type>, i: nat) returns (bytes: Bytes)
    requires RowFits(row, types) && i < |row| && Written(buffer, row, types, i)
    ensures Written(bytes, row, types, i + 1)
  {
    if row[i].Null? {
      WrittenNull(buffer, row, types, i);
      bytes := buffer[i / 8 := FlipBit(buffer[i / 8], i % 8)];
    } else {
      WrittenValue(buffer, row, types, i);
      bytes := buffer + ToRaw(row[i], types[i]);
    }
  }

  // ---------------------------------------------------------------- reading through a projection

  datatype Outcome = Values(values: seq<Value>) | Failed

  /** The loop of Tuple::deserialize_from from column `i`, with `pi` positions of the projection filled. */
  function Decode(types: seq<Type>, proj: seq<nat>, bytes: Bytes, i: nat, pi: nat, cursor: Bytes, values: seq<Value>): Outcome
    requires i <= |types| && |types| <= 8 * |bytes| && |values| == |proj|
    decreases |types| - i
  {
    if i == |types| || |proj| <= pi then Values(values)
    else if NullAt(bytes, i) then Decode(types, proj, bytes, i + 1, pi + 1, cursor, values)
    else
      match FromRaw(cursor, types[i], proj[pi] == i)
      case Short => Failed
      case Done(None, rest) => Decode(types, proj, bytes, i + 1, pi, rest, values)
      case Done(Some(v), rest) => Decode(types, proj, bytes, i + 1, pi + 1, rest, values[pi := v])
  }

  function Nulls(n: nat): (vs: seq<Value>)
    ensures |vs| == n && forall i :: 0 <= i < n ==> vs[i] == Null
  {
    seq(n, _ => Null)
  }

  /** Tuple::deserialize_from. */
  method Deserialize(types: seq<Type>, proj: seq<nat>, bytes: Bytes) returns (r: Outcome)
    requires |bytes| >= BitsLen(|types|)
    ensures r == Decode(types, proj, bytes, 0, 0, bytes[BitsLen(|types|)..], Nulls(|proj|))
  {
    var values, pi, cursor, i := Nulls(|proj|), 0, bytes[BitsLen(|types|)..], 0;
    while i < |types| && pi < |proj|
      invariant 0 <= i <= |types| && |values| == |proj|
      invariant Decode(types, proj, bytes, i, pi, cursor, values) == Decode(types, proj, bytes, 0, 0, bytes[BitsLen(|types|)..], Nulls(|proj|))
    {
      if NullAt(bytes, i) {
        pi := pi + 1;
      } else {
        var read := FromRaw(cursor, types[i], proj[pi] == i);
        if read.Short? {
          return Failed;
        }
        cursor := read.rest;
        if read.value.Some? {
          values := values[pi := read.value.value];
          pi := pi + 1;
        }
      }
      i := i + 1;
    }
    return Values(values);
  }

  /** What the loop fills in from a row it can read. */
  function Fill(row: seq<Value>, proj: seq<nat>, i: nat, pi: nat, values: seq<Value>): (out: seq<Value>)
    requires i <= |row| && |values| == |proj|
    ensures |out| == |values| && forall j :: 0 <= j < pi && j < |values| ==> out[j] == values[j]
    decreases |row| - i
  {
    if i == |row| || |proj| <= pi then values
    else if row[i].Null? then Fill(row, proj, i + 1, pi + 1, values)
    else if proj[pi] == i then Fill(row, proj, i + 1, pi + 1, values[pi := row[i]])
    else Fill(row, proj, i + 1, pi, values)
  }

  ghost function AllRetrieved(row: seq<Value>, types: seq<Type>): (out: seq<Value>)
    requires |row| == |types|
    ensures |out| == |row| && forall i :: 0 <= i < |row| ==> out[i] == Retrieved(row[i], types[i])
  {
    seq(|row|, i requires 0 <= i < |row| => Retrieved(row[i], types[i]))
  }

  lemma ReadAt(row: seq<Value>, types: seq<Type>, i: nat, projected: bool)
    requires RowFits(row, types) && i < |row|
    ensures row[i].Null? ==> Body(row, types, i) == Body(row, types, i + 1)
    ensures !row[i].Null? ==> FromRaw(Body(row, types, i), types[i], projected)
                              == Done(if projected then Some(AllRetrieved(row, types)[i]) else None, Body(row, types, i + 1))
  {
    if !row[i].Null? {
      assert Body(row, types, i) == ToRaw(row[i], types[i]) + Body(row, types, i + 1);
      ValueBack(row[i], types[i], Body(row, types, i + 1), projected);
    }
  }

  /** One turn of the loop, by what it finds. */
  lemma DecodeTurn(types: seq<Type>, proj: seq<nat>, bytes: Bytes, i: nat, pi: nat, cursor: Bytes, values: seq<Value>)
    requires i < |types| && |types| <= 8 * |bytes| && |values| == |proj| && pi < |proj|
    ensures NullAt(bytes, i) ==> Decode(types, proj, bytes, i, pi, cursor, values) == Decode(types, proj, bytes, i + 1, pi + 1, cursor, values)
    ensures !NullAt(bytes, i) ==> var read := FromRaw(cursor, types[i], proj[pi] == i);
                                  && (read.Done? && read.value.None? ==>
                                        Decode(types, proj, bytes, i, pi, cursor, values) == Decode(types, proj, bytes, i + 1, pi, read.rest, values))
                                  && (read.Done? && read.value.Some? ==>
                                        Decode(types, proj, bytes, i, pi, cursor, values)
                                        == Decode(types, proj, bytes, i + 1, pi + 1, read.rest, values[pi := read.value.value]))
  {
  }

  /** The bytes before each column, as far as the loop can tell: a null has none, and a value is read or
      skipped to the next. */
  ghost predicate Readable(cursors: seq<Bytes>, back: seq<Value>, types: seq<Type>) {
    && |back| == |types| && |cursors| == |back| + 1
    && forall i :: 0 <= i < |back| ==> ReadableAt(cursors[i], cursors[i + 1], back[i], types[i])
  }

  /** The loop reads what it needs of the row and never runs short. */
  lemma {:induction false} DecodeReads(back: seq<Value>, types: seq<Type>, cursors: seq<Bytes>, proj: seq<nat>, bytes: Bytes, i: nat, pi: nat, values: seq<Value>)
    requires Readable(cursors, back, types) && |types| <= 8 * |bytes| && i <= |back| && |values| == |proj|
    requires forall j :: 0 <= j < |back| ==> (NullAt(bytes, j) <==> back[j].Null?)
    ensures Decode(types, proj, bytes, i, pi, cursors[i], values) == Values(Fill(back, proj, i, pi, values))
    decreases |back| - i
  {
    if i < |back| && pi < |proj| {
      DecodeTurn(types, proj, bytes, i, pi, cursors[i], values);
      assert ReadableAt(cursors[i], cursors[i + 1], back[i], types[i]);
      if back[i].Null? {
        DecodeReads(back, types, cursors, proj, bytes, i + 1, pi + 1, values);
      } else if proj[pi] == i {
        assert FromRaw(cursors[i], types[i], true) == Done(Some(back[i]), cursors[i + 1]);
        DecodeReads(back, types, cursors, proj, bytes, i + 1, pi + 1, values[pi := back[i]]);
      } else {
        assert FromRaw(cursors[i], types[i], false) == Done(None, cursors[i + 1]);
        DecodeReads(back, types, cursors, proj, bytes, i + 1, pi, values);
      }
    }
  }

  ghost function Cursors(row: seq<Value>, types: seq<Type>): (cs: seq<Bytes>)
    requires RowFits(row, types)
    ensures |cs| == |row| + 1 && forall i :: 0 <= i <= |row| ==> cs[i] == Body(row, types, i)
  {
    seq(|row| + 1, i requires 0 <= i <= |row| => Body(row, types, i))
  }

  ghost predicate ReadableAt(here: Bytes, next: Bytes, v: Value, ty: Type) {
    if v.Null? then here == next else forall p :: FromRaw(here, ty, p) == Done(if p then Some(v) else None, next)
  }

  lemma BodyReadable(row: seq<Value>, types: seq<Type>)
    requires RowFits(row, types)
    ensures Readable(Cursors(row, types), AllRetrieved(row, types), types)
  {
    var back, cursors := AllRetrieved(row, types), Cursors(row, types);
    forall i | 0 <= i < |row| ensures ReadableAt(cursors[i], cursors[i + 1], back[i], types[i]) {
      forall p ensures back[i].Null? || FromRaw(cursors[i], types[i], p) == Done(if p then Some(back[i]) else None, cursors[i + 1]) {
        ReadAt(row, types, i, p);
      }
      ReadAt(row, types, i, true);
    }
  }

  lemma DecodeFills(row: seq<Value>, types: seq<Type>, proj: seq<nat>, bytes: Bytes, values: seq<Value>)
    requires RowFits(row, types) && Encodes(bytes, row, types) && |values| == |proj|
    ensures Decode(types, proj, bytes, 0, 0, bytes[BitsLen(|row|)..], values) == Values(Fill(AllRetrieved(row, types), proj, 0, 0, values))
  {
    BodyReadable(row, types);
    DecodeReads(AllRetrieved(row, types), types, Cursors(row, types), proj, bytes, 0, 0, values);
  }

  // ---------------------------------------------------------------- when the projection is right

  ghost predicate IsProjection(proj: seq<nat>, n: nat) {
    (forall j :: 0 <= j < |proj| ==> proj[j] < n) && forall j, k :: 0 <= j < k < |proj| ==> proj[j] < proj[k]
  }

  function Project(row: seq<Value>, proj: seq<nat>): (out: seq<Value>)
    requires forall j :: 0 <= j < |proj| ==> proj[j] < |row|
    ensures |out| == |proj| && forall j :: 0 <= j < |proj| ==> out[j] == row[proj[j]]
  {
    seq(|proj|, j requires 0 <= j < |proj| => row[proj[j]])
  }

  /** From column `i` on, no null outside the projection comes before a projected value. */
  ghost predicate Aligned(row: seq<Value>, proj: seq<nat>, i: nat)
    requires forall j :: 0 <= j < |proj| ==> proj[j] < |row|
  {
    forall j, k :: 0 <= j < |proj| && i <= k < proj[j] && !row[proj[j]].Null? && row[k].Null? ==> k in proj
  }

  /** The positions before `pi` are done, the others lie at column `i` or later. */
  ghost predicate InStep(row: seq<Value>, proj: seq<nat>, i: nat, pi: nat, values: seq<Value>) {
    && IsProjection(proj, |row|) && i <= |row| && pi <= |proj| && |values| == |proj|
    && (forall j :: 0 <= j < pi ==> proj[j] < i && values[j] == row[proj[j]])
    && (forall j :: pi <= j < |proj| ==> i <= proj[j] && values[j] == Null)
  }

  /** Once a position ahead, the first projected value is passed by. */
  lemma {:induction false} AheadMisses(row: seq<Value>, proj: seq<nat>, i: nat, pi: nat, values: seq<Value>, j: nat)
    requires IsProjection(proj, |row|) && i <= |row| && |values| == |proj| && 0 < pi <= |proj| && i <= proj[pi - 1]
    requires pi - 1 <= j < |proj| && !row[proj[j]].Null? && forall q :: pi - 1 <= q < j ==> row[proj[q]].Null?
    ensures Fill(row, proj, i, pi, values)[j] == values[j]
    decreases |row| - i
  {
    if j >= pi && i < |row| {
      assert row[proj[pi - 1]].Null?;
      if row[i].Null? {
        AheadMisses(row, proj, i + 1, pi + 1, values, j);
      } else {
        AheadMisses(row, proj, i + 1, pi, values, j);
      }
    }
  }

  lemma {:induction false} OnlyNullsLeft(row: seq<Value>, proj: seq<nat>, i: nat, pi: nat, values: seq<Value>)
    requires IsProjection(proj, |row|) && i <= |row| && |values| == |proj|
    requires forall j :: pi <= j < |proj| ==> row[proj[j]].Null?
    ensures Fill(row, proj, i, pi, values) == values
    decreases |row| - i
  {
    if i < |row| && pi < |proj| {
      OnlyNullsLeft(row, proj, i + 1, if row[i].Null? then pi + 1 else pi, values);
    }
  }

  lemma {:induction false} FirstValue(row: seq<Value>, proj: seq<nat>, pi: nat) returns (j: nat)
    requires IsProjection(proj, |row|) && exists q :: pi <= q < |proj| && !row[proj[q]].Null?
    ensures pi <= j < |proj| && !row[proj[j]].Null? && forall q :: pi <= q < j ==> row[proj[q]].Null?
    decreases |proj| - pi
  {
    if row[proj[pi]].Null? {
      j := FirstValue(row, proj, pi + 1);
    } else {
      j := pi;
    }
  }

  lemma AlignedNext(row: seq<Value>, proj: seq<nat>, i: nat)
    requires IsProjection(proj, |row|) && i < |row| && (i in proj || !row[i].Null?)
    ensures Aligned(row, proj, i) <==> Aligned(row, proj, i + 1)
  {
  }

  lemma {:induction false} FillExact(row: seq<Value>, proj: seq<nat>, i: nat, pi: nat, values: seq<Value>)
    requires InStep(row, proj, i, pi, values)
    ensures Fill(row, proj, i, pi, values) == Project(row, proj) <==> Aligned(row, proj, i)
    decreases |row| - i
  {
    if i == |row| || pi == |proj| {
      assert values == Project(row, proj);
    } else if proj[pi] == i {
      FillExact(row, proj, i + 1, pi + 1, values[pi := row[i]]);
      assert values[pi := Null] == values;
      assert i in proj;
      AlignedNext(row, proj, i);
    } else if !row[i].Null? {
      FillExact(row, proj, i + 1, pi, values);
      AlignedNext(row, proj, i);
    } else {
      OutOfStep(row, proj, i, pi, values);
    }
  }

  /** A null outside the projection: right only if nothing but nulls is left to read. */
  lemma OutOfStep(row: seq<Value>, proj: seq<nat>, i: nat, pi: nat, values: seq<Value>)
    requires InStep(row, proj, i, pi, values) && i < |row| && pi < |proj| && proj[pi] != i && row[i].Null?
    ensures Fill(row, proj, i, pi, values) == Project(row, proj) <==> Aligned(row, proj, i)
  {
    if forall j :: pi <= j < |proj| ==> row[proj[j]].Null? {
      OnlyNullsLeft(row, proj, i + 1, pi + 1, values);
      assert values == Project(row, proj);
      NullsAligned(row, proj, i, pi);
    } else {
      var j := FirstValue(row, proj, pi);
      AheadMisses(row, proj, i + 1, pi + 1, values, j);
      assert Fill(row, proj, i, pi, values)[j] == Null != Project(row, proj)[j];
      NotAligned(row, proj, i, pi, j);
    }
  }

  lemma NullsAligned(row: seq<Value>, proj: seq<nat>, i: nat, pi: nat)
    requires IsProjection(proj, |row|) && pi <= |proj|
    requires (forall j :: 0 <= j < pi ==> proj[j] < i) && forall j :: pi <= j < |proj| ==> row[proj[j]].Null?
    ensures Aligned(row, proj, i)
  {
  }

  lemma NotAligned(row: seq<Value>, proj: seq<nat>, i: nat, pi: nat, j: nat)
    requires IsProjection(proj, |row|) && i < |row| && pi <= j < |proj| && row[i].Null? && !row[proj[j]].Null?
    requires (forall k :: 0 <= k < pi ==> proj[k] < i) && i < proj[pi]
    ensures !Aligned(row, proj, i)
  {
    assert i !in proj;
    assert i <= i < proj[j];
  }

  /** Reading a stored row through an ascending projection gives the projected values, a CHAR less its
      trailing spaces, exactly when no null column outside the projection precedes a projected value. */
  lemma RowBack(row: seq<Value>, types: seq<Type>, proj: seq<nat>, bytes: Bytes)
    requires RowFits(row, types) && Encodes(bytes, row, types) && IsProjection(proj, |row|)
    ensures Decode(types, proj, bytes, 0, 0, bytes[BitsLen(|row|)..], Nulls(|proj|)) == Values(Project(AllRetrieved(row, types), proj))
            <==> Aligned(row, proj, 0)
  {
    var back := AllRetrieved(row, types);
    DecodeFills(row, types, proj, bytes, Nulls(|proj|));
    FillExact(back, proj, 0, 0, Nulls(|proj|));
    assert forall i :: 0 <= i < |row| ==> (back[i].Null? <==> row[i].Null?);
    assert Aligned(back, proj, 0) <==> Aligned(row, proj, 0);
  }

  lemma {:induction false} TrimmedLength(s: Bytes)
    ensures |Trimmed(s)| <= |s|
  {
    if s != [] && s[|s| - 1] == 32 { TrimmedLength(s[..|s| - 1]); }
  }

  /** A stored text reads back as it was exactly when its column is no CHAR or it does not end in a space. */
  lemma TextBack(s: Bytes, ty: Type)
    ensures Retrieved(Text(s), ty) == Text(s) <==> !ty.CharTy? || s == [] || s[|s| - 1] != 32
  {
    if s != [] && s[|s| - 1] == 32 { TrimmedLength(s[..|s| - 1]); }
  }

  /** A null in front of the projection: the one projected column reads back as null. */
  lemma HiddenNullShifts(bytes: Bytes)
    requires Encodes(bytes, [Null, UInt(7)], [UIntTy(1), UIntTy(1)])
    ensures Decode([UIntTy(1), UIntTy(1)], [1], bytes, 0, 0, bytes[BitsLen(2)..], Nulls(1)) == Values([Null])
  {
    var row, types := [Null, UInt(7)], [UIntTy(1), UIntTy(1)];
    DecodeFills(row, types, [1], bytes, Nulls(1));
    assert Fill(AllRetrieved(row, types), [1], 1, 1, Nulls(1)) == Nulls(1);
  }
}
