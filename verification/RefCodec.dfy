/** Reference serialization: tagged options, bounds and vectors over column relations, whose table names
    are written once into a table of names that grows while encoding. */
module RefCodec {
  import opened KeyBytes
  import opened KeySpace
  import opened RowCodec

  type Names = seq<Bytes>

  datatype Shape = RelationShape | OptionShape(of: Shape) | VecShape(of: Shape) | BoundShape(of: Shape)

  datatype Item =
    | NoTable
    | InTable(id: nat, name: Bytes, temp: bool)
    | Nothing
    | Just(item: Item)
    | Items(items: seq<Item>)
    | Included(item: Item)
    | Excluded(item: Item)
    | Unbounded

  /** The item has the shape, and its numbers fit their widths. */
  predicate Shaped(x: Item, shape: Shape)
    decreases shape, 0
  {
    match shape
    case RelationShape => x.NoTable? || (x.InTable? && x.id < Pow256(16))
    case OptionShape(s) => x.Nothing? || (x.Just? && Shaped(x.item, s))
    case VecShape(s) => x.Items? && |x.items| < Pow256(4) && AllShaped(x.items, s)
    case BoundShape(s) => x.Unbounded? || ((x.Included? || x.Excluded?) && Shaped(x.item, s))
  }

  predicate AllShaped(xs: seq<Item>, shape: Shape)
    decreases shape, 1, |xs|
  {
    xs == [] || (Shaped(xs[0], shape) && AllShaped(xs[1..], shape))
  }

  // ---------------------------------------------------------------- encoding

  function IndexOf(names: Names, name: Bytes): (i: nat)
    ensures i <= |names| && (i < |names| ==> names[i] == name) && name !in names[..i]
  {
    if names == [] || names[0] == name then 0
    else
      var i := 1 + IndexOf(names[1..], name);
      assert names[..i] == [names[0]] + names[1..][..i - 1];
      i
  }

  /** The names with one more added unless it is there. */
  function Interned(names: Names, name: Bytes): (out: Names)
    ensures names <= out && IndexOf(names, name) < |out| && out[IndexOf(names, name)] == name && |out| <= |names| + 1
  {
    if IndexOf(names, name) < |names| then names else names + [name]
  }

  datatype Coded = Coded(bytes: Bytes, names: Names)

  function EncodeItem(x: Item, names: Names): (c: Coded)
    ensures names <= c.names
    decreases x, 0
  {
    match x
    case NoTable => Coded([0], names)
    case InTable(id, name, temp) =>
      Coded([1] + BigEndian(id, 16) + [if temp then 1 else 0] + LittleEndian(IndexOf(names, name), 4), Interned(names, name))
    case Nothing => Coded([0], names)
    case Just(y) => var c := EncodeItem(y, names); Coded([1] + c.bytes, c.names)
    case Items(xs) => var c := EncodeItems(xs, names); Coded(LittleEndian(|xs|, 4) + c.bytes, c.names)
    case Included(y) => var c := EncodeItem(y, names); Coded([0] + c.bytes, c.names)
    case Excluded(y) => var c := EncodeItem(y, names); Coded([1] + c.bytes, c.names)
    case Unbounded => Coded([2], names)
  }

  function EncodeItems(xs: seq<Item>, names: Names): (c: Coded)
    ensures names <= c.names
    decreases xs, 1
  {
    if xs == [] then Coded([], names)
    else
      var first := EncodeItem(xs[0], names);
      var rest := EncodeItems(xs[1..], first.names);
      Coded(first.bytes + rest.bytes, rest.names)
  }

  // ---------------------------------------------------------------- decoding

  datatype Decoded = Got(item: Item, rest: Bytes) | Bad

  datatype DecodedAll = GotAll(items: seq<Item>, rest: Bytes) | BadAll

  function BigValue(b: Bytes): nat { if b == [] then 0 else 256 * BigValue(b[..|b| - 1]) + b[|b| - 1] }

  /** Short input, an unknown tag and an index past the names are all failures. */
  function DecodeRelation(b: Bytes, names: Names): Decoded {
    if b == [] then Bad
    else if b[0] == 0 then Got(NoTable, b[1..])
    else if b[0] != 1 || |b| < 22 then Bad
    else
      var i := LittleValue(b[18..22]);
      if i < |names| then Got(InTable(BigValue(b[1..17]), names[i], b[17] == 1), b[22..]) else Bad
  }

  function DecodeItem(shape: Shape, b: Bytes, names: Names): Decoded
    decreases shape, 0
  {
    match shape
    case RelationShape => DecodeRelation(b, names)
    case OptionShape(s) =>
      if b == [] || b[0] > 1 then Bad
      else if b[0] == 0 then Got(Nothing, b[1..])
      else (match DecodeItem(s, b[1..], names) case Got(y, rest) => Got(Just(y), rest) case Bad => Bad)
    case VecShape(s) =>
      if |b| < 4 then Bad
      else (match DecodeItems(s, LittleValue(b[..4]), b[4..], names) case GotAll(ys, rest) => Got(Items(ys), rest) case BadAll => Bad)
    case BoundShape(s) =>
      if b == [] || b[0] > 2 then Bad
      else if b[0] == 2 then Got(Unbounded, b[1..])
      else
        match DecodeItem(s, b[1..], names)
        case Got(y, rest) => Got(if b[0] == 0 then Included(y) else Excluded(y), rest)
        case Bad => Bad
  }

  function DecodeItems(shape: Shape, n: nat, b: Bytes, names: Names): DecodedAll
    decreases shape, 1, n
  {
    if n == 0 then GotAll([], b)
    else
      match DecodeItem(shape, b, names)
      case Bad => BadAll
      case Got(y, rest) => (match DecodeItems(shape, n - 1, rest, names) case GotAll(ys, r) => GotAll([y] + ys, r) case BadAll => BadAll)
  }

  // ---------------------------------------------------------------- the round trip

  lemma {:induction false} BigBack(n: nat, w: nat)
    requires n < Pow256(w)
    ensures BigValue(BigEndian(n, w)) == n
  {
    if w > 0 {
      BigBack(n / 256, w - 1);
      var b := BigEndian(n, w);
      assert b[..|b| - 1] == BigEndian(n / 256, w - 1);
    }
  }

  lemma RelationBack(x: Item, names: Names, final: Names, rest: Bytes)
    requires Shaped(x, RelationShape) && EncodeItem(x, names).names <= final && |final| <= Pow256(4)
    ensures DecodeRelation(EncodeItem(x, names).bytes + rest, final) == Got(x, rest)
  {
    var c := EncodeItem(x, names);
    var b := c.bytes + rest;
    if x.InTable? {
      var i := IndexOf(names, x.name);
      assert final[i] == c.names[i] == x.name;
      assert b[1..17] == BigEndian(x.id, 16) && b[18..22] == LittleEndian(i, 4) && b[22..] == rest;
      BigBack(x.id, 16);
      LittleBack(i, 4);
    }
  }

  lemma VecHead(n: nat, body: Bytes, rest: Bytes)
    requires n < Pow256(4)
    ensures var b := LittleEndian(n, 4) + body + rest; |b| >= 4 && LittleValue(b[..4]) == n && b[4..] == body + rest
  {
    var b := LittleEndian(n, 4) + body + rest;
    assert b[..4] == LittleEndian(n, 4);
    LittleBack(n, 4);
  }

  /** Whatever was encoded while the names grew decodes against the final names, and decoding stops where
      the encoding did. */
  lemma {:induction false} ItemBack(x: Item, shape: Shape, names: Names, final: Names, rest: Bytes)
    requires Shaped(x, shape) && EncodeItem(x, names).names <= final && |final| <= Pow256(4)
    ensures DecodeItem(shape, EncodeItem(x, names).bytes + rest, final) == Got(x, rest)
    decreases shape, 0
  {
    match shape
    case RelationShape => RelationBack(x, names, final, rest);
    case OptionShape(s) =>
      if x.Just? { TaggedBack(x.item, s, names, final, rest, 1); }
    case VecShape(s) =>
      var c := EncodeItems(x.items, names);
      VecHead(|x.items|, c.bytes, rest);
      ItemsBack(x.items, s, names, final, rest);
    case BoundShape(s) =>
      if x.Included? { TaggedBack(x.item, s, names, final, rest, 0); }
      if x.Excluded? { TaggedBack(x.item, s, names, final, rest, 1); }
  }

  lemma {:induction false} TaggedBack(x: Item, shape: Shape, names: Names, final: Names, rest: Bytes, tag: Byte)
    requires Shaped(x, shape) && EncodeItem(x, names).names <= final && |final| <= Pow256(4)
    ensures var b := [tag] + EncodeItem(x, names).bytes + rest; b[0] == tag && DecodeItem(shape, b[1..], final) == Got(x, rest)
    decreases shape, 1
  {
    var b := [tag] + EncodeItem(x, names).bytes + rest;
    assert b[1..] == EncodeItem(x, names).bytes + rest;
    ItemBack(x, shape, names, final, rest);
  }

  lemma DecodedFirst(shape: Shape, n: nat, b: Bytes, names: Names, y: Item, rest: Bytes)
    requires DecodeItem(shape, b, names) == Got(y, rest)
    ensures var more := DecodeItems(shape, n, rest, names); more.GotAll? ==> DecodeItems(shape, n + 1, b, names) == GotAll([y] + more.items, more.rest)
  {
  }

  lemma EncodedFirst(xs: seq<Item>, names: Names, rest: Bytes)
    requires xs != []
    ensures var first := EncodeItem(xs[0], names);
            var more := EncodeItems(xs[1..], first.names);
            EncodeItems(xs, names).bytes + rest == first.bytes + (more.bytes + rest) && EncodeItems(xs, names).names == more.names
  {
  }

  lemma {:induction false} ItemsBack(xs: seq<Item>, shape: Shape, names: Names, final: Names, rest: Bytes)
    requires AllShaped(xs, shape) && EncodeItems(xs, names).names <= final && |final| <= Pow256(4)
    ensures DecodeItems(shape, |xs|, EncodeItems(xs, names).bytes + rest, final) == GotAll(xs, rest)
    decreases shape, 1, |xs|
  {
    if xs == [] {
      assert EncodeItems(xs, names).bytes + rest == rest;
    } else {
      var first := EncodeItem(xs[0], names);
      var more := EncodeItems(xs[1..], first.names);
      EncodedFirst(xs, names, rest);
      ItemBack(xs[0], shape, names, final, more.bytes + rest);
      ItemsBack(xs[1..], shape, first.names, final, rest);
      DecodedFirst(shape, |xs| - 1, first.bytes + (more.bytes + rest), final, xs[0], more.bytes + rest);
      assert [xs[0]] + xs[1..] == xs;
    }
  }

  // ---------------------------------------------------------------- the names and the view frame

  /** ReferenceTables::to_raw, its loop. */
  function NamesBody(names: Names): Bytes {
    if names == [] then [] else LittleEndian(|names[0]|, 4) + names[0] + NamesBody(names[1..])
  }

  function NamesRaw(names: Names): Bytes { LittleEndian(|names|, 4) + NamesBody(names) }

  datatype NamesRead = GotNames(names: Names) | BadNames

  function NamesFrom(n: nat, b: Bytes): NamesRead {
    if n == 0 then GotNames([])
    else if |b| < 4 || |b| - 4 < LittleValue(b[..4]) then BadNames
    else
      var len := LittleValue(b[..4]);
      match NamesFrom(n - 1, b[4 + len..])
      case GotNames(ns) => GotNames([b[4..4 + len]] + ns)
      case BadNames => BadNames
  }

  /** ReferenceTables::from_raw. */
  function ReadNames(b: Bytes): NamesRead { if |b| < 4 then BadNames else NamesFrom(LittleValue(b[..4]), b[4..]) }

  predicate NamesFit(names: Names) { |names| < Pow256(4) && forall i :: 0 <= i < |names| ==> |names[i]| < Pow256(4) }

  lemma {:induction false} NamesBack(names: Names)
    requires forall i :: 0 <= i < |names| ==> |names[i]| < Pow256(4)
    ensures NamesFrom(|names|, NamesBody(names)) == GotNames(names)
  {
    if names != [] {
      var first, rest := names[0], NamesBody(names[1..]);
      var b := NamesBody(names);
      PrefixedPayload(first, rest);
      assert b == LittleEndian(|first|, 4) + first + rest;
      assert b[4..4 + |first|] == b[4..][..|first|] == first && b[4 + |first|..] == b[4..][|first|..] == rest;
      NamesBack(names[1..]);
      assert [names[0]] + names[1..] == names;
    }
  }

  lemma ReadNamesBack(names: Names)
    requires NamesFit(names)
    ensures ReadNames(NamesRaw(names)) == GotNames(names)
  {
    VecHead(|names|, NamesBody(names), []);
    assert LittleEndian(|names|, 4) + NamesBody(names) + [] == NamesRaw(names) && NamesBody(names) + [] == NamesBody(names);
    NamesBack(names);
  }

  /** decode_view: the names from the position in the first four bytes, the body right after them. */
  function DecodeView(shape: Shape, b: Bytes): Decoded {
    if |b| < 4 || |b| < LittleValue(b[..4]) then Bad
    else
      match ReadNames(b[LittleValue(b[..4])..])
      case BadNames => Bad
      case GotNames(names) => DecodeItem(shape, b[4..], names)
  }

  /** The frame encode_view writes is taken apart again: the same names, the same body. */
  lemma ViewBack(x: Item, shape: Shape, b: Bytes)
    requires Shaped(x, shape) && NamesFit(EncodeItem(x, []).names)
    requires var c := EncodeItem(x, []); 4 + |c.bytes| < Pow256(4) && b == LittleEndian(4 + |c.bytes|, 4) + c.bytes + NamesRaw(c.names)
    ensures ReadNames(b[4 + |EncodeItem(x, []).bytes|..]) == GotNames(EncodeItem(x, []).names)
    ensures DecodeView(shape, b) == Got(x, NamesRaw(EncodeItem(x, []).names))
  {
    var c := EncodeItem(x, []);
    VecHead(4 + |c.bytes|, c.bytes, NamesRaw(c.names));
    FrameTail(b, c.bytes, NamesRaw(c.names));
    ReadNamesBack(c.names);
    ItemBack(x, shape, [], c.names, NamesRaw(c.names));
  }

  lemma FrameTail(b: Bytes, body: Bytes, tail: Bytes)
    requires |b| >= 4 && b[4..] == body + tail
    ensures b[4 + |body|..] == tail
  {
    assert b[4 + |body|..] == b[4..][|body|..];
  }

  // ---------------------------------------------------------------- the encoder

  /** A writer with the names met so far. */
  class Encoder {
    var bytes: Bytes
    var names: Names

    constructor (header: nat)
      ensures bytes == seq(header, _ => 0) && names == []
    {
      bytes := seq(header, _ => 0);
      names := [];
    }

    /** ReferenceTables::push_or_replace. */
    method PushOrReplace(name: Bytes) returns (i: nat)
      modifies `names
      ensures i == IndexOf(old(names), name) && names == Interned(old(names), name)
    {
      i := 0;
      while i < |names|
        invariant i <= |names| && names == old(names) && name !in names[..i]
      {
        if names[i] == name {
          IndexIs(names, name, i);
          return;
        }
        assert names[..i + 1] == names[..i] + [names[i]];
        i := i + 1;
      }
      IndexIs(names, name, i);
      names := names + [name];
    }

    method Write(x: Item)
      modifies this
      ensures bytes == old(bytes) + EncodeItem(x, old(names)).bytes && names == EncodeItem(x, old(names)).names
      decreases x, 0
    {
      match x
      case NoTable =>
        bytes := bytes + [0];
      case InTable(id, name, temp) =>
        var i := PushOrReplace(name);
        bytes := bytes + ([1] + BigEndian(id, 16) + [if temp then 1 else 0] + LittleEndian(i, 4));
      case Nothing =>
        bytes := bytes + [0];
      case Just(y) =>
        bytes := bytes + [1];
        Write(y);
      case Items(xs) =>
        bytes := bytes + LittleEndian(|xs|, 4);
        WriteAll(xs);
      case Included(y) =>
        bytes := bytes + [0];
        Write(y);
      case Excluded(y) =>
        bytes := bytes + [1];
        Write(y);
      case Unbounded =>
        bytes := bytes + [2];
    }

    method WriteAll(xs: seq<Item>)
      modifies this
      ensures bytes == old(bytes) + EncodeItems(xs, old(names)).bytes && names == EncodeItems(xs, old(names)).names
      decreases xs, 1
    {
      for i := 0 to |xs|
        invariant bytes + EncodeItems(xs[i..], names).bytes == old(bytes) + EncodeItems(xs, old(names)).bytes
        invariant EncodeItems(xs[i..], names).names == EncodeItems(xs, old(names)).names
      {
        EncodedFirst(xs[i..], names, []);
        assert xs[i..][0] == xs[i] && xs[i..][1..] == xs[i + 1..];
        Write(xs[i]);
      }
    }
  }

  lemma {:induction false} IndexIs(names: Names, name: Bytes, i: nat)
    requires i <= |names| && name !in names[..i] && (i < |names| ==> names[i] == name)
    ensures IndexOf(names, name) == i
  {
    if i > 0 {
      assert names[0] in names[..i];
      assert names[..i][1..] == names[1..][..i - 1];
      IndexIs(names[1..], name, i - 1);
    }
  }

  /** encode_view: four bytes kept free, the body, the names, then the position of the names put in front. */
  method EncodeView(x: Item) returns (b: Bytes)
    ensures var c := EncodeItem(x, []); b == LittleEndian(4 + |c.bytes|, 4) + c.bytes + NamesRaw(c.names)
  {
    var w := new Encoder(4);
    w.Write(x);
    var pos := |w.bytes|;
    b := w.bytes + NamesRaw(w.names);
    b := LittleEndian(pos, 4) + b[4..];
  }
}
