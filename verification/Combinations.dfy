/** Equality prefixes of a composite index: the tree of combinations and its enumeration. */
module Combinations {
  import opened Common
  import opened Ranges

  datatype TreeNode<T> = Node(value: Option<T>, children: seq<TreeNode<T>>)

  // ---------------------------------------------------------------- building the tree

  function BuildTree<T>(ranges: seq<Range<T>>, level: nat): Option<TreeNode<Value<T>>>
    decreases |ranges| - level, 2, 0
  {
    if level >= |ranges| then Some(Node(None, []))
    else
      var members := if ranges[level].SortedRanges? then ranges[level].ranges else [ranges[level]];
      match BuildChildren(ranges, members, level)
      case None => None
      case Some(children) => Some(Node(None, children))
  }

  /** The loop over the members of a level; one that is not an equality ends it with nothing. */
  function BuildChildren<T>(ranges: seq<Range<T>>, members: seq<Range<T>>, level: nat): Option<seq<TreeNode<Value<T>>>>
    requires level < |ranges|
    decreases |ranges| - level, 1, |members|
  {
    if members == [] then Some([])
    else
      match BuildSubtree(ranges, members[0], level)
      case None => None
      case Some(child) =>
        match BuildChildren(ranges, members[1..], level)
        case None => None
        case Some(rest) => Some([child] + rest)
  }

  function BuildSubtree<T>(ranges: seq<Range<T>>, range: Range<T>, level: nat): Option<TreeNode<Value<T>>>
    requires level < |ranges|
    decreases |ranges| - level, 0, 0
  {
    if !range.Eq? then None
    else
      match BuildTree(ranges, level + 1)
      case None => None
      case Some(sub) =>
        Some(Node(Some(range.eq), if sub.children != [] || level == |ranges| - 1 then [sub] else []))
  }

  // ---------------------------------------------------------------- enumeration

  /** Paths to the leaves, in order. A node's own value is taken before it is descended into. */
  function Enumerate<T>(value: Option<T>, children: seq<TreeNode<T>>, path: seq<T>): seq<seq<T>>
    decreases children, 1
  {
    (if value.None? && children == [] then [path] else []) + EnumerateAll(children, path)
  }

  function EnumerateAll<T>(children: seq<TreeNode<T>>, path: seq<T>): seq<seq<T>>
    decreases children, 0
  {
    if children == [] then []
    else
      var child := children[0];
      Enumerate(None, child.children, if child.value.Some? then path + [child.value.value] else path)
      + EnumerateAll(children[1..], path)
  }

  /** enumeration as it is: one path pushed to and popped from, one list of results. */
  method Enumeration<T>(value: Option<T>, children: seq<TreeNode<T>>, path0: seq<T>, combinations0: seq<seq<T>>)
    returns (path: seq<T>, combinations: seq<seq<T>>)
    ensures path == path0
    ensures combinations == combinations0 + Enumerate(value, children, path0)
    decreases children
  {
    path, combinations := path0, combinations0;
    if value.None? && children == [] {
      combinations := combinations + [path];
    }
    for i := 0 to |children|
      invariant path == path0
      invariant combinations + EnumerateAll(children[i..], path0) == combinations0 + Enumerate(value, children, path0)
    {
      var child := children[i];
      ghost var rest := children[i..];
      assert rest[0] == child && rest[1..] == children[i + 1..];
      if child.value.Some? {
        path := path + [child.value.value];
        path, combinations := Enumeration(None, child.children, path, combinations);
        path := path[..|path| - 1];
      } else {
        path, combinations := Enumeration(None, child.children, path, combinations);
      }
    }
  }

  function Combine<T>(eqs: seq<Range<T>>): Option<seq<seq<Value<T>>>> {
    match BuildTree(eqs, 0)
    case None => None
    case Some(root) => Some(Enumerate(root.value, root.children, []))
  }

  // ---------------------------------------------------------------- the product

  predicate EqLevel<T>(r: Range<T>) {
    r.Eq? || (r.SortedRanges? && r.ranges != [] && forall i :: 0 <= i < |r.ranges| ==> r.ranges[i].Eq?)
  }

  predicate EqLevels<T>(rs: seq<Range<T>>) { forall i :: 0 <= i < |rs| ==> EqLevel(rs[i]) }

  function Members<T>(r: Range<T>): (vs: seq<Value<T>>)
    requires EqLevel(r)
    ensures vs != []
  {
    if r.Eq? then [r.eq] else seq(|r.ranges|, i requires 0 <= i < |r.ranges| => r.ranges[i].eq)
  }

  function Levels<T>(rs: seq<Range<T>>): (ls: seq<seq<Value<T>>>)
    requires EqLevels(rs)
    ensures |ls| == |rs| && forall i :: 0 <= i < |rs| ==> ls[i] == Members(rs[i])
  {
    seq(|rs|, i requires 0 <= i < |rs| => Members(rs[i]))
  }

  /** The Cartesian product, first level most significant. */
  function Product<V>(levels: seq<seq<V>>): seq<seq<V>> {
    if levels == [] then [[]] else Heads(levels[0], Product(levels[1..]))
  }

  function Heads<V>(vs: seq<V>, tails: seq<seq<V>>): seq<seq<V>> {
    if vs == [] then [] else Under([vs[0]], tails) + Heads(vs[1..], tails)
  }

  /** Every tail under one path. */
  function Under<V>(path: seq<V>, tails: seq<seq<V>>): (r: seq<seq<V>>)
    ensures |r| == |tails| && forall i :: 0 <= i < |r| ==> r[i] == path + tails[i]
  {
    seq(|tails|, i requires 0 <= i < |tails| => path + tails[i])
  }

  lemma UnderUnder<V>(p: seq<V>, q: seq<V>, tails: seq<seq<V>>)
    ensures Under(p, Under(q, tails)) == Under(p + q, tails)
  {
    var a, b := Under(p, Under(q, tails)), Under(p + q, tails);
    forall i | 0 <= i < |tails| ensures a[i] == b[i] {
      assert p + (q + tails[i]) == p + q + tails[i];
    }
  }

  lemma UnderAppend<V>(p: seq<V>, a: seq<seq<V>>, b: seq<seq<V>>)
    ensures Under(p, a + b) == Under(p, a) + Under(p, b)
  {
  }

  /** The children built for a level enumerate to the product of that level and all later ones. */
  lemma {:induction false} TreeIsProduct<T>(ranges: seq<Range<T>>, level: nat, path: seq<Value<T>>)
    requires EqLevels(ranges) && level <= |ranges|
    ensures var t := BuildTree(ranges, level);
            && t.Some? && t.value.value.None? && (level < |ranges| ==> t.value.children != [])
            && Enumerate(None, t.value.children, path) == Under(path, Product(Levels(ranges)[level..]))
    decreases |ranges| - level, 1, 0
  {
    var ls := Levels(ranges);
    if level == |ranges| {
      assert ls[level..] == [];
      assert path + [] == path && Under(path, [[]]) == [path];
    } else {
      var r := ranges[level];
      var members := if r.SortedRanges? then r.ranges else [r];
      assert seq(|members|, i requires 0 <= i < |members| => members[i].eq) == Members(r);
      ChildrenAreProduct(ranges, members, level, path);
      assert ls[level..][0] == Members(r) && ls[level..][1..] == ls[level + 1..];
    }
  }

  function EqValues<T>(members: seq<Range<T>>): seq<Value<T>>
    requires forall i :: 0 <= i < |members| ==> members[i].Eq?
  {
    seq(|members|, i requires 0 <= i < |members| => members[i].eq)
  }

  lemma {:induction false} ChildrenAreProduct<T>(ranges: seq<Range<T>>, members: seq<Range<T>>, level: nat, path: seq<Value<T>>)
    requires EqLevels(ranges) && level < |ranges|
    requires forall i :: 0 <= i < |members| ==> members[i].Eq?
    ensures var c := BuildChildren(ranges, members, level);
            && c.Some? && |c.value| == |members|
            && EnumerateAll(c.value, path) == Under(path, Heads(EqValues(members), Product(Levels(ranges)[level + 1..])))
    decreases |ranges| - level, 0, |members|
  {
    if members != [] {
      var v := members[0].eq;
      var tails := Product(Levels(ranges)[level + 1..]);
      TreeIsProduct(ranges, level + 1, path + [v]);
      ChildrenAreProduct(ranges, members[1..], level, path);
      var sub := BuildTree(ranges, level + 1).value;
      var rest := BuildChildren(ranges, members[1..], level).value;
      assert BuildChildren(ranges, members, level) == Some([Node(Some(v), [sub])] + rest);
      FirstChild(sub, v, rest, path, tails);
      HeadsStep(EqValues(members), tails, path);
      assert EqValues(members)[1..] == EqValues(members[1..]);
    }
  }

  lemma FirstChild<T>(sub: TreeNode<Value<T>>, v: Value<T>, rest: seq<TreeNode<Value<T>>>, path: seq<Value<T>>, tails: seq<seq<Value<T>>>)
    requires sub.value.None? && Enumerate(None, sub.children, path + [v]) == Under(path + [v], tails)
    ensures EnumerateAll([Node(Some(v), [sub])] + rest, path) == Under(path, Under([v], tails)) + EnumerateAll(rest, path)
  {
    var child := Node(Some(v), [sub]);
    assert ([child] + rest)[1..] == rest;
    assert EnumerateAll([sub], path + [v]) == Enumerate(None, sub.children, path + [v]) + EnumerateAll([sub][1..], path + [v]);
    UnderUnder(path, [v], tails);
  }

  lemma HeadsStep<V>(vs: seq<V>, tails: seq<seq<V>>, path: seq<V>)
    requires vs != []
    ensures Under(path, Heads(vs, tails)) == Under(path, Under([vs[0]], tails)) + Under(path, Heads(vs[1..], tails))
  {
    UnderAppend(path, Under([vs[0]], tails), Heads(vs[1..], tails));
  }

  /** Levels of equalities: exactly their Cartesian product, in order. */
  lemma CombineIsProduct<T>(eqs: seq<Range<T>>)
    requires EqLevels(eqs)
    ensures Combine(eqs) == Some(Product(Levels(eqs)))
  {
    TreeIsProduct(eqs, 0, []);
    var p := Product(Levels(eqs));
    assert Levels(eqs)[0..] == Levels(eqs);
    assert Under([], p) == p by {
      forall i | 0 <= i < |p| ensures Under([], p)[i] == p[i] { assert [] + p[i] == p[i]; }
    }
  }

  /** A level that is not all equalities gives nothing, wherever it stands among non-empty levels. */
  lemma {:induction false} NonEqGivesNone<T>(ranges: seq<Range<T>>, level: nat, bad: nat)
    requires level <= bad < |ranges| && EqLevels(ranges[level..bad])
    requires !EqLevel(ranges[bad]) && ranges[bad] != SortedRanges([])
    ensures BuildTree(ranges, level).None?
    decreases bad - level
  {
    var r := ranges[level];
    var members := if r.SortedRanges? then r.ranges else [r];
    if level < bad {
      assert ranges[level..bad][0] == r;
      assert ranges[level..bad][1..] == ranges[level + 1..bad];
      NonEqGivesNone(ranges, level + 1, bad);
      assert BuildSubtree(ranges, members[0], level).None?;
    } else {
      var k :| 0 <= k < |members| && !members[k].Eq?;
      BadMember(ranges, members, level, k);
    }
  }

  lemma {:induction false} BadMember<T>(ranges: seq<Range<T>>, members: seq<Range<T>>, level: nat, k: nat)
    requires level < |ranges| && k < |members| && !members[k].Eq?
    ensures BuildChildren(ranges, members, level).None?
    decreases k
  {
    if k > 0 {
      BadMember(ranges, members[1..], level, k - 1);
    }
  }

  // ---------------------------------------------------------------- what the product contains

  predicate Picks<V(==)>(levels: seq<seq<V>>, c: seq<V>) {
    |c| == |levels| && forall i :: 0 <= i < |c| ==> c[i] in levels[i]
  }

  lemma {:induction false} HeadsMember<V>(vs: seq<V>, tails: seq<seq<V>>, c: seq<V>)
    ensures c in Heads(vs, tails) <==> c != [] && c[0] in vs && c[1..] in tails
  {
    if vs != [] {
      HeadsMember(vs[1..], tails, c);
      var u := Under([vs[0]], tails);
      if c in u {
        var i :| 0 <= i < |u| && u[i] == c;
        assert c[1..] == tails[i];
      }
      if c != [] && c[0] == vs[0] && c[1..] in tails {
        var i :| 0 <= i < |tails| && tails[i] == c[1..];
        assert u[i] == [c[0]] + c[1..] == c;
      }
    }
  }

  /** A combination is in the product exactly when it picks a member of each level. */
  lemma {:induction false} ProductMember<V>(levels: seq<seq<V>>, c: seq<V>)
    ensures c in Product(levels) <==> Picks(levels, c)
    decreases |levels|
  {
    if levels != [] {
      HeadsMember(levels[0], Product(levels[1..]), c);
      if c != [] {
        ProductMember(levels[1..], c[1..]);
        if Picks(levels[1..], c[1..]) && c[0] in levels[0] {
          assert forall i :: 1 <= i < |c| ==> c[i] == c[1..][i - 1] && levels[i] == levels[1..][i - 1];
        }
      }
    }
  }

  /** Strictly ascending, so in particular without duplicates. */
  ghost predicate Ascending<A(!new)>(lt: (A, A) -> bool, s: seq<A>) {
    forall i, j :: 0 <= i < j < |s| ==> lt(s[i], s[j])
  }

  predicate PickLt<V(==)>(lt: (V, V) -> bool, a: seq<V>, b: seq<V>) {
    a != [] && b != [] && (lt(a[0], b[0]) || (a[0] == b[0] && PickLt(lt, a[1..], b[1..])))
  }

  ghost predicate PicksAscending<V(!new)>(lt: (V, V) -> bool, s: seq<seq<V>>) {
    forall i, j :: 0 <= i < j < |s| ==> PickLt(lt, s[i], s[j])
  }

  lemma {:induction false} HeadsAscending<V(!new)>(lt: (V, V) -> bool, vs: seq<V>, tails: seq<seq<V>>)
    requires Ascending(lt, vs) && PicksAscending(lt, tails)
    ensures PicksAscending(lt, Heads(vs, tails))
  {
    if vs != [] {
      HeadsAscending(lt, vs[1..], tails);
      var u, t := Under([vs[0]], tails), Heads(vs[1..], tails);
      var h := u + t;
      forall i, j | 0 <= i < j < |h| ensures PickLt(lt, h[i], h[j]) {
        if j < |u| {
          assert h[i] == [vs[0]] + tails[i] && h[j] == [vs[0]] + tails[j];
        } else if i < |u| {
          assert h[j] in t;
          HeadsMember(vs[1..], tails, h[j]);
          var k :| 0 <= k < |vs| - 1 && vs[1..][k] == h[j][0];
          assert lt(vs[0], vs[k + 1]);
        } else {
          assert h[i] == t[i - |u|] && h[j] == t[j - |u|];
        }
      }
    }
  }

  /** Ascending levels give lexicographically ascending combinations. */
  lemma {:induction false} ProductAscending<V(!new)>(lt: (V, V) -> bool, levels: seq<seq<V>>)
    requires forall k :: 0 <= k < |levels| ==> Ascending(lt, levels[k])
    ensures PicksAscending(lt, Product(levels))
    decreases |levels|
  {
    if levels != [] {
      assert forall k :: 0 <= k < |levels| - 1 ==> levels[1..][k] == levels[k + 1];
      ProductAscending(lt, levels[1..]);
      HeadsAscending(lt, levels[0], Product(levels[1..]));
    }
  }
}
