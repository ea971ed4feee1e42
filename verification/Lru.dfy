/** The LRU cache: a doubly linked list of nodes and a map from keys to nodes, changed in place. */
module Lru {
  import opened Common
  import opened LruSpec

  class Node<K, V> {
    const key: K
    const value: V
    var prev: Node?<K, V>
    var next: Node?<K, V>

    constructor (key: K, value: V)
      ensures this.key == key && this.value == value && prev == null && next == null
    {
      this.key, this.value, this.prev, this.next := key, value, null, null;
    }
  }

  /** The node at a position, null outside the list. */
  ghost function At<K, V>(nodes: seq<Node<K, V>>, i: int): Node?<K, V> {
    if 0 <= i < |nodes| then nodes[i] else null
  }

  ghost function EntriesOf<K, V>(nodes: seq<Node<K, V>>): (es: seq<Entry<K, V>>)
    ensures |es| == |nodes| && forall i :: 0 <= i < |nodes| ==> es[i] == Entry(nodes[i].key, nodes[i].value)
  {
    seq(|nodes|, i requires 0 <= i < |nodes| => Entry(nodes[i].key, nodes[i].value))
  }

  ghost predicate NoRepeat<A>(s: seq<A>) { forall i, j :: 0 <= i < j < |s| ==> s[i] != s[j] }

  /** The map holds exactly the listed nodes, each under its own key. */
  ghost predicate MapsTo<K, V>(inner: map<K, Node<K, V>>, nodes: seq<Node<K, V>>) {
    if nodes == [] then inner == map[]
    else
      var n := nodes[0];
      n.key in inner && inner[n.key] == n && MapsTo(inner - {n.key}, nodes[1..])
  }

  /** The same, key by key and node by node. */
  ghost predicate MapFacts<K, V>(inner: map<K, Node<K, V>>, nodes: seq<Node<K, V>>) {
    && (forall k :: k in inner ==> inner[k] in nodes && inner[k].key == k)
    && (forall n :: n in nodes ==> n.key in inner && inner[n.key] == n)
    && NoRepeat(nodes) && |inner| == |nodes|
  }

  ghost function Rest<A>(s: seq<A>, i: nat): seq<A>
    requires i < |s|
  {
    s[..i] + s[i + 1..]
  }

  lemma RestPlaces<K, V>(s: seq<Node<K, V>>, i: nat)
    requires i < |s|
    ensures |Rest(s, i)| == |s| - 1 && forall j :: 0 <= j < |s| - 1 ==> Rest(s, i)[j] == s[if j < i then j else j + 1]
  {
  }

  lemma NodesRest<K, V>(s: seq<Node<K, V>>, i: nat)
    requires i < |s| && NoRepeat(s)
    ensures NoRepeat(Rest(s, i)) && forall a :: a in Rest(s, i) <==> a in s && a != s[i]
  {
    var r := Rest(s, i);
    assert forall j :: 0 <= j < |r| ==> r[j] == s[if j < i then j else j + 1];
    forall a | a in s && a != s[i] ensures a in r {
      var j :| 0 <= j < |s| && s[j] == a;
      assert r[if j < i then j else j - 1] == a;
    }
  }

  lemma FactsRemove<K, V>(inner: map<K, Node<K, V>>, nodes: seq<Node<K, V>>, i: nat)
    requires MapFacts(inner, nodes) && i < |nodes|
    ensures MapFacts(inner - {nodes[i].key}, Rest(nodes, i)) && nodes[i] !in Rest(nodes, i)
  {
    assert nodes[i] in nodes;
    var k := nodes[i].key;
    assert inner == (inner - {k})[k := nodes[i]];
    NodesRest(nodes, i);
  }

  lemma FactsAdd<K, V>(inner: map<K, Node<K, V>>, nodes: seq<Node<K, V>>, node: Node<K, V>)
    requires MapFacts(inner, nodes) && node.key !in inner
    ensures node !in nodes && MapFacts(inner[node.key := node], [node] + nodes)
  {
    var s := [node] + nodes;
    assert forall i :: 1 <= i < |s| ==> s[i] == nodes[i - 1];
    assert s[0] == node;
  }

  lemma {:induction false} MapsToGives<K, V>(inner: map<K, Node<K, V>>, nodes: seq<Node<K, V>>)
    requires MapsTo(inner, nodes)
    ensures MapFacts(inner, nodes)
    decreases |nodes|
  {
    if nodes != [] {
      var n := nodes[0];
      MapsToGives(inner - {n.key}, nodes[1..]);
      FactsAdd(inner - {n.key}, nodes[1..], n);
      assert (inner - {n.key})[n.key := n] == inner && [n] + nodes[1..] == nodes;
    }
  }

  lemma {:induction false} FactsGive<K, V>(inner: map<K, Node<K, V>>, nodes: seq<Node<K, V>>)
    requires MapFacts(inner, nodes)
    ensures MapsTo(inner, nodes)
    decreases |nodes|
  {
    if nodes == [] {
      assert inner == map[];
    } else {
      assert nodes[0] in nodes && Rest(nodes, 0) == nodes[1..];
      FactsRemove(inner, nodes, 0);
      FactsGive(inner - {nodes[0].key}, nodes[1..]);
    }
  }

  lemma MapsToRemove<K, V>(inner: map<K, Node<K, V>>, nodes: seq<Node<K, V>>, i: nat)
    requires MapsTo(inner, nodes) && i < |nodes|
    ensures MapsTo(inner - {nodes[i].key}, Rest(nodes, i)) && nodes[i] !in Rest(nodes, i)
  {
    MapsToGives(inner, nodes);
    FactsRemove(inner, nodes, i);
    FactsGive(inner - {nodes[i].key}, Rest(nodes, i));
  }

  lemma MapsToAdd<K, V>(inner: map<K, Node<K, V>>, nodes: seq<Node<K, V>>, node: Node<K, V>)
    requires MapsTo(inner, nodes) && node.key !in inner
    ensures MapsTo(inner[node.key := node], [node] + nodes)
  {
    MapsToGives(inner, nodes);
    FactsAdd(inner, nodes, node);
    FactsGive(inner[node.key := node], [node] + nodes);
  }

  lemma MapsToSize<K, V>(inner: map<K, Node<K, V>>, nodes: seq<Node<K, V>>)
    requires MapsTo(inner, nodes)
    ensures |inner| == |nodes|
  {
    MapsToGives(inner, nodes);
  }

  /** A key of the map has its node in the list. */
  lemma Find<K, V>(inner: map<K, Node<K, V>>, nodes: seq<Node<K, V>>, key: K) returns (i: nat)
    requires MapsTo(inner, nodes) && key in inner
    ensures i < |nodes| && nodes[i] == inner[key] && nodes[i].key == key
  {
    MapsToGives(inner, nodes);
    i :| 0 <= i < |nodes| && nodes[i] == inner[key];
  }

  /** Moving a listed node to the front changes neither the nodes nor the map. */
  lemma MapsToFront<K, V>(inner: map<K, Node<K, V>>, nodes: seq<Node<K, V>>, i: nat)
    requires MapsTo(inner, nodes) && i < |nodes|
    ensures MapsTo(inner, [nodes[i]] + Rest(nodes, i)) && nodes[i] !in Rest(nodes, i)
  {
    var k := nodes[i].key;
    MapsToRemove(inner, nodes, i);
    MapsToAdd(inner - {k}, Rest(nodes, i), nodes[i]);
    MapsToGives(inner, nodes);
    assert nodes[i] in nodes;
    assert (inner - {k})[k := nodes[i]] == inner;
  }

  lemma EntriesFacts<K, V>(inner: map<K, Node<K, V>>, nodes: seq<Node<K, V>>)
    requires MapsTo(inner, nodes)
    ensures DistinctKeys(EntriesOf(nodes))
    ensures forall k :: k in inner <==> HasKey(EntriesOf(nodes), k)
  {
    MapsToGives(inner, nodes);
    var es := EntriesOf(nodes);
    forall i, j | 0 <= i < j < |nodes| ensures es[i].key != es[j].key {
      assert nodes[i] in nodes && nodes[j] in nodes;
    }
    forall k | HasKey(es, k) ensures k in inner {
      var i :| 0 <= i < |es| && es[i].key == k;
      assert nodes[i] in nodes;
    }
    forall k | k in inner ensures HasKey(es, k) {
      var i :| 0 <= i < |nodes| && nodes[i] == inner[k];
      assert es[i].key == k;
    }
  }

  lemma EntriesRest<K, V>(nodes: seq<Node<K, V>>, i: nat)
    requires i < |nodes|
    ensures EntriesOf(Rest(nodes, i)) == EntriesOf(nodes)[..i] + EntriesOf(nodes)[i + 1..]
  {
  }

  lemma EntriesWithout<K, V>(inner: map<K, Node<K, V>>, nodes: seq<Node<K, V>>, i: nat)
    requires MapsTo(inner, nodes) && i < |nodes|
    ensures EntriesOf(Rest(nodes, i)) == Without(EntriesOf(nodes), nodes[i].key)
    ensures Lookup(EntriesOf(nodes), nodes[i].key) == Some(nodes[i].value)
  {
    var es := EntriesOf(nodes);
    assert DistinctKeys(es) by { EntriesFacts(inner, nodes); }
    EntriesRest(nodes, i);
    WithoutAt(es, i);
    assert es[i] == Entry(nodes[i].key, nodes[i].value);
  }

  /** The nodes that stay when room is made. */
  ghost function Trim<A>(nodes: seq<A>, cap: nat): seq<A> {
    if nodes != [] && |nodes| >= cap then nodes[..|nodes| - 1] else nodes
  }

  lemma EntriesInsert<K, V>(nodes: seq<Node<K, V>>, node: Node<K, V>, cap: nat)
    requires cap >= 1 && |nodes| <= cap
    ensures EntriesOf([node] + Trim(nodes, cap)) == [Entry(node.key, node.value)] + Take(EntriesOf(nodes), cap - 1)
    ensures |[node] + Trim(nodes, cap)| <= cap
  {
    assert EntriesOf(Trim(nodes, cap)) == Take(EntriesOf(nodes), cap - 1);
  }

  lemma EntriesFront<K, V>(node: Node<K, V>, rest: seq<Node<K, V>>)
    ensures EntriesOf([node] + rest) == [Entry(node.key, node.value)] + EntriesOf(rest)
  {
  }

  lemma PutHit<K, V>(inner: map<K, Node<K, V>>, nodes: seq<Node<K, V>>, i: nat, node: Node<K, V>, cap: nat)
    requires MapsTo(inner, nodes) && i < |nodes| <= cap && nodes[i].key == node.key
    ensures EntriesOf([node] + Trim(Rest(nodes, i), cap)) == Put(EntriesOf(nodes), cap, node.key, node.value)
    ensures |[node] + Trim(Rest(nodes, i), cap)| <= cap && Lookup(EntriesOf(nodes), node.key) == Some(nodes[i].value)
  {
    EntriesWithout(inner, nodes, i);
    EntriesInsert(Rest(nodes, i), node, cap);
  }

  lemma PutMiss<K, V>(inner: map<K, Node<K, V>>, nodes: seq<Node<K, V>>, node: Node<K, V>, cap: nat)
    requires MapsTo(inner, nodes) && 1 <= cap && |nodes| <= cap && node.key !in inner
    ensures EntriesOf([node] + Trim(nodes, cap)) == Put(EntriesOf(nodes), cap, node.key, node.value)
    ensures |[node] + Trim(nodes, cap)| <= cap
  {
    Absent(inner, nodes, node.key);
    EntriesInsert(nodes, node, cap);
  }

  lemma Absent<K, V>(inner: map<K, Node<K, V>>, nodes: seq<Node<K, V>>, key: K)
    requires MapsTo(inner, nodes) && key !in inner
    ensures Without(EntriesOf(nodes), key) == EntriesOf(nodes) && Lookup(EntriesOf(nodes), key).None?
  {
    EntriesFacts(inner, nodes);
    WithoutAbsent(EntriesOf(nodes), key);
  }

  lemma GetHit<K, V>(inner: map<K, Node<K, V>>, nodes: seq<Node<K, V>>, i: nat)
    requires MapsTo(inner, nodes) && i < |nodes|
    ensures EntriesOf([nodes[i]] + Rest(nodes, i)) == Get(EntriesOf(nodes), nodes[i].key)
    ensures Lookup(EntriesOf(nodes), nodes[i].key) == Some(nodes[i].value)
  {
    EntriesWithout(inner, nodes, i);
    EntriesFront(nodes[i], Rest(nodes, i));
  }

  class LruCache<K(==), V> {
    var head: Node?<K, V>
    var tail: Node?<K, V>
    var inner: map<K, Node<K, V>>
    const cap: nat
    /** The nodes from head to tail. */
    ghost var nodes: seq<Node<K, V>>
    /** All nodes the cache has linked so far. */
    ghost var repr: set<Node<K, V>>

    /** Head to tail through `next`, tail to head through `prev`, no node twice. */
    ghost predicate Linked()
      reads this, repr
    {
      Chained(nodes)
    }

    ghost predicate Valid()
      reads this, repr
    {
      cap >= 1 && Linked() && MapsTo(inner, nodes) && |nodes| <= cap
    }

    ghost function Entries(): seq<Entry<K, V>>
      reads this
    {
      EntriesOf(nodes)
    }

    constructor (cap: nat)
      requires cap >= 1
      ensures Valid() && nodes == [] && repr == {} && this.cap == cap
    {
      this.head, this.tail, this.inner, this.cap, this.nodes, this.repr := null, null, map[], cap, [], {};
    }

    /** The list's links pass over the node at `i`. */
    ghost predicate Bypassed(i: nat)
      reads this, repr
    {
      && i < |nodes| && (forall n :: n in nodes ==> n in repr) && NoRepeat(nodes)
      && head == At(nodes, if i == 0 then 1 else 0) && tail == At(nodes, if i == |nodes| - 1 then i - 1 else |nodes| - 1)
      && (forall j {:trigger nodes[j].prev} :: 0 <= j < |nodes| && j != i ==> nodes[j].prev == At(nodes, if j == i + 1 then i - 1 else j - 1))
      && (forall j {:trigger nodes[j].next} :: 0 <= j < |nodes| && j != i ==> nodes[j].next == At(nodes, if j + 1 == i then i + 1 else j + 1))
    }

    method Unhook(node: Node<K, V>, ghost i: nat)
      requires Linked() && i < |nodes| && nodes[i] == node
      modifies this, repr
      ensures Bypassed(i) && nodes == old(nodes) && inner == old(inner) && repr == old(repr)
      ensures node.prev == null && node.next == null
    {
      if node.prev != null {
        node.prev.next := node.next;
      } else {
        head := node.next;
      }
      if node.next != null {
        node.next.prev := node.prev;
      } else {
        tail := node.prev;
      }
      node.prev := null;
      node.next := null;
    }

    /** Unlinks a node from its place in the list. */
    method Detach(node: Node<K, V>, ghost i: nat)
      requires Linked() && i < |nodes| && nodes[i] == node
      modifies this, repr
      ensures Linked() && nodes == old(Rest(nodes, i)) && inner == old(inner)
      ensures node.prev == null && node.next == null
      ensures repr == old(repr)
    {
      Unhook(node, i);
      BypassedRest(i);
      nodes := Rest(nodes, i);
    }

    /** `ns` is linked in both directions. */
    ghost predicate Chained(ns: seq<Node<K, V>>)
      reads this, repr
    {
      && (forall n :: n in ns ==> n in repr) && NoRepeat(ns)
      && (if ns == [] then head == null && tail == null else head == ns[0] && tail == ns[|ns| - 1])
      && (forall i {:trigger ns[i].prev} :: 0 <= i < |ns| ==> ns[i].prev == At(ns, i - 1))
      && (forall i {:trigger ns[i].next} :: 0 <= i < |ns| ==> ns[i].next == At(ns, i + 1))
    }

    lemma BypassedRest(i: nat)
      requires Bypassed(i)
      ensures Chained(Rest(nodes, i))
    {
      RestPlaces(nodes, i);
      BypassedChain(i, Rest(nodes, i));
    }

    lemma BypassedChain(i: nat, r: seq<Node<K, V>>)
      requires Bypassed(i) && |r| == |nodes| - 1 && forall j :: 0 <= j < |r| ==> r[j] == nodes[if j < i then j else j + 1]
      ensures Chained(r)
    {
      forall j {:trigger r[j].prev} | 0 <= j < |r| ensures r[j].prev == At(r, j - 1) {
        assert r[j] == nodes[if j < i then j else j + 1];
      }
      forall j {:trigger r[j].next} | 0 <= j < |r| ensures r[j].next == At(r, j + 1) {
        assert r[j] == nodes[if j < i then j else j + 1];
      }
    }

    /** Links a node in at the head. */
    method Attach(node: Node<K, V>)
      requires Linked() && node !in nodes
      modifies this, repr, node
      ensures Linked() && nodes == [node] + old(nodes) && inner == old(inner) && repr == old(repr) + {node}
    {
      if head != null {
        head.prev := node;
        node.next := head;
        node.prev := null;
        head := node;
      } else {
        node.prev := null;
        node.next := null;
        head := node;
        tail := node;
      }
      nodes := [node] + nodes;
      repr := repr + {node};
    }

    /** Takes a node out of the list and out of the map. */
    method Drop(node: Node<K, V>, ghost i: nat)
      requires Linked() && MapsTo(inner, nodes) && i < |nodes| && nodes[i] == node
      modifies this, repr
      ensures Linked() && MapsTo(inner, nodes) && inner == old(inner) - {node.key} && nodes == Rest(old(nodes), i)
      ensures repr == old(repr)
    {
      ghost var m, ns := inner, nodes;
      Detach(node, i);
      inner := inner - {node.key};
      assert MapsTo(inner, nodes) by { MapsToRemove(m, ns, i); }
    }

    /** Drops the last node when the cache is full. */
    method Expulsion()
      requires Linked() && MapsTo(inner, nodes)
      modifies this, repr
      ensures Linked() && MapsTo(inner, nodes) && nodes == Trim(old(nodes), cap) && inner.Keys <= old(inner.Keys)
      ensures repr == old(repr)
    {
      MapsToSize(inner, nodes);
      if tail != null {
        if |inner| >= cap {
          ghost var ns := nodes;
          Drop(tail, |nodes| - 1);
          assert nodes == Trim(ns, cap);
        }
      }
    }

    /** Puts a new node in front, in the list and in the map, after making room. */
    method Insert(node: Node<K, V>)
      requires Linked() && MapsTo(inner, nodes) && node.key !in inner && node !in nodes
      modifies this, repr, node
      ensures Linked() && MapsTo(inner, nodes) && nodes == [node] + Trim(old(nodes), cap)
      ensures repr == old(repr) + {node}
    {
      Expulsion();
      ghost var m, ns := inner, nodes;
      Attach(node);
      inner := inner[node.key := node];
      assert MapsTo(inner, nodes) by { MapsToAdd(m, ns, node); }
    }

    method PutEntry(key: K, value: V) returns (replaced: Option<V>)
      requires Valid()
      modifies this, repr
      ensures Valid() && Entries() == Put(old(Entries()), cap, key, value)
      ensures replaced == Lookup(old(Entries()), key)
      ensures fresh(repr - old(repr))
    {
      var node := new Node(key, value);
      ghost var ns, m := nodes, inner;
      if key in inner {
        var found := inner[key];
        ghost var i := Find(m, ns, key);
        Drop(found, i);
        PutHit(m, ns, i, node, cap);
        replaced := Some(found.value);
      } else {
        PutMiss(m, ns, node, cap);
        Absent(m, ns, key);
        replaced := None;
      }
      Insert(node);
    }

    /** Moves a node to the head. */
    method Promote(node: Node<K, V>, ghost i: nat)
      requires Valid() && i < |nodes| && nodes[i] == node
      modifies this, repr
      ensures Valid() && nodes == [node] + old(Rest(nodes, i)) && inner == old(inner)
      ensures repr == old(repr)
    {
      ghost var front := [node] + Rest(nodes, i);
      MapsToFront(inner, nodes, i);
      MapsToRemove(inner, nodes, i);
      Detach(node, i);
      Attach(node);
      assert MapsTo(inner, front);
    }

    method GetEntry(key: K) returns (value: Option<V>)
      requires Valid()
      modifies this, repr
      ensures Valid() && Entries() == Get(old(Entries()), key)
      ensures value == Lookup(old(Entries()), key)
      ensures repr == old(repr)
    {
      if key in inner {
        var node := inner[key];
        ghost var i := Find(inner, nodes, key);
        GetHit(inner, nodes, i);
        Promote(node, i);
        value := Some(node.value);
      } else {
        Absent(inner, nodes, key);
        value := None;
      }
    }

    method RemoveEntry(key: K) returns (value: Option<V>)
      requires Valid()
      modifies this, repr
      ensures Valid() && Entries() == Without(old(Entries()), key)
      ensures value == Lookup(old(Entries()), key)
      ensures repr == old(repr)
    {
      ghost var ns, m := nodes, inner;
      if key in inner {
        var node := inner[key];
        ghost var i := Find(inner, nodes, key);
        Drop(node, i);
        EntriesWithout(m, ns, i);
        value := Some(node.value);
      } else {
        Absent(m, ns, key);
        value := None;
      }
    }

    /** `make` is the caller's function applied to the key, None when it fails. */
    method GetOrInsert(key: K, make: K -> Option<V>) returns (value: Option<V>)
      requires Valid()
      modifies this, repr
      ensures Valid() && Entries() == Apply(old(Entries()), cap, GetOrInsertOp(key, make(key)))
      ensures value == if Lookup(old(Entries()), key).Some? then Lookup(old(Entries()), key) else make(key)
      ensures fresh(repr - old(repr))
    {
      ghost var ns, m := nodes, inner;
      if key in inner {
        assert Lookup(EntriesOf(ns), key).Some? by {
          var i := Find(m, ns, key);
          GetHit(m, ns, i);
        }
        value := GetEntry(key);
      } else {
        assert Lookup(EntriesOf(ns), key).None? by { Absent(m, ns, key); }
        value := make(key);
        if value.Some? {
          InsertNew(key, value.value);
        }
      }
    }

    method InsertNew(key: K, value: V)
      requires Valid() && key !in inner
      modifies this, repr
      ensures Valid() && Entries() == Put(old(Entries()), cap, key, value)
      ensures fresh(repr - old(repr))
    {
      ghost var ns, m := nodes, inner;
      var node := new Node(key, value);
      Insert(node);
      assert Entries() == Put(EntriesOf(ns), cap, key, value) && |nodes| <= cap by { PutMiss(m, ns, node, cap); }
    }
  }
}
