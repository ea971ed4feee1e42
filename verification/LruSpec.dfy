/** A recency-ordered list of entries: what the linked list and the hash map of the cache implement. */
module LruSpec {
  import opened Common

  datatype Entry<K, V> = Entry(key: K, value: V)

  predicate DistinctKeys<K(==), V>(es: seq<Entry<K, V>>) {
    forall i, j :: 0 <= i < j < |es| ==> es[i].key != es[j].key
  }

  predicate HasKey<K(==), V>(es: seq<Entry<K, V>>, k: K) {
    exists i :: 0 <= i < |es| && es[i].key == k
  }

  function Lookup<K(==), V>(es: seq<Entry<K, V>>, k: K): Option<V> {
    if es == [] then None else if es[0].key == k then Some(es[0].value) else Lookup(es[1..], k)
  }

  function Without<K(==), V>(es: seq<Entry<K, V>>, k: K): seq<Entry<K, V>> {
    if es == [] then [] else if es[0].key == k then es[1..] else [es[0]] + Without(es[1..], k)
  }

  /** The newest entry first; a new key that meets a full cache costs the last entry. */
  function Put<K(==), V>(es: seq<Entry<K, V>>, cap: nat, k: K, v: V): seq<Entry<K, V>>
    requires cap >= 1
  {
    [Entry(k, v)] + Take(Without(es, k), cap - 1)
  }

  /** A hit moves its entry to the front; a miss changes nothing. */
  function Get<K(==), V>(es: seq<Entry<K, V>>, k: K): seq<Entry<K, V>> {
    match Lookup(es, k)
    case None => es
    case Some(v) => [Entry(k, v)] + Without(es, k)
  }

  // ---------------------------------------------------------------- positions

  /** The list without its entry at `p`. */
  ghost predicate Shifted<K, V>(w: seq<Entry<K, V>>, es: seq<Entry<K, V>>, p: nat) {
    p < |es| && |w| == |es| - 1 && forall j :: 0 <= j < |w| ==> w[j] == es[if j < p then j else j + 1]
  }

  lemma ShiftedBehind<K, V>(w: seq<Entry<K, V>>, es: seq<Entry<K, V>>, p: nat)
    requires es != [] && Shifted(w, es[1..], p)
    ensures Shifted([es[0]] + w, es, p + 1)
  {
  }

  lemma {:induction false} FirstShifted<K, V>(es: seq<Entry<K, V>>, k: K, p: nat)
    requires p < |es| && es[p].key == k && forall i :: 0 <= i < p ==> es[i].key != k
    ensures Shifted(Without(es, k), es, p) && Lookup(es, k) == Some(es[p].value)
    decreases p
  {
    if p > 0 {
      var tail := es[1..];
      assert forall i :: 0 <= i < p ==> tail[i] == es[i + 1];
      FirstShifted(tail, k, p - 1);
      ShiftedBehind(Without(tail, k), es, p - 1);
    }
  }

  lemma WithoutShifted<K, V>(es: seq<Entry<K, V>>, k: K) returns (p: nat)
    requires DistinctKeys(es) && HasKey(es, k)
    ensures Shifted(Without(es, k), es, p) && es[p].key == k
  {
    p :| 0 <= p < |es| && es[p].key == k;
    FirstShifted(es, k, p);
  }

  lemma ShiftedIs<K, V>(w: seq<Entry<K, V>>, es: seq<Entry<K, V>>, p: nat)
    requires Shifted(w, es, p)
    ensures w == es[..p] + es[p + 1..]
  {
  }

  lemma WithoutAt<K, V>(es: seq<Entry<K, V>>, i: nat)
    requires i < |es| && DistinctKeys(es)
    ensures Without(es, es[i].key) == es[..i] + es[i + 1..]
    ensures Lookup(es, es[i].key) == Some(es[i].value)
  {
    FirstShifted(es, es[i].key, i);
    ShiftedIs(Without(es, es[i].key), es, i);
  }

  lemma {:induction false} WithoutAbsent<K, V>(es: seq<Entry<K, V>>, k: K)
    requires !HasKey(es, k)
    ensures Without(es, k) == es && Lookup(es, k).None?
  {
    if es != [] {
      assert es[0].key != k;
      assert forall i :: 0 <= i < |es| - 1 ==> es[1..][i] == es[i + 1];
      WithoutAbsent(es[1..], k);
    }
  }

  lemma TakeAll<A>(s: seq<A>, n: nat)
    requires |s| <= n
    ensures Take(s, n) == s
  {
  }

  /** Putting a key that is present, and a new key into a cache with room, evicts nothing; a new key
      into a full cache evicts the last entry and only that. */
  lemma PutEvictsOnlyLast<K, V>(es: seq<Entry<K, V>>, cap: nat, k: K, v: V)
    requires cap >= 1 && DistinctKeys(es) && |es| <= cap
    ensures HasKey(es, k) ==> Put(es, cap, k, v) == [Entry(k, v)] + Without(es, k)
    ensures !HasKey(es, k) && |es| < cap ==> Put(es, cap, k, v) == [Entry(k, v)] + es
    ensures !HasKey(es, k) && |es| == cap ==> Put(es, cap, k, v) == [Entry(k, v)] + es[..|es| - 1]
  {
    if HasKey(es, k) {
      var i :| 0 <= i < |es| && es[i].key == k;
      WithoutAt(es, i);
      TakeAll(Without(es, k), cap - 1);
    } else {
      WithoutAbsent(es, k);
      if |es| < cap { TakeAll(es, cap - 1); }
    }
  }

  // ---------------------------------------------------------------- whole runs

  datatype Op<K, V> = PutOp(k: K, v: V) | GetOp(k: K) | RemoveOp(k: K) | GetOrInsertOp(k: K, made: Option<V>)

  /** One operation; `made` is what the caller's function returned, None for an error. */
  function Apply<K(==), V>(es: seq<Entry<K, V>>, cap: nat, op: Op<K, V>): seq<Entry<K, V>>
    requires cap >= 1
  {
    match op
    case PutOp(k, v) => Put(es, cap, k, v)
    case GetOp(k) => Get(es, k)
    case RemoveOp(k) => Without(es, k)
    case GetOrInsertOp(k, made) =>
      if Lookup(es, k).Some? then Get(es, k)
      else if made.Some? then Put(es, cap, k, made.value)
      else es
  }

  function Run<K(==), V>(cap: nat, ops: seq<Op<K, V>>): seq<Entry<K, V>>
    requires cap >= 1
  {
    if ops == [] then [] else Apply(Run(cap, ops[..|ops| - 1]), cap, ops[|ops| - 1])
  }

  lemma ShiftedKeeps<K, V>(w: seq<Entry<K, V>>, es: seq<Entry<K, V>>, p: nat)
    requires DistinctKeys(es) && Shifted(w, es, p)
    ensures DistinctKeys(w) && !HasKey(w, es[p].key)
  {
  }

  lemma WithoutKeeps<K, V>(es: seq<Entry<K, V>>, k: K)
    requires DistinctKeys(es)
    ensures DistinctKeys(Without(es, k)) && !HasKey(Without(es, k), k)
    ensures |Without(es, k)| == if HasKey(es, k) then |es| - 1 else |es|
  {
    if HasKey(es, k) {
      var p := WithoutShifted(es, k);
      ShiftedKeeps(Without(es, k), es, p);
    } else {
      WithoutAbsent(es, k);
    }
  }

  lemma {:induction false} LookupFinds<K, V>(es: seq<Entry<K, V>>, k: K)
    ensures Lookup(es, k).Some? <==> HasKey(es, k)
  {
    if es != [] {
      LookupFinds(es[1..], k);
      if HasKey(es[1..], k) {
        var i :| 0 <= i < |es| - 1 && es[1..][i].key == k;
        assert es[i + 1].key == k;
      }
      if HasKey(es, k) && es[0].key != k {
        var i :| 0 <= i < |es| && es[i].key == k;
        assert es[1..][i - 1].key == k;
      }
    }
  }

  lemma FrontKeeps<K, V>(es: seq<Entry<K, V>>, e: Entry<K, V>, n: nat)
    requires DistinctKeys(es)
    ensures DistinctKeys([e] + Take(Without(es, e.key), n))
  {
    var w := Without(es, e.key);
    WithoutKeeps(es, e.key);
    var s := [e] + Take(w, n);
    forall i, j | 0 <= i < j < |s| ensures s[i].key != s[j].key {
      assert s[j] == w[j - 1];
      if i > 0 { assert s[i] == w[i - 1]; }
    }
  }

  lemma ApplyValid<K, V>(es: seq<Entry<K, V>>, cap: nat, op: Op<K, V>)
    requires cap >= 1 && DistinctKeys(es) && |es| <= cap
    ensures DistinctKeys(Apply(es, cap, op)) && |Apply(es, cap, op)| <= cap
  {
    var w := Without(es, op.k);
    WithoutKeeps(es, op.k);
    LookupFinds(es, op.k);
    TakeAll(w, |w|);
    match op
    case PutOp(k, v) => FrontKeeps(es, Entry(k, v), cap - 1);
    case GetOp(k) => if Lookup(es, k).Some? { FrontKeeps(es, Entry(k, Lookup(es, k).value), |w|); }
    case RemoveOp(k) =>
    case GetOrInsertOp(k, made) =>
      if Lookup(es, k).Some? {
        FrontKeeps(es, Entry(k, Lookup(es, k).value), |w|);
      } else if made.Some? {
        FrontKeeps(es, Entry(k, made.value), cap - 1);
      }
  }

  /** After any run there are no duplicate keys and never more entries than the capacity. */
  lemma {:induction false} RunKeeps<K, V>(cap: nat, ops: seq<Op<K, V>>)
    requires cap >= 1
    ensures DistinctKeys(Run(cap, ops)) && |Run(cap, ops)| <= cap
    decreases |ops|
  {
    if ops != [] {
      RunKeeps(cap, ops[..|ops| - 1]);
      ApplyValid(Run(cap, ops[..|ops| - 1]), cap, ops[|ops| - 1]);
    }
  }

  // ---------------------------------------------------------------- least recently used

  function KeysOf<K, V>(es: seq<Entry<K, V>>): (ks: seq<K>)
    ensures |ks| == |es| && forall i :: 0 <= i < |es| ==> ks[i] == es[i].key
  {
    seq(|es|, i requires 0 <= i < |es| => es[i].key)
  }

  function WithoutK<K(==)>(ks: seq<K>, k: K): seq<K> {
    if ks == [] then [] else if ks[0] == k then ks[1..] else [ks[0]] + WithoutK(ks[1..], k)
  }

  /** Every key ever used, the most recently used first. */
  function Stack<K(==)>(used: seq<K>): seq<K> {
    if used == [] then [] else [used[|used| - 1]] + WithoutK(Stack(used[..|used| - 1]), used[|used| - 1])
  }

  predicate Inserting<K, V>(ops: seq<Op<K, V>>) {
    forall i :: 0 <= i < |ops| ==> ops[i].PutOp? || (ops[i].GetOrInsertOp? && ops[i].made.Some?)
  }

  function Used<K, V>(ops: seq<Op<K, V>>): seq<K> {
    seq(|ops|, i requires 0 <= i < |ops| => ops[i].k)
  }

  lemma {:induction false} KeysWithout<K, V>(es: seq<Entry<K, V>>, k: K)
    ensures KeysOf(Without(es, k)) == WithoutK(KeysOf(es), k)
  {
    if es != [] {
      assert KeysOf(es)[1..] == KeysOf(es[1..]);
      KeysWithout(es[1..], k);
    }
  }

  /** Dropping a key from a prefix, then cutting it shorter by one, is cutting after dropping. */
  lemma {:induction false} TakeWithout<K>(s: seq<K>, k: K, n: nat)
    ensures Take(WithoutK(Take(s, n + 1), k), n) == Take(WithoutK(s, k), n)
    decreases |s|
  {
    if s != [] && s[0] != k && n > 0 {
      TakeWithout(s[1..], k, n - 1);
      assert Take(s, n + 1) == [s[0]] + Take(s[1..], n);
      assert Take(s, n + 1)[1..] == Take(s[1..], n);
      var a, b := WithoutK(Take(s[1..], n), k), WithoutK(s[1..], k);
      assert Take([s[0]] + a, n) == [s[0]] + Take(a, n - 1);
      assert Take([s[0]] + b, n) == [s[0]] + Take(b, n - 1);
    }
  }

  /** An insertion puts its key in front and keeps the first others. */
  lemma InsertKeys<K, V>(es: seq<Entry<K, V>>, cap: nat, op: Op<K, V>)
    requires cap >= 1 && DistinctKeys(es) && |es| <= cap && (op.PutOp? || (op.GetOrInsertOp? && op.made.Some?))
    ensures KeysOf(Apply(es, cap, op)) == [op.k] + Take(WithoutK(KeysOf(es), op.k), cap - 1)
  {
    var w := Without(es, op.k);
    KeysWithout(es, op.k);
    assert KeysOf(Take(w, cap - 1)) == Take(KeysOf(w), cap - 1);
    if op.GetOrInsertOp? && Lookup(es, op.k).Some? {
      LookupFinds(es, op.k);
      WithoutKeeps(es, op.k);
      TakeAll(w, cap - 1);
    }
  }

  lemma InsertOnStack<K, V>(es: seq<Entry<K, V>>, cap: nat, op: Op<K, V>, stack: seq<K>)
    requires cap >= 1 && DistinctKeys(es) && |es| <= cap && (op.PutOp? || (op.GetOrInsertOp? && op.made.Some?))
    requires KeysOf(es) == Take(stack, cap)
    ensures KeysOf(Apply(es, cap, op)) == Take([op.k] + WithoutK(stack, op.k), cap)
  {
    InsertKeys(es, cap, op);
    TakeWithout(stack, op.k, cap - 1);
    FrontTake(op.k, WithoutK(stack, op.k), cap);
  }

  lemma FrontTake<A>(a: A, s: seq<A>, n: nat)
    requires n >= 1
    ensures Take([a] + s, n) == [a] + Take(s, n - 1)
  {
  }

  /** On runs of insertions the cache holds exactly the `cap` most recently used keys, in order of
      last use: what was evicted is always the least recently used. */
  lemma {:induction false} HoldsMostRecent<K, V>(cap: nat, ops: seq<Op<K, V>>)
    requires cap >= 1 && Inserting(ops)
    ensures KeysOf(Run(cap, ops)) == Take(Stack(Used(ops)), cap)
    decreases |ops|
  {
    if ops != [] {
      var before, op := ops[..|ops| - 1], ops[|ops| - 1];
      HoldsMostRecent(cap, before);
      RunKeeps(cap, before);
      InsertOnStack(Run(cap, before), cap, op, Stack(Used(before)));
      assert Used(ops)[..|ops| - 1] == Used(before) && Used(ops)[|ops| - 1] == op.k;
      assert Stack(Used(ops)) == [op.k] + WithoutK(Stack(Used(before)), op.k);
      assert Run(cap, ops) == Apply(Run(cap, before), cap, op);
    }
  }

  // ---------------------------------------------------------------- recency order of every run

  /** The place of the last operation on a key; -1 without one. */
  function LastUse<K(==), V>(ops: seq<Op<K, V>>, k: K): (n: int)
    ensures -1 <= n < |ops|
  {
    if ops == [] then -1
    else if ops[|ops| - 1].k == k then |ops| - 1
    else LastUse(ops[..|ops| - 1], k)
  }

  /** From the front to the back, each key ranks above the next. */
  ghost predicate Ranked<K, V>(es: seq<Entry<K, V>>, rank: K -> int) {
    forall i, j :: 0 <= i < j < |es| ==> rank(es[i].key) > rank(es[j].key)
  }

  function UseRank<K(==), V>(ops: seq<Op<K, V>>): K -> int { k => LastUse(ops, k) }

  /** From the front to the back, each key was used later than the next. */
  ghost predicate ByRecency<K, V>(es: seq<Entry<K, V>>, ops: seq<Op<K, V>>) { Ranked(es, UseRank(ops)) }

  lemma ShiftedRanked<K, V>(w: seq<Entry<K, V>>, es: seq<Entry<K, V>>, p: nat, rank: K -> int)
    requires Ranked(es, rank) && Shifted(w, es, p)
    ensures Ranked(w, rank)
  {
  }

  lemma WithoutByRecency<K, V>(es: seq<Entry<K, V>>, k: K, ops: seq<Op<K, V>>)
    requires DistinctKeys(es) && ByRecency(es, ops)
    ensures ByRecency(Without(es, k), ops)
  {
    if HasKey(es, k) {
      var p := WithoutShifted(es, k);
      ShiftedRanked(Without(es, k), es, p, UseRank(ops));
    } else {
      WithoutAbsent(es, k);
    }
  }

  /** One more operation leaves the order of the other keys. */
  lemma LaterByRecency<K, V>(es: seq<Entry<K, V>>, ops: seq<Op<K, V>>)
    requires ops != [] && ByRecency(es, ops[..|ops| - 1]) && !HasKey(es, ops[|ops| - 1].k)
    ensures ByRecency(es, ops)
  {
    var before := UseRank(ops[..|ops| - 1]);
    forall i, j | 0 <= i < j < |es| ensures UseRank(ops)(es[i].key) > UseRank(ops)(es[j].key) {
      assert es[i].key != ops[|ops| - 1].k && es[j].key != ops[|ops| - 1].k;
      assert before(es[i].key) > before(es[j].key);
    }
  }

  lemma FrontByRecency<K, V>(es: seq<Entry<K, V>>, e: Entry<K, V>, n: nat, ops: seq<Op<K, V>>)
    requires ops != [] && ops[|ops| - 1].k == e.key && ByRecency(es, ops) && !HasKey(es, e.key)
    ensures ByRecency([e] + Take(es, n), ops)
  {
    var s := [e] + Take(es, n);
    forall i, j | 0 <= i < j < |s| ensures UseRank(ops)(s[i].key) > UseRank(ops)(s[j].key) {
      assert s[j] == es[j - 1];
      if i > 0 {
        assert s[i] == es[i - 1];
      } else {
        assert es[j - 1].key != e.key;
      }
    }
  }

  lemma ApplyByRecency<K, V>(es: seq<Entry<K, V>>, cap: nat, ops: seq<Op<K, V>>)
    requires cap >= 1 && ops != [] && DistinctKeys(es) && ByRecency(es, ops[..|ops| - 1])
    ensures ByRecency(Apply(es, cap, ops[|ops| - 1]), ops)
  {
    var op := ops[|ops| - 1];
    var w := Without(es, op.k);
    WithoutByRecency(es, op.k, ops[..|ops| - 1]);
    WithoutKeeps(es, op.k);
    LaterByRecency(w, ops);
    LookupFinds(es, op.k);
    TakeAll(w, |w|);
    if Lookup(es, op.k).None? { WithoutAbsent(es, op.k); }
    match op
    case PutOp(k, v) => FrontByRecency(w, Entry(k, v), cap - 1, ops);
    case GetOp(k) => if Lookup(es, k).Some? { FrontByRecency(w, Entry(k, Lookup(es, k).value), |w|, ops); }
    case RemoveOp(k) =>
    case GetOrInsertOp(k, made) =>
      if Lookup(es, k).Some? {
        FrontByRecency(w, Entry(k, Lookup(es, k).value), |w|, ops);
      } else if made.Some? {
        FrontByRecency(w, Entry(k, made.value), cap - 1, ops);
      }
  }

  /** After any run of put, get, remove and get_or_insert, hits, misses and failing makers included, the
      entries stand in the order of last use: what is evicted next is the least recently used. */
  lemma {:induction false} RunByRecency<K, V>(cap: nat, ops: seq<Op<K, V>>)
    requires cap >= 1
    ensures ByRecency(Run(cap, ops), ops)
    decreases |ops|
  {
    if ops != [] {
      var before := ops[..|ops| - 1];
      RunByRecency(cap, before);
      RunKeeps(cap, before);
      ApplyByRecency(Run(cap, before), cap, ops);
    }
  }

  lemma ShiftedHas<K, V>(w: seq<Entry<K, V>>, es: seq<Entry<K, V>>, p: nat, d: K)
    requires Shifted(w, es, p) && HasKey(es, d) && d != es[p].key
    ensures HasKey(w, d)
  {
    var q :| 0 <= q < |es| && es[q].key == d;
    assert w[if q < p then q else q - 1].key == d;
  }

  lemma KeptWithout<K, V>(es: seq<Entry<K, V>>, k: K, d: K)
    requires DistinctKeys(es) && HasKey(es, d) && d != k
    ensures HasKey(Without(es, k), d)
  {
    if HasKey(es, k) {
      var p := WithoutShifted(es, k);
      ShiftedHas(Without(es, k), es, p, d);
    } else {
      WithoutAbsent(es, k);
    }
  }

  lemma KeptBehind<K, V>(es: seq<Entry<K, V>>, e: Entry<K, V>, d: K)
    requires HasKey(es, d)
    ensures HasKey([e] + es, d)
  {
    var q :| 0 <= q < |es| && es[q].key == d;
    assert ([e] + es)[q + 1].key == d;
  }

  lemma PutKeepsOrEvicts<K, V>(es: seq<Entry<K, V>>, cap: nat, k: K, v: V, d: K)
    requires cap >= 1 && DistinctKeys(es) && |es| <= cap && HasKey(es, d) && d != k
    ensures HasKey(Put(es, cap, k, v), d) || (|es| == cap && !HasKey(es, k) && es[cap - 1].key == d)
  {
    PutEvictsOnlyLast(es, cap, k, v);
    if HasKey(es, k) {
      KeptWithout(es, k, d);
      KeptBehind(Without(es, k), Entry(k, v), d);
    } else if |es| < cap {
      KeptBehind(es, Entry(k, v), d);
    } else if es[cap - 1].key != d {
      var q :| 0 <= q < |es| && es[q].key == d;
      assert es[..cap - 1][q].key == d;
      KeptBehind(es[..cap - 1], Entry(k, v), d);
    }
  }

  lemma ApplyKeepsOrEvicts<K, V>(es: seq<Entry<K, V>>, cap: nat, op: Op<K, V>, d: K)
    requires cap >= 1 && DistinctKeys(es) && |es| <= cap && HasKey(es, d) && d != op.k
    ensures HasKey(Apply(es, cap, op), d) || (|es| == cap && !HasKey(es, op.k) && es[cap - 1].key == d)
  {
    KeptWithout(es, op.k, d);
    if op.PutOp? {
      PutKeepsOrEvicts(es, cap, op.k, op.v, d);
    } else if Lookup(es, op.k).Some? {
      KeptBehind(Without(es, op.k), Entry(op.k, Lookup(es, op.k).value), d);
    } else if op.GetOrInsertOp? && op.made.Some? {
      PutKeepsOrEvicts(es, cap, op.k, op.made.value, d);
    }
  }

  /** Whatever the run before it, an operation makes no other key disappear but the least recently used one, and
      that only from a full cache for a key that is not there. */
  lemma EvictsLeastRecent<K, V>(cap: nat, ops: seq<Op<K, V>>, op: Op<K, V>, d: K)
    requires cap >= 1 && HasKey(Run(cap, ops), d) && !HasKey(Run(cap, ops + [op]), d) && d != op.k
    ensures var es := Run(cap, ops);
            && |es| == cap && !HasKey(es, op.k) && es[cap - 1].key == d
            && forall i :: 0 <= i < cap - 1 ==> LastUse(ops, es[i].key) > LastUse(ops, d)
  {
    RunAfter(cap, ops, op);
    RunKeeps(cap, ops);
    ApplyKeepsOrEvicts(Run(cap, ops), cap, op, d);
    RunByRecency(cap, ops);
    LastIsLeast(Run(cap, ops), ops);
  }

  lemma RunAfter<K, V>(cap: nat, ops: seq<Op<K, V>>, op: Op<K, V>)
    requires cap >= 1
    ensures Run(cap, ops + [op]) == Apply(Run(cap, ops), cap, op)
  {
    assert (ops + [op])[..|ops|] == ops;
  }

  lemma LastIsLeast<K, V>(es: seq<Entry<K, V>>, ops: seq<Op<K, V>>)
    requires es != [] && ByRecency(es, ops)
    ensures forall i :: 0 <= i < |es| - 1 ==> LastUse(ops, es[i].key) > LastUse(ops, es[|es| - 1].key)
  {
    var rank := UseRank(ops);
    forall i | 0 <= i < |es| - 1 ensures LastUse(ops, es[i].key) > LastUse(ops, es[|es| - 1].key) {
      assert rank(es[i].key) > rank(es[|es| - 1].key);
    }
  }
}
