/** The sharded cache: a key's shard, a cache object of its own, is chosen by its hash. */
module SharedLru {
  import opened Common
  import opened LruSpec
  import opened Lru

  datatype CreateError = SharedNotAlign | CacheSizeOverFlow

  /** The entries of all shards together. */
  ghost function Total<K, V>(shards: seq<LruCache<K, V>>): nat
    reads shards
  {
    if shards == [] then 0 else |shards[0].Entries()| + Total(shards[1..])
  }

  lemma {:induction false} TotalBound<K, V>(shards: seq<LruCache<K, V>>, cap: nat)
    requires forall i :: 0 <= i < |shards| ==> |shards[i].Entries()| <= cap
    ensures Total(shards) <= |shards| * cap
  {
    if shards != [] {
      TotalBound(shards[1..], cap);
    }
  }

  /** What an operation hands back to its caller. */
  function Answer<K(==), V>(es: seq<Entry<K, V>>, op: Op<K, V>): Option<V> {
    if op.GetOrInsertOp? && Lookup(es, op.k).None? then op.made else Lookup(es, op.k)
  }

  method MakeShards<K(==), V>(n: nat, cap: nat) returns (all: seq<LruCache<K, V>>)
    requires cap >= 1
    ensures |all| == n && fresh(all)
    ensures forall i :: 0 <= i < n ==> all[i].Valid() && all[i].cap == cap && all[i].nodes == [] && all[i].repr == {}
    ensures forall i, j :: 0 <= i < j < n ==> all[i] != all[j]
  {
    all := [];
    for k := 0 to n
      invariant |all| == k && fresh(all)
      invariant forall i :: 0 <= i < k ==> all[i].Valid() && all[i].cap == cap && all[i].nodes == [] && all[i].repr == {}
      invariant forall i, j :: 0 <= i < j < k ==> all[i] != all[j]
    {
      var shard := new LruCache(cap);
      all := all + [shard];
    }
  }

  class SharedLruCache<K(==), V> {
    const shards: seq<LruCache<K, V>>
    const shardCap: nat
    const hash: K -> nat

    /** The nodes of all shards. */
    ghost function Nodes(): set<Node<K, V>>
      reads shards
    {
      set i, n | 0 <= i < |shards| && n in shards[i].repr :: n
    }

    /** Every shard is a valid cache of its own nodes and holds only keys of its own. */
    ghost predicate Valid()
      reads shards, Nodes()
    {
      && shards != [] && shardCap >= 1
      && (forall i :: 0 <= i < |shards| ==> ShardOk(i))
      && (forall i, j :: 0 <= i < j < |shards| ==> shards[i] != shards[j] && shards[i].repr !! shards[j].repr)
    }

    ghost predicate ShardOk(i: nat)
      requires i < |shards|
      reads shards[i], shards[i].repr
    {
      shards[i].Valid() && shards[i].cap == shardCap && Owned(shards[i].Entries(), i)
    }

    ghost predicate Owned(es: seq<Entry<K, V>>, i: nat)
      requires shards != []
    {
      forall j :: 0 <= j < |es| ==> hash(es[j].key) % |shards| == i
    }

    constructor (size: nat, cap: nat, hash: K -> nat)
      requires size >= 1 && cap >= 1
      ensures Valid() && |shards| == size && shardCap == cap && Total(shards) == 0
      ensures fresh(shards) && Nodes() == {}
    {
      var all := MakeShards<K, V>(size, cap);
      this.shards, this.shardCap, this.hash := all, cap, hash;
      new;
      TotalBound(shards, 0);
    }

    function ShardOf(key: K): (i: nat)
      requires shards != []
      ensures i < |shards|
    {
      hash(key) % |shards|
    }

    /** One locked operation on the key's shard; the others are not touched, and the whole cache
        never exceeds its capacity. */
    method Operate(op: Op<K, V>) returns (answer: Option<V>)
      requires Valid()
      modifies shards[ShardOf(op.k)], shards[ShardOf(op.k)].repr
      ensures Valid() && Total(shards) <= |shards| * shardCap
      ensures var shard := shards[hash(op.k) % |shards|];
              answer == Answer(old(shard.Entries()), op) && shard.Entries() == Apply(old(shard.Entries()), shardCap, op)
      ensures forall j :: 0 <= j < |shards| && j != hash(op.k) % |shards| ==> shards[j].Entries() == old(shards[j].Entries())
      ensures forall j :: 0 <= j < |shards| && j != hash(op.k) % |shards| ==> shards[j].repr == old(shards[j].repr)
      ensures var shard := shards[hash(op.k) % |shards|]; fresh(shard.repr - old(shard.repr))
    {
      answer := OperateOwn(ShardOf(op.k), op);
      WithinCapacity();
    }

    method OperateOwn(i: nat, op: Op<K, V>) returns (answer: Option<V>)
      requires Valid() && i == ShardOf(op.k)
      modifies shards[i], shards[i].repr
      ensures Valid()
      ensures answer == Answer(old(shards[i].Entries()), op) && shards[i].Entries() == Apply(old(shards[i].Entries()), shardCap, op)
      ensures forall j :: 0 <= j < |shards| && j != i ==> shards[j].Entries() == old(shards[j].Entries()) && shards[j].repr == old(shards[j].repr)
      ensures fresh(shards[i].repr - old(shards[i].repr))
    {
      OperationOwned(i, op);
      answer := OperateShard(shards[i], op);
      forall j | 0 <= j < |shards| && j != i ensures ShardOk(j) {
        assert old(ShardOk(j));
      }
    }

    lemma OperationOwned(i: nat, op: Op<K, V>)
      requires Valid() && i == ShardOf(op.k)
      ensures ShardOk(i) && Owned(Apply(shards[i].Entries(), shardCap, op), i)
    {
      assert ShardOk(i);
      var es := shards[i].Entries();
      EntriesFacts(shards[i].inner, shards[i].nodes);
      ApplyKeeps(es, shardCap, op);
      var r := Apply(es, shardCap, op);
      forall j | 0 <= j < |r| ensures hash(r[j].key) % |shards| == i {
        if r[j].key != op.k {
          var p :| 0 <= p < |es| && es[p].key == r[j].key;
        }
      }
    }

    lemma WithinCapacity()
      requires Valid()
      ensures Total(shards) <= |shards| * shardCap
    {
      forall i | 0 <= i < |shards| ensures |shards[i].Entries()| <= shardCap {
        assert ShardOk(i);
      }
      TotalBound(shards, shardCap);
    }

    /** No other shard can hold the key. */
    lemma OnlyOwnShard(key: K, i: nat)
      requires Valid() && i < |shards| && HasKey(shards[i].Entries(), key)
      ensures i == ShardOf(key)
    {
      assert ShardOk(i);
    }
  }

  method OperateShard<K(==), V>(shard: LruCache<K, V>, op: Op<K, V>) returns (answer: Option<V>)
    requires shard.Valid()
    modifies shard, shard.repr
    ensures shard.Valid() && answer == Answer(old(shard.Entries()), op)
    ensures shard.Entries() == Apply(old(shard.Entries()), shard.cap, op)
    ensures fresh(shard.repr - old(shard.repr))
  {
    match op
    case PutOp(k, v) => answer := shard.PutEntry(k, v);
    case GetOp(k) => answer := shard.GetEntry(k);
    case RemoveOp(k) => answer := shard.RemoveEntry(k);
    case GetOrInsertOp(k, made) => answer := shard.GetOrInsert(k, _ => made);
  }

  /** SharedLruCache::new, with its two errors. A shard count of zero is a division by zero. */
  method Create<K(==), V>(cap: nat, shardSize: nat, hash: K -> nat) returns (error: Option<CreateError>, cache: SharedLruCache?<K, V>)
    requires shardSize != 0
    ensures cap % shardSize != 0 ==> error == Some(SharedNotAlign)
    ensures cap % shardSize == 0 && cap == 0 ==> error == Some(CacheSizeOverFlow)
    ensures error.None? <==> cache != null
    ensures cache != null ==> fresh(cache) && cache.Valid() && cache.shardCap * |cache.shards| == cap && Total(cache.shards) == 0
    ensures cache != null <==> cap % shardSize == 0 && cap > 0
  {
    if cap % shardSize != 0 {
      return Some(SharedNotAlign), null;
    }
    if cap / shardSize < 1 {
      return Some(CacheSizeOverFlow), null;
    }
    cache := new SharedLruCache(shardSize, cap / shardSize, hash);
    return None, cache;
  }

  /** An operation keeps a shard free of duplicates, within capacity, and brings in no key but its own. */
  lemma ApplyKeeps<K, V>(es: seq<Entry<K, V>>, cap: nat, op: Op<K, V>)
    requires cap >= 1 && DistinctKeys(es) && |es| <= cap
    ensures var r := Apply(es, cap, op);
            DistinctKeys(r) && |r| <= cap && forall j :: 0 <= j < |r| ==> r[j].key == op.k || HasKey(es, r[j].key)
  {
    ApplyValid(es, cap, op);
    ApplyKeys(es, cap, op);
  }

  lemma {:induction false} WithoutKeys<K, V>(es: seq<Entry<K, V>>, k: K)
    ensures forall j :: 0 <= j < |Without(es, k)| ==> Without(es, k)[j] in es
  {
    if es != [] {
      WithoutKeys(es[1..], k);
    }
  }

  lemma ApplyKeys<K, V>(es: seq<Entry<K, V>>, cap: nat, op: Op<K, V>)
    requires cap >= 1
    ensures var r := Apply(es, cap, op); forall j :: 0 <= j < |r| ==> r[j].key == op.k || HasKey(es, r[j].key)
  {
    var w := Without(es, op.k);
    WithoutKeys(es, op.k);
    forall j | 0 <= j < |w| ensures HasKey(es, w[j].key) {
      assert w[j] in es;
    }
    var r := Apply(es, cap, op);
    forall j | 0 <= j < |r| ensures r[j].key == op.k || HasKey(es, r[j].key) {
      if r == es { assert es[j].key == r[j].key; }
      else if op.RemoveOp? { assert r[j] == w[j]; }
      else if j > 0 { assert r[j] == w[j - 1]; }
    }
  }
}
