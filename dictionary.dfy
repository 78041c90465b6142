/**
 * The library's hash map: keys are byte strings hashed with djb2, items
 * live in per-bucket chains, and the bucket array doubles once the average
 * chain grows past the load factor.
 */
module Dictionary {
  import opened Wrappers
  import opened LibC

  /** A key is the k_size bytes starting at k. */
  type Key = seq<Byte>

  const InitialBuckets: nat := 16
  const MaximumBuckets: nat := 65536
  const LoadFactor: nat := 8

  /** hash_t is uint32_t. */
  const HashModulus: nat := 0x1_0000_0000

  /** djb2: start at 5381, then hash * 33 + byte for every byte, modulo 2^32. */
  function HashOf(k: Key): (h: nat)
    ensures h < HashModulus
  {
    if k == [] then 5381 else (HashOf(k[..|k| - 1]) * 33 + k[|k| - 1] as int) % HashModulus
  }

  /** Dictionary_hash: (hash << 5) + hash + byte in 32-bit unsigned arithmetic. */
  method Hash(k: Key) returns (h: nat)
    ensures h == HashOf(k)
  {
    h := 5381;
    var i := 0;
    while i < |k|
      invariant 0 <= i <= |k|
      invariant h == HashOf(k[..i])
    {
      assert k[..i + 1][..i] == k[..i];
      h := (h * 32 + h + k[i] as int) % HashModulus;
      i := i + 1;
    }
    assert k[..i] == k;
  }

  /** Dictionary_set's key for a C string: its bytes and the terminating NUL. */
  function StringKey(s: seq<Byte>): (k: Key)
    ensures |k| == |s| + 1 && k[|s|] == 0 && k[..|s|] == s
  {
    s + [0]
  }

  /** Two NUL-free strings make the same key only when they are equal. */
  lemma StringKeyInjective(s1: seq<Byte>, s2: seq<Byte>)
    requires 0 !in s1 && 0 !in s2
    ensures StringKey(s1) == StringKey(s2) ==> s1 == s2
  {
    if StringKey(s1) == StringKey(s2) {
      assert |s1| == |s2|;
      assert s1 == StringKey(s1)[..|s1|];
    }
  }

  /** The bucket a key belongs in when there are n buckets. */
  function BucketOf(k: Key, n: nat): (b: nat)
    requires n > 0
    ensures b < n
  {
    HashOf(k) % n
  }

  datatype Item<V> = Item(key: Key, value: V)

  /** The keys held by a chain. */
  ghost function KeysOf<V>(chain: seq<Item<V>>): set<Key> {
    set it | it in chain :: it.key
  }

  /** No chain holds the same key twice. */
  ghost predicate NoDuplicates<V>(t: seq<seq<Item<V>>>) {
    forall b, m1, m2 :: 0 <= b < |t| && 0 <= m1 < m2 < |t[b]| ==> t[b][m1].key != t[b][m2].key
  }

  /**
   * The table t holds exactly the keys in K, each in its own bucket, once,
   * with the value c gives it.
   */
  ghost predicate Holds<V>(t: seq<seq<Item<V>>>, c: map<Key, V>, K: set<Key>) {
    |t| > 0 &&
    (forall b, m :: 0 <= b < |t| && 0 <= m < |t[b]| ==>
      BucketOf(t[b][m].key, |t|) == b && t[b][m].key in K &&
      t[b][m].key in c && c[t[b][m].key] == t[b][m].value) &&
    NoDuplicates(t) &&
    (forall k :: k in K ==> k in KeysOf(t[BucketOf(k, |t|)]))
  }

  /** The table represents exactly the map c. */
  ghost predicate Represents<V>(t: seq<seq<Item<V>>>, c: map<Key, V>) {
    Holds(t, c, c.Keys)
  }

  /** In a table representing c, a key's bucket holds it exactly when c has it, with c's value. */
  lemma Lookup<V>(t: seq<seq<Item<V>>>, c: map<Key, V>, k: Key, m: nat)
    requires Represents(t, c)
    requires m <= |t[BucketOf(k, |t|)]|
    requires forall j :: 0 <= j < m ==> t[BucketOf(k, |t|)][j].key != k
    ensures m == |t[BucketOf(k, |t|)]| ==> k !in c
    ensures m < |t[BucketOf(k, |t|)]| && t[BucketOf(k, |t|)][m].key == k ==> k in c && c[k] == t[BucketOf(k, |t|)][m].value
  {
  }

  /** Overwriting the value of a key already present. */
  lemma ReplaceValue<V>(t: seq<seq<Item<V>>>, c: map<Key, V>, b: nat, m: nat, v: V)
    requires Represents(t, c) && b < |t| && m < |t[b]|
    ensures var k := t[b][m].key;
      Represents(t[b := t[b][m := Item(k, v)]], c[k := v])
  {
    var k := t[b][m].key;
    var t': seq<seq<Item<V>>> := t[b := t[b][m := Item(k, v)]];
    ReplacedKeys(t, b, m, v);
    ReplacedValues(t, c, b, m, v);
    forall k' | k' in c[k := v].Keys
      ensures k' in KeysOf(t'[BucketOf(k', |t'|)])
    {
      var b' := BucketOf(k', |t|);
      assert k' in KeysOf(t[b']);
      var it :| it in t[b'] && it.key == k';
      var j :| 0 <= j < |t[b']| && t[b'][j] == it;
      assert t'[b'][j].key == k';
    }
  }

  /** Overwriting a value leaves every key where it was. */
  lemma ReplacedKeys<V>(t: seq<seq<Item<V>>>, b: nat, m: nat, v: V)
    requires b < |t| && m < |t[b]|
    ensures var t': seq<seq<Item<V>>> := t[b := t[b][m := Item(t[b][m].key, v)]];
      |t'| == |t| &&
      forall b', j :: 0 <= b' < |t| && 0 <= j < |t[b']| ==> |t'[b']| == |t[b']| && t'[b'][j].key == t[b'][j].key
  {
    var t': seq<seq<Item<V>>> := t[b := t[b][m := Item(t[b][m].key, v)]];
    forall b', j | 0 <= b' < |t| && 0 <= j < |t[b']|
      ensures |t'[b']| == |t[b']| && t'[b'][j].key == t[b'][j].key
    {
      if b' != b {
        assert t'[b'] == t[b'];
      }
    }
  }

  /** After overwriting, every item holds the new map's value. */
  lemma ReplacedValues<V>(t: seq<seq<Item<V>>>, c: map<Key, V>, b: nat, m: nat, v: V)
    requires Represents(t, c) && b < |t| && m < |t[b]|
    ensures var k := t[b][m].key; var t': seq<seq<Item<V>>> := t[b := t[b][m := Item(k, v)]];
      forall b', j :: 0 <= b' < |t'| && 0 <= j < |t'[b']| ==> c[k := v][t'[b'][j].key] == t'[b'][j].value
  {
    var k := t[b][m].key;
    var t': seq<seq<Item<V>>> := t[b := t[b][m := Item(k, v)]];
    forall b', j | 0 <= b' < |t'| && 0 <= j < |t'[b']|
      ensures c[k := v][t'[b'][j].key] == t'[b'][j].value
    {
      if b' != b {
        assert t'[b'][j] == t[b'][j];
      } else if j != m {
        assert t'[b'][j] == t[b'][j];
        assert t[b][j].key != t[b][m].key;
      }
    }
  }

  /** Adding a key not present at the end of its bucket's chain. */
  lemma AppendNew<V>(t: seq<seq<Item<V>>>, c: map<Key, V>, k: Key, v: V)
    requires Represents(t, c) && k !in c
    ensures var b := BucketOf(k, |t|);
      Represents(t[b := t[b] + [Item(k, v)]], c[k := v])
  {
    var b := BucketOf(k, |t|);
    var t': seq<seq<Item<V>>> := t[b := t[b] + [Item(k, v)]];
    var c' := c[k := v];
    forall k' | k' in c'.Keys
      ensures k' in KeysOf(t'[BucketOf(k', |t'|)])
    {
      var b' := BucketOf(k', |t|);
      if k' == k {
        assert t'[b][|t[b]|].key == k;
      } else {
        assert k' in KeysOf(t[b']);
        var it :| it in t[b'] && it.key == k';
        var j :| 0 <= j < |t[b']| && t[b'][j] == it;
        assert t'[b'][j].key == k';
      }
    }
  }

  /** Position j of a chain with item m unlinked is position j or j + 1 of the chain. */
  lemma Unlinked<V>(chain: seq<Item<V>>, m: nat)
    requires m < |chain|
    ensures var rest := chain[..m] + chain[m + 1..];
      |rest| == |chain| - 1 &&
      forall j :: 0 <= j < |rest| ==> rest[j] == chain[if j < m then j else j + 1]
  {
  }

  /** Unlinking the item at position m of bucket b. */
  lemma RemoveAt<V>(t: seq<seq<Item<V>>>, c: map<Key, V>, b: nat, m: nat)
    requires Represents(t, c) && b < |t| && m < |t[b]|
    ensures var k := t[b][m].key;
      Represents(t[b := t[b][..m] + t[b][m + 1..]], c - {k})
  {
    var k := t[b][m].key;
    var chain := t[b][..m] + t[b][m + 1..];
    Unlinked(t[b], m);
    var t': seq<seq<Item<V>>> := t[b := chain];
    var c' := c - {k};
    RemoveAtPlacement(t, c, b, m);
    forall k' | k' in c'.Keys
      ensures k' in KeysOf(t'[BucketOf(k', |t'|)])
    {
      var b' := BucketOf(k', |t|);
      assert k' in KeysOf(t[b']);
      var it :| it in t[b'] && it.key == k';
      var j :| 0 <= j < |t[b']| && t[b'][j] == it;
      if b' == b {
        assert j != m;
        assert chain[if j < m then j else j - 1] == it;
      } else {
        assert t'[b'][j] == it;
      }
    }
  }

  /** After unlinking, every remaining item is placed and valued as before, and none is the removed key. */
  lemma RemoveAtPlacement<V>(t: seq<seq<Item<V>>>, c: map<Key, V>, b: nat, m: nat)
    requires Represents(t, c) && b < |t| && m < |t[b]|
    ensures var k := t[b][m].key; var t' := t[b := t[b][..m] + t[b][m + 1..]];
      (forall b', j :: 0 <= b' < |t'| && 0 <= j < |t'[b']| ==>
        BucketOf(t'[b'][j].key, |t'|) == b' && t'[b'][j].key in c - {k} &&
        (c - {k})[t'[b'][j].key] == t'[b'][j].value) &&
      NoDuplicates(t')
  {
    var k := t[b][m].key;
    var chain := t[b][..m] + t[b][m + 1..];
    Unlinked(t[b], m);
    var t': seq<seq<Item<V>>> := t[b := chain];
    forall b', j | 0 <= b' < |t'| && 0 <= j < |t'[b']|
      ensures t'[b'][j].key != k
    {
      if b' == b {
        assert t'[b'][j] == t[b][if j < m then j else j + 1];
      }
    }
    forall b', m1, m2 | 0 <= b' < |t'| && 0 <= m1 < m2 < |t'[b']|
      ensures t'[b'][m1].key != t'[b'][m2].key
    {
      if b' == b {
        assert t'[b'][m1] == t[b][if m1 < m then m1 else m1 + 1];
        assert t'[b'][m2] == t[b][if m2 < m then m2 else m2 + 1];
      }
    }
  }

  /** Pushing a not-yet-moved item onto the front of its bucket in the new table. */
  lemma MoveOne<V>(t: seq<seq<Item<V>>>, c: map<Key, V>, K: set<Key>, it: Item<V>)
    requires Holds(t, c, K) && it.key in c && c[it.key] == it.value && it.key !in K
    ensures var b := BucketOf(it.key, |t|);
      Holds(t[b := [it] + t[b]], c, K + {it.key})
  {
    var b := BucketOf(it.key, |t|);
    var t': seq<seq<Item<V>>> := t[b := [it] + t[b]];
    forall b', m | 0 <= b' < |t'| && 0 <= m < |t'[b']|
      ensures t'[b'][m].key in K + {it.key}
    {
      if b' == b && m > 0 {
        assert t'[b'][m] == t[b][m - 1];
      }
    }
    forall b', m1, m2 | 0 <= b' < |t'| && 0 <= m1 < m2 < |t'[b']|
      ensures t'[b'][m1].key != t'[b'][m2].key
    {
      if b' == b {
        assert t'[b'][m2] == t[b][m2 - 1];
        if m1 > 0 {
          assert t'[b'][m1] == t[b][m1 - 1];
        }
      }
    }
    forall k | k in K + {it.key}
      ensures k in KeysOf(t'[BucketOf(k, |t'|)])
    {
      var b' := BucketOf(k, |t|);
      if k == it.key {
        assert t'[b][0] == it;
      } else {
        assert k in KeysOf(t[b']);
        var x :| x in t[b'] && x.key == k;
        if b' == b {
          assert x in t'[b];
        } else {
          assert t'[b'] == t[b'];
        }
      }
    }
  }

  /** A key whose bucket in the old table comes before i, or is i with the key among chain[..j]. */
  ghost predicate Moved<V>(k: Key, n: nat, i: nat, chain: seq<Item<V>>, j: nat)
    requires n > 0 && j <= |chain|
  {
    BucketOf(k, n) < i || (BucketOf(k, n) == i && k in KeysOf(chain[..j]))
  }

  /** An old bucket i's chain: every item hashes to i and holds c's value, each key once. */
  ghost predicate ChainOf<V>(chain: seq<Item<V>>, c: map<Key, V>, n: nat, i: nat)
    requires n > 0
  {
    (forall m :: 0 <= m < |chain| ==>
      BucketOf(chain[m].key, n) == i && chain[m].key in c && c[chain[m].key] == chain[m].value) &&
    (forall m1, m2 :: 0 <= m1 < m2 < |chain| ==> chain[m1].key != chain[m2].key)
  }

  /** Moving chain[j] keeps the new table holding exactly the keys moved so far. */
  lemma ChainStep<V>(t: seq<seq<Item<V>>>, c: map<Key, V>, K: set<Key>, chain: seq<Item<V>>, n: nat, i: nat, j: nat)
    requires n > 0 && j < |chain| && ChainOf(chain, c, n, i) && Holds(t, c, K)
    requires forall k :: k in K <==> k in c && Moved(k, n, i, chain, j)
    ensures var it := chain[j]; var b := BucketOf(it.key, |t|);
      Holds(t[b := [it] + t[b]], c, K + {it.key}) &&
      forall k :: k in K + {it.key} <==> k in c && Moved(k, n, i, chain, j + 1)
  {
    var it := chain[j];
    MoveOne(t, c, K, it);
    assert chain[..j + 1] == chain[..j] + [it];
    assert KeysOf(chain[..j + 1]) == KeysOf(chain[..j]) + {it.key};
  }

  class Dictionary<V> {
    var buckets: array<seq<Item<V>>>
    var bucketCount: nat
    var itemCount: nat
    /** The key/value pairs the dictionary stands for. */
    ghost var contents: map<Key, V>

    ghost predicate Valid()
      reads this, buckets
    {
      buckets.Length == bucketCount && Represents(buckets[..], contents) &&
      itemCount == |contents|
    }

    /** Dictionary_new: 16 empty buckets, no items. */
    constructor()
      ensures Valid() && fresh(buckets)
      ensures contents == map[] && bucketCount == InitialBuckets && itemCount == 0
    {
      buckets := new seq<Item<V>>[InitialBuckets](_ => []);
      bucketCount := InitialBuckets;
      itemCount := 0;
      contents := map[];
    }

    /**
     * Dictionary_getItem and Dictionary_getData: walk the key's chain; the
     * value stored under k, None when there is none.
     */
    method Get(k: Key) returns (r: Option<V>)
      requires Valid()
      ensures r == (if k in contents then Some(contents[k]) else None)
    {
      var b, m := FindItem(k);
      if m < |buckets[b]| {
        return Some(buckets[b][m].value);
      }
      return None;
    }

    /**
     * Dictionary_getItem: the key's bucket and the key's position in that
     * bucket's chain, or the chain's length when the key is absent.
     */
    method FindItem(k: Key) returns (b: nat, m: nat)
      requires Valid()
      ensures b == BucketOf(k, bucketCount) && m <= |buckets[b]|
      ensures m < |buckets[b]| <==> k in contents
      ensures m < |buckets[b]| ==> buckets[b][m] == Item(k, contents[k])
      ensures forall j :: 0 <= j < m ==> buckets[b][j].key != k
    {
      var h := Hash(k);
      b := h % bucketCount;
      var chain := buckets[b];
      m := 0;
      while m < |chain| && chain[m].key != k
        invariant 0 <= m <= |chain|
        invariant forall j :: 0 <= j < m ==> chain[j].key != k
      {
        m := m + 1;
      }
      Lookup(buckets[..], contents, k, m);
    }

    /** Dictionary_existsData. */
    method Exists(k: Key) returns (r: bool)
      requires Valid()
      ensures r <==> k in contents
    {
      var item := Get(k);
      r := item.Some?;
    }

    /**
     * Dictionary_setData: overwrite the value of an existing key, or append
     * a new item to its chain, count it, and double the buckets when the
     * average chain is longer than the load factor and the maximum is not
     * reached.
     */
    method Set(k: Key, v: V)
      requires Valid()
      modifies this, buckets
      ensures Valid()
      ensures contents == old(contents)[k := v]
      ensures k in old(contents) ==> bucketCount == old(bucketCount) && itemCount == old(itemCount)
      ensures k !in old(contents) ==> itemCount == old(itemCount) + 1
      ensures k !in old(contents) ==>
        bucketCount == (if itemCount / old(bucketCount) > LoadFactor && old(bucketCount) < MaximumBuckets
                        then 2 * old(bucketCount) else old(bucketCount))
    {
      // The chain scan of Dictionary_setData is Dictionary_getItem's.
      var b, m := FindItem(k);
      var chain := buckets[b];
      if m < |chain| {
        ReplaceValue(buckets[..], contents, b, m, v);
        buckets[b] := chain[m := Item(k, v)];
        contents := contents[k := v];
        return;
      }
      AppendNew(buckets[..], contents, k, v);
      buckets[b] := chain + [Item(k, v)];
      contents := contents[k := v];
      itemCount := itemCount + 1;
      if itemCount / bucketCount > LoadFactor && bucketCount < MaximumBuckets {
        IncreaseBuckets();
      }
    }

    /** Dictionary_increaseBuckets: move every item to a table twice the size. */
    method IncreaseBuckets()
      requires Valid()
      modifies this
      ensures Valid() && fresh(buckets)
      ensures contents == old(contents) && itemCount == old(itemCount)
      ensures bucketCount == 2 * old(bucketCount)
    {
      var table := Rehash(bucketCount * 2);
      buckets := table;
      bucketCount := bucketCount * 2;
    }

    /** The loops of Dictionary_increaseBuckets: a new table of n buckets holding every item. */
    method Rehash(n: nat) returns (table: array<seq<Item<V>>>)
      requires Valid() && n > 0
      ensures fresh(table) && table.Length == n && Represents(table[..], contents)
    {
      table := new seq<Item<V>>[n](_ => []);
      ghost var K: set<Key> := {};
      var i := 0;
      while i < bucketCount
        invariant 0 <= i <= bucketCount
        invariant fresh(table) && table.Length == n && Holds(table[..], contents, K)
        invariant forall k :: k in K <==> k in contents && BucketOf(k, bucketCount) < i
      {
        K := MoveChain(table, i, K);
        i := i + 1;
      }
      assert K == contents.Keys;
    }

    /** One pass of the inner loop: move the items of old bucket i, in chain order. */
    method MoveChain(table: array<seq<Item<V>>>, i: nat, ghost K: set<Key>) returns (ghost K': set<Key>)
      requires Valid() && i < bucketCount && table != buckets
      requires Holds(table[..], contents, K)
      requires forall k :: k in K <==> k in contents && BucketOf(k, bucketCount) < i
      modifies table
      ensures Holds(table[..], contents, K')
      ensures forall k :: k in K' <==> k in contents && BucketOf(k, bucketCount) < i + 1
    {
      var chain := buckets[i];
      assert ChainOf(chain, contents, bucketCount, i);
      K' := K;
      var j := 0;
      assert chain[..0] == [];
      while j < |chain|
        invariant 0 <= j <= |chain|
        invariant Holds(table[..], contents, K')
        invariant forall k :: k in K' <==> k in contents && Moved(k, bucketCount, i, chain, j)
      {
        var it := chain[j];
        var h := Hash(it.key);
        var b := h % table.Length;
        ChainStep(table[..], contents, K', chain, bucketCount, i, j);
        table[b] := [it] + table[b];
        K' := K' + {it.key};
        j := j + 1;
      }
      forall k | k in contents && BucketOf(k, bucketCount) == i
        ensures k in KeysOf(chain[..j])
      {
        assert chain[..j] == chain;
      }
    }

    /**
     * Dictionary_removeData: unlink the key's item and return 0, or return
     * -1 when the key is absent.
     */
    method Remove(k: Key) returns (r: int)
      requires Valid()
      modifies buckets, this
      ensures Valid() && buckets == old(buckets) && bucketCount == old(bucketCount)
      ensures k in old(contents) ==> r == 0 && contents == old(contents) - {k} && itemCount == old(itemCount) - 1
      ensures k !in old(contents) ==> r == -1 && contents == old(contents) && itemCount == old(itemCount)
    {
      // The chain scan of Dictionary_removeData is Dictionary_getItem's.
      var b, m := FindItem(k);
      var chain := buckets[b];
      if m < |chain| {
        RemoveAt(buckets[..], contents, b, m);
        buckets[b] := chain[..m] + chain[m + 1..];
        contents := contents - {k};
        itemCount := itemCount - 1;
        return 0;
      }
      return -1;
    }

    /**
     * Dictionary_getKeys: the keys of every chain, bucket by bucket; each
     * stored key appears exactly once.
     */
    method GetKeys() returns (keys: seq<Key>)
      requires Valid()
      ensures forall k :: k in keys <==> k in contents
      ensures Distinct(keys)
      ensures |keys| == itemCount
    {
      keys := [];
      var i := 0;
      while i < bucketCount
        invariant 0 <= i <= bucketCount
        invariant Distinct(keys)
        invariant forall k :: k in keys <==> k in contents && BucketOf(k, bucketCount) < i
      {
        keys := CollectChain(keys, i);
        i := i + 1;
      }
      DistinctCardinality(keys, contents.Keys);
    }

    /** The inner loop of Dictionary_getKeys over bucket i. */
    method CollectChain(keys: seq<Key>, i: nat) returns (keys': seq<Key>)
      requires Valid() && i < bucketCount && Distinct(keys)
      requires forall k :: k in keys <==> k in contents && BucketOf(k, bucketCount) < i
      ensures Distinct(keys')
      ensures forall k :: k in keys' <==> k in contents && BucketOf(k, bucketCount) < i + 1
    {
      var chain := buckets[i];
      keys' := keys;
      var j := 0;
      while j < |chain|
        invariant 0 <= j <= |chain|
        invariant Distinct(keys')
        invariant forall k :: k in keys' <==> k in contents && Moved(k, bucketCount, i, chain, j)
      {
        var it := chain[j];
        assert BucketOf(it.key, bucketCount) == i;
        keys' := keys' + [it.key];
        assert chain[..j + 1] == chain[..j] + [it];
        j := j + 1;
      }
      forall k | k in contents && BucketOf(k, bucketCount) == i
        ensures k in KeysOf(chain[..j])
      {
        assert chain[..j] == chain;
      }
    }
  }

  predicate Distinct<T(==)>(s: seq<T>) {
    forall i, j :: 0 <= i < j < |s| ==> s[i] != s[j]
  }

  /** A list without repeats that holds exactly the elements of S has |S| entries. */
  lemma {:induction false} DistinctCardinality<T>(s: seq<T>, S: set<T>)
    requires Distinct(s)
    requires forall x :: x in s <==> x in S
    ensures |s| == |S|
    decreases |s|
  {
    if s != [] {
      var last := s[|s| - 1];
      var init := s[..|s| - 1];
      assert forall x :: x in init <==> x in S - {last} by {
        forall x | x in init ensures x != last {
          var j :| 0 <= j < |init| && init[j] == x;
        }
        assert forall x :: x in s <==> x in init || x == last;
      }
      DistinctCardinality(init, S - {last});
    }
  }
}
