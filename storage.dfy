/**
 * The TTL key-value store of kvstorage/storage.go: a map from keys to elements
 * next to a queue of keys, the least recently written key at the front.
 *
 * The queue is a sequence of QueueNode objects. A node's identity plays the
 * part of Go's `*list.Element`: every element keeps a pointer to the node that
 * holds its key (`queueElement`), and `list.Remove` removes a node by identity.
 * Timestamps (Go's `time.Time`) are integers, and the clock is a parameter.
 * The mutex is left out: each method is one atomic step.
 */
module KVStorage {
  import opened Wrappers

  /** One node of the key queue. */
  class QueueNode {
    const key: string

    constructor (key: string)
      ensures this.key == key
    {
      this.key := key;
    }
  }

  /** element.Element of this iteration: the value, the time of the last write, the queue node. */
  datatype Elem = Elem(val: string, timestamp: int, queueElement: QueueNode)

  /** The keys held by the nodes of a queue, front first. */
  function KeysOf(q: seq<QueueNode>): (ks: seq<string>)
    ensures |ks| == |q|
    ensures forall i :: 0 <= i < |q| ==> ks[i] == q[i].key
  {
    seq(|q|, i requires 0 <= i < |q| => q[i].key)
  }

  /** Go's `list.Remove(n)`: the queue without the node `n`. */
  function Remove(q: seq<QueueNode>, n: QueueNode): (r: seq<QueueNode>)
    ensures n in q ==> |r| == |q| - 1
    ensures n !in q ==> r == q
    ensures forall x :: x in r ==> x in q
    ensures forall x :: x in q && x != n ==> x in r
  {
    if q == [] then []
    else if q[0] == n then q[1..]
    else [q[0]] + Remove(q[1..], n)
  }

  /** Removing the node at position `i` keeps every other node in order. */
  lemma {:induction false} RemoveAt(q: seq<QueueNode>, i: nat)
    requires i < |q| && q[i] !in q[..i]
    ensures Remove(q, q[i]) == q[..i] + q[i + 1..]
  {
    if i > 0 {
      assert q[1..][i - 1] == q[i];
      assert q[1..][..i - 1] == q[1..i];
      RemoveAt(q[1..], i - 1);
      assert q[1..][i - 1 + 1..] == q[i + 1..];
      assert [q[0]] + q[1..i] == q[..i];
    }
  }

  /** The sequence `ks` with every occurrence of `k` dropped; the reference for queue updates. */
  function Without(ks: seq<string>, k: string): (r: seq<string>)
    ensures forall x :: x in r <==> x in ks && x != k
    ensures |r| <= |ks|
  {
    if ks == [] then []
    else if ks[0] == k then Without(ks[1..], k)
    else [ks[0]] + Without(ks[1..], k)
  }

  lemma {:induction false} WithoutAbsent(ks: seq<string>, k: string)
    requires k !in ks
    ensures Without(ks, k) == ks
  {
    if ks != [] {
      WithoutAbsent(ks[1..], k);
    }
  }

  /** Dropping a key that occurs exactly once, at position `i`, leaves the rest in order. */
  lemma {:induction false} WithoutAt(ks: seq<string>, i: nat)
    requires i < |ks|
    requires forall j :: 0 <= j < |ks| && j != i ==> ks[j] != ks[i]
    ensures Without(ks, ks[i]) == ks[..i] + ks[i + 1..]
  {
    if i == 0 {
      WithoutAbsent(ks[1..], ks[0]);
    } else {
      assert ks[1..][i - 1] == ks[i];
      WithoutAt(ks[1..], i - 1);
      assert ks[1..][..i - 1] == ks[1..i];
      assert ks[1..][i - 1 + 1..] == ks[i + 1..];
      assert [ks[0]] + ks[1..i] == ks[..i];
    }
  }

  ghost predicate UniqueKeys(q: seq<QueueNode>) {
    forall i, j :: 0 <= i < j < |q| ==> q[i].key != q[j].key
  }

  /**
   * The invariant the store keeps: the queue holds each key of the map exactly
   * once, every element points at the node holding its key, and the empty
   * string is never a key.
   */
  ghost predicate Consistent(q: seq<QueueNode>, m: map<string, Elem>) {
    && UniqueKeys(q)
    && (forall i :: 0 <= i < |q| ==> q[i].key in m && m[q[i].key].queueElement == q[i])
    && (forall k :: k in m ==> m[k].queueElement in q && m[k].queueElement.key == k)
    && "" !in m
  }

  /** Timestamps never decrease from the front of the queue to its back. */
  ghost predicate Chronological(q: seq<QueueNode>, m: map<string, Elem>) {
    forall i, j :: 0 <= i < j < |q| && q[i].key in m && q[j].key in m ==>
      m[q[i].key].timestamp <= m[q[j].key].timestamp
  }

  /** The map's keys and the queue's keys are the same set, so the two have the same size. */
  lemma {:induction false} ConsistentSizes(q: seq<QueueNode>, m: map<string, Elem>)
    requires Consistent(q, m)
    ensures m.Keys == set k | k in KeysOf(q)
    ensures |m| == |q|
  {
    var ks := KeysOf(q);
    assert m.Keys == set k | k in ks by {
      forall k | k in m ensures k in ks {
        var j :| 0 <= j < |q| && q[j] == m[k].queueElement;
        assert ks[j] == k;
      }
    }
    DistinctCard(ks);
  }

  /** A sequence without repetitions has as many distinct members as positions. */
  lemma {:induction false} DistinctCard(ks: seq<string>)
    requires forall i, j :: 0 <= i < j < |ks| ==> ks[i] != ks[j]
    ensures |set k | k in ks| == |ks|
  {
    if ks != [] {
      DistinctCard(ks[1..]);
      assert (set k | k in ks) == (set k | k in ks[1..]) + {ks[0]};
    }
  }

  /** Every key's timestamp is at least the front key's when the queue is chronological. */
  lemma FrontIsOldest(q: seq<QueueNode>, m: map<string, Elem>)
    requires Consistent(q, m) && Chronological(q, m) && q != []
    ensures forall k :: k in m ==> m[q[0].key].timestamp <= m[k].timestamp
  {
    forall k | k in m ensures m[q[0].key].timestamp <= m[k].timestamp {
      var j :| 0 <= j < |q| && q[j] == m[k].queueElement;
    }
  }

  /** Dropping position `i` keeps keys unique, and no remaining node holds the dropped key. */
  lemma DropKeepsUnique(q: seq<QueueNode>, i: nat)
    requires UniqueKeys(q) && i < |q|
    ensures UniqueKeys(q[..i] + q[i + 1..])
    ensures forall x :: x in q[..i] + q[i + 1..] ==> x.key != q[i].key
  {
    var r := q[..i] + q[i + 1..];
    forall a, b | 0 <= a < b < |r| ensures r[a].key != r[b].key {
      var a', b' := if a < i then a else a + 1, if b < i then b else b + 1;
      assert r[a] == q[a'] && r[b] == q[b'];
    }
    forall x | x in r ensures x.key != q[i].key {
      var a :| 0 <= a < |r| && r[a] == x;
      var a' := if a < i then a else a + 1;
      assert r[a] == q[a'];
    }
  }

  /** Dropping position `i` and its key keeps the queue chronological. */
  lemma DropKeepsChronological(q: seq<QueueNode>, m: map<string, Elem>, i: nat)
    requires Chronological(q, m) && i < |q|
    ensures Chronological(q[..i] + q[i + 1..], m - {q[i].key})
  {
    var r, m' := q[..i] + q[i + 1..], m - {q[i].key};
    forall a, b | 0 <= a < b < |r| && r[a].key in m' && r[b].key in m'
      ensures m'[r[a].key].timestamp <= m'[r[b].key].timestamp
    {
      var a', b' := if a < i then a else a + 1, if b < i then b else b + 1;
      assert r[a] == q[a'] && r[b] == q[b'];
    }
  }

  /** Removing a present key's node and map entry keeps the store consistent. */
  lemma RemoveKeyKeepsConsistent(q: seq<QueueNode>, m: map<string, Elem>, key: string)
    requires Consistent(q, m) && key in m
    ensures Consistent(Remove(q, m[key].queueElement), m - {key})
  {
    var n := m[key].queueElement;
    var i :| 0 <= i < |q| && q[i] == n;
    RemoveAt(q, i);
    DropKeepsUnique(q, i);
    RemoveKeepsBackPointers(q, m, key);
    RemoveKeepsCoverage(q, m, key);
  }

  /** After the removal every remaining node is still the node of its (remaining) key. */
  lemma RemoveKeepsBackPointers(q: seq<QueueNode>, m: map<string, Elem>, key: string)
    requires Consistent(q, m) && key in m
    requires forall x :: x in Remove(q, m[key].queueElement) ==> x.key != key
    ensures var r, m' := Remove(q, m[key].queueElement), m - {key};
      forall a :: 0 <= a < |r| ==> r[a].key in m' && m'[r[a].key].queueElement == r[a]
  {
    var r, m' := Remove(q, m[key].queueElement), m - {key};
    forall a | 0 <= a < |r| ensures r[a].key in m' && m'[r[a].key].queueElement == r[a] {
      assert r[a] in r;
      var j :| 0 <= j < |q| && q[j] == r[a];
    }
  }

  /** After the removal every remaining key's node is still queued. */
  lemma RemoveKeepsCoverage(q: seq<QueueNode>, m: map<string, Elem>, key: string)
    requires Consistent(q, m) && key in m
    ensures var r, m' := Remove(q, m[key].queueElement), m - {key};
      forall k :: k in m' ==> m'[k].queueElement in r && m'[k].queueElement.key == k
  {
    var n := m[key].queueElement;
    forall k | k in m - {key} ensures m[k].queueElement in Remove(q, n) {
      assert m[k].queueElement != n;
    }
  }

  /** Removing a present key's node drops exactly that key from the queue's key order. */
  lemma RemoveKeyOrder(q: seq<QueueNode>, m: map<string, Elem>, key: string)
    requires Consistent(q, m) && key in m
    ensures KeysOf(Remove(q, m[key].queueElement)) == Without(KeysOf(q), key)
  {
    var i :| 0 <= i < |q| && q[i] == m[key].queueElement;
    RemoveAt(q, i);
    var ks := KeysOf(q);
    assert forall j :: 0 <= j < |ks| && j != i ==> ks[j] != ks[i] by {
      assert UniqueKeys(q);
    }
    WithoutAt(ks, i);
    KeysOfDrop(q, i);
  }

  lemma KeysOfDrop(q: seq<QueueNode>, i: nat)
    requires i < |q|
    ensures KeysOf(q[..i] + q[i + 1..]) == KeysOf(q)[..i] + KeysOf(q)[i + 1..]
  {
    var r, ks := q[..i] + q[i + 1..], KeysOf(q);
    assert |KeysOf(r)| == |ks[..i] + ks[i + 1..]|;
    forall a | 0 <= a < |r| ensures KeysOf(r)[a] == (ks[..i] + ks[i + 1..])[a] {
      if a < i {
        assert r[a] == q[a];
      } else {
        assert r[a] == q[a + 1];
      }
    }
  }

  /** Removing a present key's node and map entry keeps the queue chronological. */
  lemma RemoveKeyKeepsChronological(q: seq<QueueNode>, m: map<string, Elem>, key: string)
    requires Consistent(q, m) && key in m && Chronological(q, m)
    ensures Chronological(Remove(q, m[key].queueElement), m - {key})
  {
    var i :| 0 <= i < |q| && q[i] == m[key].queueElement;
    RemoveAt(q, i);
    DropKeepsChronological(q, m, i);
  }

  /** Appending a fresh node for an absent key keeps the store consistent; a newest timestamp keeps it chronological. */
  lemma AppendKeyKeepsConsistent(q: seq<QueueNode>, m: map<string, Elem>, key: string, e: Elem)
    requires Consistent(q, m) && key !in m && key != ""
    requires e.queueElement !in q && e.queueElement.key == key
    ensures Consistent(q + [e.queueElement], m[key := e])
    ensures KeysOf(q + [e.queueElement]) == KeysOf(q) + [key]
    ensures Chronological(q, m) && (forall k :: k in m ==> m[k].timestamp <= e.timestamp) ==>
      Chronological(q + [e.queueElement], m[key := e])
  {
    var r := q + [e.queueElement];
    assert KeysOf(r) == KeysOf(q) + [key];
    var m' := m[key := e];
    forall k | k in m' ensures m'[k].queueElement in r {
      if k != key {
        assert m[k].queueElement in q;
      }
    }
  }

  /** The queue after Set: the key's old node (if any) removed, a fresh node for it appended. */
  function UpsertQueue(q: seq<QueueNode>, m: map<string, Elem>, key: string, n: QueueNode): (r: seq<QueueNode>)
    ensures |r| > 0 && r[|r| - 1] == n
    ensures forall x :: x in r ==> x == n || x in q
    ensures forall x :: x in q && (key !in m || x != m[key].queueElement) ==> x in r
    ensures key in m && m[key].queueElement in q ==> |r| == |q|
    ensures key !in m ==> |r| == |q| + 1
  {
    (if key in m then Remove(q, m[key].queueElement) else q) + [n]
  }

  /** Set's update of the pair keeps the store consistent and moves the key to the back of the key order. */
  lemma UpsertKeepsConsistent(q: seq<QueueNode>, m: map<string, Elem>, key: string, e: Elem)
    requires Consistent(q, m) && key != ""
    requires e.queueElement !in q && e.queueElement.key == key
    ensures Consistent(UpsertQueue(q, m, key, e.queueElement), m[key := e])
    ensures KeysOf(UpsertQueue(q, m, key, e.queueElement)) == Without(KeysOf(q), key) + [key]
    ensures |UpsertQueue(q, m, key, e.queueElement)| == |q| + (if key in m then 0 else 1)
  {
    if key in m {
      ReplaceKeyKeepsConsistent(q, m, key, e);
    } else {
      assert key !in KeysOf(q);
      WithoutAbsent(KeysOf(q), key);
      AppendKeyKeepsConsistent(q, m, key, e);
    }
  }

  /** The case of Set for a key already present. */
  lemma ReplaceKeyKeepsConsistent(q: seq<QueueNode>, m: map<string, Elem>, key: string, e: Elem)
    requires Consistent(q, m) && key in m
    requires e.queueElement !in q && e.queueElement.key == key
    ensures Consistent(Remove(q, m[key].queueElement) + [e.queueElement], m[key := e])
    ensures KeysOf(Remove(q, m[key].queueElement) + [e.queueElement]) == Without(KeysOf(q), key) + [key]
    ensures |Remove(q, m[key].queueElement)| + 1 == |q|
  {
    var q1, m1 := Remove(q, m[key].queueElement), m - {key};
    RemoveKeyKeepsConsistent(q, m, key);
    RemoveKeyOrder(q, m, key);
    assert m1[key := e] == m[key := e];
    AppendKeyKeepsConsistent(q1, m1, key, e);
  }

  /** With a clock that never runs backwards, Set keeps timestamps ordered from front to back. */
  lemma UpsertKeepsChronological(q: seq<QueueNode>, m: map<string, Elem>, key: string, e: Elem)
    requires Consistent(q, m) && Chronological(q, m) && key != ""
    requires e.queueElement !in q && e.queueElement.key == key
    requires forall k :: k in m ==> m[k].timestamp <= e.timestamp
    ensures Chronological(UpsertQueue(q, m, key, e.queueElement), m[key := e])
  {
    var q1, m1 := q, m;
    if key in m {
      RemoveKeyKeepsConsistent(q, m, key);
      RemoveKeyKeepsChronological(q, m, key);
      q1, m1 := Remove(q, m[key].queueElement), m - {key};
    }
    assert m1[key := e] == m[key := e];
    AppendKeyKeepsConsistent(q1, m1, key, e);
  }

  class KVStorage {
    var kvstorage: map<string, Elem>
    var queue: seq<QueueNode>
    var initialized: bool

    ghost predicate Valid()
      reads this
    {
      Consistent(queue, kvstorage)
    }

    /** The queue's keys, front (oldest) first. */
    ghost function Order(): seq<string>
      reads this
    {
      KeysOf(queue)
    }

    /** The zero value `KVStorage{}`: not initialized, so every operation reports an error. */
    constructor Uninitialized()
      ensures Valid() && !initialized
      ensures kvstorage == map[] && queue == []
    {
      kvstorage := map[];
      queue := [];
      initialized := false;
    }

    /** NewStorage: an initialized store with an empty map and an empty queue. */
    constructor NewStorage()
      ensures Valid() && initialized
      ensures kvstorage == map[] && queue == []
    {
      kvstorage := map[];
      queue := [];
      initialized := true;
    }

    /**
     * Set stores `value` under `key` with timestamp `now`. An existing key's node
     * is removed and a new node is appended, so the key moves to the back.
     */
    method Set(key: string, value: string, now: int) returns (r: Outcome)
      requires Valid()
      modifies this
      ensures Valid() && initialized == old(initialized)
      ensures r.Fail? <==> !initialized || key == ""
      ensures r.Fail? ==> kvstorage == old(kvstorage) && queue == old(queue)
      ensures r.Pass? ==>
        && key in kvstorage
        && fresh(kvstorage[key].queueElement)
        && kvstorage == old(kvstorage)[key := Elem(value, now, kvstorage[key].queueElement)]
        && queue == UpsertQueue(old(queue), old(kvstorage), key, kvstorage[key].queueElement)
        && Order() == Without(old(Order()), key) + [key]
        && |queue| == |old(queue)| + (if key in old(kvstorage) then 0 else 1)
        && Order()[|Order()| - 1] == key && key !in Order()[..|Order()| - 1]
    {
      if !initialized || |key| == 0 {
        return Fail("set: Storage is not initialized or key is empty");
      }
      var node := new QueueNode(key);
      var e := Elem(value, now, node);
      UpsertKeepsConsistent(queue, kvstorage, key, e);
      queue := UpsertQueue(queue, kvstorage, key, node);
      kvstorage := kvstorage[key := e];
      r := Pass;
    }

    /** Get returns the value stored under `key`, `None` when it is absent; it changes nothing. */
    method Get(key: string) returns (r: Result<Option<string>>)
      ensures r.Err? <==> !initialized || key == ""
      ensures r.Ok? ==> (r.value.Some? <==> key in kvstorage)
      ensures r.Ok? && r.value.Some? ==> r.value.value == kvstorage[key].val
    {
      if !initialized || |key| == 0 {
        return Err("get: Storage is not initialized or key is empty");
      }
      if key in kvstorage {
        return Ok(Some(kvstorage[key].val));
      }
      return Ok(None);
    }

    /**
     * OldestElementTime returns the timestamp of the front key. The panic for a
     * front key missing from the map cannot happen while the store is consistent.
     */
    method OldestElementTime() returns (r: Result<int>)
      requires Valid()
      ensures r.Ok? <==> initialized && |kvstorage| > 0
      ensures r.Ok? ==> Order() != [] && r.value == kvstorage[Order()[0]].timestamp
      ensures r.Ok? && Chronological(queue, kvstorage) ==>
        forall k :: k in kvstorage ==> r.value <= kvstorage[k].timestamp
    {
      ConsistentSizes(queue, kvstorage);
      if !initialized {
        return Err("oldestelementtime: Storage is not initialized");
      }
      if queue == [] {
        return Err("oldestelementtime: Element is not found in storage");
      }
      var key := queue[0].key;
      if key in kvstorage {
        if Chronological(queue, kvstorage) {
          FrontIsOldest(queue, kvstorage);
        }
        return Ok(kvstorage[key].timestamp);
      }
      assert false;
    }

    /** Delete removes `key` from the map and the queue and reports whether it was there. */
    method Delete(key: string) returns (r: Result<bool>)
      requires Valid()
      modifies this
      ensures Valid() && initialized == old(initialized)
      ensures r.Err? <==> !initialized || key == ""
      ensures r.Err? ==> kvstorage == old(kvstorage) && queue == old(queue)
      ensures r.Ok? ==>
        && r.value == (key in old(kvstorage))
        && kvstorage == old(kvstorage) - {key}
        && queue == (if key in old(kvstorage) then Remove(old(queue), old(kvstorage[key].queueElement)) else old(queue))
        && Order() == Without(old(Order()), key)
    {
      if !initialized || |key| == 0 {
        return Err("delete: Storage is not initialized or key is empty");
      }
      var ok := key in kvstorage;
      if ok {
        PurgeElement(key);
      } else {
        assert key !in KeysOf(queue);
        WithoutAbsent(KeysOf(queue), key);
      }
      return Ok(ok);
    }

    /**
     * DeleteFrontIfOlder removes the front key when its timestamp is strictly
     * before `ctxTime`, and otherwise changes nothing. It never looks past the front.
     */
    method DeleteFrontIfOlder(ctxTime: int) returns (r: Result<bool>)
      requires Valid()
      modifies this
      ensures Valid() && initialized == old(initialized)
      ensures r.Err? <==> !initialized
      ensures r.Ok? ==> (r.value <==>
        old(queue) != [] && old(kvstorage[queue[0].key].timestamp) < ctxTime)
      ensures r == Ok(true) ==>
        && kvstorage == old(kvstorage) - {old(Order())[0]}
        && queue == old(queue[1..])
      ensures r != Ok(true) ==> kvstorage == old(kvstorage) && queue == old(queue)
    {
      if !initialized {
        return Err("deletefrontifolder: Storage is not initialized");
      }
      if queue == [] {
        return Ok(false);
      }
      var key := queue[0].key;
      var elem := kvstorage[key];
      if elem.timestamp < ctxTime {
        PurgeElement(key);
        return Ok(true);
      }
      return Ok(false);
    }

    /** purgeElement: removes a present key's node and map entry; callers hold the lock. */
    method PurgeElement(key: string)
      requires Valid() && key in kvstorage
      modifies this
      ensures Valid() && initialized == old(initialized)
      ensures kvstorage == old(kvstorage) - {key}
      ensures queue == Remove(old(queue), old(kvstorage[key].queueElement))
      ensures Order() == Without(old(Order()), key)
    {
      RemoveKeyKeepsConsistent(queue, kvstorage, key);
      RemoveKeyOrder(queue, kvstorage, key);
      queue := Remove(queue, kvstorage[key].queueElement);
      kvstorage := kvstorage - {key};
    }
  }

  /** Set followed by Get returns the value just written. */
  method SetThenGet(kv: KVStorage, key: string, value: string, now: int) returns (got: Result<Option<string>>)
    requires kv.Valid() && kv.initialized && key != ""
    modifies kv
    ensures got == Ok(Some(value))
  {
    var _ := kv.Set(key, value, now);
    got := kv.Get(key);
  }

  /** Delete followed by Get finds nothing. */
  method DeleteThenGet(kv: KVStorage, key: string) returns (got: Result<Option<string>>)
    requires kv.Valid() && kv.initialized && key != ""
    modifies kv
    ensures got == Ok(None)
  {
    var _ := kv.Delete(key);
    got := kv.Get(key);
  }

  /** Writing the only key twice renews it: the oldest timestamp is the second write's. */
  method RenewOnlyKey(key: string, v1: string, v2: string, t1: int, t2: int) returns (oldest: Result<int>)
    requires key != ""
    ensures oldest == Ok(t2)
  {
    var kv := new KVStorage.NewStorage();
    var _ := kv.Set(key, v1, t1);
    var _ := kv.Set(key, v2, t2);
    oldest := kv.OldestElementTime();
  }
}
