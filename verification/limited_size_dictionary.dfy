/**
 * A dictionary that remembers at most `limit` keys: every insertion of a
 * new key is queued, and once the count exceeds the limit the key at the
 * head of the queue is removed. Modelled as an immutable value; each
 * operation returns the updated dictionary.
 */
module LimitedDictionary {
  import opened Wrappers

  /** The stored entries, the limit, and the queue of keys in enqueue order. */
  datatype Dict<K, V> = Dict(limit: int, entries: map<K, V>, queue: seq<K>)

  datatype DictError = KeyNotFound | DuplicateKey

  /** A dictionary created with the given limit: no entries, empty queue. */
  function New<K, V>(limit: int): (d: Dict<K, V>)
    ensures d.limit == limit && |d.entries| == 0 && |d.queue| == 0
  {
    Dict(limit, map[], [])
  }

  /** ContainsKey asks the underlying dictionary. */
  function ContainsKey<K, V>(d: Dict<K, V>, key: K): bool
  {
    key in d.entries
  }

  /**
   * The indexer's getter: the stored value, or KeyNotFound. As written, a
   * successful read enqueues the key once more.
   */
  function Get<K, V>(d: Dict<K, V>, key: K): (r: Result<(V, Dict<K, V>), DictError>)
    ensures r.Success? <==> ContainsKey(d, key)
    ensures r.Failure? ==> r.error == KeyNotFound
    ensures r.Success? ==> r.value.0 == d.entries[key]
    ensures r.Success? ==> r.value.1.entries == d.entries && r.value.1.limit == d.limit
    ensures r.Success? ==> r.value.1.queue == d.queue + [key]
  {
    if key !in d.entries then Failure(KeyNotFound)
    else Success((d.entries[key], d.(queue := d.queue + [key])))
  }

  /** The key the next eviction removes: the queue's head once the new key is queued. */
  function Oldest<K>(queue: seq<K>, key: K): K
  {
    (queue + [key])[0]
  }

  /**
   * Adding a key that is not stored: store it, queue it, and when the count
   * then exceeds the limit dequeue one key and remove it. Nothing but the new
   * key appears, every other stored value is kept, and at most one key, the
   * oldest queued, is lost.
   */
  function Insert<K, V>(d: Dict<K, V>, key: K, value: V): (r: Dict<K, V>)
    requires key !in d.entries
    ensures r.limit == d.limit
    ensures |d.entries| + 1 <= d.limit ==> r.entries == d.entries[key := value]
    ensures |d.entries| + 1 > d.limit ==> r.entries == d.entries[key := value] - {Oldest(d.queue, key)}
    ensures forall k :: k in r.entries ==> k == key || k in d.entries
    ensures forall k :: k in r.entries && k != key ==> r.entries[k] == d.entries[k]
    ensures |d.entries| + 1 <= d.limit ==> r.queue == d.queue + [key]
    ensures |d.entries| + 1 > d.limit ==> r.queue == (d.queue + [key])[1..]
  {
    var entries := d.entries[key := value];
    var queue := d.queue + [key];
    if |entries| > d.limit then Dict(d.limit, entries - {queue[0]}, queue[1..])
    else Dict(d.limit, entries, queue)
  }

  /**
   * The indexer's setter: an existing key gets the new value (and, as
   * written, is queued again); a new key is inserted as by Insert.
   */
  function Set<K, V>(d: Dict<K, V>, key: K, value: V): (r: Dict<K, V>)
    ensures r.limit == d.limit
    ensures key in d.entries ==> r.entries == d.entries[key := value] && r.queue == d.queue + [key]
    ensures key !in d.entries ==> r == Insert(d, key, value)
  {
    if key in d.entries then d.(entries := d.entries[key := value], queue := d.queue + [key])
    else Insert(d, key, value)
  }

  /** Add: a key already stored is an error (the base class throws); otherwise Insert. */
  function Add<K, V>(d: Dict<K, V>, key: K, value: V): (r: Result<Dict<K, V>, DictError>)
    ensures r.Failure? <==> ContainsKey(d, key)
    ensures r.Failure? ==> r.error == DuplicateKey
    ensures r.Success? ==> r.value.entries == Insert(d, key, value).entries
    ensures r.Success? ==> r.value == Insert(d, key, value)
  {
    if key in d.entries then Failure(DuplicateKey) else Success(Insert(d, key, value))
  }

  // ---------------------------------------------------------------------
  // Queue facts

  function Elems<K>(q: seq<K>): set<K>
  {
    set i | 0 <= i < |q| :: q[i]
  }

  predicate Distinct<K(==)>(q: seq<K>)
  {
    forall i, j :: 0 <= i < j < |q| ==> q[i] != q[j]
  }

  /** Every stored key is somewhere in the queue. */
  ghost predicate Tracked<K, V>(d: Dict<K, V>)
  {
    forall k :: k in d.entries ==> k in d.queue
  }

  /**
   * The queue lists each stored key exactly once, and nothing else, and the
   * count is within the limit.
   */
  ghost predicate Exact<K, V>(d: Dict<K, V>)
  {
    Distinct(d.queue) && Elems(d.queue) == d.entries.Keys && |d.entries| <= if d.limit < 0 then 0 else d.limit
  }

  lemma ElemsAppend<K>(q: seq<K>, x: K)
    ensures Elems(q + [x]) == Elems(q) + {x}
  {
    var qx := q + [x];
    assert qx[|q|] == x;
    forall y | y in Elems(q)
      ensures y in Elems(qx)
    {
      var i :| 0 <= i < |q| && q[i] == y;
      assert qx[i] == y;
    }
  }

  lemma ElemsTail<K>(q: seq<K>)
    requires |q| > 0 && Distinct(q)
    ensures Elems(q[1..]) == Elems(q) - {q[0]}
    ensures Distinct(q[1..])
  {
    forall y | y in Elems(q) - {q[0]}
      ensures y in Elems(q[1..])
    {
      var i :| 0 <= i < |q| && q[i] == y;
      assert q[1..][i - 1] == y;
    }
  }

  /** The stored keys are always all queued, whatever the operations. */
  lemma TrackedPreserved<K, V>(d: Dict<K, V>, key: K, value: V)
    requires Tracked(d)
    ensures Tracked(New<K, V>(d.limit))
    ensures Get(d, key).Success? ==> Tracked(Get(d, key).value.1)
    ensures Tracked(Set(d, key, value))
    ensures Add(d, key, value).Success? ==> Tracked(Add(d, key, value).value)
  {
    if key !in d.entries {
      var r := Insert(d, key, value);
      var q := d.queue + [key];
      forall k | k in r.entries
        ensures k in r.queue
      {
        assert k in q;
        if |d.entries[key := value]| > d.limit {
          var i :| 0 <= i < |q| && q[i] == k;
          assert i != 0;
          assert r.queue[i - 1] == k;
        }
      }
    }
  }

  /**
   * While only new keys are added, the dictionary behaves as a FIFO of at
   * most `limit` keys: the queue is exactly the stored keys, oldest first,
   * and the count never exceeds the limit.
   */
  lemma InsertKeepsExact<K, V>(d: Dict<K, V>, key: K, value: V)
    requires Exact(d) && key !in d.entries
    ensures Exact(Insert(d, key, value))
    ensures Insert(d, key, value).queue == if |d.entries| + 1 > d.limit then (d.queue + [key])[1..] else d.queue + [key]
  {
    var q := d.queue + [key];
    var e := d.entries[key := value];
    assert |e| == |d.entries| + 1;
    if |e| > d.limit {
      assert Insert(d, key, value) == Dict(d.limit, e - {q[0]}, q[1..]);
      InsertOverLimit(d, key, value);
    } else {
      assert Insert(d, key, value) == Dict(d.limit, e, q);
      InsertUnderLimit(d, key, value);
    }
  }

  lemma InsertUnderLimit<K, V>(d: Dict<K, V>, key: K, value: V)
    requires Exact(d) && key !in d.entries && |d.entries| + 1 <= d.limit
    ensures Exact(Dict(d.limit, d.entries[key := value], d.queue + [key]))
  {
    AppendFresh(d.queue, key);
  }

  lemma InsertOverLimit<K, V>(d: Dict<K, V>, key: K, value: V)
    requires Exact(d) && key !in d.entries && |d.entries| + 1 > d.limit
    ensures Exact(Dict(d.limit, d.entries[key := value] - {(d.queue + [key])[0]}, (d.queue + [key])[1..]))
  {
    AppendThenEvict(d.queue, key, d.entries[key := value]);
  }

  /** Queueing a fresh key and then evicting the head keeps the queue exactly the stored keys. */
  lemma AppendThenEvict<K, V>(q: seq<K>, x: K, e: map<K, V>)
    requires Distinct(q) && x !in Elems(q) && e.Keys == Elems(q) + {x}
    ensures Distinct((q + [x])[1..]) && Elems((q + [x])[1..]) == (e - {(q + [x])[0]}).Keys
    ensures |e - {(q + [x])[0]}| == |e| - 1
  {
    AppendFresh(q, x);
    EvictOldest(q + [x], e);
  }

  /** Queueing a key not yet queued keeps the queue free of repeats. */
  lemma AppendFresh<K>(q: seq<K>, x: K)
    requires Distinct(q) && x !in Elems(q)
    ensures Distinct(q + [x]) && Elems(q + [x]) == Elems(q) + {x}
  {
    ElemsAppend(q, x);
    var qx := q + [x];
    forall i, j | 0 <= i < j < |qx|
      ensures qx[i] != qx[j]
    {
      if j == |q| {
        assert qx[i] in Elems(q);
      }
    }
  }

  /** Dequeuing the head of an exact queue and removing that key leaves one entry fewer. */
  lemma EvictOldest<K, V>(q: seq<K>, e: map<K, V>)
    requires |q| > 0 && Distinct(q) && e.Keys == Elems(q)
    ensures Distinct(q[1..]) && Elems(q[1..]) == (e - {q[0]}).Keys
    ensures |e - {q[0]}| == |e| - 1
  {
    ElemsTail(q);
    var r := e - {q[0]};
    assert r.Keys == e.Keys - {q[0]};
    assert |r.Keys| == |e.Keys| - 1;
  }

  lemma NewIsExact<K, V>(limit: int)
    ensures Exact(New<K, V>(limit))
  {
  }

  // ---------------------------------------------------------------------
  // Sequences of operations

  /** A call on the dictionary. */
  datatype Op<K, V> = OpGet(key: K) | OpSet(key: K, value: V) | OpAdd(key: K, value: V)

  /** One call as written; a call that throws leaves the dictionary as it was. */
  function Step<K, V>(d: Dict<K, V>, op: Op<K, V>): Dict<K, V>
  {
    match op
    case OpGet(k) => if Get(d, k).Success? then Get(d, k).value.1 else d
    case OpSet(k, v) => Set(d, k, v)
    case OpAdd(k, v) => if Add(d, k, v).Success? then Add(d, k, v).value else d
  }

  function Run<K, V>(d: Dict<K, V>, ops: seq<Op<K, V>>): Dict<K, V>
    decreases |ops|
  {
    if |ops| == 0 then d else Run(Step(d, ops[0]), ops[1..])
  }

  /**
   * As written, the limit does not bound the count: with limit 1, adding
   * 1, reading 1, adding 2 and adding 3 leaves two entries, because the
   * read queued a second copy of 1 that the last eviction dequeues in
   * place of a stored key.
   */
  lemma AsWrittenExceedsLimit()
    ensures |Run(New<int, int>(1), [OpAdd(1, 10), OpGet(1), OpAdd(2, 20), OpAdd(3, 30)]).entries| == 2
  {
    var d0 := New<int, int>(1);
    var d3 := Dict(1, map[2 := 20], [1, 2]);
    var ops := [OpAdd(1, 10), OpGet(1), OpAdd(2, 20), OpAdd(3, 30)];
    AsWrittenPrefix();
    RunSplit(d0, ops, 3);
    assert ops[..3] == [OpAdd(1, 10), OpGet(1), OpAdd(2, 20)];
    assert ops[3..] == [OpAdd(3, 30)];
    AsWrittenLastAdd();
    assert Run(d3, [OpAdd(3, 30)]) == Run(Step(d3, OpAdd(3, 30)), []);
  }

  /** The last Add of the first counterexample dequeues the stale 1 and keeps both 2 and 3. */
  lemma AsWrittenLastAdd()
    ensures |Step(Dict(1, map[2 := 20], [1, 2]), OpAdd(3, 30)).entries| == 2
  {
    var d3 := Dict(1, map[2 := 20], [1, 2]);
    var e := map[2 := 20][3 := 30];
    assert |e| == 2;
    assert Insert(d3, 3, 30).entries == e - {1};
    assert e - {1} == e;
  }

  /** Adding 1, reading 1 and adding 2 with limit 1 leaves 2 stored and 1 queued twice over. */
  lemma AsWrittenPrefix()
    ensures Run(New<int, int>(1), [OpAdd(1, 10), OpGet(1), OpAdd(2, 20)]) == Dict(1, map[2 := 20], [1, 2])
  {
    var d0 := New<int, int>(1);
    var d1 := Step(d0, OpAdd(1, 10));
    assert d1 == Dict(1, map[1 := 10], [1]);
    var d2 := Step(d1, OpGet(1));
    assert d2 == Dict(1, map[1 := 10], [1, 1]);
    var d3 := Step(d2, OpAdd(2, 20));
    assert d3.entries == map[1 := 10][2 := 20] - {1};
    assert d3 == Dict(1, map[2 := 20], [1, 2]);
    var ops := [OpAdd(1, 10), OpGet(1), OpAdd(2, 20)];
    assert Run(d0, ops) == Run(d1, ops[1..]);
    assert Run(d1, ops[1..]) == Run(d2, ops[2..]);
    assert Run(d2, ops[2..]) == Run(d3, []);
  }

  /** Running a sequence of calls is running its prefix, then its suffix. */
  lemma {:induction false} RunSplit<K, V>(d: Dict<K, V>, ops: seq<Op<K, V>>, n: nat)
    requires n <= |ops|
    ensures Run(d, ops) == Run(Run(d, ops[..n]), ops[n..])
    decreases n
  {
    if n > 0 {
      RunSplit(Step(d, ops[0]), ops[1..], n - 1);
      assert ops[1..][..n - 1] == ops[..n][1..];
      assert ops[1..][n - 1..] == ops[n..];
    }
  }

  /** The keys of a sequence of calls, in call order. */
  function Keys<K, V>(ops: seq<Op<K, V>>): (ks: seq<K>)
    ensures |ks| == |ops|
    ensures forall i :: 0 <= i < |ops| ==> ks[i] == ops[i].key
    decreases |ops|
  {
    if |ops| == 0 then [] else Keys(ops[..|ops| - 1]) + [ops[|ops| - 1].key]
  }

  /** Calls that are all Adds, each of a key no other call names. */
  predicate FreshAdds<K(==), V>(ops: seq<Op<K, V>>)
  {
    (forall i :: 0 <= i < |ops| ==> ops[i].OpAdd?)
    && (forall i, j :: 0 <= i < j < |ops| ==> ops[i].key != ops[j].key)
  }

  /** How many of n fresh keys a dictionary with this limit keeps: the smaller of n and the limit, none for a limit below 1. */
  function Kept(limit: int, n: nat): (m: nat)
    ensures m <= n && (limit <= 0 ==> m == 0) && (limit > 0 ==> m <= limit)
    ensures limit > 0 ==> (m == n <==> n <= limit)
  {
    if limit <= 0 then 0 else if n <= limit then n else limit
  }

  /** d stores exactly the last Kept of the keys ks, and queues them oldest first. */
  ghost predicate KeepsLast<K, V>(d: Dict<K, V>, ks: seq<K>)
  {
    Exact(d) && |d.entries| == Kept(d.limit, |ks|) && d.queue == ks[|ks| - Kept(d.limit, |ks|)..]
  }

  /**
   * From a new dictionary, Adds of distinct keys behave as a FIFO: the last
   * min(n, limit) keys are stored, queued oldest first, and nothing else.
   */
  lemma {:induction false} FreshAddsKeepLast<K, V>(limit: int, ops: seq<Op<K, V>>)
    requires FreshAdds(ops)
    ensures Run(New<K, V>(limit), ops).limit == limit
    ensures KeepsLast(Run(New<K, V>(limit), ops), Keys(ops))
    decreases |ops|
  {
    var n := |ops|;
    if n > 0 {
      var pre := ops[..n - 1];
      FreshAddsPrefix(ops);
      FreshAddsKeepLast(limit, pre);
      RunLast(New<K, V>(limit), ops);
      FreshAddStep(Run(New<K, V>(limit), pre), Keys(pre), ops[n - 1]);
    }
  }

  /** Running calls ends with one Step of the last call. */
  lemma RunLast<K, V>(d: Dict<K, V>, ops: seq<Op<K, V>>)
    requires |ops| > 0
    ensures Run(d, ops) == Step(Run(d, ops[..|ops| - 1]), ops[|ops| - 1])
  {
    var n := |ops|;
    RunSplit(d, ops, n - 1);
    assert ops[n - 1..] == [ops[n - 1]];
    var d' := Run(d, ops[..n - 1]);
    assert Run(d', [ops[n - 1]]) == Run(Step(d', ops[n - 1]), []);
  }

  /** Dropping the last of some fresh Adds leaves fresh Adds that never name its key. */
  lemma FreshAddsPrefix<K, V>(ops: seq<Op<K, V>>)
    requires |ops| > 0 && FreshAdds(ops)
    ensures FreshAdds(ops[..|ops| - 1])
    ensures ops[|ops| - 1].OpAdd? && ops[|ops| - 1].key !in Keys(ops[..|ops| - 1])
  {
    var n := |ops|;
    var pre := ops[..n - 1];
    assert forall i :: 0 <= i < n - 1 ==> pre[i] == ops[i];
    forall i | 0 <= i < n - 1
      ensures Keys(pre)[i] != ops[n - 1].key
    {
      assert Keys(pre)[i] == ops[i].key;
    }
  }

  /** One more fresh Add keeps the stored keys the last Kept of the keys added. */
  lemma FreshAddStep<K, V>(d: Dict<K, V>, ks: seq<K>, op: Op<K, V>)
    requires KeepsLast(d, ks) && op.OpAdd? && op.key !in ks
    ensures Step(d, op).limit == d.limit
    ensures KeepsLast(Step(d, op), ks + [op.key])
  {
    NotInSuffix(ks, |ks| - Kept(d.limit, |ks|), op.key);
    assert Step(d, op) == Insert(d, op.key, op.value);
    FreshInsert(d, ks, op.key, op.value);
  }

  /** A key missing from a sequence is missing from every suffix of it. */
  lemma NotInSuffix<K>(ks: seq<K>, a: nat, k: K)
    requires a <= |ks| && k !in ks
    ensures k !in Elems(ks[a..])
  {
    forall i | 0 <= i < |ks| - a
      ensures ks[a..][i] != k
    {
      assert ks[a..][i] == ks[a + i];
    }
  }

  lemma FreshInsert<K, V>(d: Dict<K, V>, ks: seq<K>, k: K, v: V)
    requires KeepsLast(d, ks) && k !in d.entries
    ensures KeepsLast(Insert(d, k, v), ks + [k])
  {
    var m := Kept(d.limit, |ks|);
    var r := Insert(d, k, v);
    var e := d.entries[k := v];
    InsertKeepsExact(d, k, v);
    KeptStep(d.limit, |ks|);
    SuffixAppend(ks, |ks| - m, k);
    assert |e| == m + 1;
    if m + 1 > d.limit {
      OldestStored(d, k, v);
      assert r.entries == e - {Oldest(d.queue, k)};
      assert |r.entries| == m;
      assert r.queue == (ks + [k])[|ks| + 1 - m..];
    } else {
      assert r.entries == e;
      assert r.queue == (ks + [k])[|ks| - m..];
    }
  }

  /** One more key keeps the count at the limit, or else adds one to it. */
  lemma KeptStep(limit: int, n: nat)
    ensures Kept(limit, n) + 1 > limit ==> Kept(limit, n + 1) == Kept(limit, n)
    ensures Kept(limit, n) + 1 <= limit ==> Kept(limit, n + 1) == Kept(limit, n) + 1
  {
  }

  lemma SuffixAppend<K>(ks: seq<K>, a: nat, k: K)
    requires a <= |ks|
    ensures ks[a..] + [k] == (ks + [k])[a..]
    ensures (ks[a..] + [k])[1..] == (ks + [k])[a + 1..]
  {
  }

  /** The key an over-limit Insert evicts is one of the entries it had. */
  lemma OldestStored<K, V>(d: Dict<K, V>, k: K, v: V)
    requires Exact(d)
    ensures |d.entries[k := v] - {Oldest(d.queue, k)}| == |d.entries[k := v]| - 1
  {
    var o := Oldest(d.queue, k);
    if |d.queue| > 0 {
      assert o == d.queue[0];
      assert o in Elems(d.queue);
    }
    assert o in d.entries[k := v];
  }

  /**
   * As written, an Add that succeeds can store nothing: with limit 1, after
   * adding 1, reading 1 and adding 2, adding 1 again dequeues the stale copy
   * of 1 and removes the entry just added.
   */
  lemma AsWrittenLosesAdd()
    ensures var d := Run(New<int, int>(1), [OpAdd(1, 10), OpGet(1), OpAdd(2, 20)]);
      Add(d, 1, 11).Success? && !ContainsKey(Add(d, 1, 11).value, 1)
  {
    AsWrittenPrefix();
    var d3 := Dict(1, map[2 := 20], [1, 2]);
    assert Add(d3, 1, 11).value.entries == map[2 := 20][1 := 11] - {1};
  }

  // ---------------------------------------------------------------------
  // Corrected: a read or an overwrite moves the key to the back of the queue

  /** The queue with every copy of x removed. */
  function Without<K(==)>(q: seq<K>, x: K): seq<K>
    decreases |q|
  {
    if |q| == 0 then [] else (if q[0] == x then [] else [q[0]]) + Without(q[1..], x)
  }

  lemma {:induction false} WithoutSpec<K>(q: seq<K>, x: K)
    ensures Elems(Without(q, x)) == Elems(q) - {x}
    ensures Distinct(q) ==> Distinct(Without(q, x))
    decreases |q|
  {
    if |q| > 0 {
      WithoutSpec(q[1..], x);
      var head: seq<K> := if q[0] == x then [] else [q[0]];
      var w := Without(q[1..], x);
      assert Without(q, x) == head + w;
      assert Elems(q) == Elems(q[1..]) + {q[0]} by {
        forall y | y in Elems(q)
          ensures y in Elems(q[1..]) + {q[0]}
        {
          var i :| 0 <= i < |q| && q[i] == y;
          if i > 0 {
            assert q[1..][i - 1] == y;
          }
        }
        forall y | y in Elems(q[1..])
          ensures y in Elems(q)
        {
          var i :| 0 <= i < |q[1..]| && q[1..][i] == y;
          assert q[i + 1] == y;
        }
      }
      ElemsConcat(head, w);
      if Distinct(q) {
        assert q[0] !in Elems(q[1..]) by {
          forall i | 0 <= i < |q[1..]|
            ensures q[1..][i] != q[0]
          {
            assert q[1..][i] == q[i + 1];
          }
        }
        var r := head + w;
        forall i, j | 0 <= i < j < |r|
          ensures r[i] != r[j]
        {
          if i < |head| {
            assert r[j] == w[j - |head|];
            assert w[j - |head|] in Elems(w);
          } else {
            assert r[i] == w[i - |head|] && r[j] == w[j - |head|];
          }
        }
      }
    }
  }

  lemma ElemsConcat<K>(a: seq<K>, b: seq<K>)
    ensures Elems(a + b) == Elems(a) + Elems(b)
  {
    var ab := a + b;
    forall y | y in Elems(ab)
      ensures y in Elems(a) + Elems(b)
    {
      var i :| 0 <= i < |ab| && ab[i] == y;
      if i >= |a| {
        assert b[i - |a|] == y;
      }
    }
    forall y | y in Elems(a) + Elems(b)
      ensures y in Elems(ab)
    {
      if y in Elems(a) {
        var i :| 0 <= i < |a| && a[i] == y;
        assert ab[i] == y;
      } else {
        var i :| 0 <= i < |b| && b[i] == y;
        assert ab[i + |a|] == y;
      }
    }
  }

  /** Mark a key as the most recently used: it moves to the back of the queue. */
  function Touch<K(==)>(q: seq<K>, key: K): (r: seq<K>)
    ensures |r| > 0 && r[|r| - 1] == key
  {
    Without(q, key) + [key]
  }

  lemma TouchKeepsExact<K, V>(d: Dict<K, V>, key: K, entries: map<K, V>)
    requires Exact(d) && key in d.entries && entries.Keys == d.entries.Keys
    ensures Exact(Dict(d.limit, entries, Touch(d.queue, key)))
  {
    WithoutSpec(d.queue, key);
    var w := Without(d.queue, key);
    ElemsAppend(w, key);
    var t := w + [key];
    assert key !in Elems(w);
    forall i, j | 0 <= i < j < |t|
      ensures t[i] != t[j]
    {
      if j == |w| {
        assert t[i] in Elems(w);
      }
    }
    assert |entries| == |entries.Keys| == |d.entries.Keys| == |d.entries|;
  }

  /** The corrected getter: the stored value, and the key becomes the most recent. */
  function GetRecent<K(==), V>(d: Dict<K, V>, key: K): (r: Result<(V, Dict<K, V>), DictError>)
    ensures r.Success? <==> ContainsKey(d, key)
    ensures r.Failure? ==> r.error == KeyNotFound
    ensures r.Success? ==> r.value.0 == d.entries[key] && r.value.0 == Get(d, key).value.0
    ensures r.Success? ==> r.value.1.entries == d.entries && r.value.1.limit == d.limit
    ensures r.Success? ==> |r.value.1.queue| > 0 && r.value.1.queue[|r.value.1.queue| - 1] == key
  {
    if key !in d.entries then Failure(KeyNotFound)
    else Success((d.entries[key], d.(queue := Touch(d.queue, key))))
  }

  /** The corrected setter: an overwrite makes the key the most recent; a new key is inserted. */
  function SetRecent<K(==), V>(d: Dict<K, V>, key: K, value: V): (r: Dict<K, V>)
    ensures r.limit == d.limit
    ensures r.entries == Set(d, key, value).entries
    ensures key in d.entries ==> |r.queue| > 0 && r.queue[|r.queue| - 1] == key
  {
    if key in d.entries then Dict(d.limit, d.entries[key := value], Touch(d.queue, key))
    else Insert(d, key, value)
  }

  function StepRecent<K(==), V>(d: Dict<K, V>, op: Op<K, V>): Dict<K, V>
  {
    match op
    case OpGet(k) => if GetRecent(d, k).Success? then GetRecent(d, k).value.1 else d
    case OpSet(k, v) => SetRecent(d, k, v)
    case OpAdd(k, v) => if Add(d, k, v).Success? then Add(d, k, v).value else d
  }

  function RunRecent<K(==), V>(d: Dict<K, V>, ops: seq<Op<K, V>>): Dict<K, V>
    decreases |ops|
  {
    if |ops| == 0 then d else RunRecent(StepRecent(d, ops[0]), ops[1..])
  }

  /** Every corrected call keeps the queue exactly the stored keys and the count within the limit. */
  lemma StepRecentKeepsExact<K, V>(d: Dict<K, V>, op: Op<K, V>)
    requires Exact(d)
    ensures Exact(StepRecent(d, op))
  {
    match op
    case OpGet(k) =>
      if k in d.entries {
        TouchKeepsExact(d, k, d.entries);
      }
    case OpSet(k, v) =>
      if k in d.entries {
        TouchKeepsExact(d, k, d.entries[k := v]);
      } else {
        InsertKeepsExact(d, k, v);
      }
    case OpAdd(k, v) =>
      if k !in d.entries {
        InsertKeepsExact(d, k, v);
      }
  }

  /**
   * The corrected dictionary never holds more than `limit` entries (none
   * for a negative limit), after any sequence of calls from a new one.
   */
  lemma {:induction false} RunRecentWithinLimit<K, V>(limit: int, ops: seq<Op<K, V>>)
    ensures Exact(RunRecent(New<K, V>(limit), ops))
    ensures |RunRecent(New<K, V>(limit), ops).entries| <= if limit < 0 then 0 else limit
  {
    RunRecentKeepsExact(New<K, V>(limit), ops);
  }

  lemma {:induction false} RunRecentKeepsExact<K, V>(d: Dict<K, V>, ops: seq<Op<K, V>>)
    requires Exact(d)
    ensures Exact(RunRecent(d, ops)) && RunRecent(d, ops).limit == d.limit
    decreases |ops|
  {
    if |ops| > 0 {
      StepRecentKeepsExact(d, ops[0]);
      assert StepRecent(d, ops[0]).limit == d.limit;
      RunRecentKeepsExact(StepRecent(d, ops[0]), ops[1..]);
    }
  }

  /** With a positive limit, the corrected setter always stores the value it is given. */
  lemma SetRecentStores<K, V>(d: Dict<K, V>, key: K, value: V)
    requires Exact(d) && d.limit >= 1
    ensures ContainsKey(SetRecent(d, key, value), key) && SetRecent(d, key, value).entries[key] == value
  {
    if key !in d.entries {
      InsertStores(d, key, value);
    }
  }

  /**
   * With a positive limit, an Add that succeeds on a dictionary whose queue
   * is exact, as the corrected calls keep it, stores the value it is given.
   */
  lemma AddStores<K, V>(d: Dict<K, V>, key: K, value: V)
    requires Exact(d) && d.limit >= 1
    ensures Add(d, key, value).Success? ==>
      ContainsKey(Add(d, key, value).value, key) && Add(d, key, value).value.entries[key] == value
  {
    if key !in d.entries {
      InsertStores(d, key, value);
    }
  }

  /** On an exact queue the key an Insert evicts is an old one, never the key inserted. */
  lemma InsertStores<K, V>(d: Dict<K, V>, key: K, value: V)
    requires Exact(d) && d.limit >= 1 && key !in d.entries
    ensures key in Insert(d, key, value).entries && Insert(d, key, value).entries[key] == value
  {
    if |d.entries| + 1 > d.limit {
      assert d.entries.Keys != {} by {
        assert |d.entries.Keys| == |d.entries| >= 1;
      }
      var y :| y in Elems(d.queue);
      assert Oldest(d.queue, key) == d.queue[0];
      assert d.queue[0] in Elems(d.queue);
    }
  }
}
