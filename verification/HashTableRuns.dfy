/**
 Whole runs of the hash table: any sequence of operations answers as a plain map would, no bucket
 ever outgrows its share of the directory, and insertion is possible exactly when hashes tell
 enough keys apart.
 */
module HashTableRuns {
  import opened Options
  import opened Division
  import opened Bits
  import opened ExtendibleHashing

  datatype Op<K, V> = InsertOp(key: K, value: V) | FindOp(key: K) | RemoveOp(key: K)

  datatype Answer<V> = Inserted | Found(result: Option<V>) | Removed(found: bool)

  /** The plain map that the table stands for, after one operation. */
  function MapAfter<K, V>(m: map<K, V>, op: Op<K, V>): (m': map<K, V>) {
    match op
    case InsertOp(k, v) => m[k := v]
    case FindOp(_) => m
    case RemoveOp(k) => m - {k}
  }

  function MapAnswer<K, V>(m: map<K, V>, op: Op<K, V>): (a: Answer<V>) {
    match op
    case InsertOp(_, _) => Inserted
    case FindOp(k) => Found(if k in m then Some(m[k]) else None)
    case RemoveOp(k) => Removed(k in m)
  }

  function MapRun<K, V>(m: map<K, V>, ops: seq<Op<K, V>>): (m': map<K, V>) {
    if ops == [] then m else MapAfter(MapRun(m, ops[..|ops| - 1]), ops[|ops| - 1])
  }

  function MapAnswers<K, V>(m: map<K, V>, ops: seq<Op<K, V>>): (answers: seq<Answer<V>>)
    ensures |answers| == |ops|
  {
    if ops == [] then [] else
      var init := ops[..|ops| - 1];
      MapAnswers(m, init) + [MapAnswer(MapRun(m, init), ops[|ops| - 1])]
  }

  /** No `size + 1` distinct keys of `keys` agree on their low `d` hash bits. */
  ghost predicate SpreadOut<K>(hash: K -> nat, keys: set<K>, d: nat, size: nat) {
    forall k :: k in keys ==> |set x | x in keys && Low(hash(x), d) == Low(hash(k), d)| <= size
  }

  ghost function OpKeys<K, V>(ops: seq<Op<K, V>>): (keys: set<K>) {
    set i | 0 <= i < |ops| :: ops[i].key
  }

  lemma SpreadMakesRoom<K, V>(hash: K -> nat, keys: set<K>, d: nat, size: nat, m: map<K, V>, key: K)
    requires SpreadOut(hash, keys, d, size) && m.Keys <= keys && key in keys && key !in m
    ensures |Rivals(hash, m, key, d)| < size
  {
    var all := set x | x in keys && Low(hash(x), d) == Low(hash(key), d);
    var rivals := Rivals(hash, m, key, d);
    assert rivals + {key} <= all;
    var rest := all - (rivals + {key});
    assert all == rivals + {key} + rest;
  }

  /** Every run of insertions, lookups and removals answers as the plain map does, at depth D or the old one. */
  method Run<K(==), V>(t: ExtendibleHashTable<K, V>, ops: seq<Op<K, V>>, ghost D: nat, ghost keys: set<K>)
    returns (answers: seq<Answer<V>>)
    requires t.Valid() && D <= 30 && t.Contents.Keys <= keys && OpKeys(ops) <= keys
    requires SpreadOut(t.hash, keys, D, t.bucketSize)
    modifies t, t.dir
    ensures t.Valid() && t.Contents == MapRun(old(t.Contents), ops)
    ensures answers == MapAnswers(old(t.Contents), ops)
    ensures old(t.globalDepth) <= t.globalDepth <= Max(old(t.globalDepth), D)
  {
    hide ViewOk, Low, ExtendibleHashTable.Valid;
    answers := [];
    for i := 0 to |ops|
      invariant t.Valid() && t.Contents.Keys <= keys
      invariant forall j :: 0 <= j < |t.dir| ==> t.dir[j] in old(t.dir) || fresh(t.dir[j])
      invariant t.Contents == MapRun(old(t.Contents), ops[..i])
      invariant answers == MapAnswers(old(t.Contents), ops[..i])
      invariant old(t.globalDepth) <= t.globalDepth <= Max(old(t.globalDepth), D)
    {
      assert ops[..i + 1][..i] == ops[..i];
      assert ops[i].key in OpKeys(ops);
      var a := Step(t, ops[i], D, keys);
      answers := answers + [a];
    }
    assert ops[..|ops|] == ops;
  }

  method Step<K(==), V>(t: ExtendibleHashTable<K, V>, op: Op<K, V>, ghost D: nat, ghost keys: set<K>)
    returns (answer: Answer<V>)
    requires t.Valid() && D <= 30 && t.Contents.Keys <= keys && op.key in keys
    requires SpreadOut(t.hash, keys, D, t.bucketSize)
    modifies t, t.dir
    ensures t.Valid() && t.Contents == MapAfter(old(t.Contents), op)
    ensures answer == MapAnswer(old(t.Contents), op)
    ensures old(t.globalDepth) <= t.globalDepth <= Max(old(t.globalDepth), D)
    ensures forall j :: 0 <= j < |t.dir| ==> t.dir[j] in old(t.dir) || fresh(t.dir[j])
  {
    hide ViewOk, Low, SpreadOut;
    match op
    case InsertOp(k, v) =>
      if k !in t.Contents {
        SpreadMakesRoom(t.hash, keys, D, t.bucketSize, t.Contents, k);
        assert t.RoomAt(t.Contents, k, D);
        t.RoomStays(t.Contents, k, D, 30);
      }
      var ok := t.Insert(k, v);
      assert ok;
      answer := Inserted;
    case FindOp(k) =>
      var r := t.Find(k);
      answer := Found(r);
    case RemoveOp(k) =>
      var found := t.Remove(k);
      answer := Removed(found);
  }

  /** A bucket of local depth d is aliased by exactly 2^(g-d) slots. */
  lemma BucketSlots<B, K, V>(v: View<B, K, V>, i: nat)
    requires ShapeOk(v) && i < |v.dir|
    ensures |set j: nat | j < |v.dir| && v.dir[j] == v.dir[i]| == Pow2(v.g - v.dep[i])
  {
    SlotCount(i, v.dep[i], v.g);
    hide Low, Pow2;
    assert (set j: nat | j < |v.dir| && v.dir[j] == v.dir[i]) == SlotsOf(i, v.dep[i], v.g);
  }

  /** Enough bits tell any two different hashes of a finite key set apart. */
  lemma {:induction false} EnoughBits<K>(hash: K -> nat, keys: set<K>) returns (d: nat)
    ensures forall k :: k in keys ==> hash(k) < Pow2(d)
    decreases keys
  {
    if keys == {} {
      d := 0;
    } else {
      var k :| k in keys;
      var e := EnoughBits(hash, keys - {k});
      d := e + hash(k);
      Pow2Mono(e, d);
      BelowItsPower(hash(k));
      Pow2Mono(hash(k), d);
      hide Pow2;
    }
  }

  lemma {:induction false} BelowItsPower(n: nat)
    ensures n < Pow2(n)
  {
    if n != 0 {
      BelowItsPower(n - 1);
    }
  }

  /** The insertion loop can end at some depth exactly when fewer than `size` keys have the very same hash. */
  lemma RoomExists<K, V>(hash: K -> nat, size: nat, m: map<K, V>, key: K)
    ensures (exists d: nat :: |Rivals(hash, m, key, d)| < size) <==>
            |set k | k in m && hash(k) == hash(key)| < size
  {
    var same := set k | k in m && hash(k) == hash(key);
    forall d: nat ensures |same| <= |Rivals(hash, m, key, d)| {
      var r := Rivals(hash, m, key, d);
      assert r == same + (r - same);
    }
    var d := EnoughBits(hash, m.Keys + {key});
    forall k | k in Rivals(hash, m, key, d) ensures k in same {
      assert k in m.Keys + {key} && key in m.Keys + {key};
      LowOfSmall(hash(k), d);
      LowOfSmall(hash(key), d);
    }
    assert Rivals(hash, m, key, d) == same;
  }
}
