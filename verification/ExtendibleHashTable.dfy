/**
 The extendible hash table: a directory of 2^globalDepth slots that alias shared buckets,
 bucket splits, and directory doubling with temporarily empty slots. `Contents` is the plain
 map the table stands for; the directory shape and the placement of every pair are in `Valid`.
 */
module ExtendibleHashing {
  import opened Bits
  import opened Division
  import opened Options

  /** No two pairs of a bucket share a key. */
  ghost predicate DistinctKeys<K, V>(list: seq<(K, V)>) {
    forall i, j :: 0 <= i < j < |list| ==> list[i].0 != list[j].0
  }

  ghost predicate HasKey<K, V>(list: seq<(K, V)>, key: K) {
    exists i :: 0 <= i < |list| && list[i].0 == key
  }

  ghost function KeysOf<K, V>(list: seq<(K, V)>): (r: set<K>) {
    set i | 0 <= i < |list| :: list[i].0
  }

  lemma {:induction false} KeysOfSize<K, V>(list: seq<(K, V)>)
    requires DistinctKeys(list)
    ensures |KeysOf(list)| == |list|
  {
    if list == [] {
      assert KeysOf(list) == {};
    } else {
      var n := |list| - 1;
      KeysOfSize(list[..n]);
      assert KeysOf(list) == KeysOf(list[..n]) + {list[n].0};
    }
  }

  class Bucket<K(==), V> {
    const size: nat
    var depth: nat
    var list: seq<(K, V)>

    ghost predicate Valid()
      reads this
    {
      |list| <= size && DistinctKeys(list)
    }

    constructor (arraySize: nat, d: nat)
      ensures Valid() && size == arraySize && depth == d && list == []
    {
      size, depth, list := arraySize, d, [];
    }

    /** Position of the key, or the length of the list when the key is absent. */
    method Locate(key: K) returns (i: nat)
      ensures i <= |list| && (i < |list| ==> list[i].0 == key)
      ensures i == |list| <==> !HasKey(list, key)
    {
      i := 0;
      while i < |list| && list[i].0 != key
        invariant i <= |list| && forall j :: 0 <= j < i ==> list[j].0 != key
      {
        i := i + 1;
      }
    }

    method Remove(key: K) returns (found: bool)
      requires Valid()
      modifies this`list
      ensures Valid()
      ensures found <==> old(HasKey(list, key))
      ensures !HasKey(list, key)
      ensures forall e :: e in list <==> e in old(list) && e.0 != key
    {
      var i := Locate(key);
      found := i < |list|;
      if found {
        ghost var was := list;
        list := list[..i] + list[i + 1..];
        assert forall e :: e in list <==> e in was[..i] || e in was[i + 1..];
        assert was == was[..i] + [was[i]] + was[i + 1..];
      }
    }

    /** Overwrites the value of a known key; appends a new key unless the bucket is full. */
    method Insert(key: K, value: V) returns (ok: bool)
      requires Valid()
      modifies this`list
      ensures Valid()
      ensures ok <==> old(HasKey(list, key)) || old(|list|) < size
      ensures !ok ==> list == old(list)
      ensures ok ==> forall e :: e in list <==> (e in old(list) && e.0 != key) || e == (key, value)
      ensures ok && !old(HasKey(list, key)) ==> list == old(list) + [(key, value)]
    {
      var i := Locate(key);
      if i < |list| {
        ghost var was := list;
        list := list[i := (key, value)];
        assert list[i] == (key, value);
        forall e | e in was && e.0 != key ensures e in list {
          var j :| 0 <= j < |was| && was[j] == e;
          assert list[j] == e;
        }
        ok := true;
      } else if |list| == size {
        ok := false;
      } else {
        list := list + [(key, value)];
        ok := true;
      }
    }
  }

  /** Slots share a bucket exactly when they agree on that bucket's local depth. */
  ghost predicate Aliased<T>(dir: seq<T>, dep: seq<nat>) {
    |dir| == |dep| &&
    forall i, j {:trigger dir[i], dir[j]} :: 0 <= i < |dir| && 0 <= j < |dir| ==>
      (dir[i] == dir[j] <==> Low(i, dep[i]) == Low(j, dep[i]))
  }

  /** The directory after splitting slot `index` of depth `d`, doubled when `d` was the global depth. */
  ghost predicate IsSplit<T>(dir: seq<T>, dep: seq<nat>, g: nat, index: nat, even: T, odd: T,
                             dir': seq<T>, dep': seq<nat>, g': nat)
    requires |dir| == |dep| == Pow2(g) && index < |dir|
  {
    var d := dep[index];
    && d <= g && g' == (if d == g then g + 1 else g)
    && even != odd && even !in dir && odd !in dir
    && |dir'| == |dep'| == Pow2(g')
    && forall i {:trigger dir'[i]} {:trigger dep'[i]} :: 0 <= i < |dir'| ==>
      if Low(i, d) == Low(index, d) then
        dir'[i] == (if Bit(i, d) == 0 then even else odd) && dep'[i] == d + 1
      else
        dir'[i] == dir[Low(i, g)] && dep'[i] == dep[Low(i, g)]
  }

  lemma SplitPair<T>(dir: seq<T>, dep: seq<nat>, g: nat, index: nat, even: T, odd: T,
                     dir': seq<T>, dep': seq<nat>, g': nat, i: nat, j: nat)
    requires |dir| == |dep| == Pow2(g) && index < |dir| && Aliased(dir, dep)
    requires forall k :: 0 <= k < |dep| ==> dep[k] <= g
    requires IsSplit(dir, dep, g, index, even, odd, dir', dep', g')
    requires i < |dir'| && j < |dir'|
    ensures dir'[i] == dir'[j] <==> Low(i, dep'[i]) == Low(j, dep'[i])
  {
    hide Low, Bit, Pow2;
    var d := dep[index];
    var i', j' := Low(i, g), Low(j, g);
    var e := dep[i'];
    LowOfLow(i, g, d);
    LowOfLow(j, g, d);
    LowOfLow(i, g, e);
    LowOfLow(j, g, e);
    AgreeStep(i, j, d);
    assert Low(i, d) != Low(index, d) ==> (dir[i'] == dir[j'] <==> Low(i', e) == Low(j', e));
    assert dir[index] == dir[j'] <==> Low(index, d) == Low(j', d);
    assert dir[index] == dir[i'] <==> Low(index, d) == Low(i', d);
    hide Aliased;
    assert dir'[i] == Repointed(i, index, d, dir[i'], even, odd);
    assert dir'[j] == Repointed(j, index, d, dir[j'], even, odd);
  }

  lemma SplitShape<T>(dir: seq<T>, dep: seq<nat>, g: nat, index: nat, even: T, odd: T,
                      dir': seq<T>, dep': seq<nat>, g': nat)
    requires |dir| == |dep| == Pow2(g) && index < |dir| && Aliased(dir, dep)
    requires forall k :: 0 <= k < |dep| ==> dep[k] <= g
    requires IsSplit(dir, dep, g, index, even, odd, dir', dep', g')
    ensures Aliased(dir', dep')
    ensures forall k :: 0 <= k < |dep'| ==> dep'[k] <= g'
  {
    forall i, j | 0 <= i < |dir'| && 0 <= j < |dir'|
      ensures dir'[i] == dir'[j] <==> Low(i, dep'[i]) == Low(j, dep'[i])
    {
      SplitPair(dir, dep, g, index, even, odd, dir', dep', g', i, j);
    }
  }

  lemma SplitKeeps<T>(dir: seq<T>, dep: seq<nat>, g: nat, index: nat, even: T, odd: T,
                      dir': seq<T>, dep': seq<nat>, g': nat, j: nat)
    requires |dir| == |dep| == Pow2(g) && index < |dir| && Aliased(dir, dep)
    requires IsSplit(dir, dep, g, index, even, odd, dir', dep', g')
    requires j < |dir| && dir[j] != dir[index]
    ensures dir[j] in dir'
  {
    Pow2Mono(g, g');
    LowOfSmall(j, g);
    hide Low, Pow2;
    assert dir'[j] == dir[j];
  }

  lemma SplitAdds<T>(dir: seq<T>, dep: seq<nat>, g: nat, index: nat, even: T, odd: T,
                     dir': seq<T>, dep': seq<nat>, g': nat)
    requires |dir| == |dep| == Pow2(g) && index < |dir|
    requires IsSplit(dir, dep, g, index, even, odd, dir', dep', g')
    ensures even in dir' && odd in dir'
  {
    var d := dep[index];
    var i0 := Low(index, d);
    var i1 := i0 + Pow2(d);
    Pow2Mono(d + 1, g');
    BitAbove(i0, d);
    LowOfLow(index, d, d);
    AddGap(i0, d);
    hide Low, Pow2, Bit;
    assert i1 < Pow2(g');
    assert dir'[i0] == even && dir'[i1] == odd;
  }

  lemma SplitOrigin<T>(dir: seq<T>, dep: seq<nat>, g: nat, index: nat, even: T, odd: T,
                       dir': seq<T>, dep': seq<nat>, g': nat, i: nat)
    requires |dir| == |dep| == Pow2(g) && index < |dir| && Aliased(dir, dep)
    requires IsSplit(dir, dep, g, index, even, odd, dir', dep', g')
    requires i < |dir'|
    ensures dir'[i] == even || dir'[i] == odd || (dir'[i] in dir && dir'[i] != dir[index])
  {
    LowOfLow(i, g, dep[index]);
    var i' := Low(i, g);
    hide Low, Pow2;
    assert dir[index] == dir[i'] <==> Low(index, dep[index]) == Low(i', dep[index]);
  }

  /** A split removes one bucket and adds two. */
  lemma SplitBuckets<T>(dir: seq<T>, dep: seq<nat>, g: nat, index: nat, even: T, odd: T,
                        dir': seq<T>, dep': seq<nat>, g': nat)
    requires |dir| == |dep| == Pow2(g) && index < |dir| && Aliased(dir, dep)
    requires IsSplit(dir, dep, g, index, even, odd, dir', dep', g')
    ensures |set x | x in dir'| == |set x | x in dir| + 1
  {
    hide Aliased, Low, Pow2, Bit;
    assert even != odd && even !in dir && odd !in dir;
    SplitAdds(dir, dep, g, index, even, odd, dir', dep', g');
    forall j | 0 <= j < |dir| && dir[j] != dir[index] ensures dir[j] in dir' {
      SplitKeeps(dir, dep, g, index, even, odd, dir', dep', g', j);
    }
    forall i | 0 <= i < |dir'|
      ensures dir'[i] == even || dir'[i] == odd || (dir'[i] in dir && dir'[i] != dir[index])
    {
      SplitOrigin(dir, dep, g, index, even, odd, dir', dep', g', i);
    }
    hide IsSplit, Aliased;
    var before, after := set x | x in dir, set x | x in dir';
    assert after == before - {dir[index]} + {even, odd};
    assert dir[index] in before;
  }

  /** The keys of `m` whose hash shares the low `d` bits of the hash of `key`. */
  ghost function Rivals<K, V>(hash: K -> nat, m: map<K, V>, key: K, d: nat): (r: set<K>) {
    set k | k in m && Low(hash(k), d) == Low(hash(key), d)
  }

  lemma RivalsShrink<K, V>(hash: K -> nat, m: map<K, V>, key: K, d: nat, e: nat)
    requires d <= e
    ensures |Rivals(hash, m, key, e)| <= |Rivals(hash, m, key, d)|
  {
    var a, b := Rivals(hash, m, key, e), Rivals(hash, m, key, d);
    forall k | k in a ensures k in b {
      AgreeDown(hash(k), hash(key), e, d);
    }
    assert b == a + (b - a);
  }

  /** What the table's heap holds, slot by slot. */
  datatype View<B, K, V> = View(g: nat, dir: seq<B>, dep: seq<nat>, lists: seq<seq<(K, V)>>)

  /** Directory shape: 2^g slots that share a bucket exactly when they agree on its local depth. */
  ghost predicate ShapeOk<B, K, V>(v: View<B, K, V>) {
    && |v.dir| == |v.dep| == |v.lists| == Pow2(v.g)
    && Aliased(v.dir, v.dep)
    && (forall i :: 0 <= i < |v.dep| ==> v.dep[i] <= v.g)
    && (forall i, j :: 0 <= i < |v.dir| && 0 <= j < |v.dir| && v.dir[i] == v.dir[j] ==> v.lists[i] == v.lists[j])
  }

  /** A bucket holds at most `size` pairs with distinct keys, all hashing to its slots. */
  ghost predicate SlotOk<B, K, V>(v: View<B, K, V>, hash: K -> nat, size: nat, i: nat)
    requires i < |v.dep| && i < |v.lists|
  {
    && |v.lists[i]| <= size && DistinctKeys(v.lists[i])
    && forall e :: e in v.lists[i] ==> Low(hash(e.0), v.dep[i]) == Low(i, v.dep[i])
  }

  /** Every stored pair is the current pair of its key, and every current pair is in its key's slot. */
  ghost predicate Agrees<B, K, V>(v: View<B, K, V>, hash: K -> nat, m: map<K, V>)
    requires |v.lists| == Pow2(v.g)
  {
    && (forall i, e :: 0 <= i < |v.lists| && e in v.lists[i] ==> e.0 in m && m[e.0] == e.1)
    && (forall k :: k in m ==> (k, m[k]) in v.lists[Low(hash(k), v.g)])
  }

  ghost predicate ViewOk<B, K, V>(v: View<B, K, V>, hash: K -> nat, size: nat, m: map<K, V>) {
    && ShapeOk(v)
    && (forall i :: 0 <= i < |v.lists| ==> SlotOk(v, hash, size, i))
    && Agrees(v, hash, m)
  }

  /** A pair sits only in the slots that share its key's bucket. */
  lemma OnlyBucket<B, K, V>(v: View<B, K, V>, hash: K -> nat, size: nat, m: map<K, V>, i: nat, e: (K, V))
    requires ViewOk(v, hash, size, m) && i < |v.dir| && e in v.lists[i]
    ensures v.dir[i] == v.dir[Low(hash(e.0), v.g)]
  {
    assert SlotOk(v, hash, size, i);
    LowOfLow(hash(e.0), v.g, v.dep[i]);
  }

  /** A key's bucket stores exactly the current keys that share the bucket's low hash bits. */
  lemma BucketKeys<B, K, V>(v: View<B, K, V>, hash: K -> nat, size: nat, m: map<K, V>, key: K)
    requires ViewOk(v, hash, size, m)
    ensures var i := Low(hash(key), v.g);
      KeysOf(v.lists[i]) == Rivals(hash, m, key, v.dep[i]) && |v.lists[i]| == |KeysOf(v.lists[i])|
  {
    var i := Low(hash(key), v.g);
    var list, d := v.lists[i], v.dep[i];
    assert SlotOk(v, hash, size, i);
    LowOfLow(hash(key), v.g, d);
    forall k | k in KeysOf(list) ensures k in Rivals(hash, m, key, d) {
      var n :| 0 <= n < |list| && list[n].0 == k;
      assert list[n] in list;
    }
    forall k | k in Rivals(hash, m, key, d) ensures k in KeysOf(list) {
      LowOfLow(hash(k), v.g, d);
      assert v.dir[i] == v.dir[Low(hash(k), v.g)];
      assert (k, m[k]) in list;
    }
    KeysOfSize(list);
  }

  /** `list` and `list'` hold the same pairs of every key but `key`, and `m'` and `list'` agree on `key`. */
  ghost predicate KeyChange<K, V>(list: seq<(K, V)>, list': seq<(K, V)>, m: map<K, V>, m': map<K, V>, key: K) {
    && (forall e :: e in list' && e.0 != key ==> e in list)
    && (forall e :: e in list && e.0 != key ==> e in list')
    && (forall e :: e in list' && e.0 == key ==> key in m' && m'[key] == e.1)
    && (key in m' ==> (key, m'[key]) in list')
    && (forall k :: k in m' && k != key ==> k in m && m[k] == m'[k])
    && (forall k :: k in m && k != key ==> k in m')
  }

  /** `v'` is `v` with the list of `key`'s bucket replaced in all of the bucket's slots. */
  ghost predicate ListReplaced<B, K, V>(v: View<B, K, V>, v': View<B, K, V>, k: nat, list': seq<(K, V)>) {
    && |v'.lists| == |v.lists| == |v.dir| && k < |v.dir|
    && v' == v.(lists := v'.lists)
    && forall i :: 0 <= i < |v.dir| ==> v'.lists[i] == if v.dir[i] == v.dir[k] then list' else v.lists[i]
  }

  lemma KeyChangeSlot<B, K, V>(v: View<B, K, V>, v': View<B, K, V>, hash: K -> nat, size: nat,
                               m: map<K, V>, m': map<K, V>, key: K, list': seq<(K, V)>, i: nat)
    requires ShapeOk(v) && i < |v.dir| && SlotOk(v, hash, size, i)
    requires var k := Low(hash(key), v.g);
      ListReplaced(v, v', k, list') && KeyChange(v.lists[k], list', m, m', key)
    requires |list'| <= size && DistinctKeys(list')
    ensures SlotOk(v', hash, size, i)
  {
    var k := Low(hash(key), v.g);
    if v.dir[i] == v.dir[k] {
      LowOfLow(hash(key), v.g, v.dep[i]);
      assert Low(k, v.dep[i]) == Low(i, v.dep[i]);
      forall e | e in list' ensures Low(hash(e.0), v.dep[i]) == Low(i, v.dep[i]) {
        if e.0 != key {
          assert e in v.lists[i];
        }
      }
    }
  }

  lemma KeyChangeAgrees<B, K, V>(v: View<B, K, V>, v': View<B, K, V>, hash: K -> nat, size: nat,
                                 m: map<K, V>, m': map<K, V>, key: K, list': seq<(K, V)>)
    requires ViewOk(v, hash, size, m)
    requires var k := Low(hash(key), v.g);
      ListReplaced(v, v', k, list') && KeyChange(v.lists[k], list', m, m', key)
    ensures Agrees(v', hash, m')
  {
    var k := Low(hash(key), v.g);
    forall i, e | 0 <= i < |v'.lists| && e in v'.lists[i] ensures e.0 in m' && m'[e.0] == e.1 {
      if v.dir[i] != v.dir[k] {
        OnlyBucket(v, hash, size, m, i, e);
      } else if e.0 != key {
        assert e in v.lists[k];
      }
    }
  }

  /** Rewriting one bucket's pairs of one key leaves the whole table consistent with the rewritten map. */
  lemma KeyChangeOk<B, K, V>(v: View<B, K, V>, v': View<B, K, V>, hash: K -> nat, size: nat,
                             m: map<K, V>, m': map<K, V>, key: K, list': seq<(K, V)>)
    requires ViewOk(v, hash, size, m)
    requires var k := Low(hash(key), v.g);
      ListReplaced(v, v', k, list') && KeyChange(v.lists[k], list', m, m', key)
    requires |list'| <= size && DistinctKeys(list')
    ensures ViewOk(v', hash, size, m')
  {
    forall i | 0 <= i < |v'.lists| ensures SlotOk(v', hash, size, i) {
      KeyChangeSlot(v, v', hash, size, m, m', key, list', i);
    }
    KeyChangeAgrees(v, v', hash, size, m, m', key, list');
  }

  lemma RemoveOk<B, K, V>(v: View<B, K, V>, v': View<B, K, V>, hash: K -> nat, size: nat,
                          m: map<K, V>, key: K, list': seq<(K, V)>)
    requires ViewOk(v, hash, size, m)
    requires ListReplaced(v, v', Low(hash(key), v.g), list')
    requires forall e :: e in list' <==> e in v.lists[Low(hash(key), v.g)] && e.0 != key
    requires |list'| <= size && DistinctKeys(list')
    ensures ViewOk(v', hash, size, m - {key})
  {
    KeyChangeOk(v, v', hash, size, m, m - {key}, key, list');
  }

  lemma InsertOk<B, K, V>(v: View<B, K, V>, v': View<B, K, V>, hash: K -> nat, size: nat,
                          m: map<K, V>, key: K, value: V, list': seq<(K, V)>)
    requires ViewOk(v, hash, size, m)
    requires ListReplaced(v, v', Low(hash(key), v.g), list')
    requires forall e :: e in list' <==> (e in v.lists[Low(hash(key), v.g)] && e.0 != key) || e == (key, value)
    requires |list'| <= size && DistinctKeys(list')
    ensures ViewOk(v', hash, size, m[key := value])
  {
    KeyChangeOk(v, v', hash, size, m, m[key := value], key, list');
  }

  /** What the methods need to know about the slot of a key. */
  lemma SlotOfKey<B, K, V>(v: View<B, K, V>, hash: K -> nat, size: nat, m: map<K, V>, key: K)
    requires ViewOk(v, hash, size, m)
    ensures |v.dir| == Pow2(v.g) && SlotOk(v, hash, size, Low(hash(key), v.g)) && v.dep[Low(hash(key), v.g)] <= v.g
    ensures HasKey(v.lists[Low(hash(key), v.g)], key) <==> key in m
  {
    BucketKeys(v, hash, size, m, key);
    assert key in KeysOf(v.lists[Low(hash(key), v.g)]) <==> key in m;
  }

  lemma FirstVisit(j: nat, index: nat, d: nat)
    requires j < Low(index, d)
    ensures Low(j, d) != Low(index, d)
  {
    LowOfSmall(j, d);
  }

  lemma SkippedSlot(i: nat, j: nat, d: nat)
    requires i < j < i + Pow2(d)
    ensures Low(j, d) != Low(i, d)
  {
    if Low(j, d) == Low(i, d) {
      AgreeFarApart(i, j, d);
    }
  }

  lemma NotYetThere<K, V>(list: seq<(K, V)>, n: nat)
    requires n < |list| && DistinctKeys(list)
    ensures forall e :: e in list[n + 1..] ==> e.0 != list[n].0
  {
  }

  /** `half` holds exactly the pairs of `list` whose hash has `bit` at position `d`. */
  ghost predicate HalfOf<K, V>(half: seq<(K, V)>, list: seq<(K, V)>, hash: K -> nat, d: nat, bit: nat) {
    && (forall e :: e in half ==> e in list && Bit(hash(e.0), d) == bit)
    && (forall e :: e in list && Bit(hash(e.0), d) == bit ==> e in half)
  }

  /** The slot `j` after a split at slot `index`: one of the two new buckets, or what it was. */
  ghost function Repointed<T>(j: nat, index: nat, d: nat, was: T, even: T, odd: T): (now: T) {
    if Low(j, d) != Low(index, d) then was else if Bit(j, d) == 0 then even else odd
  }

  ghost function FilledSlot<T>(mid: seq<T>, half: nat, none: T, j: nat): (now: T)
    requires half <= j < |mid|
  {
    if mid[j] == none then mid[j - half] else mid[j]
  }

  /** Copying the old half of the directory into the slots of the new half that are still empty. */
  ghost predicate Filled<T>(mid: seq<T>, fin: seq<T>, half: nat, none: T) {
    && |mid| == |fin| && half <= |mid| <= 2 * half
    && (forall j :: 0 <= j < half ==> fin[j] == mid[j])
    && (forall j :: half <= j < |fin| ==> fin[j] == FilledSlot(mid, half, none, j))
  }

  /**
   Doubling first fills the new half with `none`, then repoints the split bucket's slots, then
   copies the old half into the slots that are still empty. The result is the split directory.
   */
  lemma RepointedDirectory<T>(dir: seq<T>, dep: seq<nat>, g: nat, index: nat, even: T, odd: T, none: T,
                              grown: seq<T>, mid: seq<T>, fin: seq<T>, g': nat, i: nat)
    requires |dir| == |dep| == Pow2(g) && index < |dir| && Aliased(dir, dep)
    requires none !in dir && none != even && none != odd
    requires dep[index] <= g && g' == (if dep[index] == g then g + 1 else g)
    requires |grown| == |mid| == |fin| == Pow2(g')
    requires grown == if g' == g then dir else dir + seq(|dir|, _ => none)
    requires forall j {:trigger mid[j]} :: 0 <= j < |mid| ==>
      mid[j] == Repointed(j, index, dep[index], grown[j], even, odd)
    requires if g' == g then fin == mid else Filled(mid, fin, |dir|, none)
    requires i < |fin|
    ensures fin[i] == Repointed(i, index, dep[index], dir[Low(i, g)], even, odd)
    ensures Low(i, dep[index]) != Low(index, dep[index]) ==> dir[Low(i, g)] != dir[index]
  {
    hide Low, Bit, Pow2;
    var d := dep[index];
    LowOfLow(i, g, d);
    if i < |dir| {
      LowOfSmall(i, g);
      assert mid[i] == Repointed(i, index, d, dir[i], even, odd);
    } else {
      var j := i - |dir|;
      AddGap(j, g);
      LowOfSmall(j, g);
      assert mid[j] == Repointed(j, index, d, dir[j], even, odd);
      assert mid[i] == Repointed(i, index, d, none, even, odd);
    }
    assert dir[index] == dir[Low(i, g)] <==> Low(index, d) == Low(Low(i, g), d);
  }

  /** The view after a split: the two halves in the split slots, everything else where it was. */
  ghost predicate SplitView<B, K, V>(v: View<B, K, V>, w: View<B, K, V>, index: nat, even: B, odd: B,
                                     evenList: seq<(K, V)>, oddList: seq<(K, V)>)
  {
    && |v.dir| == |v.dep| == |v.lists| == Pow2(v.g) && index < |v.dir|
    && IsSplit(v.dir, v.dep, v.g, index, even, odd, w.dir, w.dep, w.g)
    && |w.lists| == |w.dir|
    && (forall i, j :: 0 <= i < |w.dir| && 0 <= j < |w.dir| && w.dir[i] == w.dir[j] ==> w.lists[i] == w.lists[j])
    && (forall i :: 0 <= i < |w.lists| ==>
      w.lists[i] == Repointed(i, index, v.dep[index], v.lists[Low(i, v.g)], evenList, oddList))
  }

  lemma SplitSlotOk<B, K, V>(v: View<B, K, V>, w: View<B, K, V>, hash: K -> nat, size: nat, m: map<K, V>,
                             index: nat, even: B, odd: B, evenList: seq<(K, V)>, oddList: seq<(K, V)>, i: nat)
    requires ViewOk(v, hash, size, m) && SplitView(v, w, index, even, odd, evenList, oddList)
    requires HalfOf(evenList, v.lists[index], hash, v.dep[index], 0) && |evenList| <= size && DistinctKeys(evenList)
    requires HalfOf(oddList, v.lists[index], hash, v.dep[index], 1) && |oddList| <= size && DistinctKeys(oddList)
    requires i < |w.lists|
    ensures SlotOk(w, hash, size, i)
    ensures forall e :: e in w.lists[i] ==> e in v.lists[index] || e in v.lists[Low(i, v.g)]
  {
    var d, i' := v.dep[index], Low(i, v.g);
    assert SlotOk(v, hash, size, index) && SlotOk(v, hash, size, i');
    LowOfLow(i, v.g, v.dep[i']);
    forall e | e in w.lists[i] && Low(i, d) == Low(index, d) ensures Low(hash(e.0), d + 1) == Low(i, d + 1) {
      AgreeStep(hash(e.0), i, d);
      hide Low, ShapeOk, IsSplit, Agrees;
    }
    hide Low, Bit, Pow2, ShapeOk, Agrees;
    assert w.dep[i] == if Low(i, d) == Low(index, d) then d + 1 else v.dep[i'];
  }

  lemma SplitEntry<B, K, V>(v: View<B, K, V>, w: View<B, K, V>, hash: K -> nat, size: nat, m: map<K, V>,
                            index: nat, even: B, odd: B, evenList: seq<(K, V)>, oddList: seq<(K, V)>, k: K)
    requires ViewOk(v, hash, size, m) && SplitView(v, w, index, even, odd, evenList, oddList)
    requires HalfOf(evenList, v.lists[index], hash, v.dep[index], 0)
    requires HalfOf(oddList, v.lists[index], hash, v.dep[index], 1)
    requires k in m
    ensures (k, m[k]) in w.lists[Low(hash(k), w.g)]
  {
    var d, s, s' := v.dep[index], Low(hash(k), w.g), Low(hash(k), v.g);
    assert d <= v.g && d < w.g && v.g <= w.g;
    LowOfLow(hash(k), w.g, v.g);
    LowOfLow(hash(k), v.g, d);
    LowOfLow(hash(k), w.g, d);
    BitOfLow(hash(k), w.g, d);
    hide Low, Bit, Pow2;
    assert (k, m[k]) in v.lists[s'];
    assert v.dir[index] == v.dir[s'] <==> Low(index, d) == Low(s', d);
  }

  /** A split neither loses, duplicates nor changes a pair, and keeps the directory shape. */
  lemma SplitOk<B, K, V>(v: View<B, K, V>, w: View<B, K, V>, hash: K -> nat, size: nat, m: map<K, V>,
                         index: nat, even: B, odd: B, evenList: seq<(K, V)>, oddList: seq<(K, V)>)
    requires ViewOk(v, hash, size, m) && SplitView(v, w, index, even, odd, evenList, oddList)
    requires HalfOf(evenList, v.lists[index], hash, v.dep[index], 0) && |evenList| <= size && DistinctKeys(evenList)
    requires HalfOf(oddList, v.lists[index], hash, v.dep[index], 1) && |oddList| <= size && DistinctKeys(oddList)
    ensures ViewOk(w, hash, size, m)
  {
    SplitShape(v.dir, v.dep, v.g, index, even, odd, w.dir, w.dep, w.g);
    forall i | 0 <= i < |w.lists|
      ensures SlotOk(w, hash, size, i)
      ensures forall e :: e in w.lists[i] ==> e in v.lists[index] || e in v.lists[Low(i, v.g)]
    {
      SplitSlotOk(v, w, hash, size, m, index, even, odd, evenList, oddList, i);
    }
    forall k | k in m ensures (k, m[k]) in w.lists[Low(hash(k), w.g)] {
      SplitEntry(v, w, hash, size, m, index, even, odd, evenList, oddList, k);
    }
  }

  /** What the redistribution relies on: the slots that agree with `index` are the bucket's or still empty. */
  lemma BeforeSplit<B, K, V>(v: View<B, K, V>, hash: K -> nat, size: nat, m: map<K, V>, index: nat, none: B,
                             grown: seq<B>)
    requires ViewOk(v, hash, size, m) && index < |v.dir|
    requires grown == v.dir || grown == v.dir + seq(|v.dir|, _ => none)
    ensures v.dep[index] <= v.g && SlotOk(v, hash, size, index)
    ensures forall j {:trigger grown[j]} :: 0 <= j < |grown| && Low(j, v.dep[index]) == Low(index, v.dep[index]) ==>
      grown[j] == none || grown[j] == v.dir[index]
  {
    hide Low;
    assert SlotOk(v, hash, size, index);
    forall j | 0 <= j < |grown| && Low(j, v.dep[index]) == Low(index, v.dep[index])
      ensures grown[j] == none || grown[j] == v.dir[index]
    {
      if j < |v.dir| {
        assert v.dir[index] == v.dir[j];
      } else {
        assert grown[j] == none;
      }
    }
  }

  /** Slot `i` after the split of slot `index`: one of the two halves, or the bucket it aliased before. */
  ghost predicate SlotAfterSplit<B, K, V>(v: View<B, K, V>, index: nat, even: B, odd: B, i: nat, now: B)
    requires |v.dir| == |v.dep| == Pow2(v.g) && index < |v.dir|
  {
    var d := v.dep[index];
    && now == Repointed(i, index, d, v.dir[Low(i, v.g)], even, odd)
    && (Low(i, d) != Low(index, d) ==> v.dir[Low(i, v.g)] != v.dir[index])
  }

  /** The directory steps of a split, taken together, slot by slot. */
  lemma AfterSplit<B, K, V>(v: View<B, K, V>, hash: K -> nat, size: nat, m: map<K, V>,
                            index: nat, even: B, odd: B, none: B, grown: seq<B>, mid: seq<B>, fin: seq<B>, g': nat)
    requires ViewOk(v, hash, size, m) && index < |v.dir|
    requires none !in v.dir && none != even && none != odd
    requires g' == (if v.dep[index] == v.g then v.g + 1 else v.g)
    requires |grown| == |mid| == |fin| == Pow2(g')
    requires grown == if g' == v.g then v.dir else v.dir + seq(|v.dir|, _ => none)
    requires forall j {:trigger mid[j]} :: 0 <= j < |mid| ==>
      mid[j] == Repointed(j, index, v.dep[index], grown[j], even, odd)
    requires if g' == v.g then fin == mid else Filled(mid, fin, |v.dir|, none)
    ensures forall i {:trigger fin[i]} :: 0 <= i < |fin| ==> SlotAfterSplit(v, index, even, odd, i, fin[i])
  {
    hide Low, Pow2, SlotOk, Agrees;
    forall i | 0 <= i < |fin| ensures SlotAfterSplit(v, index, even, odd, i, fin[i]) {
      RepointedDirectory(v.dir, v.dep, v.g, index, even, odd, none, grown, mid, fin, g', i);
    }
  }

  /** A consistent table stays consistent across a split, with one more bucket. */
  lemma SplitValid<B, K, V>(v: View<B, K, V>, w: View<B, K, V>, hash: K -> nat, size: nat, m: map<K, V>,
                            index: nat, even: B, odd: B, evenList: seq<(K, V)>, oddList: seq<(K, V)>)
    requires ViewOk(v, hash, size, m) && index < |v.dir|
    requires even != odd && even !in v.dir && odd !in v.dir
    requires w.g == (if v.dep[index] == v.g then v.g + 1 else v.g)
    requires |w.dir| == |w.dep| == |w.lists| == Pow2(w.g)
    requires forall i {:trigger w.dir[i]} {:trigger w.dep[i]} {:trigger w.lists[i]} :: 0 <= i < |w.dir| ==>
      && w.dir[i] == Repointed(i, index, v.dep[index], v.dir[Low(i, v.g)], even, odd)
      && w.dep[i] == Repointed(i, index, v.dep[index], v.dep[Low(i, v.g)], v.dep[index] + 1, v.dep[index] + 1)
      && w.lists[i] == Repointed(i, index, v.dep[index], v.lists[Low(i, v.g)], evenList, oddList)
    requires forall i, j :: 0 <= i < |w.dir| && 0 <= j < |w.dir| && w.dir[i] == w.dir[j] ==> w.lists[i] == w.lists[j]
    requires HalfOf(evenList, v.lists[index], hash, v.dep[index], 0) && |evenList| <= size && DistinctKeys(evenList)
    requires HalfOf(oddList, v.lists[index], hash, v.dep[index], 1) && |oddList| <= size && DistinctKeys(oddList)
    ensures ViewOk(w, hash, size, m)
    ensures |set b | b in w.dir| == |set b | b in v.dir| + 1
  {
    hide Low, Bit, Pow2, SlotOk, Agrees;
    assert IsSplit(v.dir, v.dep, v.g, index, even, odd, w.dir, w.dep, w.g);
    SplitOk(v, w, hash, size, m, index, even, odd, evenList, oddList);
    SplitBuckets(v.dir, v.dep, v.g, index, even, odd, w.dir, w.dep, w.g);
  }

  class ExtendibleHashTable<K(==), V> {
    const hash: K -> nat
    const bucketSize: nat
    var globalDepth: nat
    var numBuckets: nat
    var dir: seq<Bucket?<K, V>>
    ghost var Contents: map<K, V>

    ghost function CurrentView(): (v: View<Bucket?<K, V>, K, V>)
      requires null !in dir
      reads this, dir
      ensures v.g == globalDepth && v.dir == dir && |v.dep| == |v.lists| == |dir|
      ensures forall i :: 0 <= i < |dir| ==> v.dep[i] == dir[i].depth && v.lists[i] == dir[i].list
    {
      var d := dir;
      View(globalDepth, d, seq(|d|, i requires 0 <= i < |d| && d[i] != null reads d => d[i].depth),
           seq(|d|, i requires 0 <= i < |d| && d[i] != null reads d => d[i].list))
    }

    /** No slot is empty, the mask `(1 << globalDepth) - 1` fits an int, and the view is consistent. */
    ghost predicate Valid()
      reads this, dir
    {
      && null !in dir && globalDepth <= 30 && |dir| == Pow2(globalDepth)
      && (forall b :: b in dir ==> b.size == bucketSize)
      && ViewOk(CurrentView(), hash, bucketSize, Contents)
      && numBuckets == |set b | b in dir|
    }

    constructor (size: nat, h: K -> nat)
      ensures Valid() && Contents == map[] && bucketSize == size && hash == h
      ensures globalDepth == 0 && numBuckets == 1 && fresh(dir)
    {
      hash, bucketSize, globalDepth, numBuckets := h, size, 0, 1;
      var b := new Bucket<K, V>(size, 0);
      dir := [b];
      Contents := map[];
      new;
      assert (set x | x in dir) == {b};
    }

    function IndexOf(key: K): (i: nat)
      requires |dir| == Pow2(globalDepth)
      reads this
      ensures i < |dir|
    {
      Low(hash(key), globalDepth)
    }

    method Find(key: K) returns (r: Option<V>)
      requires Valid()
      ensures r == if key in Contents then Some(Contents[key]) else None
    {
      var b := dir[IndexOf(key)];
      var i := b.Locate(key);
      BucketKeys(CurrentView(), hash, bucketSize, Contents, key);
      if i < |b.list| {
        assert b.list[i] in b.list;
        r := Some(b.list[i].1);
      } else {
        assert key !in KeysOf(b.list);
        r := None;
      }
    }

    method Remove(key: K) returns (found: bool)
      requires Valid()
      modifies this`Contents, dir
      ensures Valid()
      ensures found <==> key in old(Contents)
      ensures Contents == old(Contents) - {key}
    {
      hide ViewOk;
      ghost var v := CurrentView();
      SlotOfKey(v, hash, bucketSize, Contents, key);
      var b := dir[IndexOf(key)];
      found := b.Remove(key);
      Contents := Contents - {key};
      RemoveOk(v, CurrentView(), hash, bucketSize, old(Contents), key, b.list);
    }

    /** The first loop of the redistribution: every 2^d-th slot from the bucket's first one. */
    method Repoint(bucket: Bucket<K, V>, index: nat, oldDepth: nat, even: Bucket<K, V>, odd: Bucket<K, V>)
      requires index < |dir|
      requires forall j {:trigger dir[j]} :: 0 <= j < |dir| && Low(j, oldDepth) == Low(index, oldDepth) ==>
        dir[j] == null || dir[j] == bucket
      modifies this`dir
      ensures |dir| == |old(dir)|
      ensures forall j {:trigger dir[j]} :: 0 <= j < |dir| ==>
        dir[j] == Repointed(j, index, oldDepth, old(dir)[j], even, odd)
    {
      var oldGap := Pow2(oldDepth);
      var i: nat := index % oldGap;
      LowIsRemainder(index, oldDepth);
      LowOfLow(index, oldDepth, oldDepth);
      forall j: nat | j < i ensures Low(j, oldDepth) != Low(index, oldDepth) {
        FirstVisit(j, index, oldDepth);
      }
      hide Low, Bit;
      while i < |dir|
        invariant Low(i, oldDepth) == Low(index, oldDepth) && |dir| == |old(dir)|
        invariant forall j :: i <= j < |dir| ==> dir[j] == old(dir)[j]
        invariant forall j :: 0 <= j < i && j < |dir| ==>
          dir[j] == Repointed(j, index, oldDepth, old(dir)[j], even, odd)
      {
        if dir[i] == null || dir[i] == bucket {
          var prefixBit := Bit(i, oldDepth);
          dir := dir[i := if prefixBit == 0 then even else odd];
        }
        AddGap(i, oldDepth);
        forall j | i < j < i + oldGap ensures Low(j, oldDepth) != Low(index, oldDepth) {
          SkippedSlot(i, j, oldDepth);
        }
        i := i + oldGap;
      }
    }

    /** The second loop: every pair goes, last one first, to its key's slot; no insertion fails. */
    method Reinsert(bucket: Bucket<K, V>, index: nat, oldDepth: nat, even: Bucket<K, V>, odd: Bucket<K, V>)
      requires |dir| == Pow2(globalDepth) && oldDepth < globalDepth
      requires even != odd && bucket != even && bucket != odd
      requires even.list == odd.list == [] && even.size == odd.size == bucketSize
      requires |bucket.list| <= bucketSize && DistinctKeys(bucket.list)
      requires forall j {:trigger dir[j]} :: 0 <= j < |dir| && Low(j, oldDepth) == Low(index, oldDepth) ==>
        dir[j] == if Bit(j, oldDepth) == 0 then even else odd
      requires forall e :: e in bucket.list ==> Low(hash(e.0), oldDepth) == Low(index, oldDepth)
      modifies even`list, odd`list
      ensures HalfOf(even.list, bucket.list, hash, oldDepth, 0)
      ensures HalfOf(odd.list, bucket.list, hash, oldDepth, 1)
      ensures even.Valid() && odd.Valid()
    {
      hide Low, Bit, Pow2;
      var n := |bucket.list|;
      while n > 0
        invariant 0 <= n <= |bucket.list| && bucket.list == old(bucket.list)
        invariant even.Valid() && odd.Valid()
        invariant |even.list| + |odd.list| + n == |bucket.list|
        invariant HalfOf(even.list, bucket.list[n..], hash, oldDepth, 0)
        invariant HalfOf(odd.list, bucket.list[n..], hash, oldDepth, 1)
      {
        n := n - 1;
        var item := bucket.list[n];
        assert item in bucket.list;
        var itemIndex := IndexOf(item.0);
        LowOfLow(hash(item.0), globalDepth, oldDepth);
        BitOfLow(hash(item.0), globalDepth, oldDepth);
        NotYetThere(bucket.list, n);
        assert bucket.list[n..] == [item] + bucket.list[n + 1..];
        var ok := dir[itemIndex].Insert(item.0, item.1);
        assert ok;
      }
      assert bucket.list[0..] == bucket.list;
    }

    /**
     Splits `bucket` into two fresh buckets one bit deeper, points the bucket's slots at them, and
     re-inserts every pair. Slots that the directory doubling left empty count as the bucket's.
     */
    method RedistributeBucket(bucket: Bucket<K, V>, index: nat)
      returns (ghost even: Bucket<K, V>, ghost odd: Bucket<K, V>)
      requires |dir| == Pow2(globalDepth) && index < |dir| && dir[index] == bucket
      requires bucket.size == bucketSize && bucket.Valid() && bucket.depth < globalDepth
      requires forall j {:trigger dir[j]} :: 0 <= j < |dir| && Low(j, bucket.depth) == Low(index, bucket.depth) ==>
        dir[j] == null || dir[j] == bucket
      requires forall e :: e in bucket.list ==> Low(hash(e.0), bucket.depth) == Low(index, bucket.depth)
      modifies this`dir, this`numBuckets, bucket`depth
      ensures fresh(even) && fresh(odd) && even != odd
      ensures |dir| == |old(dir)| && numBuckets == old(numBuckets) + 1
      ensures forall j {:trigger dir[j]} :: 0 <= j < |dir| ==>
        dir[j] == Repointed(j, index, old(bucket.depth), old(dir)[j], even, odd)
      ensures HalfOf(even.list, bucket.list, hash, old(bucket.depth), 0)
      ensures HalfOf(odd.list, bucket.list, hash, old(bucket.depth), 1)
      ensures even.size == odd.size == bucketSize && even.depth == odd.depth == old(bucket.depth) + 1
      ensures even.Valid() && odd.Valid()
    {
      var oldDepth := bucket.depth;
      bucket.depth := bucket.depth + 1;
      var evenNew := new Bucket<K, V>(bucketSize, bucket.depth);
      var oddNew := new Bucket<K, V>(bucketSize, bucket.depth);
      numBuckets := numBuckets + 1;
      even, odd := evenNew, oddNew;

      Repoint(bucket, index, oldDepth, evenNew, oddNew);
      Reinsert(bucket, index, oldDepth, evenNew, oddNew);
    }

    /** The loop after a doubling: empty slots of the new half alias the old half. */
    static method FillEmptySlots(slots: seq<Bucket?<K, V>>, globalExtend: bool)
      returns (filled: seq<Bucket?<K, V>>)
      requires globalExtend ==> |slots| % 2 == 0
      ensures |filled| == |slots|
      ensures if globalExtend then Filled(slots, filled, |slots| / 2, null) else filled == slots
    {
      filled := slots;
      if !globalExtend {
        return;
      }
      var currDirSize := |slots|;
      var oldDirSize := currDirSize / 2;
      for i := oldDirSize to currDirSize
        invariant |filled| == currDirSize
        invariant forall j :: 0 <= j < oldDirSize ==> filled[j] == slots[j]
        invariant forall j :: oldDirSize <= j < i ==> filled[j] == FilledSlot(slots, oldDirSize, null, j)
        invariant forall j :: i <= j < currDirSize ==> filled[j] == slots[j]
      {
        if filled[i] == null {
          filled := filled[i := filled[i - oldDirSize]];
        }
      }
    }

    /** Grows the directory when the bucket is as deep as the directory; null fills the new half. */
    method Extend(bucketDepth: nat) returns (globalExtend: bool)
      requires |dir| == Pow2(globalDepth)
      modifies this`dir, this`globalDepth
      ensures globalExtend <==> bucketDepth == old(globalDepth)
      ensures globalDepth == old(globalDepth) + (if globalExtend then 1 else 0)
      ensures dir == if globalExtend then old(dir) + seq(|old(dir)|, _ => null) else old(dir)
      ensures |dir| == Pow2(globalDepth)
    {
      globalExtend := false;
      if bucketDepth == globalDepth {
        globalDepth := globalDepth + 1;
        dir := dir + seq(|dir|, _ => null);
        globalExtend := true;
      }
    }

    /** Every bucket of `v` but the one in slot `index` is as `v` shows it. */
    ghost predicate OthersAsBefore(v: View<Bucket?<K, V>, K, V>, index: nat)
      requires null !in v.dir && index < |v.dir| && |v.dir| == |v.dep| == |v.lists|
      reads v.dir
    {
      forall i :: 0 <= i < |v.dir| && v.dir[i] != v.dir[index] ==>
        v.dir[i].depth == v.dep[i] && v.dir[i].list == v.lists[i] && v.dir[i].size == bucketSize
    }

    /** `even` and `odd` are the two fresh halves of the bucket that `v` shows in slot `index`. */
    twostate predicate Halves(v: View<Bucket?<K, V>, K, V>, index: nat, new even: Bucket<K, V>, new odd: Bucket<K, V>)
      requires index < |v.dir| && |v.dir| == |v.dep| == |v.lists|
      reads even, odd
    {
      && fresh(even) && fresh(odd) && even != odd && even.Valid() && odd.Valid()
      && even.size == odd.size == bucketSize && even.depth == odd.depth == v.dep[index] + 1
      && HalfOf(even.list, v.lists[index], hash, v.dep[index], 0)
      && HalfOf(odd.list, v.lists[index], hash, v.dep[index], 1)
    }

    /** The first half of an iteration of the insertion loop: double if need be, then redistribute. */
    method DoubleAndRedistribute(key: K, ghost v: View<Bucket?<K, V>, K, V>)
      returns (index: nat, globalExtend: bool, ghost grown: seq<Bucket?<K, V>>,
               ghost even: Bucket<K, V>, ghost odd: Bucket<K, V>)
      requires Valid() && v == CurrentView()
      modifies this`dir, this`globalDepth, this`numBuckets, dir
      ensures index < |v.dir| && index == Low(hash(key), v.g) && globalExtend == (v.dep[index] == v.g)
      ensures globalDepth == v.g + (if globalExtend then 1 else 0)
      ensures |dir| == |grown| == Pow2(globalDepth) && numBuckets == old(numBuckets) + 1
      ensures grown == if globalExtend then v.dir + seq(|v.dir|, _ => null) else v.dir
      ensures forall j {:trigger dir[j]} :: 0 <= j < |dir| ==>
        dir[j] == Repointed(j, index, v.dep[index], grown[j], even, odd)
      ensures Halves(v, index, even, odd)
      ensures forall b :: b in v.dir && b != v.dir[index] ==> b.depth == old(b.depth) && b.list == old(b.list)
    {
      hide ViewOk, Low, Bit, Pow2, HalfOf;
      SlotOfKey(v, hash, bucketSize, Contents, key);
      index := IndexOf(key);
      var bucket := dir[index];
      assert bucket in dir;
      globalExtend := Extend(bucket.depth);
      grown := dir;
      BeforeSplit(v, hash, bucketSize, Contents, index, null, grown);
      even, odd := RedistributeBucket(bucket, index);
    }

    /** The statements of one iteration of the insertion loop, and what they do to each slot. */
    method SplitDirectory(key: K, ghost v: View<Bucket?<K, V>, K, V>)
      returns (index: nat, ghost even: Bucket<K, V>, ghost odd: Bucket<K, V>)
      requires Valid() && v == CurrentView()
      modifies this`dir, this`globalDepth, this`numBuckets, dir
      ensures index < |v.dir| && index == Low(hash(key), v.g) && v.dep[index] <= v.g
      ensures globalDepth == if v.dep[index] == v.g then v.g + 1 else v.g
      ensures |dir| == Pow2(globalDepth) && numBuckets == old(numBuckets) + 1
      ensures |v.dir| == Pow2(v.g)
      ensures forall i {:trigger dir[i]} :: 0 <= i < |dir| ==> SlotAfterSplit(v, index, even, odd, i, dir[i])
      ensures Halves(v, index, even, odd)
      ensures forall b :: b in v.dir && b != v.dir[index] ==> b.depth == old(b.depth) && b.list == old(b.list)
    {
      hide ViewOk, Low, Bit, Pow2, HalfOf, Filled, CurrentView;
      SlotOfKey(v, hash, bucketSize, Contents, key);
      var globalExtend; ghost var grown;
      index, globalExtend, grown, even, odd := DoubleAndRedistribute(key, v);
      var filled := FillEmptySlots(dir, globalExtend);
      AfterSplit(v, hash, bucketSize, Contents, index, even, odd, null, grown, dir, filled, globalDepth);
      dir := filled;
    }

    /** The view after the slots were repointed, in terms of the view before. */
    lemma ViewAfterSplit(v: View<Bucket?<K, V>, K, V>, index: nat, even: Bucket<K, V>, odd: Bucket<K, V>)
      requires null !in v.dir && |v.dir| == |v.dep| == |v.lists| == Pow2(v.g) && index < |v.dir|
      requires forall i {:trigger dir[i]} :: 0 <= i < |dir| ==> SlotAfterSplit(v, index, even, odd, i, dir[i])
      requires even.size == odd.size == bucketSize && even.depth == odd.depth == v.dep[index] + 1
      requires OthersAsBefore(v, index)
      ensures null !in dir && (forall b :: b in dir ==> b.size == bucketSize)
      ensures forall i :: 0 <= i < |dir| ==> dir[i] in v.dir || dir[i] == even || dir[i] == odd
      ensures var w := CurrentView(); forall i :: 0 <= i < |w.dir| ==>
        && w.dep[i] == Repointed(i, index, v.dep[index], v.dep[Low(i, v.g)], v.dep[index] + 1, v.dep[index] + 1)
        && w.lists[i] == Repointed(i, index, v.dep[index], v.lists[Low(i, v.g)], even.list, odd.list)
    {
      hide Low, Bit, Pow2;
    }

    /** GetLocalDepth of the slot a key hashes to. */
    function LocalDepth(key: K): (d: nat)
      requires Valid()
      reads this, dir
    {
      dir[IndexOf(key)].depth
    }

    /** One iteration of the insertion loop: the key's full bucket is split. */
    method SplitBucketOf(key: K)
      requires Valid() && LocalDepth(key) < 30
      modifies this`dir, this`globalDepth, this`numBuckets, dir
      ensures Valid() && LocalDepth(key) == old(LocalDepth(key)) + 1
      ensures globalDepth == Max(old(globalDepth), LocalDepth(key))
      ensures forall i :: 0 <= i < |dir| ==> dir[i] in old(dir) || fresh(dir[i])
    {
      hide ViewOk, Low, Bit, Pow2, HalfOf, CurrentView;
      ghost var v := CurrentView();
      var index; ghost var even, odd;
      index, even, odd := SplitDirectory(key, v);
      LowOfLow(hash(key), v.g, v.dep[index]);
      LowOfLow(hash(key), globalDepth, v.dep[index]);
      assert OthersAsBefore(v, index) by {
        forall i | 0 <= i < |v.dir| && v.dir[i] != v.dir[index] ensures v.dir[i] in v.dir {
        }
      }
      ViewAfterSplit(v, index, even, odd);
      ghost var w := CurrentView();
      SplitValid(v, w, hash, bucketSize, Contents, index, even, odd, even.list, odd.list);
    }

    /** Fewer than bucketSize keys of `m` share the low `d` hash bits of `key`. */
    ghost predicate RoomAt(m: map<K, V>, key: K, d: nat) {
      |Rivals(hash, m, key, d)| < bucketSize
    }

    ghost predicate NoRoomBelow(m: map<K, V>, key: K, from: nat, to: nat) {
      forall e :: from <= e < to ==> !RoomAt(m, key, e)
    }

    lemma NoRoomBase(m: map<K, V>, key: K, d: nat)
      ensures NoRoomBelow(m, key, d, d)
    {
    }

    lemma NoRoomStep(m: map<K, V>, key: K, d0: nat, d: nat)
      requires NoRoomBelow(m, key, d0, d) && !RoomAt(m, key, d)
      ensures NoRoomBelow(m, key, d0, d + 1)
    {
    }

    /** Room at some depth is room at any larger one. */
    lemma RoomStays(m: map<K, V>, key: K, d: nat, e: nat)
      requires RoomAt(m, key, d) && d <= e
      ensures RoomAt(m, key, e)
    {
      RivalsShrink(hash, m, key, d, e);
    }

    /** The least depth with room from `d0` on is no larger than `d0` and any depth `D` with room. */
    lemma LeastDepth(m: map<K, V>, key: K, d0: nat, d: nat, D: nat)
      requires NoRoomBelow(m, key, d0, d) && d0 <= d && RoomAt(m, key, D)
      ensures d <= Max(d0, D)
    {
      if Max(d0, D) < d {
        RoomStays(m, key, D, Max(d0, D));
      }
    }

    /** The guard of the insertion loop: insert into the key's bucket unless the bucket is full. */
    method TryInsert(key: K, value: V) returns (ok: bool)
      requires Valid()
      modifies this`Contents, dir
      ensures Valid() && LocalDepth(key) == old(LocalDepth(key)) <= globalDepth <= 30
      ensures ok <==> key in old(Contents) || RoomAt(old(Contents), key, LocalDepth(key))
      ensures Contents == if ok then old(Contents)[key := value] else old(Contents)
    {
      hide ViewOk, Low, Rivals, CurrentView;
      ghost var v := CurrentView();
      SlotOfKey(v, hash, bucketSize, Contents, key);
      BucketKeys(v, hash, bucketSize, Contents, key);
      var b := dir[IndexOf(key)];
      assert b in dir;
      ok := b.Insert(key, value);
      if ok {
        Contents := Contents[key := value];
        InsertOk(v, CurrentView(), hash, bucketSize, old(Contents), key, value, b.list);
      } else {
        assert CurrentView() == v;
      }
    }

    /**
     The insertion loop. It stops at the least local depth with room for the key. Without room at depth 30
     it arrives at a full bucket of that depth, where the next split would shift past the range of an int.
     */
    method Insert(key: K, value: V) returns (ok: bool)
      requires Valid()
      modifies this, dir
      ensures Valid() && Contents == if ok then old(Contents)[key := value] else old(Contents)
      ensures ok <==> key in old(Contents) || RoomAt(old(Contents), key, 30)
      ensures ok || LocalDepth(key) == 30
      ensures forall i :: 0 <= i < |dir| ==> dir[i] in old(dir) || fresh(dir[i])
      ensures old(LocalDepth(key)) <= LocalDepth(key) && globalDepth == Max(old(globalDepth), LocalDepth(key))
      ensures key in old(Contents) ==> LocalDepth(key) == old(LocalDepth(key)) && globalDepth == old(globalDepth)
      ensures ok && key !in old(Contents) ==> RoomAt(old(Contents), key, LocalDepth(key))
      ensures NoRoomBelow(old(Contents), key, old(LocalDepth(key)), LocalDepth(key))
      ensures forall D: nat :: RoomAt(old(Contents), key, D) ==> globalDepth <= Max(old(globalDepth), D)
    {
      hide Valid, ViewOk, CurrentView, Low, Rivals, Pow2, LocalDepth, RoomAt, IndexOf, NoRoomBelow;
      ghost var m, d0, g0 := Contents, LocalDepth(key), globalDepth;
      ghost var d := d0;
      NoRoomBase(m, key, d0);
      ok := TryInsert(key, value);
      while !ok && LocalDepth(key) < 30
        invariant Valid() && d == LocalDepth(key) <= 30
        invariant Contents == if ok then m[key := value] else m
        invariant forall i :: 0 <= i < |dir| ==> dir[i] in old(dir) || fresh(dir[i])
        invariant globalDepth == Max(g0, d)
        invariant ok <==> key in m || RoomAt(m, key, d)
        invariant d0 <= d && (key in m ==> d == d0) && NoRoomBelow(m, key, d0, d)
        decreases 30 - d, !ok
      {
        NoRoomStep(m, key, d0, d);
        SplitBucketOf(key);
        d := d + 1;
        ok := TryInsert(key, value);
      }
      if RoomAt(m, key, d) {
        RoomStays(m, key, d, 30);
      }
      forall D: nat | RoomAt(m, key, D) ensures d <= Max(d0, D) {
        LeastDepth(m, key, d0, d, D);
      }
    }
  }
}
