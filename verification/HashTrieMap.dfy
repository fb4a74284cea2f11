/** The persistent map: a root node and a count of its keys, run against a plain finite map. */
module HashTrieMap {
  import opened Wrappers
  import opened TrieSlots
  import opened HashTrie
  import opened HashTrieProofs

  /** Sets every entry in turn, starting below the root. */
  function AddAll<U(==,!new), V(==)>(n: Node<U, V>, es: seq<(Key<U>, V)>): (r: Node<U, V>)
    requires Valid(n, []) && !n.ArrayEntries?
    ensures Valid(r, []) && !r.ArrayEntries?
    decreases |es|
  {
    if |es| == 0 then n
    else
      UpdateKeepsValid(n, es[0].0, Some(es[0].1));
      AddAll(UpdateNode(n, 0, es[0].0, Some(es[0].1)).node.value, es[1..])
  }

  lemma UpdateKeepsValid<U(!new), V>(n: Node<U, V>, k: Key<U>, v: Option<V>)
    requires Valid(n, []) && !n.ArrayEntries?
    ensures var r := UpdateNode(n, 0, k, v).node; r.Some? ==> Valid(r.value, []) && !r.value.ArrayEntries?
  {
    UpdateCorrect(n, 0, k, v);
  }

  /** Setting or removing a key of a root that still lists its entries; the ninth entry turns it into a trie. */
  function UpdateArray<U(==,!new), V(==)>(es: seq<(Key<U>, V)>, k: Key<U>, v: Option<V>): (r: Update<U, V>)
    ensures v.Some? ==> r.node.Some?
  {
    var i := IndexOf(es, k);
    if GetEntry(es, k) == v then Same(ArrayEntries(es))
    else
      var resized := v.None? || i == |es|;
      if v.None? && |es| == 1 then Update(None, true, resized)
      else if i == |es| && v.Some? && |es| >= MAX_ARRAY_ENTRIES then
        Update(Some(AddAll(Leaf(k.hash, (k, v.value)), es)), true, resized)
      else Update(Some(ArrayEntries(PutEntry(es, k, v))), true, resized)
  }

  function UpdateRoot<U(==,!new), V(==)>(n: Node<U, V>, k: Key<U>, v: Option<V>): (r: Update<U, V>)
    requires Valid(n, [])
    ensures v.Some? ==> r.node.Some?
  {
    if n.ArrayEntries? then UpdateArray(n.entries, k, v) else UpdateNode(n, 0, k, v)
  }

  datatype TrieMap<U, V> = TrieMap(size: int, root: Option<Node<U, V>>)

  function Empty<U, V>(): TrieMap<U, V> {
    TrieMap(0, None)
  }

  function UpdateMap<U(==,!new), V(==)>(m: TrieMap<U, V>, k: Key<U>, v: Option<V>): TrieMap<U, V>
    requires m.root.Some? ==> Valid(m.root.value, [])
  {
    if m.root.Some? then
      var r := UpdateRoot(m.root.value, k, v);
      if !r.altered then m
      else
        var size := m.size + (if r.resized then (if v.None? then -1 else 1) else 0);
        if r.node.Some? then TrieMap(size, r.node) else Empty()
    else if v.None? then m
    else TrieMap(1, Some(ArrayEntries([(k, v.value)])))
  }

  function Lookup<U(==,!new), V>(m: TrieMap<U, V>, k: Key<U>): Option<V>
    requires m.root.Some? ==> Valid(m.root.value, [])
  {
    GetIn(m.root, 0, k)
  }

  // ---------------------------------------------------------------- refinement

  /** The trie holds what the plain map holds, and counts its keys. */
  ghost predicate Refines<U(!new), V>(m: TrieMap<U, V>, a: map<Key<U>, V>) {
    && (m.root.Some? ==> Valid(m.root.value, []))
    && m.size == |a|
    && (m.root.None? <==> a == map[])
    && forall k :: Lookup(m, k) == Find(a, k)
  }

  function Put<K(==), V>(a: map<K, V>, k: K, v: Option<V>): map<K, V> {
    if v.Some? then a[k := v.value] else a - {k}
  }

  lemma {:induction false} AddAllGet<U(!new), V>(n: Node<U, V>, es: seq<(Key<U>, V)>, k: Key<U>)
    requires Valid(n, []) && !n.ArrayEntries? && Distinct(es)
    ensures Get(AddAll(n, es), 0, k) == if GetEntry(es, k).Some? then GetEntry(es, k) else Get(n, 0, k)
    decreases |es|
  {
    hide Valid, Get, UpdateNode;
    if |es| > 0 {
      var (k0, v0) := es[0];
      UpdateCorrect(n, 0, k0, Some(v0));
      var n' := UpdateNode(n, 0, k0, Some(v0)).node.value;
      AddAllGet(n', es[1..], k);
      assert Get(n', 0, k) == if k == k0 then Some(v0) else Get(n, 0, k);
      forall j | 0 <= j < |es[1..]| ensures es[1..][j].0 != k0 {
        assert es[1..][j] == es[j + 1];
      }
    }
  }

  lemma ArrayCorrect<U(!new), V>(n: Node<U, V>, k: Key<U>, v: Option<V>)
    requires n.ArrayEntries? && Valid(n, [])
    ensures var r := UpdateArray(n.entries, k, v);
      && (r.node.Some? ==> Valid(r.node.value, []))
      && (r.altered <==> Get(n, 0, k) != v)
      && (r.resized <==> Get(n, 0, k).Some? != v.Some?)
      && forall k2 :: GetIn(r.node, 0, k2) == if k2 == k then v else Get(n, 0, k2)
  {
    var es := n.entries;
    var r := UpdateArray(es, k, v);
    if r.altered {
      forall k2: Key<U>
        ensures r.node.Some? ==> Valid(r.node.value, [])
        ensures GetIn(r.node, 0, k2) == if k2 == k then v else Get(n, 0, k2)
      {
        if IndexOf(es, k) == |es| && v.Some? && |es| >= MAX_ARRAY_ENTRIES {
          AddAllGet(Leaf(k.hash, (k, v.value)), es, k2);
        } else if v.None? && |es| == 1 {
        } else {
          PutEntryGet(es, k, v, k2);
        }
      }
    }
  }

  lemma RootCorrect<U(!new), V>(n: Node<U, V>, k: Key<U>, v: Option<V>)
    requires Valid(n, [])
    ensures var r := UpdateRoot(n, k, v);
      && (r.node.Some? ==> Valid(r.node.value, []))
      && (r.altered <==> Get(n, 0, k) != v)
      && (r.resized <==> Get(n, 0, k).Some? != v.Some?)
      && forall k2 :: GetIn(r.node, 0, k2) == if k2 == k then v else Get(n, 0, k2)
  {
    if n.ArrayEntries? {
      ArrayCorrect(n, k, v);
    } else {
      UpdateCorrect(n, 0, k, v);
    }
  }

  lemma UpdateLookup<U(!new), V>(m: TrieMap<U, V>, k: Key<U>, v: Option<V>)
    requires m.root.Some? ==> Valid(m.root.value, [])
    ensures var m' := UpdateMap(m, k, v);
      && (m'.root.Some? ==> Valid(m'.root.value, []))
      && forall k2 :: Lookup(m', k2) == if k2 == k then v else Lookup(m, k2)
  {
    hide UpdateRoot, Get;
    if m.root.Some? {
      RootCorrect(m.root.value, k, v);
    } else if v.Some? {
      forall k2: Key<U> {
        FirstEntry(k, v.value, k2);
      }
    }
  }

  lemma FirstEntry<U, V>(k: Key<U>, v: V, k2: Key<U>)
    ensures Get(ArrayEntries([(k, v)]), 0, k2) == if k2 == k then Some(v) else None
  {
  }

  lemma UpdateSize<U(!new), V>(m: TrieMap<U, V>, k: Key<U>, v: Option<V>)
    requires m.root.Some? ==> Valid(m.root.value, [])
    requires m.root.None? ==> m.size == 0
    ensures var m' := UpdateMap(m, k, v);
      && (m'.root.Some? || v.Some? ==>
            m'.size == m.size + (if v.Some? then 1 else 0) - (if Lookup(m, k).Some? then 1 else 0))
      && (m'.root.None? ==> m'.size == 0)
  {
    hide UpdateRoot, Get;
    if m.root.Some? {
      RootCorrect(m.root.value, k, v);
    }
  }

  /** One update of the map is the same update of the plain map. */
  lemma UpdateRefines<U(!new), V>(m: TrieMap<U, V>, a: map<Key<U>, V>, k: Key<U>, v: Option<V>)
    requires Refines(m, a)
    ensures Refines(UpdateMap(m, k, v), Put(a, k, v))
  {
    hide UpdateMap, Lookup;
    var m', a' := UpdateMap(m, k, v), Put(a, k, v);
    UpdateLookup(m, k, v);
    UpdateSize(m, k, v);
    PutSize(a, k, v);
    forall k2: Key<U> ensures Lookup(m', k2) == Find(a', k2) {
      assert Lookup(m, k2) == Find(a, k2);
    }
    assert Lookup(m, k) == Find(a, k);
    RootIffKeys(m', a');
  }

  // ---------------------------------------------------------------- thresholds

  /** A list of entries takes new keys up to the eighth; the ninth makes it a trie. */
  lemma ArrayGrowsAt<U(!new), V>(es: seq<(Key<U>, V)>, k: Key<U>, v: V)
    requires IndexOf(es, k) == |es|
    ensures UpdateArray(es, k, Some(v)).node.value.ArrayEntries? <==> |es| < 8
  {
  }

  /** A bitmap node takes new children up to the sixteenth; the seventeenth makes it a hash array. */
  lemma BitmapGrowsAt<U, V>(n: Node<U, V>, p: seq<nat>, s: nat, c: Node<U, V>, resized: bool)
    requires n.BitmapIndexed? && |p| < 7 && Valid(n, p) && s < 32 && s !in n.bits && !c.ArrayEntries?
    ensures var r := UpdateBitmap(n, s, false, Update(Some(c), true, resized)).node.value;
      (r.HashArray? <==> |n.nodes| == 16) && (r.BitmapIndexed? <==> |n.nodes| < 16)
  {
    BitmapShape(n, p);
  }

  /** A hash array gives up children down to the eighth; with seven it is a bitmap node again. */
  lemma HashArrayShrinksAt<U, V>(n: Node<U, V>, p: seq<nat>, s: nat, resized: bool)
    requires n.HashArray? && |p| < 7 && Valid(n, p) && s < 32 && n.slots[s].Some?
    ensures var r := UpdateHashArray(n, s, Update(None, true, resized)).node.value;
      (r.BitmapIndexed? <==> n.count == 8) && (r.HashArray? <==> n.count > 8)
  {
  }

  // ---------------------------------------------------------------- runs

  /** A map with a root has a key. */
  lemma RootIffKeys<U(!new), V>(m: TrieMap<U, V>, a: map<Key<U>, V>)
    requires m.root.Some? ==> Valid(m.root.value, [])
    requires forall k :: Lookup(m, k) == Find(a, k)
    ensures m.root.None? <==> a == map[]
  {
    if m.root.Some? {
      var k := SomeKey(m.root.value, []);
      assert Lookup(m, k) == Find(a, k);
    } else {
      forall k ensures k !in a {
        assert Lookup(m, k) == Find(a, k);
      }
    }
  }

  lemma PutSize<K, V>(a: map<K, V>, k: K, v: Option<V>)
    ensures |Put(a, k, v)| == |a| + (if v.Some? then 1 else 0) - (if k in a then 1 else 0)
  {
  }

  /** One call on the map: set (Some) or remove (None). */
  datatype Call<U, V> = Call(key: Key<U>, value: Option<V>)

  function Run<U(==,!new), V(==)>(calls: seq<Call<U, V>>): (m: TrieMap<U, V>)
    ensures m.root.Some? ==> Valid(m.root.value, [])
  {
    if |calls| == 0 then Empty()
    else
      var last := calls[|calls| - 1];
      var m := Run(calls[..|calls| - 1]);
      MapKeepsValid(m, last.key, last.value);
      UpdateMap(m, last.key, last.value)
  }

  lemma MapKeepsValid<U(!new), V>(m: TrieMap<U, V>, k: Key<U>, v: Option<V>)
    requires m.root.Some? ==> Valid(m.root.value, [])
    ensures var r := UpdateMap(m, k, v).root; r.Some? ==> Valid(r.value, [])
  {
    UpdateLookup(m, k, v);
  }

  function RunMap<U(==,!new), V>(calls: seq<Call<U, V>>): map<Key<U>, V> {
    if |calls| == 0 then map[]
    else Put(RunMap(calls[..|calls| - 1]), calls[|calls| - 1].key, calls[|calls| - 1].value)
  }

  /** Every run of sets and removes leaves the trie holding exactly what a plain map would. */
  lemma {:induction false} RunRefines<U(!new), V>(calls: seq<Call<U, V>>)
    ensures Refines(Run(calls), RunMap(calls))
  {
    if |calls| > 0 {
      var last := calls[|calls| - 1];
      RunRefines(calls[..|calls| - 1]);
      UpdateRefines(Run(calls[..|calls| - 1]), RunMap(calls[..|calls| - 1]), last.key, last.value);
    }
  }
}
