/** What an update of a trie node keeps and what it changes. */
module HashTrieProofs {
  import opened Wrappers
  import opened TrieSlots
  import opened HashTrie

  /** What a leaf or a collision holds, wherever it stands. */
  function LeafGet<U(==), V>(n: Node<U, V>, k: Key<U>): Option<V>
    requires IsLeaf(n)
  {
    if n.Leaf? then (if n.entry.0 == k then Some(n.entry.1) else None) else GetEntry(n.bucket, k)
  }

  /** A leaf or a collision may stand one level higher. */
  lemma LeafUp<U, V>(n: Node<U, V>, p: seq<nat>, s: nat)
    requires IsLeaf(n) && |p| < 7 && Valid(n, p + [s])
    ensures Valid(n, p)
    ensures Chunk(LeafHash(n), |p|) == s
  {
    var h := LeafHash(n);
    assert Prefix(h, |p|) == (p + [s])[..|p|] == p;
    assert Chunk(h, |p|) == (p + [s])[|p|] == s;
  }

  /** A leaf or a collision may stand one level lower. */
  lemma LeafDown<U, V>(n: Node<U, V>, level: nat, k: Key<U>)
    requires IsLeaf(n) && Stands(n, level, k)
    ensures Prefix(LeafHash(n), level) == Prefix(k.hash, level)
    ensures level < 7 ==> Valid(n, Prefix(LeafHash(n), level) + [Chunk(LeafHash(n), level)])
    ensures level < 7 && Chunk(LeafHash(n), level) == Chunk(k.hash, level) ==> Stands(n, level + 1, k)
    ensures level == 7 ==> LeafHash(n) == k.hash
  {
    var h := LeafHash(n);
    assert Prefix(h, level + 1) == Prefix(h, level) + [Chunk(h, level)];
    if level == 7 {
      FullPath(h, k.hash);
    }
  }

  /** It holds no key of another chunk. */
  lemma LeafMiss<U, V>(n: Node<U, V>, p: seq<nat>, s: nat, k: Key<U>)
    requires IsLeaf(n) && |p| < 7 && Valid(n, p + [s]) && Chunk(k.hash, |p|) != s
    ensures LeafGet(n, k) == None
  {
    LeafUp(n, p, s);
  }

  lemma {:induction false} CountEmpty(t: nat)
    ensures Count({}, t) == 0
  {
    if t > 0 {
      CountEmpty(t - 1);
    }
  }

  /** A bitmap node of one child, which must be a branch. */
  lemma OneChild<U, V>(n: Node<U, V>, s: nat, p: seq<nat>)
    requires |p| < 7 && s < 32 && Valid(n, p + [s]) && !n.ArrayEntries? && !IsLeaf(n)
    ensures Valid(BitmapIndexed({s}, [n]), p)
  {
    OneChildCount(s);
  }

  lemma OneChildCount(s: nat)
    requires s < 32
    ensures Count({s}, s) == 0 && Count({s}, 32) == 1
  {
    CountEmpty(32);
    CountEmpty(s);
    CountAdd({}, s, 32);
    CountAdd({}, s, s);
    assert {} + {s} == {s};
  }

  lemma TwoChildrenCount(s: nat, t: nat)
    requires s < 32 && t < 32 && s != t
    ensures Count({s, t}, 32) == 2
    ensures Count({s, t}, s) == (if s < t then 0 else 1)
    ensures Count({s, t}, t) == (if s < t then 1 else 0)
  {
    CountEmpty(s);
    OneChildCount(s);
    OneChildCount(t);
    CountEmpty(t);
    CountAdd({}, s, t);
    assert {} + {s} == {s};
    CountAdd({s}, t, 32);
    CountAdd({s}, t, s);
    CountAdd({s}, t, t);
    assert {s} + {t} == {s, t};
  }

  /** A bitmap node of two children. */
  lemma TwoChildren<U, V>(lo: Node<U, V>, s: nat, hi: Node<U, V>, t: nat, p: seq<nat>)
    requires |p| < 7 && s < t < 32 && !lo.ArrayEntries? && !hi.ArrayEntries?
    requires Valid(lo, p + [s]) && Valid(hi, p + [t])
    ensures Valid(BitmapIndexed({s, t}, [lo, hi]), p)
  {
    TwoChildrenCount(s, t);
  }

  /** Merging finds differing chunks before the hash runs out, and builds a valid node. */
  lemma {:induction false} MergeValid<U, V>(n: Node<U, V>, level: nat, e: (Key<U>, V))
    requires IsLeaf(n) && Stands(n, level, e.0) && LeafGet(n, e.0) == None
    requires n.Collision? ==> n.keyHash != e.0.hash
    ensures Stands(MergeInto(n, level, e), level, e.0)
    decreases 7 - level
  {
    var h := LeafHash(n);
    if h != e.0.hash {
      FullPath(h, e.0.hash);
      var p, u, s := Prefix(h, level), Chunk(h, level), Chunk(e.0.hash, level);
      assert Prefix(h, level + 1) == p + [u];
      var o := Leaf(e.0.hash, e);
      if u == s {
        MergeValid(n, level + 1, e);
        OneChild(MergeInto(n, level + 1, e), u, p);
      } else if u < s {
        TwoChildren(n, u, o, s, p);
      } else {
        TwoChildren(o, s, n, u, p);
        assert {u, s} == {s, u};
      }
    }
  }

  /** A key is found in a bitmap node through the child of its chunk. */
  lemma GetFork<U, V>(lo: Node<U, V>, s: nat, hi: Node<U, V>, t: nat, level: nat, k: Key<U>)
    requires level < 7 && s < t < 32 && !lo.ArrayEntries? && !hi.ArrayEntries?
    requires Valid(lo, Prefix(k.hash, level) + [s]) && Valid(hi, Prefix(k.hash, level) + [t])
    ensures Stands(BitmapIndexed({s, t}, [lo, hi]), level, k)
    ensures var c := Chunk(k.hash, level);
      Get(BitmapIndexed({s, t}, [lo, hi]), level, k)
      == if c == s then Get(lo, level + 1, k) else if c == t then Get(hi, level + 1, k) else None
  {
    TwoChildrenCount(s, t);
    TwoChildren(lo, s, hi, t, Prefix(k.hash, level));
  }

  /** The same for a bitmap node of one child. */
  lemma GetOne<U, V>(n: Node<U, V>, s: nat, level: nat, k: Key<U>)
    requires level < 7 && s < 32 && !n.ArrayEntries? && !IsLeaf(n)
    requires Valid(n, Prefix(k.hash, level) + [s])
    ensures Stands(BitmapIndexed({s}, [n]), level, k)
    ensures Get(BitmapIndexed({s}, [n]), level, k)
      == if Chunk(k.hash, level) == s then Get(n, level + 1, k) else None
  {
    OneChildCount(s);
    OneChild(n, s, Prefix(k.hash, level));
  }

  /** Two keys of one hash end up in a collision. */
  lemma MergeCollision<U, V>(n: Node<U, V>, e: (Key<U>, V), k: Key<U>)
    requires n.Leaf? && n.entry.0 != e.0
    ensures GetEntry([n.entry, e], k) == if k == e.0 then Some(e.1) else LeafGet(n, k)
  {
    var bucket := [n.entry, e];
    if k == n.entry.0 {
      IndexOfUnique(bucket, k, 0);
    } else if k == e.0 {
      IndexOfUnique(bucket, k, 1);
    }
  }

  /** Merging keeps the old entries and adds the new one. */
  lemma {:induction false} MergeGet<U, V>(n: Node<U, V>, level: nat, e: (Key<U>, V), k: Key<U>)
    requires IsLeaf(n) && Stands(n, level, e.0) && LeafGet(n, e.0) == None
    requires n.Collision? ==> n.keyHash != e.0.hash
    requires Prefix(k.hash, level) == Prefix(e.0.hash, level)
    ensures Stands(MergeInto(n, level, e), level, e.0)
    ensures Get(MergeInto(n, level, e), level, k) == if k == e.0 then Some(e.1) else LeafGet(n, k)
    decreases 7 - level
  {
    hide Valid, Chunk;
    MergeValid(n, level, e);
    var h := LeafHash(n);
    if h == e.0.hash {
      MergeCollision(n, e, k);
    } else {
      LeafDown(n, level, e.0);
      var u, s, t := Chunk(h, level), Chunk(e.0.hash, level), Chunk(k.hash, level);
      if t != u {
        LeafMiss(n, Prefix(h, level), u, k);
      }
      if u == s {
        MergeValid(n, level + 1, e);
        GetOne(MergeInto(n, level + 1, e), u, level, k);
        if t == s {
          MergeGet(n, level + 1, e, k);
        }
      } else {
        MergeFork(n, level, e, k);
      }
    }
  }

  lemma NewLeaf<U, V>(e: (Key<U>, V), level: nat)
    requires level < 7
    ensures Valid(Leaf(e.0.hash, e), Prefix(e.0.hash, level) + [Chunk(e.0.hash, level)])
  {
    assert Prefix(e.0.hash, level + 1) == Prefix(e.0.hash, level) + [Chunk(e.0.hash, level)];
  }

  lemma MergeFork<U, V>(n: Node<U, V>, level: nat, e: (Key<U>, V), k: Key<U>)
    requires IsLeaf(n) && Stands(n, level, e.0) && level < 7
    requires Prefix(k.hash, level) == Prefix(e.0.hash, level)
    requires var h := LeafHash(n); Chunk(h, level) != Chunk(e.0.hash, level)
    ensures var h := LeafHash(n);
      var t := Chunk(k.hash, level);
      && Stands(MergeInto(n, level, e), level, k)
      && Get(MergeInto(n, level, e), level, k)
         == if t == Chunk(h, level) then LeafGet(n, k)
            else if k == e.0 then Some(e.1) else None
  {
    hide Valid, Chunk;
    var h := LeafHash(n);
    var u, s := Chunk(h, level), Chunk(e.0.hash, level);
    LeafDown(n, level, e.0);
    NewLeaf(e, level);
    var o := Leaf(e.0.hash, e);
    if u < s {
      GetFork(n, u, o, s, level, k);
    } else {
      assert {u, s} == {s, u};
      GetFork(o, s, n, u, level, k);
    }
  }

  // ---------------------------------------------------------------- branches

  predicate IsBranch<U, V>(n: Node<U, V>) {
    n.BitmapIndexed? || n.HashArray?
  }

  /** The child of a branch for a chunk. */
  function ChildAt<U, V>(n: Node<U, V>, t: nat): Option<Node<U, V>>
    requires n.BitmapIndexed? || n.HashArray?
  {
    if n.BitmapIndexed? then
      if t in n.bits && Count(n.bits, t) < |n.nodes| then Some(n.nodes[Count(n.bits, t)]) else None
    else if t < |n.slots| then n.slots[t]
    else None
  }

  /** The branch r is the branch n with the child for chunk s exchanged. */
  ghost predicate Exchanged<U, V>(n: Node<U, V>, s: nat, c: Option<Node<U, V>>, r: Node<U, V>) {
    IsBranch(n) && IsBranch(r) && forall t: nat :: t < 32 ==> ChildAt(r, t) == if t == s then c else ChildAt(n, t)
  }

  lemma ReplaceChild<U, V>(n: Node<U, V>, p: seq<nat>, s: nat, c: Node<U, V>)
    requires n.BitmapIndexed? && |p| < 7 && Valid(n, p) && s in n.bits
    requires Valid(c, p + [s]) && !c.ArrayEntries? && (|n.nodes| == 1 ==> !IsLeaf(c))
    ensures Count(n.bits, s) < |n.nodes|
    ensures var r := BitmapIndexed(n.bits, n.nodes[Count(n.bits, s) := c]); Valid(r, p) && Exchanged(n, s, Some(c), r)
  {
    forall t | t in n.bits && t != s ensures Count(n.bits, t) != Count(n.bits, s) {
      CountOrder(n.bits, s, t);
    }
  }

  /** The nodes of a bitmap node are those of its slots, in order. */
  ghost predicate Aligned<U, V>(n: Node<U, V>) {
    && n.BitmapIndexed?
    && |n.nodes| == Count(n.bits, 32)
    && forall s :: s in n.bits ==> s < 32 && Count(n.bits, s) < |n.nodes|
  }

  lemma SpliceOut<U, V>(n: Node<U, V>, s: nat)
    requires Aligned(n) && s in n.bits
    ensures var i := Count(n.bits, s);
      var r := BitmapIndexed(n.bits - {s}, SpliceFrom(n.nodes, i)); Aligned(r) && Exchanged(n, s, None, r)
  {
    var i := Count(n.bits, s);
    CountRemove(n.bits, s, 32);
    forall t | t in n.bits - {s}
      ensures Count(n.bits - {s}, t) == (if s < t then Count(n.bits, t) - 1 else Count(n.bits, t))
      ensures if s < t then Count(n.bits, t) > i else Count(n.bits, t) < i
    {
      CountRemove(n.bits, s, t);
      CountOrder(n.bits, s, t);
    }
  }

  lemma SpliceIn<U, V>(n: Node<U, V>, s: nat, c: Node<U, V>)
    requires Aligned(n) && s !in n.bits && s < 32
    ensures Count(n.bits, s) <= |n.nodes|
    ensures var r := BitmapIndexed(n.bits + {s}, SpliceInto(n.nodes, Count(n.bits, s), c));
      Aligned(r) && Exchanged(n, s, Some(c), r)
  {
    CountBelow(n.bits, s, 32);
    CountAdd(n.bits, s, 32);
    CountAdd(n.bits, s, s);
    var r := BitmapIndexed(n.bits + {s}, SpliceInto(n.nodes, Count(n.bits, s), c));
    forall t: nat | t in n.bits
      ensures Count(r.bits, t) < |r.nodes| && r.nodes[Count(r.bits, t)] == n.nodes[Count(n.bits, t)]
    {
      SplicedIndex(n, s, c, t);
    }
  }

  lemma SplicedIndex<U, V>(n: Node<U, V>, s: nat, c: Node<U, V>, t: nat)
    requires Aligned(n) && s !in n.bits && s < 32 && t in n.bits
    requires Count(n.bits, s) <= |n.nodes|
    ensures var nodes := SpliceInto(n.nodes, Count(n.bits, s), c);
      Count(n.bits + {s}, t) < |nodes| && nodes[Count(n.bits + {s}, t)] == n.nodes[Count(n.bits, t)]
  {
    hide Count;
    CountAdd(n.bits, s, t);
    CountOrder(n.bits, s, t);
  }

  lemma BitmapShape<U, V>(n: Node<U, V>, p: seq<nat>)
    requires n.BitmapIndexed? && |p| < 7 && Valid(n, p)
    ensures Aligned(n) && 1 <= |n.nodes| <= MAX_BITMAP_NODES && (|n.nodes| == 1 ==> !IsLeaf(n.nodes[0]))
    ensures forall i :: 0 <= i < |n.nodes| ==> !n.nodes[i].ArrayEntries?
  {
  }

  /** Exchanging one child keeps a bitmap node valid as long as its shape is right. */
  lemma ExchangedValid<U, V>(n: Node<U, V>, p: seq<nat>, s: nat, c: Option<Node<U, V>>, r: Node<U, V>)
    requires IsBranch(n) && |p| < 7 && Valid(n, p) && s < 32
    requires c.Some? ==> Valid(c.value, p + [s]) && !c.value.ArrayEntries?
    requires Aligned(r) && Exchanged(n, s, c, r)
    requires 1 <= |r.nodes| <= MAX_BITMAP_NODES && forall i :: 0 <= i < |r.nodes| ==> !r.nodes[i].ArrayEntries?
    requires |r.nodes| == 1 ==> !IsLeaf(r.nodes[0])
    ensures Valid(r, p)
  {
    forall t | t in r.bits ensures Valid(r.nodes[Count(r.bits, t)], p + [t]) {
      assert ChildAt(r, t).Some?;
    }
  }

  lemma Grow<U, V>(n: Node<U, V>, p: seq<nat>, s: nat, c: Node<U, V>)
    requires n.BitmapIndexed? && |p| < 7 && Valid(n, p) && s !in n.bits && s < 32
    requires Valid(c, p + [s]) && !c.ArrayEntries? && |n.nodes| >= MAX_BITMAP_NODES
    ensures var r := HashArray(|n.nodes| + 1, Expand(n.bits, n.nodes)[s := Some(c)]);
      Valid(r, p) && Exchanged(n, s, Some(c), r)
  {
    var slots := Expand(n.bits, n.nodes)[s := Some(c)];
    assert Slots(slots) == n.bits + {s};
    CountAdd(n.bits, s, 32);
    forall t: nat | t < 32 && t in n.bits ensures Count(n.bits, t) < |n.nodes| {
      CountBelow(n.bits, t, 32);
    }
  }

  /** Filling, emptying or overwriting a place of a hash array that stays large enough. */
  lemma SetSlot<U, V>(n: Node<U, V>, p: seq<nat>, s: nat, c: Option<Node<U, V>>, count: int)
    requires n.HashArray? && |p| < 7 && Valid(n, p) && s < 32
    requires c.Some? ==> Valid(c.value, p + [s]) && !c.value.ArrayEntries?
    requires count == n.count + (if c.Some? then 1 else 0) - (if n.slots[s].Some? then 1 else 0)
    requires count >= MIN_HASH_ARRAY_NODES
    ensures var r := HashArray(count, n.slots[s := c]); Valid(r, p) && Exchanged(n, s, c, r)
  {
    var slots := n.slots[s := c];
    if c.Some? && n.slots[s].None? {
      assert Slots(slots) == Slots(n.slots) + {s};
      CountAdd(Slots(n.slots), s, 32);
    } else if c.None? && n.slots[s].Some? {
      assert Slots(slots) == Slots(n.slots) - {s};
      CountRemove(Slots(n.slots), s, 32);
    } else {
      assert Slots(slots) == Slots(n.slots);
    }
  }

  /** Packing keeps the nodes of the other places, in order. */
  lemma PackAligned<U, V>(n: Node<U, V>, s: nat)
    requires n.HashArray? && |n.slots| == 32 && s < 32
    ensures var r := BitmapIndexed(Slots(n.slots) - {s}, Pack(n.slots, s, 32)); Aligned(r) && Exchanged(n, s, None, r)
  {
    var bits, nodes := Slots(n.slots) - {s}, Pack(n.slots, s, 32);
    forall t | t in bits ensures Count(bits, t) < |nodes| && nodes[Count(bits, t)] == n.slots[t].value {
    }
  }

  /** Packing a hash array of eight nodes without one of them. */
  lemma PackDown<U, V>(n: Node<U, V>, p: seq<nat>, s: nat)
    requires n.HashArray? && |p| < 7 && Valid(n, p) && s < 32 && n.slots[s].Some?
    requires n.count - 1 < MIN_HASH_ARRAY_NODES
    ensures var r := BitmapIndexed(Slots(n.slots) - {s}, Pack(n.slots, s, 32)); Valid(r, p) && Exchanged(n, s, None, r)
  {
    CountRemove(Slots(n.slots), s, 32);
    PackedFrom(n.slots, s, 32);
    PackAligned(n, s);
    ExchangedValid(n, p, s, None, BitmapIndexed(Slots(n.slots) - {s}, Pack(n.slots, s, 32)));
  }

  lemma {:induction false} PackedFrom<U, V>(slots: seq<Option<Node<U, V>>>, without: nat, end: nat)
    requires end <= |slots|
    requires forall s: nat :: s < |slots| && slots[s].Some? ==> !slots[s].value.ArrayEntries?
    ensures forall i :: 0 <= i < |Pack(slots, without, end)| ==> !Pack(slots, without, end)[i].ArrayEntries?
  {
    if end > 0 {
      PackedFrom(slots, without, end - 1);
    }
  }

  // ---------------------------------------------------------------- the update of a branch

  /** What becomes of a valid branch when the child for chunk s turns into d.node. */
  ghost predicate Became<U, V>(n: Node<U, V>, p: seq<nat>, s: nat, d: Option<Node<U, V>>, r: Node<U, V>) {
    && |p| < 7
    && Valid(r, p)
    && !r.ArrayEntries?
    && (Exchanged(n, s, d, r) || (IsBranch(n) && IsLeaf(r) && exists t: nat :: t < 32 && OnlyChild(n, s, d, t, r)))
  }

  /** All that is left is the leaf r, for chunk t. */
  ghost predicate OnlyChild<U, V>(n: Node<U, V>, s: nat, d: Option<Node<U, V>>, t: nat, r: Node<U, V>)
    requires IsBranch(n)
  {
    forall u: nat :: u < 32 ==> (if u == s then d else ChildAt(n, u)) == if u == t then Some(r) else None
  }

  /** A new child: spliced in, or grown into a hash array. */
  lemma AddBecomes<U, V>(n: Node<U, V>, p: seq<nat>, s: nat, d: Update<U, V>)
    requires n.BitmapIndexed? && |p| < 7 && Valid(n, p) && s < 32 && d.altered && s !in n.bits
    requires d.node.Some? && Valid(d.node.value, p + [s]) && !d.node.value.ArrayEntries?
    ensures Became(n, p, s, d.node, UpdateBitmap(n, s, false, d).node.value)
  {
    if |n.nodes| >= MAX_BITMAP_NODES {
      Grow(n, p, s, d.node.value);
    } else {
      SpliceIn(n, s, d.node.value);
      ExchangedValid(n, p, s, d.node, UpdateBitmap(n, s, false, d).node.value);
    }
  }

  /** A child vanishes: spliced out, or the last leaf moves up. */
  lemma DropBecomes<U, V>(n: Node<U, V>, p: seq<nat>, s: nat, d: Update<U, V>)
    requires n.BitmapIndexed? && |p| < 7 && Valid(n, p) && s in n.bits && d.altered && d.node.None?
    requires |n.nodes| > 1
    ensures var r := UpdateBitmap(n, s, true, d); r.node.Some? && Became(n, p, s, d.node, r.node.value)
  {
    hide Valid, Count, Became;
    BitmapShape(n, p);
    var i := Count(n.bits, s);
    if |n.nodes| == 2 && IsLeaf(n.nodes[1 - i]) {
      LastSibling(n, p, s);
    } else {
      SpliceOutBecomes(n, p, s);
    }
  }

  lemma SpliceOutBecomes<U, V>(n: Node<U, V>, p: seq<nat>, s: nat)
    requires n.BitmapIndexed? && |p| < 7 && Valid(n, p) && s in n.bits && |n.nodes| > 1
    requires |n.nodes| == 2 ==> !IsLeaf(n.nodes[1 - Count(n.bits, s)])
    ensures var i := Count(n.bits, s);
      Became(n, p, s, None, BitmapIndexed(n.bits - {s}, SpliceFrom(n.nodes, i)))
  {
    BitmapShape(n, p);
    var i := Count(n.bits, s);
    var r := BitmapIndexed(n.bits - {s}, SpliceFrom(n.nodes, i));
    SpliceOut(n, s);
    ExchangedValid(n, p, s, None, r);
  }

  /** A child changes: replaced, or as the only leaf it moves up. */
  lemma SwapBecomes<U, V>(n: Node<U, V>, p: seq<nat>, s: nat, d: Update<U, V>)
    requires n.BitmapIndexed? && |p| < 7 && Valid(n, p) && s in n.bits && d.altered
    requires d.node.Some? && Valid(d.node.value, p + [s]) && !d.node.value.ArrayEntries?
    ensures Became(n, p, s, d.node, UpdateBitmap(n, s, true, d).node.value)
  {
    if |n.nodes| == 1 && IsLeaf(d.node.value) {
      LastChild(n, p, s, d.node.value);
    } else {
      ReplaceChild(n, p, s, d.node.value);
    }
  }

  lemma UpdateBitmapBecomes<U, V>(n: Node<U, V>, p: seq<nat>, s: nat, d: Update<U, V>)
    requires n.BitmapIndexed? && |p| < 7 && Valid(n, p) && s < 32 && d.altered
    requires d.node.Some? ==> Valid(d.node.value, p + [s]) && !d.node.value.ArrayEntries?
    requires s !in n.bits ==> d.node.Some?
    requires s in n.bits && |n.nodes| == 1 ==> d.node.Some?
    ensures var r := UpdateBitmap(n, s, s in n.bits, d); r.node.Some? && Became(n, p, s, d.node, r.node.value)
  {
    if s !in n.bits {
      AddBecomes(n, p, s, d);
    } else if d.node.None? {
      DropBecomes(n, p, s, d);
    } else {
      SwapBecomes(n, p, s, d);
    }
  }

  /** Of two children one goes: where the other one is. */
  lemma OtherChild<U, V>(n: Node<U, V>, s: nat) returns (t: nat)
    requires Aligned(n) && s in n.bits && |n.nodes| == 2
    ensures Count(n.bits, s) < 2 && t < 32 && OnlyChild(n, s, None, t, n.nodes[1 - Count(n.bits, s)])
    ensures ChildAt(n, t) == Some(n.nodes[1 - Count(n.bits, s)])
  {
    var r := n.nodes[1 - Count(n.bits, s)];
    var m := BitmapIndexed(n.bits - {s}, SpliceFrom(n.nodes, Count(n.bits, s)));
    SpliceOut(n, s);
    assert m.nodes == [r];
    t := OneSlot(m.bits, 32);
    forall u: nat | u < 32 && u != s ensures ChildAt(n, u) == if u == t then Some(r) else None {
      assert ChildAt(n, u) == ChildAt(m, u);
    }
  }

  /** Of two children one goes and the other is a leaf: the leaf moves up. */
  lemma LastSibling<U, V>(n: Node<U, V>, p: seq<nat>, s: nat)
    requires n.BitmapIndexed? && |p| < 7 && Valid(n, p) && s in n.bits && |n.nodes| == 2
    requires Count(n.bits, s) < 2 && IsLeaf(n.nodes[1 - Count(n.bits, s)])
    ensures Became(n, p, s, None, n.nodes[1 - Count(n.bits, s)])
  {
    var r := n.nodes[1 - Count(n.bits, s)];
    var t := OtherChild(n, s);
    ChildValid(n, p, t);
    LeafUp(r, p, t);
  }

  /** The only child becomes a leaf: the leaf moves up. */
  lemma LastChild<U, V>(n: Node<U, V>, p: seq<nat>, s: nat, c: Node<U, V>)
    requires n.BitmapIndexed? && |p| < 7 && Valid(n, p) && s in n.bits && |n.nodes| == 1
    requires IsLeaf(c) && Valid(c, p + [s])
    ensures Became(n, p, s, Some(c), c)
  {
    var t := OneSlot(n.bits, 32);
    assert t == s;
    LeafUp(c, p, s);
    assert OnlyChild(n, s, Some(c), s, c);
  }

  lemma UpdateHashArrayBecomes<U, V>(n: Node<U, V>, p: seq<nat>, s: nat, d: Update<U, V>)
    requires n.HashArray? && |p| < 7 && Valid(n, p) && s < 32 && d.altered
    requires d.node.Some? ==> Valid(d.node.value, p + [s]) && !d.node.value.ArrayEntries?
    requires n.slots[s].None? ==> d.node.Some?
    ensures Became(n, p, s, d.node, UpdateHashArray(n, s, d).node.value)
  {
    if n.slots[s].Some? && d.node.None? && n.count - 1 < MIN_HASH_ARRAY_NODES {
      PackDown(n, p, s);
    } else {
      SetSlot(n, p, s, d.node, UpdateHashArray(n, s, d).node.value.count);
    }
  }

  // ---------------------------------------------------------------- the whole update

  /** A branch looks a key up in the child of its chunk. */
  lemma GetBranch<U, V>(n: Node<U, V>, level: nat, k: Key<U>)
    requires Stands(n, level, k) && IsBranch(n)
    ensures var c := ChildAt(n, Chunk(k.hash, level));
      && (c.Some? ==> !c.value.ArrayEntries? && Stands(c.value, level + 1, k))
      && Get(n, level, k) == GetIn(c, level + 1, k)
  {
    assert Prefix(k.hash, level + 1) == Prefix(k.hash, level) + [Chunk(k.hash, level)];
  }

  /** What a branch holds after one of its children became d. */
  lemma BecameGet<U, V>(n: Node<U, V>, level: nat, k: Key<U>, d: Option<Node<U, V>>, r: Node<U, V>, k2: Key<U>)
    requires Stands(n, level, k) && IsBranch(n) && Prefix(k2.hash, level) == Prefix(k.hash, level)
    requires d.Some? ==> Stands(d.value, level + 1, k)
    requires Became(n, Prefix(k.hash, level), Chunk(k.hash, level), d, r)
    ensures Chunk(k2.hash, level) == Chunk(k.hash, level) && d.Some? ==> Stands(d.value, level + 1, k2)
    ensures Get(r, level, k2)
      == if Chunk(k2.hash, level) == Chunk(k.hash, level) then GetIn(d, level + 1, k2) else Get(n, level, k2)
  {
    var p, s, u := Prefix(k.hash, level), Chunk(k.hash, level), Chunk(k2.hash, level);
    assert Prefix(k2.hash, level + 1) == p + [u] && Prefix(k.hash, level + 1) == p + [s];
    GetBranch(n, level, k2);
    if Exchanged(n, s, d, r) {
      GetBranch(r, level, k2);
      assert ChildAt(r, u) == if u == s then d else ChildAt(n, u);
    } else {
      var t: nat :| t < 32 && OnlyChild(n, s, d, t, r);
      LeafMoved(n, p, s, d, t, r);
      if u != t {
        LeafMiss(r, p, t, k2);
      }
    }
  }

  lemma LeafMoved<U, V>(n: Node<U, V>, p: seq<nat>, s: nat, d: Option<Node<U, V>>, t: nat, r: Node<U, V>)
    requires IsBranch(n) && |p| < 7 && Valid(n, p) && s < 32 && t < 32
    requires d.Some? ==> Valid(d.value, p + [s])
    requires OnlyChild(n, s, d, t, r)
    ensures Valid(r, p + [t])
  {
    hide Valid, Count;
    var c := ChildAt(n, t);
    assert (if t == s then d else c) == Some(r);
    if t != s {
      ChildValid(n, p, t);
    }
  }

  lemma ChildValid<U, V>(n: Node<U, V>, p: seq<nat>, t: nat)
    requires IsBranch(n) && |p| < 7 && Valid(n, p) && t < 32 && ChildAt(n, t).Some?
    ensures Valid(ChildAt(n, t).value, p + [t])
  {
  }

  /** What updating a key must do to a node, as seen by looking up another key of the same path. */
  ghost predicate Correct<U(!new), V>(n: Node<U, V>, level: nat, k: Key<U>, v: Option<V>, r: Update<U, V>)
    requires Stands(n, level, k)
  {
    && (r.node.Some? ==> Stands(r.node.value, level, k) && !r.node.value.ArrayEntries?)
    && (IsBranch(n) ==> r.node.Some?)
    && (r.altered <==> Get(n, level, k) != v)
    && (r.resized <==> Get(n, level, k).Some? != v.Some?)
    && forall k2: Key<U> :: Prefix(k2.hash, level) == Prefix(k.hash, level) ==>
         GetIn(r.node, level, k2) == if k2 == k then v else Get(n, level, k2)
  }

  /** The same for the place of a child, which may be empty. */
  ghost predicate ChildCorrect<U(!new), V>(c: Option<Node<U, V>>, level: nat, k: Key<U>, v: Option<V>,
                                                 d: Update<U, V>)
    requires c.Some? ==> Stands(c.value, level, k)
  {
    && (d.node.Some? ==> Stands(d.node.value, level, k) && !d.node.value.ArrayEntries?)
    && (c.Some? && IsBranch(c.value) ==> d.node.Some?)
    && (v.Some? ==> d.node.Some?)
    && (d.altered <==> GetIn(c, level, k) != v)
    && (d.resized <==> GetIn(c, level, k).Some? != v.Some?)
    && forall k2: Key<U> :: Prefix(k2.hash, level) == Prefix(k.hash, level) ==>
         GetIn(d.node, level, k2) == if k2 == k then v else GetIn(c, level, k2)
  }

  /** The outcome of the recursive call an update of a branch makes. */
  function ChildUpdate<U(==), V(==)>(c: Option<Node<U, V>>, level: nat, k: Key<U>, v: Option<V>): Update<U, V>
    requires c.Some? ==> Stands(c.value, level, k) && !c.value.ArrayEntries?
  {
    if c.Some? then UpdateNode(c.value, level, k, v) else UpdateAbsent(k, v)
  }

  /** An update of a branch is what its child update makes of it. */
  lemma UpdateBranch<U, V>(n: Node<U, V>, level: nat, k: Key<U>, v: Option<V>, d: Update<U, V>)
    requires IsBranch(n) && Stands(n, level, k)
    requires var c := ChildAt(n, Chunk(k.hash, level));
      (c.Some? ==> Stands(c.value, level + 1, k) && !c.value.ArrayEntries?) && d == ChildUpdate(c, level + 1, k, v)
    requires d.altered
    ensures var s := Chunk(k.hash, level);
      n.BitmapIndexed? ==> UpdateNode(n, level, k, v) == UpdateBitmap(n, s, s in n.bits, d)
    ensures n.HashArray? ==> UpdateNode(n, level, k, v) == UpdateHashArray(n, Chunk(k.hash, level), d)
  {
  }

  lemma BranchCorrect<U(!new), V>(n: Node<U, V>, level: nat, k: Key<U>, v: Option<V>, d: Update<U, V>)
    requires IsBranch(n) && Stands(n, level, k)
    requires var c := ChildAt(n, Chunk(k.hash, level));
      && (c.Some? ==> Stands(c.value, level + 1, k) && !c.value.ArrayEntries?)
      && d == ChildUpdate(c, level + 1, k, v) && ChildCorrect(c, level + 1, k, v, d)
    ensures Correct(n, level, k, v, UpdateNode(n, level, k, v))
  {
    var p, s := Prefix(k.hash, level), Chunk(k.hash, level);
    var r := UpdateNode(n, level, k, v);
    GetBranch(n, level, k);
    assert Prefix(k.hash, level + 1) == p + [s];
    if d.altered {
      UpdateBranch(n, level, k, v, d);
      if n.BitmapIndexed? {
        UpdateBitmapBecomes(n, p, s, d);
      } else {
        UpdateHashArrayBecomes(n, p, s, d);
      }
      forall k2: Key<U> | Prefix(k2.hash, level) == p
        ensures GetIn(r.node, level, k2) == if k2 == k then v else Get(n, level, k2)
      {
        BecameGet(n, level, k, d.node, r.node.value, k2);
        GetBranch(n, level, k2);
        assert Prefix(k2.hash, level + 1) == p + [Chunk(k2.hash, level)];
      }
    }
  }

  lemma LeafCorrect<U(!new), V>(n: Node<U, V>, level: nat, k: Key<U>, v: Option<V>)
    requires n.Leaf? && Stands(n, level, k)
    ensures Correct(n, level, k, v, UpdateNode(n, level, k, v))
  {
    if v.Some? && n.entry.0 != k {
      var e := (k, v.value);
      MergeValid(n, level, e);
      forall k2: Key<U> | Prefix(k2.hash, level) == Prefix(k.hash, level)
        ensures Get(MergeInto(n, level, e), level, k2) == if k2 == k then v else Get(n, level, k2)
      {
        MergeGet(n, level, e, k2);
      }
    }
  }

  lemma CollisionCorrect<U(!new), V>(n: Node<U, V>, level: nat, k: Key<U>, v: Option<V>)
    requires n.Collision? && Stands(n, level, k)
    ensures Correct(n, level, k, v, UpdateNode(n, level, k, v))
  {
    var r := UpdateNode(n, level, k, v);
    if k.hash != n.keyHash {
      if v.Some? {
        var e := (k, v.value);
        MergeValid(n, level, e);
        forall k2: Key<U> | Prefix(k2.hash, level) == Prefix(k.hash, level)
          ensures Get(MergeInto(n, level, e), level, k2) == if k2 == k then v else Get(n, level, k2)
        {
          MergeGet(n, level, e, k2);
        }
      }
    } else if GetEntry(n.bucket, k) != v {
      forall k2: Key<U> | Prefix(k2.hash, level) == Prefix(k.hash, level)
        ensures r.node.Some? && Stands(r.node.value, level, k2)
        ensures Get(r.node.value, level, k2) == if k2 == k then v else Get(n, level, k2)
      {
        BucketCorrect(n, level, k, v, k2);
      }
    }
  }

  lemma BucketCorrect<U, V>(n: Node<U, V>, level: nat, k: Key<U>, v: Option<V>, k2: Key<U>)
    requires n.Collision? && Stands(n, level, k) && k.hash == n.keyHash
    requires Prefix(k2.hash, level) == Prefix(k.hash, level)
    requires GetEntry(n.bucket, k) != v
    ensures var r := UpdateNode(n, level, k, v).node;
      r.Some? && Stands(r.value, level, k2) && Get(r.value, level, k2) == if k2 == k then v else Get(n, level, k2)
  {
    PutEntryGet(n.bucket, k, v, k2);
    if v.None? && |n.bucket| == 2 {
      var i := IndexOf(n.bucket, k);
      if k2 == n.bucket[1 - i].0 {
        IndexOfUnique(n.bucket, k2, 1 - i);
      }
    } else {
      PutEntryHash(n.bucket, k, v);
    }
  }

  lemma PutEntryHash<U, V>(es: seq<(Key<U>, V)>, k: Key<U>, v: Option<V>)
    requires forall i :: 0 <= i < |es| ==> es[i].0.hash == k.hash
    ensures var r := PutEntry(es, k, v);
      && (forall i :: 0 <= i < |r| ==> r[i].0.hash == k.hash)
      && |r| == |es| + (if v.Some? then 1 else 0) - (if GetEntry(es, k).Some? then 1 else 0)
  {
  }

  /** An update of a trie node is right. */
  lemma {:induction false} UpdateCorrect<U(!new), V>(n: Node<U, V>, level: nat, k: Key<U>, v: Option<V>)
    requires Stands(n, level, k) && !n.ArrayEntries?
    ensures Correct(n, level, k, v, UpdateNode(n, level, k, v))
    decreases n
  {
    if IsBranch(n) {
      GetBranch(n, level, k);
      var c := ChildAt(n, Chunk(k.hash, level));
      if c.Some? {
        UpdateCorrect(c.value, level + 1, k, v);
      }
      BranchCorrect(n, level, k, v, ChildUpdate(c, level + 1, k, v));
    } else if n.Leaf? {
      LeafCorrect(n, level, k, v);
    } else {
      CollisionCorrect(n, level, k, v);
    }
  }

  /** No node of a trie is empty. */
  lemma {:induction false} SomeKey<U, V>(n: Node<U, V>, path: seq<nat>) returns (k: Key<U>)
    requires |path| <= 7 && Valid(n, path)
    ensures Stands(n, |path|, k) && Prefix(k.hash, |path|) == path && Get(n, |path|, k).Some?
    decreases n
  {
    match n {
      case ArrayEntries(es) => k := es[0].0;
      case Collision(_, es) => k := es[0].0;
      case Leaf(_, e) => k := e.0;
      case BitmapIndexed(bits, nodes) =>
        var s := SomeSlot(bits, 32);
        k := SomeKey(nodes[Count(bits, s)], path + [s]);
        OnPath(k, path, s);
      case HashArray(_, slots) =>
        var s := SomeSlot(Slots(slots), 32);
        k := SomeKey(slots[s].value, path + [s]);
        OnPath(k, path, s);
    }
  }

  lemma OnPath<U>(k: Key<U>, path: seq<nat>, s: nat)
    requires Prefix(k.hash, |path| + 1) == path + [s]
    ensures Prefix(k.hash, |path|) == path && Chunk(k.hash, |path|) == s
  {
    assert Prefix(k.hash, |path|) == (path + [s])[..|path|];
    assert Chunk(k.hash, |path|) == (path + [s])[|path|];
  }
}
