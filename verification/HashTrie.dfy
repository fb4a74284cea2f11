/**
 * The persistent hash map of the Swagger bundle: five kinds of nodes, the recursive update of a
 * node, and the map that counts its keys.
 *
 * A key is modelled up to the map's own key equality and carries its hash, so that equal keys have
 * equal hashes and every hash function is covered. Nodes are never changed: the path taken when a
 * map has no owner.
 */
module HashTrie {
  import opened Wrappers
  import opened TrieSlots

  const MAX_ARRAY_ENTRIES := 8
  const MAX_BITMAP_NODES := 16
  const MIN_HASH_ARRAY_NODES := 8

  datatype Key<U> = Key(id: U, hash: Hash)

  /** The bits of a bitmap are the set of its one positions; a hash array has a place for every slot. */
  datatype Node<U, V> =
    | ArrayEntries(entries: seq<(Key<U>, V)>)
    | BitmapIndexed(bits: set<nat>, nodes: seq<Node<U, V>>)
    | HashArray(count: int, slots: seq<Option<Node<U, V>>>)
    | Collision(keyHash: Hash, bucket: seq<(Key<U>, V)>)
    | Leaf(leafHash: Hash, entry: (Key<U>, V))

  predicate IsLeaf<U, V>(n: Node<U, V>) {
    n.Leaf? || n.Collision?
  }

  // ---------------------------------------------------------------- entries

  /** The position of a key among the entries, or their number. */
  function IndexOf<U(==), V>(es: seq<(Key<U>, V)>, k: Key<U>): (i: nat)
    ensures i <= |es|
    ensures i < |es| ==> es[i].0 == k
    ensures forall j :: 0 <= j < i ==> es[j].0 != k
  {
    if |es| == 0 || es[0].0 == k then 0 else 1 + IndexOf(es[1..], k)
  }

  function GetEntry<U(==), V>(es: seq<(Key<U>, V)>, k: Key<U>): Option<V> {
    var i := IndexOf(es, k);
    if i < |es| then Some(es[i].1) else None
  }

  /** The last entry takes the place of the removed one. */
  function DropEntry<U, V>(es: seq<(Key<U>, V)>, i: nat): (r: seq<(Key<U>, V)>)
    requires i < |es|
    ensures |r| == |es| - 1
  {
    var last := |es| - 1;
    if i == last then es[..last] else es[..last][i := es[last]]
  }

  /** The entries after setting (Some) or removing (None) a key. */
  function PutEntry<U(==), V>(es: seq<(Key<U>, V)>, k: Key<U>, v: Option<V>): seq<(Key<U>, V)> {
    var i := IndexOf(es, k);
    if i < |es| then
      if v.None? then DropEntry(es, i) else es[i := (k, v.value)]
    else if v.None? then es else es + [(k, v.value)]
  }

  ghost predicate Distinct<U, V>(es: seq<(Key<U>, V)>) {
    forall i, j :: 0 <= i < j < |es| ==> es[i].0 != es[j].0
  }

  lemma IndexOfUnique<U, V>(es: seq<(Key<U>, V)>, k: Key<U>, i: nat)
    requires Distinct(es) && i < |es| && es[i].0 == k
    ensures IndexOf(es, k) == i
  {
  }

  lemma PutEntryGet<U, V>(es: seq<(Key<U>, V)>, k: Key<U>, v: Option<V>, k2: Key<U>)
    requires Distinct(es)
    ensures Distinct(PutEntry(es, k, v))
    ensures GetEntry(PutEntry(es, k, v), k2) == if k2 == k then v else GetEntry(es, k2)
  {
    var r := PutEntry(es, k, v);
    var i, j, m := IndexOf(es, k), IndexOf(es, k2), IndexOf(r, k2);
    if j < |es| && k2 != k {
      var j' := if v.None? && i < |es| && j == |es| - 1 then i else j;
      assert r[j'] == es[j];
      IndexOfUnique(r, k2, j');
    } else if k2 == k && v.Some? {
      assert r[i] == (k, v.value);
      IndexOfUnique(r, k2, i);
    }
  }

  // ---------------------------------------------------------------- shape

  /** The slots of a hash array that hold a node. */
  function Slots<U, V>(slots: seq<Option<Node<U, V>>>): set<nat> {
    set s: nat | s < |slots| && slots[s].Some?
  }

  /**
   * What every node of a trie keeps, for a node that is reached along the chunks of `path`: where its
   * hashes lead, how its bitmap and count relate to its children, and which sizes each kind may have.
   */
  ghost predicate Valid<U, V>(n: Node<U, V>, path: seq<nat>)
    requires |path| <= 7
    decreases n
  {
    match n
    case ArrayEntries(es) =>
      path == [] && 1 <= |es| <= MAX_ARRAY_ENTRIES && Distinct(es)
    case BitmapIndexed(bits, nodes) =>
      && |path| < 7
      && 1 <= |nodes| <= MAX_BITMAP_NODES
      && |nodes| == Count(bits, 32)
      && (forall s :: s in bits ==> s < 32)
      && (forall i :: 0 <= i < |nodes| ==> !nodes[i].ArrayEntries?)
      && (forall s :: s in bits ==>
            Count(bits, s) < |nodes| && Valid(nodes[Count(bits, s)], path + [s]))
      && (|nodes| == 1 ==> !IsLeaf(nodes[0]))
    case HashArray(count, slots) =>
      && |path| < 7
      && |slots| == 32
      && count == Count(Slots(slots), 32)
      && count >= MIN_HASH_ARRAY_NODES
      && (forall s: nat :: s < 32 && slots[s].Some? ==>
            !slots[s].value.ArrayEntries? && Valid(slots[s].value, path + [s]))
    case Collision(h, es) =>
      Prefix(h, |path|) == path && |es| >= 2 && Distinct(es) && (forall i :: 0 <= i < |es| ==> es[i].0.hash == h)
    case Leaf(h, e) =>
      Prefix(h, |path|) == path && e.0.hash == h
  }

  /** The node stands on the path of the key. */
  ghost predicate Stands<U, V>(n: Node<U, V>, level: nat, k: Key<U>) {
    level <= 7 && Valid(n, Prefix(k.hash, level))
  }

  // ---------------------------------------------------------------- get

  function Get<U(==), V>(n: Node<U, V>, level: nat, k: Key<U>): Option<V>
    requires Stands(n, level, k)
    decreases n
  {
    match n
    case ArrayEntries(es) => GetEntry(es, k)
    case BitmapIndexed(bits, nodes) =>
      var s := Chunk(k.hash, level);
      if s in bits then Get(nodes[Count(bits, s)], level + 1, k) else None
    case HashArray(_, slots) =>
      var s := Chunk(k.hash, level);
      if slots[s].Some? then Get(slots[s].value, level + 1, k) else None
    case Collision(_, es) => GetEntry(es, k)
    case Leaf(_, e) => if e.0 == k then Some(e.1) else None
  }

  function GetIn<U(==), V>(n: Option<Node<U, V>>, level: nat, k: Key<U>): Option<V>
    requires n.Some? ==> Stands(n.value, level, k)
  {
    if n.Some? then Get(n.value, level, k) else None
  }

  // ---------------------------------------------------------------- update

  /**
   * The outcome of updating a node: the node that takes its place (None when it vanishes), and the two
   * flags the update raises. Without `altered` the node is the very same one.
   */
  datatype Update<U, V> = Update(node: Option<Node<U, V>>, altered: bool, resized: bool)

  function Same<U, V>(n: Node<U, V>): Update<U, V> {
    Update(Some(n), false, false)
  }

  /** Updating where there is no node yet. */
  function UpdateAbsent<U, V>(k: Key<U>, v: Option<V>): Update<U, V> {
    if v.None? then Update(None, false, false)
    else Update(Some(Leaf(k.hash, (k, v.value))), true, true)
  }

  function LeafHash<U, V>(n: Node<U, V>): Hash
    requires IsLeaf(n)
  {
    if n.Leaf? then n.leafHash else n.keyHash
  }

  /** Pushes a leaf or collision and a new entry of another hash down until their chunks differ. */
  function MergeInto<U, V>(n: Node<U, V>, level: nat, e: (Key<U>, V)): (r: Node<U, V>)
    requires IsLeaf(n) && Stands(n, level, e.0)
    requires n.Collision? ==> n.keyHash != e.0.hash
    ensures !r.ArrayEntries?
    decreases 7 - level
  {
    var h := LeafHash(n);
    if h == e.0.hash then
      Collision(h, [n.entry, e])
    else
      FullPath(h, e.0.hash);
      var u, s := Chunk(h, level), Chunk(e.0.hash, level);
      if u == s then
        BitmapIndexed({u}, [MergeInto(n, level + 1, e)])
      else
        var o := Leaf(e.0.hash, e);
        BitmapIndexed({u, s}, if u < s then [n, o] else [o, n])
  }

  /** The 32 places of a hash array with the nodes of a bitmap. */
  function Expand<U, V>(bits: set<nat>, nodes: seq<Node<U, V>>): (r: seq<Option<Node<U, V>>>)
    requires |nodes| == Count(bits, 32)
    ensures |r| == 32
    ensures forall s: nat {:trigger r[s]} :: s < 32 ==>
      if s in bits then Count(bits, s) < |nodes| && r[s] == Some(nodes[Count(bits, s)]) else r[s] == None
  {
    assert forall s: nat :: s < 32 && s in bits ==> Count(bits, s) < |nodes| by {
      forall s: nat | s < 32 && s in bits ensures Count(bits, s) < |nodes| { CountBelow(bits, s, 32); }
    }
    seq(32, s requires 0 <= s < 32 => if s in bits then Some(nodes[Count(bits, s)]) else None)
  }

  /** The nodes in the places below `end`, leaving one place out. */
  function Pack<U, V>(slots: seq<Option<Node<U, V>>>, without: nat, end: nat): (r: seq<Node<U, V>>)
    requires end <= |slots|
    ensures |r| == Count(Slots(slots) - {without}, end)
    ensures forall s: nat {:trigger slots[s]} :: s < end && s != without && slots[s].Some? ==>
      Count(Slots(slots) - {without}, s) < |r| && r[Count(Slots(slots) - {without}, s)] == slots[s].value
  {
    if end == 0 then []
    else
      var rest := Pack(slots, without, end - 1);
      if end - 1 != without && slots[end - 1].Some? then rest + [slots[end - 1].value] else rest
  }

  /** Setting (Some) or removing (None) a key below the root. */
  function UpdateNode<U(==), V(==)>(n: Node<U, V>, level: nat, k: Key<U>, v: Option<V>): (r: Update<U, V>)
    requires Stands(n, level, k) && !n.ArrayEntries?
    ensures !r.altered ==> r == Same(n)
    ensures v.Some? ==> r.node.Some?
    ensures r.node.Some? ==> !r.node.value.ArrayEntries?
    decreases n
  {
    match n
    case BitmapIndexed(bits, nodes) =>
      var s := Chunk(k.hash, level);
      var present := s in bits;
      if !present && v.None? then Same(n)
      else
        var i := Count(bits, s);
        var d := if present then UpdateNode(nodes[i], level + 1, k, v) else UpdateAbsent(k, v);
        if !d.altered then Same(n)
        else UpdateBitmap(n, s, present, d)
    case HashArray(count, slots) =>
      var s := Chunk(k.hash, level);
      if v.None? && slots[s].None? then Same(n)
      else
        var d := if slots[s].Some? then UpdateNode(slots[s].value, level + 1, k, v) else UpdateAbsent(k, v);
        if !d.altered then Same(n)
        else UpdateHashArray(n, s, d)
    case Collision(h, es) =>
      if k.hash != h then
        if v.None? then Same(n)
        else Update(Some(MergeInto(n, level, (k, v.value))), true, true)
      else
        var i := IndexOf(es, k);
        if GetEntry(es, k) == v then Same(n)
        else
          var resized := v.None? || i == |es|;
          if v.None? && |es| == 2 then Update(Some(Leaf(h, es[1 - i])), true, resized)
          else Update(Some(Collision(h, PutEntry(es, k, v))), true, resized)
    case Leaf(h, e) =>
      var sameKey := k == e.0;
      if (if sameKey then v == Some(e.1) else v.None?) then Same(n)
      else if v.None? then Update(None, true, true)
      else if sameKey then Update(Some(Leaf(h, (k, v.value))), true, false)
      else Update(Some(MergeInto(n, level, (k, v.value))), true, true)
  }

  function SpliceInto<T>(xs: seq<T>, i: nat, x: T): (r: seq<T>)
    requires i <= |xs|
    ensures |r| == |xs| + 1 && r[i] == x
    ensures forall j :: 0 <= j < i ==> r[j] == xs[j]
    ensures forall j :: i <= j < |xs| ==> r[j + 1] == xs[j]
  {
    xs[..i] + [x] + xs[i..]
  }

  function SpliceFrom<T>(xs: seq<T>, i: nat): (r: seq<T>)
    requires i < |xs|
    ensures |r| == |xs| - 1
    ensures forall j :: 0 <= j < i ==> r[j] == xs[j]
    ensures forall j :: i < j < |xs| ==> r[j - 1] == xs[j]
  {
    xs[..i] + xs[i + 1..]
  }

  /** A bitmap node whose child in slot s became d.node: growth, collapse into the child, or a new bitmap. */
  function UpdateBitmap<U, V>(n: Node<U, V>, s: nat, had: bool, d: Update<U, V>): (r: Update<U, V>)
    requires n.BitmapIndexed? && |n.nodes| == Count(n.bits, 32) && s < 32
    requires had <==> s in n.bits
    requires !had ==> d.node.Some?
    requires d.altered
    requires d.node.Some? ==> !d.node.value.ArrayEntries?
    requires forall i :: 0 <= i < |n.nodes| ==> !n.nodes[i].ArrayEntries?
    ensures r.altered && r.resized == d.resized
    ensures d.node.Some? ==> r.node.Some?
    ensures r.node.Some? ==> !r.node.value.ArrayEntries?
  {
    var (bits, nodes) := (n.bits, n.nodes);
    var i := Count(bits, s);
    CountBelow(bits, s, 32);
    var to :=
      if !had && |nodes| >= MAX_BITMAP_NODES then
        Some(HashArray(|nodes| + 1, Expand(bits, nodes)[s := d.node]))
      else if had && d.node.None? && |nodes| == 2 && IsLeaf(nodes[1 - i]) then
        Some(nodes[1 - i])
      else if had && d.node.Some? && |nodes| == 1 && IsLeaf(d.node.value) then
        d.node
      else if had then
        if d.node.Some? then Some(BitmapIndexed(bits, nodes[i := d.node.value]))
        else Some(BitmapIndexed(bits - {s}, SpliceFrom(nodes, i)))
      else
        Some(BitmapIndexed(bits + {s}, SpliceInto(nodes, i, d.node.value)));
    Update(to, true, d.resized)
  }

  /** A hash array whose place s became d.node: packed into a bitmap node when it gets too small. */
  function UpdateHashArray<U, V>(n: Node<U, V>, s: nat, d: Update<U, V>): (r: Update<U, V>)
    requires n.HashArray? && |n.slots| == 32 && s < 32
    requires d.altered
    ensures r.altered && r.resized == d.resized
    ensures r.node.Some? && !r.node.value.ArrayEntries?
  {
    var (count, slots) := (n.count, n.slots);
    var to :=
      if slots[s].Some? && d.node.None? && count - 1 < MIN_HASH_ARRAY_NODES then
        BitmapIndexed(Slots(slots) - {s}, Pack(slots, s, 32))
      else
        var count' := if slots[s].None? then count + 1 else if d.node.None? then count - 1 else count;
        HashArray(count', slots[s := d.node]);
    Update(Some(to), true, d.resized)
  }
}
