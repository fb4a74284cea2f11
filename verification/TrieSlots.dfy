/** Slot arithmetic of the hash trie: five-bit hash chunks and counting the bits below a slot. */
module TrieSlots {

  type Hash = h: int | 0 <= h < 0x1_0000_0000

  /** The five bits of the hash above 5 * level: a shift by five for every level, then a mask. */
  function Chunk(h: Hash, level: nat): (s: nat)
    ensures s < 32
  {
    if level == 0 then h % 32 else Chunk(h / 32, level - 1)
  }

  /** The first chunks of a hash: the path from the root to a node of that level. */
  function Prefix(h: Hash, level: nat): (p: seq<nat>)
    ensures |p| == level
  {
    if level == 0 then [] else Prefix(h, level - 1) + [Chunk(h, level - 1)]
  }

  lemma {:induction false} PrefixChunk(h: Hash, level: nat, i: nat)
    requires i < level
    ensures Prefix(h, level)[i] == Chunk(h, i)
  {
    if i < level - 1 {
      PrefixChunk(h, level - 1, i);
    }
  }

  /** Different hashes differ in one of the first seven chunks, which cover all 32 bits. */
  lemma FullPath(h: Hash, g: Hash)
    ensures Prefix(h, 7) == Prefix(g, 7) <==> h == g
  {
    if Prefix(h, 7) == Prefix(g, 7) {
      forall i: nat | i < 7 ensures Chunk(h, i) == Chunk(g, i) {
        PrefixChunk(h, 7, i);
        PrefixChunk(g, 7, i);
      }
      SameChunks(h, g, 7);
    }
  }

  function Pow32(n: nat): nat {
    if n == 0 then 1 else 32 * Pow32(n - 1)
  }

  lemma {:induction false} SameChunks(h: Hash, g: Hash, n: nat)
    requires h < Pow32(n) && g < Pow32(n)
    requires forall i: nat :: i < n ==> Chunk(h, i) == Chunk(g, i)
    ensures h == g
  {
    if n > 0 {
      forall i: nat | i < n - 1 ensures Chunk(h / 32, i) == Chunk(g / 32, i) {
        assert Chunk(h, i + 1) == Chunk(g, i + 1);
      }
      SameChunks(h / 32, g / 32, n - 1);
      assert Chunk(h, 0) == Chunk(g, 0);
    }
  }

  /** The number of slots of the bitmap below s: what the population count of `bitmap & (bit - 1)` gives. */
  function Count(bits: set<nat>, s: nat): (c: nat)
    ensures c <= s
  {
    if s == 0 then 0 else Count(bits, s - 1) + (if s - 1 in bits then 1 else 0)
  }

  /** Counting is strictly monotone at the slots that are set. */
  lemma {:induction false} CountBelow(bits: set<nat>, s: nat, t: nat)
    requires s < t
    ensures Count(bits, s) + (if s in bits then 1 else 0) <= Count(bits, t)
  {
    if s + 1 < t {
      CountBelow(bits, s, t - 1);
    }
  }

  /** The same for two slots in either order. */
  lemma CountOrder(bits: set<nat>, s: nat, t: nat)
    ensures s < t ==> Count(bits, s) + (if s in bits then 1 else 0) <= Count(bits, t)
    ensures t < s ==> Count(bits, t) + (if t in bits then 1 else 0) <= Count(bits, s)
  {
    if s < t {
      CountBelow(bits, s, t);
    } else if t < s {
      CountBelow(bits, t, s);
    }
  }

  lemma {:induction false} CountAdd(bits: set<nat>, s: nat, t: nat)
    requires s !in bits
    ensures Count(bits + {s}, t) == Count(bits, t) + (if s < t then 1 else 0)
  {
    if t > 0 {
      CountAdd(bits, s, t - 1);
    }
  }

  lemma {:induction false} CountRemove(bits: set<nat>, s: nat, t: nat)
    requires s in bits
    ensures Count(bits - {s}, t) == Count(bits, t) - (if s < t then 1 else 0)
  {
    CountAdd(bits - {s}, s, t);
    assert bits - {s} + {s} == bits;
  }

  lemma {:induction false} NoSlot(bits: set<nat>, end: nat)
    requires Count(bits, end) == 0
    ensures forall u: nat :: u < end ==> u !in bits
  {
    if end > 0 {
      NoSlot(bits, end - 1);
    }
  }

  /** A bitmap of one bit. */
  lemma {:induction false} OneSlot(bits: set<nat>, end: nat) returns (t: nat)
    requires Count(bits, end) == 1
    ensures t < end && t in bits && forall u: nat :: u < end && u in bits ==> u == t
  {
    if end - 1 in bits {
      t := end - 1;
      NoSlot(bits, end - 1);
    } else {
      t := OneSlot(bits, end - 1);
    }
  }

  lemma {:induction false} SomeSlot(bits: set<nat>, end: nat) returns (t: nat)
    requires Count(bits, end) > 0
    ensures t < end && t in bits
  {
    if end - 1 in bits {
      t := end - 1;
    } else {
      t := SomeSlot(bits, end - 1);
    }
  }
}
