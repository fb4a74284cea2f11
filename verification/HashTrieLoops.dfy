/**
 * The loops of the hash trie that fill new arrays: searching entries, splicing a child in and out, and
 * turning a bitmap word into 32 places and back.
 */
module HashTrieLoops {
  import opened Wrappers
  import opened TrieSlots
  import opened HashTrie

  function Pow2(k: nat): (p: nat)
    ensures p >= 1
  {
    if k == 0 then 1 else 2 * Pow2(k - 1)
  }

  /** The positions of the ones of a word whose lowest bit stands at `from`. */
  function Ones(n: nat, from: nat): set<nat> {
    if n == 0 then {} else (if n % 2 == 1 then {from} else {}) + Ones(n / 2, from + 1)
  }

  lemma {:induction false} OnesRange(n: nat, from: nat, k: nat)
    requires n < Pow2(k)
    ensures forall t :: t in Ones(n, from) ==> from <= t < from + k
    decreases k
  {
    if n > 0 {
      OnesRange(n / 2, from + 1, k - 1);
    }
  }

  lemma {:induction false} OnesFrom(n: nat, from: nat)
    ensures forall t :: t in Ones(n, from) ==> from <= t
  {
    if n > 0 {
      OnesFrom(n / 2, from + 1);
    }
  }

  /** The lowest bit and the others. */
  lemma OnesStep(n: nat, from: nat)
    requires n > 0
    ensures from in Ones(n, from) <==> n % 2 == 1
    ensures forall t: nat :: t > from ==> (t in Ones(n, from) <==> t in Ones(n / 2, from + 1))
  {
    OnesFrom(n / 2, from + 1);
  }

  /** The lowest s bits of a word: the mask `n & (1 << s) - 1`. */
  function Low(n: nat, s: nat): nat {
    if s == 0 then 0 else n % 2 + 2 * Low(n / 2, s - 1)
  }

  /** How many bits of a word are set. */
  function Population(n: nat): nat {
    if n == 0 then 0 else n % 2 + Population(n / 2)
  }

  lemma {:induction false} NoneBelow(bits: set<nat>, s: nat)
    requires forall t :: t in bits ==> s <= t
    ensures Count(bits, s) == 0
  {
    if s > 0 {
      NoneBelow(bits, s - 1);
    }
  }

  /** Counting the slots below s is counting the bits of the masked word. */
  lemma {:induction false} CountIsPopulation(n: nat, from: nat, s: nat)
    ensures Count(Ones(n, from), from + s) == Population(Low(n, s))
    decreases s
  {
    OnesFrom(n, from);
    if s == 0 {
      NoneBelow(Ones(n, from), from);
    } else {
      var rest := Ones(n / 2, from + 1);
      OnesFrom(n / 2, from + 1);
      CountIsPopulation(n / 2, from + 1, s - 1);
      CountAdd(rest, from, from + s);
      assert Ones(n, from) == if n % 2 == 1 then rest + {from} else rest;
      assert Low(n, s) / 2 == Low(n / 2, s - 1) && Low(n, s) % 2 == n % 2;
    }
  }

  /** Setting the bit above a word. */
  lemma {:induction false} OnesSet(n: nat, from: nat, k: nat)
    requires n < Pow2(k)
    ensures Ones(n + Pow2(k), from) == Ones(n, from) + {from + k}
    decreases k
  {
    if k == 0 {
      assert Ones(1, from) == {from} + Ones(0, from + 1);
    } else {
      var m := n + Pow2(k);
      assert m % 2 == n % 2 && m / 2 == n / 2 + Pow2(k - 1);
      OnesSet(n / 2, from + 1, k - 1);
      assert Ones(m, from) == (if n % 2 == 1 then {from} else {}) + (Ones(n / 2, from + 1) + {from + k});
    }
  }

  lemma Halve(n: nat, k: nat)
    requires 0 < n < Pow2(k)
    ensures k > 0 && n / 2 < Pow2(k - 1)
  {
  }

  lemma CountStep(bits: set<nat>, s: nat)
    ensures Count(bits, 0) == 0
    ensures Count(bits, s + 1) == Count(bits, s) + if s in bits then 1 else 0
  {
  }

  lemma NoOnes(from: nat)
    ensures Ones(0, from) == {}
  {
  }

  method FindIndex<U(==), V>(es: seq<(Key<U>, V)>, k: Key<U>) returns (c: nat)
    ensures c == IndexOf(es, k)
  {
    c := 0;
    while c < |es| && es[c].0 != k
      invariant c <= |es| && forall j :: 0 <= j < c ==> es[j].0 != k
    {
      c := c + 1;
    }
  }

  method SpliceIn<T(0)>(t: seq<T>, e: nat, x: T) returns (o: array<T>)
    requires e <= |t|
    ensures fresh(o) && o[..] == SpliceInto(t, e, x)
  {
    var i := |t| + 1;
    o := new T[i];
    var u := 0;
    for s := 0 to i
      invariant u == (if s <= e then 0 else -1)
      invariant forall j :: 0 <= j < s ==> o[j] == SpliceInto(t, e, x)[j]
    {
      if s == e {
        o[s] := x;
        u := -1;
      } else {
        o[s] := t[s + u];
      }
    }
  }

  method SpliceOut<T(0)>(t: seq<T>, e: nat) returns (i: array<T>)
    requires e < |t|
    ensures fresh(i) && i[..] == SpliceFrom(t, e)
  {
    var r := |t| - 1;
    i := new T[r];
    var o := 0;
    for u := 0 to r
      invariant o == (if u <= e then 0 else 1)
      invariant forall j :: 0 <= j < u ==> i[j] == SpliceFrom(t, e)[j]
    {
      if u == e {
        o := 1;
      }
      i[u] := t[u + o];
    }
  }

  /** One place of the expanded array. */
  function Place<U, V>(bits: set<nat>, nodes: seq<Node<U, V>>, s: nat): Option<Node<U, V>> {
    if s in bits && Count(bits, s) < |nodes| then Some(nodes[Count(bits, s)]) else None
  }

  /** The 32 places for the nodes of a bitmap word, lowest bit first. */
  method ExpandNodes<U, V>(bitmap: nat, nodes: seq<Node<U, V>>) returns (u: array<Option<Node<U, V>>>)
    requires bitmap < Pow2(32) && |nodes| == Count(Ones(bitmap, 0), 32)
    ensures fresh(u) && u[..] == Expand(Ones(bitmap, 0), nodes)
  {
    hide Ones, Count, Pow2;
    ghost var bits := Ones(bitmap, 0);
    OnesRange(bitmap, 0, 32);
    CountStep(bits, 0);
    u := new Option<Node<U, V>>[32](_ => None);
    var n: nat, o: nat, s: nat := bitmap, 0, 0;
    while n != 0
      invariant s <= 32 && n < Pow2(32 - s) && o == Count(bits, s)
      invariant forall t: nat :: t >= s ==> (t in bits <==> t in Ones(n, s))
      invariant forall t: nat :: t < s ==> u[t] == Place(bits, nodes, t)
      invariant forall t: nat :: s <= t < 32 ==> u[t] == None
      decreases n
    {
      OnesStep(n, s);
      Halve(n, 32 - s);
      CountStep(bits, s);
      if n % 2 == 1 {
        CountBelow(bits, s, 32);
        u[s] := Some(nodes[o]);
        o := o + 1;
      } else {
        u[s] := None;
      }
      s, n := s + 1, n / 2;
    }
    NoOnes(s);
    forall t: nat | t < 32 ensures u[t] == Place(bits, nodes, t) {
      assert t >= s ==> t !in bits;
    }
  }

  /** The nodes of a hash array but one, and the word that says where they stood. */
  method PackNodes<U, V>(slots: seq<Option<Node<U, V>>>, without: nat) returns (i: nat, u: seq<Node<U, V>>)
    requires |slots| == 32
    ensures i < Pow2(32) && Ones(i, 0) == Slots(slots) - {without} && u == Pack(slots, without, 32)
  {
    i, u := 0, [];
    var a := 1;
    for s := 0 to 32
      invariant a == Pow2(s) && i < Pow2(s)
      invariant Ones(i, 0) == (set t: nat | t < s && t in Slots(slots) - {without})
      invariant u == Pack(slots, without, s)
    {
      if slots[s].Some? && s != without {
        OnesSet(i, 0, s);
        i := i + a;
        u := u + [slots[s].value];
      }
      a := 2 * a;
    }
    assert Ones(i, 0) == Slots(slots) - {without};
  }
}
