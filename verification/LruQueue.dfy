/** The least-recently-used queue behind the memoizer's size limit. */
module LruQueue {
  import opened Wrappers

  /** The ids of a queue map in the order of their indices. */
  function Ids<Id>(q: map<nat, Id>, lo: nat, hi: nat): seq<Id>
    requires lo <= hi
    decreases hi - lo
  {
    if lo == hi then [] else (if lo in q then [q[lo]] else []) + Ids(q, lo + 1, hi)
  }

  /** A sequence without one id. */
  function Without<Id(==)>(o: seq<Id>, id: Id): seq<Id> {
    if |o| == 0 then [] else (if o[0] == id then [] else [o[0]]) + Without(o[1..], id)
  }

  datatype Event<Id> = Hit(id: Id) | Delete(id: Id) | Clear

  /** The order after a call, and the id a hit evicts. */
  function Next<Id(==)>(limit: nat, o: seq<Id>, e: Event<Id>): (seq<Id>, Option<Id>) {
    match e
    case Hit(id) =>
      var p := Without(o, id) + [id];
      if |p| > limit then (Without(p, p[0]), Some(p[0])) else (p, None)
    case Delete(id) => (Without(o, id), None)
    case Clear => ([], None)
  }

  lemma {:induction false} IdsAppend<Id>(q: map<nat, Id>, lo: nat, hi: nat, id: Id)
    requires lo <= hi
    ensures Ids(q[hi := id], lo, hi + 1) == Ids(q, lo, hi) + [id]
    decreases hi - lo
  {
    if lo < hi {
      IdsAppend(q, lo + 1, hi, id);
    } else {
      assert Ids(q[hi := id], hi, hi + 1) == [id] + Ids(q[hi := id], hi + 1, hi + 1);
    }
  }

  lemma WithoutCons<Id>(x: Id, rest: seq<Id>, id: Id)
    ensures Without([x] + rest, id) == (if x == id then [] else [x]) + Without(rest, id)
  {
    assert ([x] + rest)[1..] == rest;
  }

  /** Ids of two maps that agree on the range. */
  lemma {:induction false} IdsSame<Id>(q: map<nat, Id>, q': map<nat, Id>, lo: nat, hi: nat)
    requires lo <= hi
    requires forall i: nat :: lo <= i < hi ==> Find(q, i) == Find(q', i)
    ensures Ids(q, lo, hi) == Ids(q', lo, hi)
    decreases hi - lo
  {
    if lo < hi {
      assert Find(q, lo) == Find(q', lo);
      IdsSame(q, q', lo + 1, hi);
    }
  }

  lemma {:induction false} WithoutAbsent<Id>(q: map<nat, Id>, lo: nat, hi: nat, id: Id)
    requires lo <= hi && forall i: nat :: lo <= i < hi && i in q ==> q[i] != id
    ensures Without(Ids(q, lo, hi), id) == Ids(q, lo, hi)
    decreases hi - lo
  {
    if lo < hi {
      WithoutAbsent(q, lo + 1, hi, id);
      if lo in q {
        WithoutCons(q[lo], Ids(q, lo + 1, hi), id);
      } else {
        assert [] + Ids(q, lo + 1, hi) == Ids(q, lo + 1, hi);
      }
    }
  }

  lemma {:induction false} IdsRemove<Id>(q: map<nat, Id>, lo: nat, hi: nat, i: nat)
    requires lo <= i < hi && i in q
    requires forall j: nat :: j in q && j != i ==> q[j] != q[i]
    ensures Ids(q - {i}, lo, hi) == Without(Ids(q, lo, hi), q[i])
    decreases hi - lo
  {
    var rest := Ids(q, lo + 1, hi);
    if lo == i {
      WithoutAbsent(q, lo + 1, hi, q[i]);
      IdsSame(q, q - {i}, lo + 1, hi);
      WithoutCons(q[i], rest, q[i]);
    } else {
      IdsRemove(q, lo + 1, hi, i);
      if lo in q {
        WithoutCons(q[lo], rest, q[i]);
      } else {
        assert [] + rest == rest;
      }
    }
  }

  lemma {:induction false} IdsFirst<Id>(q: map<nat, Id>, lo: nat, hi: nat, base: nat)
    requires lo <= base < hi && base in q && forall i: nat :: lo <= i < base ==> i !in q
    ensures |Ids(q, lo, hi)| > 0 && Ids(q, lo, hi)[0] == q[base]
    decreases hi - lo
  {
    if lo < base {
      IdsFirst(q, lo + 1, hi, base);
    }
  }

  lemma {:induction false} IdsCount<Id>(q: map<nat, Id>, lo: nat, hi: nat)
    requires lo <= hi && forall i: nat :: i in q ==> lo <= i < hi
    ensures |Ids(q, lo, hi)| == |q|
    decreases hi - lo
  {
    if lo == hi {
      assert q == map[];
    } else if lo in q {
      SizeWithout(q, lo);
      IdsCount(q - {lo}, lo + 1, hi);
      IdsSame(q, q - {lo}, lo + 1, hi);
    } else {
      assert forall i: nat :: i in q ==> i != lo;
      IdsCount(q, lo + 1, hi);
    }
  }

  lemma SizeWithout<K, V>(m: map<K, V>, k: K)
    ensures |m - {k}| == if k in m then |m| - 1 else |m|
  {
    if k !in m {
      assert m - {k} == m;
    } else {
      assert (m - {k})[k := m[k]] == m;
    }
  }

  /** The two maps are inverse, with indices from 1 to last. */
  ghost predicate Linked<Id>(q: map<nat, Id>, ix: map<Id, nat>, last: nat) {
    && (forall i: nat {:trigger q[i]} :: i in q ==> 1 <= i <= last && q[i] in ix && ix[q[i]] == i)
    && (forall id {:trigger ix[id]} :: id in ix ==> ix[id] in q && q[ix[id]] == id)
  }

  lemma LinkedRemove<Id>(q: map<nat, Id>, ix: map<Id, nat>, last: nat, id: Id)
    requires Linked(q, ix, last) && id in ix
    ensures Linked(q - {ix[id]}, ix - {id}, last)
    ensures |q - {ix[id]}| == |q| - 1
    ensures Ids(q - {ix[id]}, 1, last + 1) == Without(Ids(q, 1, last + 1), id)
  {
    SizeWithout(q, ix[id]);
    IdsRemove(q, 1, last + 1, ix[id]);
  }

  lemma LinkedAppend<Id>(q: map<nat, Id>, ix: map<Id, nat>, last: nat, id: Id)
    requires Linked(q, ix, last) && id !in ix
    ensures Linked(q[last + 1 := id], ix[id := last + 1], last + 1)
    ensures |q[last + 1 := id]| == |q| + 1
    ensures Ids(q[last + 1 := id], 1, last + 2) == Ids(q, 1, last + 1) + [id]
    ensures Without(Ids(q, 1, last + 1), id) == Ids(q, 1, last + 1)
  {
    IdsAppend(q, 1, last + 1, id);
    WithoutAbsent(q, 1, last + 1, id);
  }

  /** Moving an id to the end is removing it and appending it. */
  lemma LinkedMove<Id>(q: map<nat, Id>, ix: map<Id, nat>, last: nat, id: Id)
    requires Linked(q, ix, last) && id in ix
    ensures var q' := q[last + 1 := id] - {ix[id]};
      && Linked(q', ix[id := last + 1], last + 1)
      && |q'| == |q|
      && Ids(q', 1, last + 2) == Without(Ids(q, 1, last + 1), id) + [id]
  {
    LinkedRemove(q, ix, last, id);
    LinkedAppend(q - {ix[id]}, ix - {id}, last, id);
    assert q[last + 1 := id] - {ix[id]} == (q - {ix[id]})[last + 1 := id];
    assert ix[id := last + 1] == (ix - {id})[id := last + 1];
  }

  class Queue<Id(==)> {
    const limit: nat
    var size: nat
    var base: nat
    var last: nat
    var queue: map<nat, Id>
    var index: map<Id, nat>

    /** The maps are linked, the count is the number of live ids, and the base is the least live index. */
    ghost predicate Valid()
      reads this
    {
      && Linked(queue, index, last)
      && size == |queue|
      && (forall i: nat :: i in queue ==> base <= i)
      && if size == 0 then base == 1 && last == 0 else base in queue
    }

    /** The live ids, least recently used first. */
    ghost function Order(): seq<Id>
      reads this
    {
      Ids(queue, 1, last + 1)
    }

    constructor (limit: nat)
      ensures Valid() && Order() == [] && size == 0 && this.limit == limit
    {
      this.limit := limit;
      size, base, last, queue, index := 0, 1, 0, map[], map[];
    }

    /** Moves the base up to the next live index. */
    method Advance()
      requires |queue| > 0 && forall i: nat :: i in queue ==> base < i
      modifies this`base
      ensures base in queue && forall i: nat :: i in queue ==> base <= i
    {
      ghost var goal :| goal in queue;
      base := base + 1;
      while base !in queue
        invariant base <= goal
        invariant forall i: nat :: i in queue ==> base <= i
        decreases goal - base
      {
        base := base + 1;
      }
    }

    method Delete(id: Id)
      requires Valid()
      modifies this
      ensures Valid()
      ensures Order() == Next(limit, old(Order()), Event.Delete(id)).0
      ensures size == if id in old(index) then old(size) - 1 else old(size)
    {
      if id !in index {
        WithoutAbsent(queue, 1, last + 1, id);
        return;
      }
      var i := index[id];
      LinkedRemove(queue, index, last, id);
      queue := queue - {i};
      index := index - {id};
      size := size - 1;
      if base == i {
        if size == 0 {
          IdsCount(queue, 1, last + 1);
          last := 0;
          base := 1;
          return;
        }
        Advance();
      }
    }

    /** A new id goes to the end. */
    method Append(id: Id)
      requires Valid() && id !in index
      modifies this
      ensures Valid() && size == old(size) + 1
      ensures Order() == Without(old(Order()), id) + [id]
    {
      LinkedAppend(queue, index, last, id);
      last := last + 1;
      queue := queue[last := id];
      index := index[id := last];
      size := size + 1;
    }

    /** A known id moves to the end. */
    method Move(id: Id)
      requires Valid() && id in index
      modifies this
      ensures Valid() && size == old(size)
      ensures Order() == Without(old(Order()), id) + [id]
    {
      var i := index[id];
      LinkedMove(queue, index, last, id);
      last := last + 1;
      queue := queue[last := id];
      index := index[id := last];
      queue := queue - {i};
      if base == i {
        Advance();
      }
    }

    method Hit(id: Id) returns (evicted: Option<Id>)
      requires Valid() && size <= limit
      modifies this
      ensures Valid() && |Order()| == size <= limit
      ensures (Order(), evicted) == Next(limit, old(Order()), Event.Hit(id))
    {
      evicted := None;
      IdsCount(queue, 1, last + 1);
      if id !in index {
        Append(id);
        IdsCount(queue, 1, last + 1);
        if size > limit {
          var oldest := queue[base];
          IdsFirst(queue, 1, last + 1, base);
          Delete(oldest);
          IdsCount(queue, 1, last + 1);
          evicted := Some(oldest);
        }
      } else {
        Move(id);
        IdsCount(queue, 1, last + 1);
      }
    }

    method Clear()
      modifies this
      ensures Valid() && size == 0 && Order() == Next(limit, old(Order()), Event.Clear).0
    {
      size, base, last, queue, index := 0, 1, 0, map[], map[];
    }
  }
}
