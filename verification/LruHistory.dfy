/** The order of the queue is the order of last use, read off the history of calls alone. */
module LruHistory {
  import opened Wrappers
  import opened LruQueue

  function Run<Id(==)>(limit: nat, es: seq<Event<Id>>): seq<Id> {
    if |es| == 0 then [] else Next(limit, Run(limit, es[..|es| - 1]), es[|es| - 1]).0
  }

  /** When an id was last hit, unless it was deleted since: by the calls alone; -1 if never. */
  function LastUse<Id(==)>(es: seq<Event<Id>>, id: Id): (t: int)
    ensures -1 <= t < |es|
  {
    if |es| == 0 then -1
    else
      var (before, e) := (es[..|es| - 1], es[|es| - 1]);
      match e
      case Hit(x) => if x == id then |es| - 1 else LastUse(before, id)
      case Delete(x) => if x == id then -1 else LastUse(before, id)
      case Clear => -1
  }

  /** The ids were last used one after the other, all after the bound. */
  predicate Ascending<Id(==)>(o: seq<Id>, es: seq<Event<Id>>, bound: int) {
    |o| == 0 || (LastUse(es, o[0]) > bound && Ascending(o[1..], es, LastUse(es, o[0])))
  }

  lemma {:induction false} AscendingWithout<Id>(o: seq<Id>, es: seq<Event<Id>>, bound: int, low: int, id: Id)
    requires Ascending(o, es, bound) && low <= bound
    ensures Ascending(Without(o, id), es, low)
  {
    if |o| > 0 {
      var t := LastUse(es, o[0]);
      if o[0] == id {
        AscendingWithout(o[1..], es, t, low, id);
        assert [] + Without(o[1..], id) == Without(o[1..], id);
      } else {
        AscendingWithout(o[1..], es, t, t, id);
        assert ([o[0]] + Without(o[1..], id))[1..] == Without(o[1..], id);
      }
    }
  }

  /** An event that does not concern the ids of o leaves their last use as it was. */
  lemma {:induction false} AscendingAfter<Id>(o: seq<Id>, es: seq<Event<Id>>, e: Event<Id>, bound: int)
    requires Ascending(o, es, bound) && !e.Clear? && e.id !in o
    ensures Ascending(o, es + [e], bound)
  {
    assert (es + [e])[..|es|] == es;
    if |o| > 0 {
      AscendingAfter(o[1..], es, e, LastUse(es, o[0]));
    }
  }

  lemma {:induction false} WithoutGone<Id>(o: seq<Id>, id: Id)
    ensures id !in Without(o, id) && forall x :: x in Without(o, id) ==> x in o
  {
    if |o| > 0 {
      WithoutGone(o[1..], id);
    }
  }

  lemma {:induction false} AscendingAppend<Id>(o: seq<Id>, es: seq<Event<Id>>, bound: int, id: Id)
    requires Ascending(o, es, bound) && LastUse(es, id) == |es| - 1 > bound && id !in o
    requires forall x :: x in o ==> LastUse(es, x) < |es| - 1
    ensures Ascending(o + [id], es, bound)
  {
    if |o| > 0 {
      assert (o + [id])[1..] == o[1..] + [id];
      AscendingAppend(o[1..], es, LastUse(es, o[0]), id);
    }
  }

  lemma {:induction false} AscendingPair<Id>(o: seq<Id>, es: seq<Event<Id>>, bound: int, i: nat, j: nat)
    requires Ascending(o, es, bound) && i <= j < |o|
    ensures bound < LastUse(es, o[i]) && (i < j ==> LastUse(es, o[i]) < LastUse(es, o[j]))
  {
    if i > 0 {
      AscendingPair(o[1..], es, LastUse(es, o[0]), i - 1, j - 1);
    } else if j > 0 {
      AscendingPair(o[1..], es, LastUse(es, o[0]), j - 1, j - 1);
    }
  }

  /** After a hit, before eviction: all live ids and the new one in order of last use. */
  lemma HitAscending<Id>(o: seq<Id>, es: seq<Event<Id>>, id: Id)
    requires Ascending(o, es, -1)
    ensures Ascending(Without(o, id) + [id], es + [Hit(id)], -1)
  {
    var es' := es + [Hit(id)];
    assert es'[..|es|] == es;
    AscendingWithout(o, es, -1, -1, id);
    WithoutGone(o, id);
    AscendingAfter(Without(o, id), es, Hit(id), -1);
    AscendingAppend(Without(o, id), es', -1, id);
  }

  /** In every run the queue lists its ids by last use. */
  lemma {:induction false} OrderIsLastUse<Id>(limit: nat, es: seq<Event<Id>>)
    ensures Ascending(Run(limit, es), es, -1)
  {
    if |es| > 0 {
      var (before, e) := (es[..|es| - 1], es[|es| - 1]);
      var o := Run(limit, before);
      OrderIsLastUse(limit, before);
      assert es == before + [e];
      match e {
        case Hit(id) =>
          HitAscending(o, before, id);
          var p := Without(o, id) + [id];
          AscendingWithout(p, es, -1, -1, p[0]);
        case Delete(id) =>
          AscendingWithout(o, before, -1, -1, id);
          WithoutGone(o, id);
          AscendingAfter(Without(o, id), before, e, -1);
        case Clear =>
      }
    }
  }

  /**
   * A hit evicts only when the live ids and the new one exceed the limit, and then exactly the one of them
   * whose last use is longest ago.
   */
  lemma EvictsLeastRecentlyUsed<Id>(limit: nat, es: seq<Event<Id>>, id: Id, x: Id)
    requires x in Without(Run(limit, es), id) + [id]
    ensures var o := Run(limit, es);
      var evicted := Next(limit, o, Hit(id)).1;
      && (evicted.Some? <==> |Without(o, id) + [id]| > limit)
      && (evicted.Some? && x != evicted.value ==>
            LastUse(es + [Hit(id)], evicted.value) < LastUse(es + [Hit(id)], x))
  {
    var o := Run(limit, es);
    var p := Without(o, id) + [id];
    OrderIsLastUse(limit, es);
    HitAscending(o, es, id);
    var j :| 0 <= j < |p| && p[j] == x;
    AscendingPair(p, es + [Hit(id)], -1, 0, j);
  }

  // ---------------------------------------------------------------- which ids are live

  /**
   * The live ids, read off the history: a hit adds its id, and when that makes more than the limit, all stay but the
   * one whose last use is longest ago; a deletion takes its id away.
   */
  ghost function Live<Id>(limit: nat, es: seq<Event<Id>>): set<Id> {
    if |es| == 0 then {}
    else
      var (before, e) := (es[..|es| - 1], es[|es| - 1]);
      match e
      case Hit(id) =>
        var l := Live(limit, before) + {id};
        if |l| <= limit then l else set x | x in l && exists y :: y in l && LastUse(es, y) < LastUse(es, x)
      case Delete(id) => Live(limit, before) - {id}
      case Clear => {}
  }

  function Members<Id(==)>(o: seq<Id>): set<Id> {
    set x | x in o
  }

  lemma {:induction false} WithoutMembers<Id>(o: seq<Id>, id: Id)
    ensures Members(Without(o, id)) == Members(o) - {id}
  {
    if |o| > 0 {
      var rest := Without(o[1..], id);
      WithoutMembers(o[1..], id);
      assert Members(o) == {o[0]} + Members(o[1..]);
      if o[0] == id {
        assert Without(o, id) == rest;
      } else {
        assert Without(o, id) == [o[0]] + rest && Members([o[0]] + rest) == {o[0]} + Members(rest);
      }
    }
  }

  lemma {:induction false} AscendingCount<Id>(o: seq<Id>, es: seq<Event<Id>>, bound: int)
    requires Ascending(o, es, bound)
    ensures |Members(o)| == |o|
  {
    if |o| > 0 {
      AscendingCount(o[1..], es, LastUse(es, o[0]));
      if o[0] in o[1..] {
        var j :| 0 <= j < |o[1..]| && o[1..][j] == o[0];
        AscendingPair(o, es, bound, 0, j + 1);
      }
      assert Members(o) == {o[0]} + Members(o[1..]);
    }
  }

  /** All but the first are the ones that are not the oldest. */
  lemma AllButOldest<Id>(p: seq<Id>, es: seq<Event<Id>>)
    requires |p| > 0 && Ascending(p, es, -1)
    ensures Members(p) - {p[0]}
      == set x | x in Members(p) && exists y :: y in Members(p) && LastUse(es, y) < LastUse(es, x)
  {
    forall x | x in Members(p)
      ensures x != p[0] <==> exists y :: y in Members(p) && LastUse(es, y) < LastUse(es, x)
    {
      var i :| 0 <= i < |p| && p[i] == x;
      AscendingPair(p, es, -1, 0, i);
      forall y | y in Members(p) && i == 0 ensures LastUse(es, y) >= LastUse(es, x) {
        var j :| 0 <= j < |p| && p[j] == y;
        AscendingPair(p, es, -1, 0, j);
      }
      assert p[0] in Members(p);
    }
  }

  /** In every run the queue holds exactly the live ids. */
  lemma {:induction false} QueueIsLive<Id>(limit: nat, es: seq<Event<Id>>)
    ensures Members(Run(limit, es)) == Live(limit, es) && |Run(limit, es)| == |Live(limit, es)|
  {
    OrderIsLastUse(limit, es);
    AscendingCount(Run(limit, es), es, -1);
    if |es| > 0 {
      var (before, e) := (es[..|es| - 1], es[|es| - 1]);
      var o := Run(limit, before);
      QueueIsLive(limit, before);
      assert es == before + [e];
      if e.Hit? {
        HitLive(limit, o, before, e.id);
      } else if e.Delete? {
        WithoutMembers(o, e.id);
      }
    }
  }

  lemma HitLive<Id>(limit: nat, o: seq<Id>, before: seq<Event<Id>>, id: Id)
    requires o == Run(limit, before) && Members(o) == Live(limit, before)
    ensures Members(Next(limit, o, Hit(id)).0) == Live(limit, before + [Hit(id)])
  {
    hide LastUse, Ascending, Without;
    var p, es := Without(o, id) + [id], before + [Hit(id)];
    assert es[..|es| - 1] == before;
    OrderIsLastUse(limit, before);
    HitAscending(o, before, id);
    WithoutMembers(o, id);
    assert Members(p) == Members(Without(o, id)) + {id} == Live(limit, before) + {id};
    AscendingCount(p, es, -1);
    AllButOldest(p, es);
    WithoutMembers(p, p[0]);
  }
}
