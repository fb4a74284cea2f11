/** The permit queues of the rate limiter: how one call and one tick change them. */
module RateLimiter {
  import opened Wrappers

  const REQUEST := 0
  const EVENT := 1
  const MAINTENANCE := 2

  /** Queue sizes by priority; the permits themselves are all alike. */
  type Queues = q: seq<nat> | |q| == 3 witness [0, 0, 0]

  function Capacity(i: nat): nat
    requires i < 3
  {
    if i == MAINTENANCE then 100 else 50
  }

  ghost predicate Bounded(q: Queues) {
    forall i: nat :: i < 3 ==> q[i] <= Capacity(i)
  }

  function Total(q: Queues): nat {
    q[0] + q[1] + q[2]
  }

  /** The queue a tick fills: the first with room, or 3. */
  function Room(q: Queues, from: nat): (i: nat)
    requires from <= 3
    ensures from <= i <= 3
    ensures i < 3 ==> q[i] < Capacity(i)
    ensures forall j :: from <= j < i ==> q[j] >= Capacity(j)
    decreases 3 - from
  {
    if from == 3 || q[from] < Capacity(from) then from else Room(q, from + 1)
  }

  /** The queue a call of the given priority takes from: the lowest priority that has a permit, or -1. */
  function Source(q: Queues, priority: nat, from: int): (i: int)
    requires priority < 3 && priority - 1 <= from < 3
    ensures i == -1 || (priority <= i <= from && q[i] > 0)
    ensures forall j :: (if i < 0 then priority else i + 1) <= j <= from ==> q[j] == 0
    decreases from
  {
    if from < priority then -1 else if q[from] > 0 then from else Source(q, priority, from - 1)
  }

  class Limiter {
    const permits: array<nat>

    ghost function Value(): Queues
      reads permits
      requires permits.Length == 3
    {
      permits[..]
    }

    constructor ()
      ensures permits.Length == 3 && Value() == [0, 0, 0]
    {
      permits := new nat[3](_ => 0);
    }

    /** Adds one permit to the queue of highest priority that has room; none if all are full. */
    method AddPermit()
      requires permits.Length == 3 && Bounded(Value())
      modifies permits
      ensures Bounded(Value())
      ensures var i := Room(old(Value()), 0);
        Value() == if i < 3 then old(Value())[i := old(Value())[i] + 1] else old(Value())
    {
      for i := 0 to 3
        invariant Value() == old(Value()) && Room(Value(), 0) == Room(Value(), i)
      {
        if permits[i] < Capacity(i) {
          permits[i] := permits[i] + 1;
          return;
        }
      }
    }

    /** Takes a permit from the lowest priority allowed; false means the caller now waits at its own queue. */
    method LimitRate(priority: nat) returns (granted: bool)
      requires permits.Length == 3 && priority < 3 && Bounded(Value())
      modifies permits
      ensures Bounded(Value())
      ensures var i := Source(old(Value()), priority, MAINTENANCE);
        && granted == (i >= 0)
        && Value() == if granted then old(Value())[i := old(Value())[i] - 1] else old(Value())
    {
      var i := MAINTENANCE;
      while i >= priority
        invariant priority - 1 <= i <= MAINTENANCE && Value() == old(Value())
        invariant Source(Value(), priority, MAINTENANCE) == Source(Value(), priority, i)
      {
        if permits[i] > 0 {
          permits[i] := permits[i] - 1;
          return true;
        }
        i := i - 1;
      }
      return false;
    }
  }
}
