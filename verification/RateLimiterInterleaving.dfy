/**
 * The rate limiter in every interleaving of single queue operations: each poll, take and offer is one step,
 * and any number of threads may be anywhere in their scans.
 */
module RateLimiterInterleaving {
  import opened RateLimiter

  type Thread = nat

  /** Where a thread stands: outside, about to poll queue i, or waiting at the queue of its priority. */
  datatype Place = Out | Polling(priority: nat, i: nat) | Taking(priority: nat)

  /** Where the scheduled task stands: not running, or about to offer to queue i. */
  datatype Ticker = Idle | Offering(i: nat)

  /** The state, and what is only counted: scans of the scheduled task begun and wasted, and permits granted. */
  datatype State = State(q: Queues, at: map<Thread, Place>, ticker: Ticker, ticks: nat, wasted: nat, grants: nat)

  function PlaceOf(s: State, t: Thread): Place {
    if t in s.at then s.at[t] else Out
  }

  datatype Step = Call(t: Thread, priority: nat) | Poll(t: Thread) | Take(t: Thread) | Tick | Offer

  function Grant(s: State, t: Thread, i: nat): State
    requires i < 3 && s.q[i] > 0
  {
    s.(q := s.q[i := s.q[i] - 1], at := s.at[t := Out], grants := s.grants + 1)
  }

  /** The steps that are possible. */
  predicate Enabled(s: State, e: Step) {
    match e
    case Call(t, p) => p < 3 && PlaceOf(s, t) == Out
    case Poll(t) => PlaceOf(s, t).Polling? && PlaceOf(s, t).i < 3
    case Take(t) => PlaceOf(s, t).Taking? && PlaceOf(s, t).priority < 3 && s.q[PlaceOf(s, t).priority] > 0
    case Tick => s.ticker == Idle
    case Offer => s.ticker.Offering? && s.ticker.i < 3
  }

  function Next(s: State, e: Step): State
    requires Enabled(s, e)
  {
    match e
    case Call(t, p) => s.(at := s.at[t := Polling(p, MAINTENANCE)])
    case Poll(t) =>
      var Polling(p, i) := PlaceOf(s, t);
      if s.q[i] > 0 then Grant(s, t, i)
      else if i > p then s.(at := s.at[t := Polling(p, i - 1)])
      else s.(at := s.at[t := Taking(p)])
    case Take(t) =>
      var p := PlaceOf(s, t).priority;
      Grant(s, t, p)
    case Tick => s.(ticker := Offering(0), ticks := s.ticks + 1)
    case Offer =>
      var i := s.ticker.i;
      if s.q[i] < Capacity(i) then s.(q := s.q[i := s.q[i] + 1], ticker := Idle)
      else if i + 1 < 3 then s.(ticker := Offering(i + 1))
      else s.(ticker := Idle, wasted := s.wasted + 1)
  }

  /** A scan of the scheduled task that is under way still owes its permit. */
  function Owed(s: State): nat {
    if s.ticker.Offering? then 1 else 0
  }

  /** Permits stored, granted, wasted and owed, against the scans begun. */
  function Balance(s: State): int {
    Total(s.q) + s.grants + s.wasted + Owed(s) - s.ticks
  }

  /** What every step keeps. */
  ghost predicate Inv(s: State) {
    && Bounded(s.q)
    && (s.ticker.Offering? ==> s.ticker.i < 3)
    && forall t :: t in s.at ==>
         match s.at[t]
         case Out => true
         case Polling(p, i) => p <= i < 3 && (i == REQUEST ==> p == REQUEST)
         case Taking(p) => p < 3
  }

  const START: State := State([0, 0, 0], map[], Idle, 0, 0, 0)

  /** The run that takes the given steps. */
  ghost predicate Reaches(s: State, es: seq<Step>, s': State)
    decreases |es|
  {
    if |es| == 0 then s == s' else Enabled(s, es[0]) && Reaches(Next(s, es[0]), es[1..], s')
  }

  lemma TotalUpdate(q: Queues, i: nat, x: nat)
    requires i < 3
    ensures Total(q[i := x]) == Total(q) - q[i] + x
  {
  }

  lemma NextBalance(s: State, e: Step)
    requires Enabled(s, e)
    ensures Balance(Next(s, e)) == Balance(s)
  {
    hide Total;
    match e {
      case Call(_, _) =>
      case Poll(t) =>
        var i := PlaceOf(s, t).i;
        if s.q[i] > 0 {
          TotalUpdate(s.q, i, s.q[i] - 1);
        }
      case Take(t) =>
        var p := PlaceOf(s, t).priority;
        TotalUpdate(s.q, p, s.q[p] - 1);
      case Tick =>
      case Offer =>
        var i := s.ticker.i;
        TotalUpdate(s.q, i, s.q[i] + 1);
    }
  }

  lemma NextKeeps(s: State, e: Step)
    requires Inv(s) && Enabled(s, e)
    ensures Inv(Next(s, e))
  {
  }

  /** Every run keeps the invariant and conserves permits. */
  lemma {:induction false} RunKeeps(s: State, es: seq<Step>, s': State)
    requires Inv(s) && Reaches(s, es, s')
    ensures Inv(s') && Balance(s') == Balance(s)
    ensures s'.grants >= s.grants && s'.wasted >= s.wasted && s'.ticks >= s.ticks
    decreases |es|
  {
    if |es| > 0 {
      NextKeeps(s, es[0]);
      NextBalance(s, es[0]);
      RunKeeps(Next(s, es[0]), es[1..], s');
    }
  }

  // ---------------------------------------------------------------- scans that nothing interrupts

  /** The offers of a tick into queues q: to one after the other, until one has room. */
  function TickSteps(q: Queues): seq<Step> {
    if q[0] < 50 then [Tick, Offer] else if q[1] < 50 then [Tick, Offer, Offer] else [Tick, Offer, Offer, Offer]
  }

  /** A tick fills the first queue with room, of 50, 50 and 100, and wastes its permit when all are full. */
  lemma TickFills(s: State) returns (s': State)
    requires Inv(s) && s.ticker == Idle
    ensures Reaches(s, TickSteps(s.q), s') && s'.ticker == Idle && s'.at == s.at
    ensures s'.ticks == s.ticks + 1 && s'.grants == s.grants
    ensures s'.q == if s.q[0] < 50 then s.q[0 := s.q[0] + 1]
                    else if s.q[1] < 50 then s.q[1 := s.q[1] + 1]
                    else if s.q[2] < 100 then s.q[2 := s.q[2] + 1]
                    else s.q
    ensures s'.q == if Room(s.q, 0) < 3 then s.q[Room(s.q, 0) := s.q[Room(s.q, 0)] + 1] else s.q
    ensures s'.wasted == if s.q == [50, 50, 100] then s.wasted + 1 else s.wasted
  {
    var s1 := Next(s, Tick);
    var s2 := Next(s1, Offer);
    if s.q[0] < 50 {
      s' := s2;
      ReachesTwo(s, Tick, Offer);
    } else if s.q[1] < 50 {
      s' := Next(s2, Offer);
      ReachesTwo(s1, Offer, Offer);
      assert TickSteps(s.q)[1..] == [Offer, Offer];
    } else {
      s' := Next(Next(s2, Offer), Offer);
      ReachesTwo(s2, Offer, Offer);
      assert TickSteps(s.q)[1..] == [Offer, Offer, Offer] && [Offer, Offer, Offer][1..] == [Offer, Offer];
      assert Reaches(s1, [Offer, Offer, Offer], s');
      assert s.q == [50, 50, s.q[2]];
    }
  }

  lemma ReachesTwo(s: State, d: Step, e: Step)
    requires Enabled(s, d) && Enabled(Next(s, d), e)
    ensures Reaches(s, [d, e], Next(Next(s, d), e))
  {
    assert [d, e][1..] == [e] && [e][1..] == [];
    assert Reaches(Next(s, d), [e], Next(Next(s, d), e));
  }

  /** The polls of a thread of priority p that finds its permit in queue i, or none when i is -1. */
  function PollSteps(t: Thread, p: nat, from: nat, i: int): seq<Step>
    requires p <= from
    decreases from
  {
    if from == i || from == p then [Poll(t)] else [Poll(t)] + PollSteps(t, p, from - 1, i)
  }

  lemma {:induction false} PollsScan(s: State, t: Thread, p: nat, from: nat) returns (s': State)
    requires PlaceOf(s, t) == Polling(p, from) && p <= from < 3
    ensures var i := Source(s.q, p, from);
      && Reaches(s, PollSteps(t, p, from, i), s')
      && s' == if i >= 0 then s.(q := s.q[i := s.q[i] - 1], at := s.at[t := Out], grants := s.grants + 1)
               else s.(at := s.at[t := Taking(p)])
    decreases from
  {
    var s1 := Next(s, Poll(t));
    if s.q[from] > 0 || from == p {
      s' := s1;
      assert [Poll(t)][1..] == [];
    } else {
      s' := PollsScan(s1, t, p, from - 1);
      var rest := PollSteps(t, p, from - 1, Source(s.q, p, from - 1));
      assert ([Poll(t)] + rest)[1..] == rest;
      assert s1.at[t := Out] == s.at[t := Out] && s1.at[t := Taking(p)] == s.at[t := Taking(p)];
    }
  }

  /**
   * A call takes its permit from the lowest priority that has one, down to its own, or is left waiting at its own
   * queue when all of those are empty.
   */
  lemma CallTakes(s: State, t: Thread, p: nat) returns (s': State)
    requires p < 3 && PlaceOf(s, t) == Out
    ensures var i := Source(s.q, p, MAINTENANCE);
      && Reaches(s, [Call(t, p)] + PollSteps(t, p, 2, i), s')
      && s'.q == (if i >= 0 then s.q[i := s.q[i] - 1] else s.q)
      && PlaceOf(s', t) == (if i >= 0 then Out else Taking(p))
      && s'.grants == (if i >= 0 then s.grants + 1 else s.grants)
      && s'.ticker == s.ticker && forall u :: u != t ==> PlaceOf(s', u) == PlaceOf(s, u)
  {
    var s1 := Next(s, Call(t, p));
    s' := PollsScan(s1, t, p, 2);
    var rest := PollSteps(t, p, 2, Source(s.q, p, MAINTENANCE));
    assert ([Call(t, p)] + rest)[1..] == rest;
  }

  // ---------------------------------------------------------------- the reserve for requests

  /** The step grants a permit to a request. */
  predicate GrantsRequest(s: State, e: Step)
    requires Enabled(s, e)
  {
    (e.Poll? || e.Take?) && PlaceOf(s, e.t).priority == REQUEST && Total(Next(s, e).q) < Total(s.q)
  }

  /**
   * A private bucket of 50 permits for requests along a run: the first offer after each tick feeds it, and every
   * granted request is charged to it. `due` says that a tick has begun and not offered yet.
   */
  ghost function PrivateBucket(s: State, es: seq<Step>, due: bool, b: nat): nat
    decreases |es|
  {
    if |es| == 0 || !Enabled(s, es[0]) then b
    else
      var e := es[0];
      var b' := if e.Offer? && due && b < 50 then b + 1 else if GrantsRequest(s, e) && b > 0 then b - 1 else b;
      PrivateBucket(Next(s, e), es[1..], e.Tick? || (due && !e.Offer?), b')
  }

  /** Queue 0 holds at least what the bucket holds; a tick that has begun and not offered is at queue 0. */
  ghost predicate Reserved(s: State, due: bool, b: nat) {
    Inv(s) && b <= s.q[0] && (due ==> s.ticker == Offering(0))
  }

  lemma NextReserved(s: State, e: Step, due: bool, b: nat)
    requires Reserved(s, due, b) && Enabled(s, e)
    ensures var b' := if e.Offer? && due && b < 50 then b + 1 else if GrantsRequest(s, e) && b > 0 then b - 1 else b;
      Reserved(Next(s, e), e.Tick? || (due && !e.Offer?), b')
  {
    NextKeeps(s, e);
    if e.Poll? && s.q[PlaceOf(s, e.t).i] > 0 {
      TotalUpdate(s.q, PlaceOf(s, e.t).i, s.q[PlaceOf(s, e.t).i] - 1);
    } else if e.Take? {
      TotalUpdate(s.q, PlaceOf(s, e.t).priority, s.q[PlaceOf(s, e.t).priority] - 1);
    }
  }

  lemma {:induction false} RunReserved(s: State, es: seq<Step>, s': State, due: bool, b: nat)
    requires Reserved(s, due, b) && Reaches(s, es, s')
    ensures Inv(s') && PrivateBucket(s, es, due, b) <= s'.q[0]
    decreases |es|
  {
    hide Inv;
    if |es| > 0 {
      NextReserved(s, es[0], due, b);
      var b' := if es[0].Offer? && due && b < 50 then b + 1
                else if GrantsRequest(s, es[0]) && b > 0 then b - 1 else b;
      RunReserved(Next(s, es[0]), es[1..], s', es[0].Tick? || (due && !es[0].Offer?), b');
    }
  }

  /** The next poll of this request finds nothing and leaves it waiting. */
  predicate MustWait(s: State, t: Thread) {
    && PlaceOf(s, t).Polling? && PlaceOf(s, t).priority == REQUEST
    && Enabled(s, Poll(t)) && PlaceOf(Next(s, Poll(t)), t) == Taking(REQUEST)
  }

  /**
   * The reserve: after any run, whatever events and maintenance did, queue 0 holds at least what a private
   * bucket for requests would, so a request can only be made to wait when that bucket is empty too.
   */
  lemma RequestReserve(es: seq<Step>, s: State)
    requires Reaches(START, es, s)
    ensures var b := PrivateBucket(START, es, false, 0);
      && b <= s.q[REQUEST]
      && (forall t :: MustWait(s, t) ==> b == 0)
      && (forall t :: PlaceOf(s, t) == Taking(REQUEST) && b > 0 ==> Enabled(s, Take(t)))
  {
    hide Next, Reaches, MustWait, PrivateBucket;
    RunReserved(START, es, s, false, 0);
    forall t | MustWait(s, t) ensures s.q[0] == 0 {
      WaitsWhenEmpty(s, t);
    }
  }

  lemma WaitsWhenEmpty(s: State, t: Thread)
    requires Inv(s) && MustWait(s, t)
    ensures s.q[0] == 0
  {
  }

  /**
   * The window bound: between any two moments of any run, at most the permits stored at the first plus the
   * scans of the scheduled task under way or begun in between are granted, so at most 200 plus those.
   */
  lemma WindowBound(before: seq<Step>, s: State, es: seq<Step>, s': State)
    requires Reaches(START, before, s) && Reaches(s, es, s')
    ensures s'.grants - s.grants <= Total(s.q) + Owed(s) + (s'.ticks - s.ticks)
    ensures s'.grants - s.grants <= 200 + Owed(s) + (s'.ticks - s.ticks)
  {
    hide Next, Enabled, Reaches;
    assert Inv(START);
    RunKeeps(START, before, s);
    RunKeeps(s, es, s');
    assert s.q[0] <= Capacity(0) && s.q[1] <= Capacity(1) && s.q[2] <= Capacity(2);
  }
}
