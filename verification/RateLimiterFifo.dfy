/**
 * The rate limiter with every scan atomic and permits handed to the longest-waiting thread of a queue:
 * who waits, for how long, and that no permit is wasted meanwhile.
 */
module RateLimiterFifo {
  import opened RateLimiter

  type Thread = nat

  type Lists = w: seq<seq<Thread>> | |w| == 3 witness [[], [], []]

  datatype State = State(q: Queues, waiting: Lists)

  datatype Event = Call(t: Thread, priority: nat) | Tick

  predicate Enabled(s: State, e: Event) {
    e.Call? ==> e.priority < 3 && forall p: nat :: p < 3 ==> e.t !in s.waiting[p]
  }

  /** A call takes a permit at once or joins the end of its queue. */
  function AfterCall(s: State, t: Thread, priority: nat): State
    requires priority < 3
  {
    var i := Source(s.q, priority, MAINTENANCE);
    if i >= 0 then s.(q := s.q[i := s.q[i] - 1])
    else s.(waiting := s.waiting[priority := s.waiting[priority] + [t]])
  }

  /** A tick offers its permit to the first queue with room; the head of that queue's waiting list takes it. */
  function AfterTick(s: State): State {
    var i := Room(s.q, 0);
    if i == 3 then s
    else if |s.waiting[i]| > 0 then s.(waiting := s.waiting[i := s.waiting[i][1..]])
    else s.(q := s.q[i := s.q[i] + 1])
  }

  function Next(s: State, e: Event): State
    requires Enabled(s, e)
  {
    match e
    case Call(t, p) => AfterCall(s, t, p)
    case Tick => AfterTick(s)
  }

  /** The queue a permit is taken from in a step: by the call itself, or by the waiting head a tick serves. */
  function GrantedFrom(s: State, e: Event): int
    requires Enabled(s, e)
  {
    match e
    case Call(_, p) => Source(s.q, p, MAINTENANCE)
    case Tick => var i := Room(s.q, 0); if i < 3 && |s.waiting[i]| > 0 then i else -1
  }

  /** A thread waits at priority p only while the queues p to 2 are all empty: no permit it could use is idle. */
  ghost predicate NoWaste(s: State) {
    forall p, i :: 0 <= p <= i < 3 && |s.waiting[p]| > 0 ==> s.q[i] == 0
  }

  ghost predicate Inv(s: State) {
    Bounded(s.q) && NoWaste(s)
  }

  const START: State := State([0, 0, 0], [[], [], []])

  ghost predicate Run(s: State, es: seq<Event>, s': State)
    decreases |es|
  {
    if |es| == 0 then s == s' else Enabled(s, es[0]) && Run(Next(s, es[0]), es[1..], s')
  }

  lemma NextKeeps(s: State, e: Event)
    requires Inv(s) && Enabled(s, e)
    ensures Inv(Next(s, e))
  {
  }

  lemma {:induction false} RunKeeps(s: State, es: seq<Event>, s': State)
    requires Inv(s) && Run(s, es, s')
    ensures Inv(s')
    decreases |es|
  {
    if |es| > 0 {
      NextKeeps(s, es[0]);
      RunKeeps(Next(s, es[0]), es[1..], s');
    }
  }

  // ---------------------------------------------------------------- how long a thread waits

  /** Free places in the queues above p, which ticks fill first. */
  function Ahead(q: Queues, p: nat): int
    requires p < 3
  {
    (if p > 0 then Capacity(0) - q[0] else 0) + (if p > 1 then Capacity(1) - q[1] else 0)
  }

  function Ticks(es: seq<Event>): nat {
    if |es| == 0 then 0 else (if es[0].Tick? then 1 else 0) + Ticks(es[1..])
  }

  /** How many permits a run grants from the queues above p. */
  function GrantsAbove(s: State, es: seq<Event>, p: nat): nat
    requires Inv(s)
    decreases |es|
  {
    if |es| == 0 || !Enabled(s, es[0]) then 0
    else
      NextKeeps(s, es[0]);
      (if 0 <= GrantedFrom(s, es[0]) < p then 1 else 0) + GrantsAbove(Next(s, es[0]), es[1..], p)
  }

  /** The thread is the k-th (from 0) of the waiting list of priority p. */
  predicate WaitsAt(s: State, t: Thread, p: nat, k: nat) {
    p < 3 && k < |s.waiting[p]| && s.waiting[p][k] == t
  }

  /** Where a waiting thread stands after a step; negative once it has been served. */
  function Position(s: State, e: Event, p: nat, k: nat): int
    requires Enabled(s, e) && p < 3
  {
    Ahead(s.q, p) + k + (if 0 <= GrantedFrom(s, e) < p then 1 else 0) - (if e.Tick? then 1 else 0)
    - Ahead(Next(s, e).q, p)
  }

  /** One step moves the thread forward, or leaves the places ahead of it and its position in balance. */
  lemma StepBalance(s: State, e: Event, t: Thread, p: nat, k: nat)
    requires Inv(s) && Enabled(s, e) && WaitsAt(s, t, p, k)
    ensures var k' := Position(s, e, p, k);
      if k' >= 0 then WaitsAt(Next(s, e), t, p, k') else k == 0 && e.Tick? && GrantedFrom(s, e) == p
  {
    if e.Tick? {
      var i := Room(s.q, 0);
      assert s.q[p] == 0 && i <= p;
    } else {
      var i := Source(s.q, e.priority, MAINTENANCE);
      assert i < p;
    }
  }

  /** At some step of the run a tick hands its permit to the thread. */
  ghost predicate ServedIn(s: State, es: seq<Event>, t: Thread, p: nat)
    requires p < 3
    decreases |es|
  {
    && |es| > 0 && Enabled(s, es[0])
    && (|| (es[0].Tick? && GrantedFrom(s, es[0]) == p && s.waiting[p][0] == t)
        || ServedIn(Next(s, es[0]), es[1..], t, p))
  }

  /** While a thread waits, ticks, grants above it, free places above it and its position stay in balance. */
  lemma {:induction false} WaitingBalance(s: State, es: seq<Event>, s': State, t: Thread, p: nat, k: nat)
    requires Inv(s) && Run(s, es, s') && WaitsAt(s, t, p, k)
    ensures
      var k' := Ahead(s.q, p) + k + GrantsAbove(s, es, p) - Ticks(es) - Ahead(s'.q, p);
      ServedIn(s, es, t, p) || (k' >= 0 && WaitsAt(s', t, p, k'))
    decreases |es|
  {
    if |es| > 0 {
      var e, s1 := es[0], Next(s, es[0]);
      NextKeeps(s, e);
      StepBalance(s, e, t, p, k);
      var k1 := Position(s, e, p, k);
      if k1 >= 0 {
        WaitingBalance(s1, es[1..], s', t, p, k1);
      }
    }
  }

  /**
   * Bounded waiting: the thread with k others before it is served within as many ticks as there are free
   * places above its queue, permits granted from above meanwhile, and k + 1.
   */
  lemma BoundedWaiting(s: State, es: seq<Event>, s': State, t: Thread, p: nat, k: nat)
    requires Inv(s) && Run(s, es, s') && WaitsAt(s, t, p, k)
    requires Ticks(es) >= Ahead(s.q, p) + GrantsAbove(s, es, p) + k + 1
    ensures ServedIn(s, es, t, p)
  {
    WaitingBalance(s, es, s', t, p, k);
    RunKeeps(s, es, s');
  }

  /** No permit is wasted: in every run a thread waits only while every queue it may use is empty. */
  lemma NoPermitWasted(es: seq<Event>, s: State, p: nat, i: nat)
    requires Run(START, es, s) && p <= i < 3 && |s.waiting[p]| > 0
    ensures s.q[i] == 0
  {
    RunKeeps(START, es, s);
  }

  // ---------------------------------------------------------------- requests only

  /** One bucket of 200 permits with one waiting list. */
  datatype Bucket = Bucket(permits: nat, waiting: seq<Thread>)

  function Combined(s: State): Bucket {
    Bucket(Total(s.q), s.waiting[REQUEST])
  }

  function BucketNext(b: Bucket, e: Event): Bucket {
    match e
    case Call(t, _) => if b.permits > 0 then b.(permits := b.permits - 1) else b.(waiting := b.waiting + [t])
    case Tick =>
      if b.permits >= 200 then b
      else if |b.waiting| > 0 then b.(waiting := b.waiting[1..])
      else b.(permits := b.permits + 1)
  }

  function BucketRun(b: Bucket, es: seq<Event>): Bucket
    decreases |es|
  {
    if |es| == 0 then b else BucketRun(BucketNext(b, es[0]), es[1..])
  }

  predicate RequestsOnly(es: seq<Event>) {
    forall i :: 0 <= i < |es| ==> es[i].Call? ==> es[i].priority == REQUEST
  }

  lemma StepIsBucketStep(s: State, e: Event)
    requires Inv(s) && Enabled(s, e) && (e.Call? ==> e.priority == REQUEST)
    requires s.waiting[EVENT] == s.waiting[MAINTENANCE] == []
    ensures Combined(Next(s, e)) == BucketNext(Combined(s), e)
    ensures var s' := Next(s, e); s'.waiting[EVENT] == s'.waiting[MAINTENANCE] == []
  {
    assert s.q[0] <= Capacity(0) && s.q[1] <= Capacity(1) && s.q[2] <= Capacity(2);
    if e.Tick? {
      var i := Room(s.q, 0);
      assert i == 3 ==> Total(s.q) == 200;
    } else {
      var i := Source(s.q, REQUEST, MAINTENANCE);
      assert i < 0 ==> s.q[0] == 0 && s.q[1] == 0 && s.q[2] == 0;
    }
  }

  /** With requests only, the three queues are one bucket of 200. */
  lemma {:induction false} RequestsSeeOneBucket(s: State, es: seq<Event>, s': State)
    requires Inv(s) && Run(s, es, s') && RequestsOnly(es)
    requires s.waiting[EVENT] == s.waiting[MAINTENANCE] == []
    ensures Combined(s') == BucketRun(Combined(s), es)
    decreases |es|
  {
    if |es| > 0 {
      NextKeeps(s, es[0]);
      StepIsBucketStep(s, es[0]);
      RequestsSeeOneBucket(Next(s, es[0]), es[1..], s');
    }
  }
}
