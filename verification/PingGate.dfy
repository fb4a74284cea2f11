/**
 * The gate in front of outgoing chat messages: every tenth message first sends a ping and waits for the pong
 * that carries the same marker.
 */
module PingGate {
  import opened Wrappers

  const PONG_CAPACITY := 100

  type Marker = string

  datatype Failure = Retry | PingDeath | Unknown

  /** What became of a call: sent, and whether it had to pass the gate, or refused. */
  datatype Result = Sent(pinged: bool) | Refused(failure: Failure)

  /** Whether a call waits for a pong, for which marker, and whether its message can then be sent. */
  datatype Phase = Idle | Waiting(marker: Marker, sendable: bool)

  /**
   * The pinger's counter and queue of pongs, what became of the calls so far, and what is only counted: how many
   * calls had to pass the gate.
   */
  datatype State = State(counter: nat, rx: seq<Marker>, phase: Phase, results: seq<Result>, gates: nat)

  /** The methods of the writer's interface. */
  datatype Method = Message | Action | Other

  /**
   * A call, with the marker it would use, whether its ping can be sent, and whether its message can; a pong
   * from the server; one more pong taken from the queue; and the ten seconds being over.
   */
  datatype Step =
    | Call(kind: Method, marker: Marker, pingable: bool, sendable: bool)
    | Pong(marker: Marker)
    | Receive
    | Deadline

  /** Calls come one at a time. The wait only ends by time while no pong is queued. A marker is new. */
  predicate Enabled(s: State, e: Step) {
    match e
    case Call(_, marker, _, _) => s.phase == Idle && marker !in s.rx
    case Pong(_) => true
    case Receive => s.phase.Waiting? && |s.rx| > 0
    case Deadline => s.phase.Waiting? && |s.rx| == 0
  }

  function Finish(s: State, r: Result): State {
    s.(phase := Idle, results := s.results + [r])
  }

  function SendNow(s: State, pinged: bool, sendable: bool): State {
    Finish(s, if sendable then Sent(pinged) else Refused(Retry))
  }

  function Next(s: State, e: Step): State
    requires Enabled(s, e)
  {
    match e
    case Call(kind, marker, pingable, sendable) =>
      if kind == Other then Finish(s, Refused(Unknown))
      else
        var s1 := s.(counter := s.counter + 1);
        if s1.counter % 10 != 0 then SendNow(s1, false, sendable)
        else
          var s2 := s1.(gates := s1.gates + 1);
          if !pingable then Finish(s2, Refused(Retry)) else s2.(phase := Waiting(marker, sendable))
    case Pong(marker) =>
      if |s.rx| < PONG_CAPACITY then s.(rx := s.rx + [marker]) else s
    case Receive =>
      var s1 := s.(rx := s.rx[1..]);
      if s.rx[0] == s.phase.marker then SendNow(s1, true, s.phase.sendable) else s1
    case Deadline => Finish(s, Refused(PingDeath))
  }

  function Run(s: State, es: seq<Step>): State
    decreases |es|
  {
    if |es| == 0 then s else Run(if Enabled(s, es[0]) then Next(s, es[0]) else s, es[1..])
  }

  predicate NoCall(es: seq<Step>) {
    forall i :: 0 <= i < |es| ==> !es[i].Call?
  }

  /** The pongs that come in during some steps. */
  function Pongs(es: seq<Step>): seq<Marker> {
    if |es| == 0 then [] else (if es[0].Pong? then [es[0].marker] else []) + Pongs(es[1..])
  }

  function Flat(ms: seq<seq<Marker>>): seq<Marker> {
    if |ms| == 0 then [] else ms[0] + Flat(ms[1..])
  }

  lemma {:induction false} PongsSnoc(es: seq<Step>, e: Step)
    ensures Pongs(es + [e]) == Pongs(es) + if e.Pong? then [e.marker] else []
  {
    if |es| == 0 {
      assert es + [e] == [e] && [e][1..] == [];
    } else {
      assert (es + [e])[1..] == es[1..] + [e];
      PongsSnoc(es[1..], e);
    }
  }

  lemma {:induction false} FlatSplit(ms: seq<seq<Marker>>, i: nat)
    requires i <= |ms|
    ensures Flat(ms) == Flat(ms[..i]) + Flat(ms[i..])
  {
    if i == 0 {
      assert ms[0..] == ms;
    } else {
      FlatSplit(ms[1..], i - 1);
      assert ms[..i][1..] == ms[1..][..i - 1] && ms[1..][i - 1..] == ms[i..];
    }
  }

  lemma FlatNext(ms: seq<seq<Marker>>, i: nat)
    requires i < |ms|
    ensures Flat(ms[..i + 1]) == Flat(ms[..i]) + ms[i]
  {
    FlatSplit(ms[..i + 1], i);
    assert ms[..i + 1][..i] == ms[..i] && ms[..i + 1][i..] == [ms[i]] && [ms[i]][1..] == [];
  }

  lemma StartPongs(s1: State, arrivals: seq<seq<Marker>>)
    ensures Run(s1, []) == s1 && Pongs([]) == [] && Flat(arrivals[..0]) == []
  {
  }

  // ---------------------------------------------------------------- the objects

  class Pinger {
    var counter: nat
    var rx: seq<Marker>

    constructor ()
      ensures counter == 0 && rx == []
    {
      counter, rx := 0, [];
    }

    /** A pong from the server; with a full queue it is lost. */
    method Pong(m: Marker)
      modifies this`rx
      ensures rx == if |old(rx)| < PONG_CAPACITY then old(rx) + [m] else old(rx)
    {
      if |rx| < PONG_CAPACITY {
        rx := rx + [m];
      }
    }

    /**
     * Counts the call and, every tenth time, pings and waits. `arrivals` are the pongs that come in before
     * each look at the queue; when they are used up and the queue is empty the time is over. The result says
     * whether the message may be sent; `steps` is what happened, as steps of the protocol: pongs only come in
     * from `arrivals`, in order, and all of them have come in when the time is over.
     */
    method Ping(marker: Marker, pingable: bool, arrivals: seq<seq<Marker>>, ghost call: Step, ghost s: State)
      returns (r: Option<Failure>, pinged: bool, ghost steps: seq<Step>)
      requires s.counter == counter && s.rx == rx && s.phase == Idle && marker !in rx
      requires call.Call? && call.kind != Other && call.marker == marker && call.pingable == pingable
      modifies this
      ensures var s' := Run(s, [call] + steps);
        && s'.counter == counter && s'.rx == rx && s'.phase == Idle
        && s'.results == s.results + [if r.Some? then Refused(r.value)
                                      else if call.sendable then Sent(pinged) else Refused(Retry)]
      ensures NoCall(steps) && Pongs(steps) <= Flat(arrivals)
      ensures r == Some(PingDeath) ==> Pongs(steps) == Flat(arrivals)
    {
      counter := counter + 1;
      steps := [];
      pinged := false;
      assert forall es: seq<Step> {:trigger [call] + es} :: ([call] + es)[1..] == es;
      if counter % 10 != 0 {
        return None, false, [];
      }
      if !pingable {
        return Some(Retry), false, [];
      }
      pinged := true;
      var found;
      found, steps := Await(marker, arrivals, Next(s, call));
      r := if found then None else Some(PingDeath);
    }

    /** A call of the writer's interface: a message or an action passes the gate, then it is sent. */
    method Handle(kind: Method, marker: Marker, pingable: bool, sendable: bool, arrivals: seq<seq<Marker>>,
                  ghost s: State)
      returns (result: Result, ghost steps: seq<Step>)
      requires s.counter == counter && s.rx == rx && s.phase == Idle && marker !in rx
      modifies this
      ensures var s' := Run(s, [Call(kind, marker, pingable, sendable)] + steps);
        && s'.counter == counter && s'.rx == rx && s'.phase == Idle && s'.results == s.results + [result]
      ensures NoCall(steps) && Pongs(steps) <= Flat(arrivals)
      ensures result == Refused(PingDeath) ==> Pongs(steps) == Flat(arrivals)
    {
      ghost var call := Call(kind, marker, pingable, sendable);
      if kind == Other {
        assert ([call] + [])[1..] == [];
        return Refused(Unknown), [];
      }
      var r, pinged;
      r, pinged, steps := Ping(marker, pingable, arrivals, call, s);
      if r.Some? {
        return Refused(r.value), steps;
      }
      if !sendable {
        return Refused(Retry), steps;
      }
      result := Sent(pinged);
    }

    /** Takes pongs from the queue until one carries the marker or the time is over. */
    method Await(marker: Marker, arrivals: seq<seq<Marker>>, ghost s1: State)
      returns (found: bool, ghost steps: seq<Step>)
      requires s1.counter == counter && s1.rx == rx && s1.phase.Waiting? && s1.phase.marker == marker
      modifies this`rx
      ensures Run(s1, steps) ==
        (if found then SendNow(s1, true, s1.phase.sendable) else Finish(s1, Refused(PingDeath))).(rx := rx)
      ensures NoCall(steps) && Pongs(steps) <= Flat(arrivals) && (!found ==> Pongs(steps) == Flat(arrivals))
    {
      hide Run, Pongs, Flat;
      var i := 0;
      steps := [];
      StartPongs(s1, arrivals);
      while true
        invariant i <= |arrivals|
        invariant Run(s1, steps) == s1.(rx := rx)
        invariant NoCall(steps) && Pongs(steps) == Flat(arrivals[..i])
        decreases |arrivals| - i, |rx|
      {
        if i < |arrivals| {
          steps := Arrive(arrivals[i], s1, steps);
          FlatNext(arrivals, i);
          i := i + 1;
        }
        FlatSplit(arrivals, i);
        if |rx| > 0 {
          var m := rx[0];
          RunSnoc(s1, steps, Receive);
          PongsSnoc(steps, Receive);
          steps := steps + [Receive];
          rx := rx[1..];
          if m == marker {
            return true, steps;
          }
        } else if i == |arrivals| {
          RunSnoc(s1, steps, Deadline);
          PongsSnoc(steps, Deadline);
          assert arrivals[..i] == arrivals;
          return false, steps + [Deadline];
        }
      }
    }

    /** Pongs come in one after the other. */
    method Arrive(ms: seq<Marker>, ghost s1: State, ghost steps: seq<Step>) returns (ghost steps': seq<Step>)
      requires Run(s1, steps) == s1.(rx := rx) && NoCall(steps)
      modifies this`rx
      ensures Run(s1, steps') == s1.(rx := rx) && NoCall(steps') && Pongs(steps') == Pongs(steps) + ms
    {
      hide Run, Pongs;
      steps' := steps;
      for i := 0 to |ms|
        invariant Run(s1, steps') == s1.(rx := rx)
        invariant NoCall(steps') && Pongs(steps') == Pongs(steps) + ms[..i]
      {
        RunSnoc(s1, steps', Step.Pong(ms[i]));
        PongsSnoc(steps', Step.Pong(ms[i]));
        steps' := steps' + [Step.Pong(ms[i])];
        Pong(ms[i]);
      }
    }
  }

  lemma {:induction false} RunSnoc(s: State, es: seq<Step>, e: Step)
    requires Enabled(Run(s, es), e)
    ensures Run(s, es + [e]) == Next(Run(s, es), e)
    decreases |es|
  {
    if |es| == 0 {
      assert es + [e] == [e] && [e][1..] == [];
    } else {
      assert (es + [e])[1..] == es[1..] + [e];
      RunSnoc(if Enabled(s, es[0]) then Next(s, es[0]) else s, es[1..], e);
    }
  }

  // ---------------------------------------------------------------- what every run keeps

  function Gated(rs: seq<Result>): nat {
    if |rs| == 0 then 0 else (if rs[0] == Sent(true) then 1 else 0) + Gated(rs[1..])
  }

  /** At most 100 pongs are queued; exactly every tenth call had to pass the gate, and only those were pinged. */
  ghost predicate Inv(s: State) {
    && |s.rx| <= PONG_CAPACITY
    && s.gates == s.counter / 10
    && (s.phase.Waiting? ==> s.counter % 10 == 0)
    && Gated(s.results) + (if s.phase.Waiting? then 1 else 0) <= s.gates
  }

  lemma {:induction false} GatedAppend(rs: seq<Result>, r: Result)
    ensures Gated(rs + [r]) == Gated(rs) + if r == Sent(true) then 1 else 0
  {
    if |rs| == 0 {
      assert rs + [r] == [r];
      assert [r][1..] == [];
    } else {
      assert (rs + [r])[1..] == rs[1..] + [r];
      GatedAppend(rs[1..], r);
    }
  }

  lemma NextKeeps(s: State, e: Step)
    requires Inv(s) && Enabled(s, e)
    ensures Inv(Next(s, e))
  {
    var s' := Next(s, e);
    if |s'.results| > |s.results| {
      GatedAppend(s.results, s'.results[|s.results|]);
    }
  }

  const START: State := State(0, [], Idle, [], 0)

  lemma {:induction false} RunKeeps(s: State, es: seq<Step>)
    requires Inv(s)
    ensures Inv(Run(s, es))
    decreases |es|
  {
    if |es| > 0 {
      if Enabled(s, es[0]) {
        NextKeeps(s, es[0]);
      }
      RunKeeps(if Enabled(s, es[0]) then Next(s, es[0]) else s, es[1..]);
    }
  }

  /** In every run: the queue is bounded, and calls sent behind a ping are at most every tenth. */
  lemma QueueBoundedAndEveryTenth(es: seq<Step>)
    ensures var s := Run(START, es);
      |s.rx| <= PONG_CAPACITY && s.gates == s.counter / 10 && Gated(s.results) <= s.counter / 10
  {
    RunKeeps(START, es);
  }

  // ---------------------------------------------------------------- which calls are sent

  /** A pong is queued while fewer than 100 wait, and lost otherwise. */
  lemma PongsQueue(s: State, m: Marker)
    ensures Next(s, Pong(m)) == if |s.rx| < 100 then s.(rx := s.rx + [m]) else s
  {
  }

  /** The calls of a run that took place, in order. */
  function CallsOf(s: State, es: seq<Step>): seq<Step>
    decreases |es|
  {
    if |es| == 0 then []
    else
      var s' := if Enabled(s, es[0]) then Next(s, es[0]) else s;
      (if es[0].Call? && Enabled(s, es[0]) then [es[0]] else []) + CallsOf(s', es[1..])
  }

  /** How many of the calls are messages or actions. */
  function Messages(cs: seq<Step>): nat {
    if |cs| == 0 then 0
    else Messages(cs[..|cs| - 1]) + if cs[|cs| - 1].Call? && cs[|cs| - 1].kind != Other then 1 else 0
  }

  /** The call is a message or an action, and the tenth, twentieth and so on of these. */
  predicate IsTenth(cs: seq<Step>, j: nat)
    requires j < |cs| && cs[j].Call?
  {
    cs[j].kind != Other && Messages(cs[..j + 1]) % 10 == 0
  }

  /**
   * What may become of a call, by the list of calls alone: another method is unknown; most messages and actions are
   * sent without a ping if they can be; a tenth one is refused if its ping cannot be sent, and otherwise sent behind
   * its pong, if it can be, or refused for want of a pong.
   */
  predicate Becomes(cs: seq<Step>, j: nat, r: Result)
    requires j < |cs| && cs[j].Call?
  {
    if cs[j].kind == Other then r == Refused(Unknown)
    else if !IsTenth(cs, j) then r == if cs[j].sendable then Sent(false) else Refused(Retry)
    else if !cs[j].pingable then r == Refused(Retry)
    else r == Refused(PingDeath) || r == if cs[j].sendable then Sent(true) else Refused(Retry)
  }

  /** The state after these calls, of which the last may still wait. */
  ghost predicate Explains(cs: seq<Step>, s: State) {
    && |cs| == |s.results| + (if s.phase.Waiting? then 1 else 0)
    && (forall j :: 0 <= j < |cs| ==> cs[j].Call?)
    && s.counter == Messages(cs)
    && (forall j :: 0 <= j < |s.results| ==> Becomes(cs, j, s.results[j]))
    && (s.phase.Waiting? ==>
          var last := |cs| - 1;
          IsTenth(cs, last) && cs[last].pingable && s.phase == Waiting(cs[last].marker, cs[last].sendable))
  }

  lemma SameBecomes(cs: seq<Step>, c: Step, j: nat, r: Result)
    requires j < |cs| && cs[j].Call?
    ensures Becomes(cs + [c], j, r) <==> Becomes(cs, j, r)
  {
    assert (cs + [c])[..j + 1] == cs[..j + 1];
  }

  /** The results so far still fit after another call. */
  lemma ResultsFit(cs: seq<Step>, c: Step, rs: seq<Result>)
    requires |rs| <= |cs| && forall j :: 0 <= j < |cs| ==> cs[j].Call?
    requires forall j :: 0 <= j < |rs| ==> Becomes(cs, j, rs[j])
    ensures forall j :: 0 <= j < |rs| ==> Becomes(cs + [c], j, rs[j])
  {
    forall j | 0 <= j < |rs| ensures Becomes(cs + [c], j, rs[j]) {
      SameBecomes(cs, c, j, rs[j]);
    }
  }

  lemma MessagesNext(cs: seq<Step>, c: Step)
    ensures Messages(cs + [c]) == Messages(cs) + if c.Call? && c.kind != Other then 1 else 0
  {
    assert (cs + [c])[..|cs|] == cs;
  }

  lemma CallExplains(cs: seq<Step>, s: State, e: Step)
    requires Explains(cs, s) && Enabled(s, e) && e.Call?
    ensures Explains(cs + [e], Next(s, e))
  {
    hide Messages;
    var all := cs + [e];
    assert all[..|cs| + 1] == all;
    MessagesNext(cs, e);
    ResultsFit(cs, e, s.results);
  }

  lemma NextExplains(cs: seq<Step>, s: State, e: Step)
    requires Explains(cs, s) && Enabled(s, e)
    ensures Explains(if e.Call? then cs + [e] else cs, Next(s, e))
  {
    hide Messages;
    if e.Call? {
      CallExplains(cs, s, e);
    }
  }

  lemma {:induction false} RunExplains(cs: seq<Step>, s: State, es: seq<Step>)
    requires Explains(cs, s)
    ensures Explains(cs + CallsOf(s, es), Run(s, es))
    decreases |es|
  {
    hide Explains;
    if |es| == 0 {
      assert cs + [] == cs;
    } else {
      var e := es[0];
      var s' := if Enabled(s, e) then Next(s, e) else s;
      var now := if e.Call? && Enabled(s, e) then [e] else [];
      assert cs + [] == cs;
      if Enabled(s, e) {
        NextExplains(cs, s, e);
      }
      RunExplains(cs + now, s', es[1..]);
      Assoc(cs, now, CallsOf(s', es[1..]));
    }
  }

  /**
   * Which calls are sent, in every run from the start: the results, in order, are what becomes of the calls by their
   * list alone, and at most the last call has none yet.
   */
  lemma CallsDecide(es: seq<Step>)
    ensures var cs, s := CallsOf(START, es), Run(START, es);
      && |s.results| <= |cs| <= |s.results| + 1
      && (|cs| > |s.results| <==> s.phase.Waiting?)
      && (forall j :: 0 <= j < |cs| ==> cs[j].Call?)
      && forall j :: 0 <= j < |s.results| ==> Becomes(cs, j, s.results[j])
  {
    assert Explains([], START);
    RunExplains([], START, es);
    assert [] + CallsOf(START, es) == CallsOf(START, es);
  }

  // ---------------------------------------------------------------- one gated call

  /** Between calls nothing is sent or refused. */
  lemma {:induction false} IdleStays(s: State, es: seq<Step>)
    requires s.phase == Idle && NoCall(es)
    ensures Run(s, es).phase == Idle && Run(s, es).results == s.results
    decreases |es|
  {
    if |es| > 0 {
      IdleStays(if Enabled(s, es[0]) then Next(s, es[0]) else s, es[1..]);
    }
  }

  lemma {:induction false} NoPongNoSend(s: State, es: seq<Step>)
    requires s.phase.Waiting? && s.phase.marker !in s.rx && NoCall(es) && Pong(s.phase.marker) !in es
    ensures Run(s, es).results == s.results || Run(s, es).results == s.results + [Refused(PingDeath)]
    decreases |es|
  {
    if |es| > 0 {
      var s' := if Enabled(s, es[0]) then Next(s, es[0]) else s;
      assert es[0] in es && forall e :: e in es[1..] ==> e in es;
      if s'.phase == Idle {
        IdleStays(s', es[1..]);
      } else {
        NoPongNoSend(s', es[1..]);
      }
    }
  }

  /**
   * A tenth call is only sent after a pong with its own marker came in while it waited: whatever was queued
   * before, such as the late pong of a call that timed out, does not count. A gate that fails sends nothing.
   */
  lemma OwnPongNeeded(s: State, call: Step, es: seq<Step>)
    requires Inv(s) && call.Call? && Enabled(s, call) && (s.counter + 1) % 10 == 0 && call.kind != Other
    requires NoCall(es) && Pong(call.marker) !in es
    ensures var rs := Run(Next(s, call), es).results;
      rs == s.results || rs == s.results + [Refused(PingDeath)] || rs == s.results + [Refused(Retry)]
  {
    if call.pingable {
      NoPongNoSend(Next(s, call), es);
    } else {
      IdleStays(Next(s, call), es);
    }
  }

  function Receives(es: seq<Step>): nat {
    if |es| == 0 then 0 else (if es[0] == Receive then 1 else 0) + Receives(es[1..])
  }

  /**
   * A matching pong that is queued in time is found: behind k others it takes k + 1 looks at the queue,
   * whatever else comes in, and the time cannot run out before.
   */
  lemma {:induction false} QueuedPongIsFound(s: State, es: seq<Step>, k: nat)
    requires s.phase.Waiting? && k < |s.rx| && s.rx[k] == s.phase.marker
    requires forall j :: 0 <= j < k ==> s.rx[j] != s.phase.marker
    requires NoCall(es) && Receives(es) > k
    ensures var s' := Run(s, es);
      s'.phase == Idle && s'.results == s.results + [if s.phase.sendable then Sent(true) else Refused(Retry)]
    decreases |es|
  {
    var e := es[0];
    var s' := if Enabled(s, e) then Next(s, e) else s;
    if e == Receive && k == 0 {
      IdleStays(s', es[1..]);
    } else {
      QueuedPongIsFound(s', es[1..], if e == Receive then k - 1 else k);
    }
  }

  function Receiving(n: nat): seq<Step> {
    seq(n, _ => Receive)
  }

  /** When no pong with the marker is queued and none comes in, the call is refused once the time is over. */
  lemma {:induction false} TimesOut(s: State)
    requires s.phase.Waiting? && s.phase.marker !in s.rx
    ensures var s' := Run(s, Receiving(|s.rx|) + [Deadline]);
      s'.phase == Idle && s'.rx == [] && s'.results == s.results + [Refused(PingDeath)]
    decreases |s.rx|
  {
    var es := Receiving(|s.rx|) + [Deadline];
    if |s.rx| == 0 {
      assert es == [Deadline] && [Deadline][1..] == [];
    } else {
      var s1 := Next(s, Receive);
      assert es[0] == Receive && es[1..] == Receiving(|s1.rx|) + [Deadline];
      TimesOut(s1);
    }
  }
}
