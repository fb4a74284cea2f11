/** Overlapping sessions on one user's row. */
module UserSessions {
  import opened Wrappers
  import opened UserData

  type SessionId = nat

  datatype Action = Open | Do(op: Op) | Close

  datatype Step = Step(who: SessionId, action: Action)

  /** The row and the sessions that have been opened. */
  datatype World = World(row: Option<Row>, sessions: map<SessionId, Memory>)

  function Next(w: Languages, s: World, e: Step): World {
    match e.action
    case Open => s.(sessions := s.sessions[e.who := Load(s.row)])
    case Do(op) =>
      if e.who in s.sessions then s.(sessions := s.sessions[e.who := Apply(w, s.sessions[e.who], op)]) else s
    case Close =>
      if e.who in s.sessions then
        var (m, row) := Save(w, s.sessions[e.who], s.row);
        World(row, s.sessions[e.who := m])
      else s
  }

  function Run(w: Languages, s: World, steps: seq<Step>): World
    decreases |steps|
  {
    if |steps| == 0 then s else Run(w, Next(w, s, steps[0]), steps[1..])
  }

  /** The steps of one session. */
  function Only(steps: seq<Step>, who: SessionId): seq<Step> {
    if |steps| == 0 then []
    else (if steps[0].who == who then [steps[0]] else []) + Only(steps[1..], who)
  }

  /** No other session does anything that counts as a change. */
  ghost predicate OthersRead(w: Languages, s: World, steps: seq<Step>, writer: SessionId)
    decreases |steps|
  {
    |steps| == 0 ||
    (var e, s' := steps[0], Next(w, s, steps[0]);
     && (e.who != writer && e.who in s'.sessions ==> !IsChanged(s'.sessions[e.who]))
     && OthersRead(w, s', steps[1..], writer))
  }

  /** The two worlds agree on the row and on the writer's session; other sessions are unchanged. */
  ghost predicate Agrees(s: World, alone: World, writer: SessionId) {
    && s.row == alone.row
    && Find(s.sessions, writer) == Find(alone.sessions, writer)
    && forall i :: i in s.sessions && i != writer ==> !IsChanged(s.sessions[i])
  }

  /**
   * No lost update: with any number of sessions in any interleaving of which at most one makes a change, the
   * row is at every moment what that session alone would have made it.
   */
  lemma {:induction false} ReadersDoNotInterfere(w: Languages, s: World, alone: World, steps: seq<Step>,
                                                 writer: SessionId)
    requires Agrees(s, alone, writer) && OthersRead(w, s, steps, writer)
    ensures Agrees(Run(w, s, steps), Run(w, alone, Only(steps, writer)), writer)
    decreases |steps|
  {
    if |steps| > 0 {
      var e := steps[0];
      var s' := Next(w, s, e);
      if e.who == writer {
        var own := [e] + Only(steps[1..], writer);
        assert own[1..] == Only(steps[1..], writer);
        assert Agrees(s', Next(w, alone, e), writer);
        ReadersDoNotInterfere(w, s', Next(w, alone, e), steps[1..], writer);
      } else {
        assert [] + Only(steps[1..], writer) == Only(steps[1..], writer);
        assert Agrees(s', alone, writer);
        ReadersDoNotInterfere(w, s', alone, steps[1..], writer);
      }
    }
  }

  /** One changing session among readers: after it closes, the row means what it intended. */
  lemma WriterIsStored(w: Languages, row: Option<Row>, steps: seq<Step>, writer: SessionId, ops: seq<Op>)
    requires Only(steps, writer) == [Step(writer, Open)] + Ops(writer, ops) + [Step(writer, Close)]
    requires OthersRead(w, World(row, map[]), steps, writer)
    ensures RowMeaning(w, Run(w, World(row, map[]), steps).row) == IntendAll(w, RowMeaning(w, row), ops)
  {
    var start := World(row, map[]);
    ReadersDoNotInterfere(w, start, start, steps, writer);
    RunOwn(w, row, writer, ops);
    SessionStoresEverything(w, row, ops);
  }

  function Ops(who: SessionId, ops: seq<Op>): seq<Step> {
    if |ops| == 0 then [] else [Step(who, Do(ops[0]))] + Ops(who, ops[1..])
  }

  lemma {:induction false} RunConcat(w: Languages, s: World, a: seq<Step>, b: seq<Step>)
    ensures Run(w, s, a + b) == Run(w, Run(w, s, a), b)
    decreases |a|
  {
    if |a| == 0 {
      assert a + b == b;
    } else {
      assert (a + b)[1..] == a[1..] + b;
      RunConcat(w, Next(w, s, a[0]), a[1..], b);
    }
  }

  lemma {:induction false} RunOps(w: Languages, s: World, who: SessionId, ops: seq<Op>)
    requires who in s.sessions
    ensures Run(w, s, Ops(who, ops)) == s.(sessions := s.sessions[who := ApplyAll(w, s.sessions[who], ops)])
    decreases |ops|
  {
    if |ops| == 0 {
      assert s.sessions[who := s.sessions[who]] == s.sessions;
    } else {
      var s' := Next(w, s, Step(who, Do(ops[0])));
      assert Ops(who, ops)[1..] == Ops(who, ops[1..]);
      RunOps(w, s', who, ops[1..]);
      assert s'.sessions[who := ApplyAll(w, s'.sessions[who], ops[1..])]
          == s.sessions[who := ApplyAll(w, s.sessions[who], ops)];
    }
  }

  lemma RunOwn(w: Languages, row: Option<Row>, who: SessionId, ops: seq<Op>)
    ensures Run(w, World(row, map[]), [Step(who, Open)] + Ops(who, ops) + [Step(who, Close)]).row
      == Save(w, ApplyAll(w, Load(row), ops), row).1
  {
    var open, close := [Step(who, Open)], [Step(who, Close)];
    var s0 := World(row, map[]);
    RunConcat(w, s0, open + Ops(who, ops), close);
    RunConcat(w, s0, open, Ops(who, ops));
    var s1 := Next(w, s0, open[0]);
    assert Run(w, s0, open) == Run(w, s1, open[1..]) == s1;
    RunOps(w, s1, who, ops);
    var s2 := Run(w, s1, Ops(who, ops));
    assert Run(w, s2, close) == Run(w, Next(w, s2, close[0]), close[1..]);
  }

  /** With two changing sessions an update can be lost: both load, both change, the first to save loses. */
  lemma TwoWritersLose(w: Languages)
    ensures var steps := [Step(0, Open), Step(1, Open), Step(0, Do(Set(AllowedToDebug(true)))),
                          Step(1, Do(Set(V2(true)))), Step(0, Close), Step(1, Close)];
      var row := Run(w, World(None, map[]), steps).row;
      row.Some? && row.value.settings.v2 && !row.value.settings.allowedToDebug
  {
    var s0 := World(None, map[]);
    var s1 := Next(w, s0, Step(0, Open));
    var s2 := Next(w, s1, Step(1, Open));
    var s3 := Next(w, s2, Step(0, Do(Set(AllowedToDebug(true)))));
    var s4 := Next(w, s3, Step(1, Do(Set(V2(true)))));
    var s5 := Next(w, s4, Step(0, Close));
    var s6 := Next(w, s5, Step(1, Close));
    RunSix(w, s0, Step(0, Open), Step(1, Open), Step(0, Do(Set(AllowedToDebug(true)))),
           Step(1, Do(Set(V2(true)))), Step(0, Close), Step(1, Close));
  }

  lemma RunSix(w: Languages, s: World, a: Step, b: Step, c: Step, d: Step, e: Step, f: Step)
    ensures Run(w, s, [a, b, c, d, e, f])
      == Next(w, Next(w, Next(w, Next(w, Next(w, Next(w, s, a), b), c), d), e), f)
  {
    assert [a, b, c, d, e, f] == [a, b, c] + [d, e, f];
    RunConcat(w, s, [a, b, c], [d, e, f]);
    RunThree(w, s, a, b, c);
    RunThree(w, Run(w, s, [a, b, c]), d, e, f);
  }

  lemma RunThree(w: Languages, s: World, a: Step, b: Step, c: Step)
    ensures Run(w, s, [a, b, c]) == Next(w, Next(w, Next(w, s, a), b), c)
  {
    assert [a, b, c][1..] == [b, c] && [b, c][1..] == [c] && [c][1..] == [];
    assert Run(w, Next(w, s, a), [b, c]) == Run(w, Next(w, Next(w, s, a), b), [c]);
  }
}
