/** Two sessions on one user that overlap and may both change something: exactly when an update is lost. */
module OverlappingWrites {
  import opened Wrappers
  import opened UserData
  import opened UserDataParts
  import opened UserSessions

  // ---------------------------------------------------------------- runs without a write

  /** No session that closes during these steps has changed anything, so none of them writes. */
  ghost predicate Quiet(w: Languages, s: World, steps: seq<Step>)
    decreases |steps|
  {
    |steps| == 0 ||
    (var e := steps[0];
     && (e.action.Close? && e.who in s.sessions ==> !IsChanged(s.sessions[e.who]))
     && Quiet(w, Next(w, s, e), steps[1..]))
  }

  /** During quiet steps the row stays, and a session does just its own operations. */
  lemma {:induction false} QuietOps(w: Languages, s: World, steps: seq<Step>, who: SessionId, ops: seq<Op>)
    requires Quiet(w, s, steps) && who in s.sessions && Only(steps, who) == Ops(who, ops)
    ensures var s' := Run(w, s, steps);
      s'.row == s.row && who in s'.sessions && s'.sessions[who] == ApplyAll(w, s.sessions[who], ops)
    decreases |steps|
  {
    if |steps| > 0 {
      var e, s' := steps[0], Next(w, s, steps[0]);
      if e.who == who {
        assert Only(steps, who)[0] == e && Only(steps, who)[1..] == Only(steps[1..], who);
        assert Ops(who, ops)[1..] == Ops(who, ops[1..]);
        QuietOps(w, s', steps[1..], who, ops[1..]);
      } else {
        assert [] + Only(steps[1..], who) == Only(steps[1..], who);
        QuietOps(w, s', steps[1..], who, ops);
      }
    }
  }

  /** The same for a session that opens on the way. */
  lemma {:induction false} QuietOpening(w: Languages, s: World, steps: seq<Step>, who: SessionId, ops: seq<Op>)
    requires Quiet(w, s, steps) && Only(steps, who) == [Step(who, Open)] + Ops(who, ops)
    ensures var s' := Run(w, s, steps);
      s'.row == s.row && who in s'.sessions && s'.sessions[who] == ApplyAll(w, Load(s.row), ops)
    decreases |steps|
  {
    var e, s' := steps[0], Next(w, s, steps[0]);
    if e.who == who {
      assert Only(steps, who)[0] == e && Only(steps, who)[1..] == Only(steps[1..], who);
      QuietOps(w, s', steps[1..], who, ops);
    } else {
      assert [] + Only(steps[1..], who) == Only(steps[1..], who);
      QuietOpening(w, s', steps[1..], who, ops);
    }
  }

  lemma {:induction false} ApplyAllConcat(w: Languages, m: Memory, a: seq<Op>, b: seq<Op>)
    ensures ApplyAll(w, m, a + b) == ApplyAll(w, ApplyAll(w, m, a), b)
    decreases |a|
  {
    if |a| == 0 {
      assert a + b == b;
    } else {
      assert (a + b)[1..] == a[1..] + b;
      ApplyAllConcat(w, Apply(w, m, a[0]), a[1..], b);
    }
  }

  // ---------------------------------------------------------------- two sessions that overlap

  /**
   * Both sessions open in the steps p; then the first one closes; in the steps q the second one goes on, and then
   * closes. Their own steps are in any order among each other and among those of others, who write nothing.
   */
  ghost predicate Overlap(w: Languages, s: World, p: seq<Step>, q: seq<Step>, first: SessionId, second: SessionId,
                          a: seq<Op>, b1: seq<Op>, b2: seq<Op>)
  {
    && first != second
    && Only(p, first) == [Step(first, Open)] + Ops(first, a)
    && Only(p, second) == [Step(second, Open)] + Ops(second, b1)
    && Only(q, second) == Ops(second, b2)
    && Quiet(w, s, p) && Quiet(w, Next(w, Run(w, s, p), Step(first, Close)), q)
  }

  /** The row after both have closed. */
  function RowAfter(w: Languages, s: World, p: seq<Step>, q: seq<Step>,
                    first: SessionId, second: SessionId): Option<Row> {
    Run(w, s, p + [Step(first, Close)] + q + [Step(second, Close)]).row
  }

  lemma RunParts(w: Languages, s: World, p: seq<Step>, x: Step, q: seq<Step>, y: Step)
    ensures Run(w, s, p + [x] + q + [y]) == Next(w, Run(w, Next(w, Run(w, s, p), x), q), y)
  {
    RunConcat(w, s, p + [x] + q, [y]);
    RunConcat(w, s, p + [x], q);
    RunConcat(w, s, p, [x]);
    RunOne(w, Run(w, s, p), x);
    RunOne(w, Run(w, s, p + [x] + q), y);
  }

  lemma RunOne(w: Languages, s: World, x: Step)
    ensures Run(w, s, [x]) == Next(w, s, x)
  {
    assert Run(w, Next(w, s, x), [x][1..]) == Next(w, s, x);
  }

  /** The row after both have closed is what the second one saves over what the first one saved. */
  lemma SavedTwice(w: Languages, s: World, p: seq<Step>, q: seq<Step>, first: SessionId, second: SessionId,
                   a: seq<Op>, b1: seq<Op>, b2: seq<Op>)
    requires Overlap(w, s, p, q, first, second, a, b1, b2)
    ensures RowAfter(w, s, p, q, first, second)
      == Save(w, ApplyAll(w, Load(s.row), b1 + b2), Save(w, ApplyAll(w, Load(s.row), a), s.row).1).1
  {
    QuietOpening(w, s, p, first, a);
    QuietOpening(w, s, p, second, b1);
    var s1 := Next(w, Run(w, s, p), Step(first, Close));
    QuietOps(w, s1, q, second, b2);
    ApplyAllConcat(w, Load(s.row), b1, b2);
    RunParts(w, s, p, Step(first, Close), q, Step(second, Close));
  }

  /**
   * The session that closes last decides: if it changes anything, the row means what it intended for the row both
   * of them loaded, and otherwise what the other one intended.
   */
  lemma LaterCloserDecides(w: Languages, s: World, p: seq<Step>, q: seq<Step>, first: SessionId, second: SessionId,
                           a: seq<Op>, b1: seq<Op>, b2: seq<Op>)
    requires Overlap(w, s, p, q, first, second, a, b1, b2)
    ensures var before, b := RowMeaning(w, s.row), b1 + b2;
      RowMeaning(w, RowAfter(w, s, p, q, first, second))
      == IntendAll(w, before, if Changes(w, s.row, b) then b else a)
  {
    SavedTwice(w, s, p, q, first, second, a, b1, b2);
    SessionStoresEverything(w, s.row, a);
    SavedOver(w, s.row, b1 + b2, Save(w, ApplyAll(w, Load(s.row), a), s.row).1);
  }

  /** What a session saves does not depend on the row it is saved over. */
  lemma SavedOver(w: Languages, row: Option<Row>, ops: seq<Op>, over: Option<Row>)
    ensures var row' := Save(w, ApplyAll(w, Load(row), ops), over).1;
      if Changes(w, row, ops) then RowMeaning(w, row') == IntendAll(w, RowMeaning(w, row), ops) else row' == over
  {
    SessionStoresEverything(w, row, ops);
  }

  /** The two agree on the parts that the operations, done on a, set or do not set. */
  ghost predicate Agree(w: Languages, a: Meaning, ops: seq<Op>, touched: bool, x: Meaning, y: Meaning) {
    forall p :: Sets(w, a, ops, p) == touched ==> SameAt(x, y, p)
  }

  /** Every part that the operations a, done on the row, leave different from it is set by b, or none is. */
  ghost predicate Covers(w: Languages, row: Meaning, a: seq<Op>, b: seq<Op>, touched: bool) {
    forall p :: !SameAt(IntendAll(w, row, a), row, p) ==> Sets(w, row, b, p) == touched
  }

  lemma AgreeIff(w: Languages, row: Meaning, a: seq<Op>, b: seq<Op>, touched: bool, y: Meaning)
    requires forall p :: Sets(w, row, b, p) == touched ==> SameAt(y, row, p)
    ensures Agree(w, row, b, touched, IntendAll(w, row, a), y) <==> Covers(w, row, a, b, !touched)
    ensures Agree(w, row, b, touched, y, IntendAll(w, row, a)) <==> Covers(w, row, a, b, !touched)
  {
    hide SameAt, Sets, IntendAll;
    var x := IntendAll(w, row, a);
    forall p | Sets(w, row, b, p) == touched
      ensures SameAt(x, y, p) <==> SameAt(x, row, p)
      ensures SameAt(y, x, p) <==> SameAt(x, row, p)
    {
      SameVia(y, row, x, p);
      SameSymmetric(row, x, p);
    }
  }

  lemma SameSymmetric(a: Meaning, b: Meaning, p: Part)
    ensures SameAt(a, b, p) <==> SameAt(b, a, p)
  {
  }

  /**
   * Nothing of the first closer is lost, but for what the second one sets itself, if and only if the second one
   * changes nothing or sets every part that the first one's operations leave different from the row; when the
   * first one changes nothing there is no such part. Nothing of either is lost if and only if, moreover, a second
   * one that changes nothing sets none of those parts.
   */
  lemma NothingIsLostIff(w: Languages, s: World, p: seq<Step>, q: seq<Step>, first: SessionId, second: SessionId,
                         a: seq<Op>, b1: seq<Op>, b2: seq<Op>)
    requires Overlap(w, s, p, q, first, second, a, b1, b2)
    ensures var row, b, end := RowMeaning(w, s.row), b1 + b2, RowMeaning(w, RowAfter(w, s, p, q, first, second));
      && (Agree(w, row, b, false, end, IntendAll(w, row, a))
          <==> !Changes(w, s.row, b) || Covers(w, row, a, b, true))
      && (Agree(w, row, b, false, end, IntendAll(w, row, a)) && Agree(w, row, b, true, end, IntendAll(w, row, b))
          <==> Covers(w, row, a, b, Changes(w, s.row, b)))
  {
    hide Overlap, Sets, IntendAll, SameAt, RowAfter, RowMeaning;
    var row, b := RowMeaning(w, s.row), b1 + b2;
    LaterCloserDecides(w, s, p, q, first, second, a, b1, b2);
    SameEverywhere(IntendAll(w, row, a), IntendAll(w, row, a));
    SameEverywhere(IntendAll(w, row, b), IntendAll(w, row, b));
    if Changes(w, s.row, b) {
      forall x | !Sets(w, row, b, x) ensures SameAt(IntendAll(w, row, b), row, x) {
        UnsetStays(w, row, b, x);
      }
      AgreeIff(w, row, a, b, false, IntendAll(w, row, b));
    } else {
      UnchangedMeaning(w, s.row, b);
      SameEverywhere(IntendAll(w, row, b), row);
      AgreeIff(w, row, a, b, true, IntendAll(w, row, b));
    }
  }

  /** A session that changes nothing means what it loaded. */
  lemma UnchangedMeaning(w: Languages, row: Option<Row>, ops: seq<Op>)
    requires !Changes(w, row, ops)
    ensures IntendAll(w, RowMeaning(w, row), ops) == RowMeaning(w, row)
  {
    ApplyAllKeepsClean(w, Load(row), row, ops);
  }
}
