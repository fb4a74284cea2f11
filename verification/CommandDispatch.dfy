/**
 * Chat command dispatch: handlers that claim a message by its spelling, their combinators, and the loop
 * that asks one handler after the other.
 */
module CommandDispatch {
  import opened Wrappers
  import opened EditDistance

  function LowerChar(c: char): char {
    if 'A' <= c <= 'Z' then c - 'A' + 'a' else c
  }

  function Lower(s: Word): (r: Word)
    ensures |r| == |s| && forall i :: 0 <= i < |s| ==> r[i] == LowerChar(s[i])
  {
    seq(|s|, i requires 0 <= i < |s| => LowerChar(s[i]))
  }

  /** The position of the first space, or -1. */
  function IndexOfSpace(s: Word): (pos: int)
    ensures -1 <= pos < |s|
    ensures pos >= 0 ==> s[pos] == ' '
    ensures forall i :: 0 <= i < (if pos < 0 then |s| else pos) ==> s[i] != ' '
  {
    if |s| == 0 then -1
    else if s[0] == ' ' then 0
    else
      var rest := IndexOfSpace(s[1..]);
      if rest < 0 then -1 else rest + 1
  }

  /** What a handler does with a message: leave it to others (null), answer, or reject it with a user error. */
  datatype Outcome = Pass | Answer(command: Word, argument: Word) | Reject(message: Word)

  /**
   * Command handlers. A handler with shorthand has a command word; Only stands for any other handler that
   * looks at the rest of the message, by a function of its own.
   */
  datatype Handler =
    | Shorthand(command: Word)
    | Or(first: Handler, next: Handler)
    | Handling(start: Word, underlying: Handler)
    | Always(prefix: Word)
    | Only(answer: Word -> Outcome)

  /** Commands are not empty: their first letter is the alias. */
  predicate Valid(h: Handler) {
    match h
    case Shorthand(command) => |command| > 0
    case Or(f, n) => Valid(f) && Valid(n)
    case Handling(_, u) => Valid(u)
    case Always(_) => true
    case Only(_) => true
  }

  predicate StartsWith(s: Word, start: Word) {
    |start| <= |s| && s[..|start|] == start
  }

  /** Within the distance that still counts as the command word. */
  predicate Near(s: Word, command: Word) {
    Distance(s, command) <= 2
  }

  /** The argument with which a command word claims a message, if it does. */
  function ShorthandArgument(command: Word, original: Word): Option<Word>
    requires |command| > 0
  {
    var lower := Lower(original);
    if lower == [command[0]] then Some([])
    else if Near(lower, command) then Some([])
    else if StartsWith(lower, [command[0], ' ']) then Some(original[2..])
    else
      var pos := IndexOfSpace(lower);
      if pos > 0 && Near(lower[..pos], command) then Some(original[pos + 1..]) else None
  }

  function Handle(h: Handler, message: Word): Outcome
    requires Valid(h)
  {
    match h
    case Shorthand(command) =>
      var argument := ShorthandArgument(command, message);
      if argument.Some? then Answer(command, argument.value) else Pass
    case Or(first, next) =>
      var r := Handle(first, message);
      if r != Pass then r else Handle(next, message)
    case Handling(start, underlying) =>
      if !StartsWith(Lower(message), Lower(start)) then Pass
      else
        var r := Handle(underlying, message[|start|..]);
        if r != Pass then r else Reject(message)
    case Always(prefix) =>
      if !StartsWith(Lower(message), Lower(prefix)) then Pass
      else Answer(prefix, message[|prefix|..])
    case Only(answer) => answer(message)
  }

  /** The first outcome of a list of handlers. */
  function FirstClaim(hs: seq<Handler>, message: Word): Outcome
    requires forall h :: h in hs ==> Valid(h)
  {
    if |hs| == 0 then Pass
    else if Handle(hs[0], message) != Pass then Handle(hs[0], message)
    else FirstClaim(hs[1..], message)
  }

  /** The first handler of the list that does not pass decides. */
  lemma {:induction false} FirstDecides(hs: seq<Handler>, message: Word, i: nat)
    requires (forall h :: h in hs ==> Valid(h)) && i < |hs| && Handle(hs[i], message) != Pass
    requires forall j :: 0 <= j < i ==> Handle(hs[j], message) == Pass
    ensures FirstClaim(hs, message) == Handle(hs[i], message)
  {
    if i > 0 {
      FirstDecides(hs[1..], message, i - 1);
    }
  }

  /** The dispatch loop. */
  method Dispatch(hs: seq<Handler>, message: Word) returns (response: Outcome)
    requires forall h :: h in hs ==> Valid(h)
    ensures response == FirstClaim(hs, message)
  {
    response := Pass;
    assert hs[0..] == hs;
    for i := 0 to |hs|
      invariant response == Pass && FirstClaim(hs, message) == FirstClaim(hs[i..], message)
    {
      response := Handle(hs[i], message);
      if response != Pass {
        break;
      }
      assert hs[i..][1..] == hs[i + 1..];
    }
  }

  /** The handlers joined by `or`, from left to right, however the joins are nested. */
  function Flatten(h: Handler): (hs: seq<Handler>)
    requires Valid(h)
    ensures |hs| > 0 && forall x :: x in hs ==> Valid(x) && !x.Or?
  {
    if h.Or? then Flatten(h.first) + Flatten(h.next) else [h]
  }

  lemma {:induction false} FirstClaimConcat(a: seq<Handler>, b: seq<Handler>, message: Word)
    requires forall h :: h in a ==> Valid(h)
    requires forall h :: h in b ==> Valid(h)
    ensures FirstClaim(a + b, message)
      == if FirstClaim(a, message) != Pass then FirstClaim(a, message) else FirstClaim(b, message)
    decreases |a|
  {
    if |a| == 0 {
      assert a + b == b;
    } else {
      assert (a + b)[1..] == a[1..] + b;
      FirstClaimConcat(a[1..], b, message);
    }
  }

  /** Asking the joined handler is asking the list: the first that does not pass, rejections included, decides. */
  lemma {:induction false} JoinedIsList(h: Handler, message: Word)
    requires Valid(h)
    ensures Handle(h, message) == FirstClaim(Flatten(h), message)
  {
    if h.Or? {
      JoinedIsList(h.first, message);
      JoinedIsList(h.next, message);
      FirstClaimConcat(Flatten(h.first), Flatten(h.next), message);
    }
  }

  // ---------------------------------------------------------------- spelling

  predicate Claims(command: Word, message: Word)
    requires |command| > 0
  {
    ShorthandArgument(command, message).Some?
  }

  predicate SpaceFree(s: Word) {
    ' ' !in s
  }

  /** The letters A to Z become a to z, and nothing else changes. */
  lemma LowerLetters(i: nat, c: char)
    requires i < 26
    ensures LowerChar('A' + i as char) == 'a' + i as char
    ensures c < 'A' || c > 'Z' ==> LowerChar(c) == c
  {
  }

  lemma LowerConcat(x: Word, y: Word)
    ensures Lower(x + y) == Lower(x) + Lower(y)
  {
  }

  lemma LowerSpaces(x: Word)
    ensures forall i :: 0 <= i < |x| ==> (Lower(x)[i] == ' ' <==> x[i] == ' ')
  {
  }

  lemma {:induction false} FirstSpace(x: Word, rest: Word)
    requires SpaceFree(x)
    ensures IndexOfSpace(x) == -1 && IndexOfSpace(x + [' '] + rest) == |x|
  {
    var s := x + [' '] + rest;
    if |x| > 0 {
      assert s[1..] == x[1..] + [' '] + rest;
      FirstSpace(x[1..], rest);
    }
  }

  /** A message of one word is claimed by the alias letter or by a misspelling, with nothing left for the handler. */
  lemma OneWord(command: Word, x: Word)
    requires |command| > 0 && SpaceFree(x)
    ensures ShorthandArgument(command, x)
      == if Lower(x) == [command[0]] || Distance(Lower(x), command) <= 2 then Some([]) else None
  {
    hide Distance;
    LowerSpaces(x);
    FirstSpace(Lower(x), []);
    assert |x| >= 2 ==> Lower(x)[1] != ' ';
  }

  lemma AliasFirst(c: char, x: Word, rest: Word)
    requires SpaceFree(x) && c != ' '
    ensures StartsWith(x + [' '] + rest, [c, ' ']) <==> x == [c]
  {
    var s := x + [' '] + rest;
    assert s[|x|] == ' ' && forall i :: 0 <= i < |x| ==> s[i] == x[i] != ' ';
    if |s| >= 2 {
      assert s[..2] == [s[0], s[1]];
    }
    assert |x| == 1 ==> x == [x[0]];
  }

  /**
   * A message of several words is claimed by the alias letter or a misspelling in its first word, and then all that
   * follows the space is left for the handler; or as a whole by a misspelling, with nothing left.
   */
  lemma SeveralWords(command: Word, x: Word, argument: Word)
    requires |command| > 0 && command[0] != ' ' && SpaceFree(x)
    ensures ShorthandArgument(command, x + [' '] + argument)
      == if Distance(Lower(x + [' '] + argument), command) <= 2 then Some([])
         else if |x| > 0 && (Lower(x) == [command[0]] || Distance(Lower(x), command) <= 2) then Some(argument)
         else None
  {
    hide Distance, StartsWith, IndexOfSpace;
    var original := x + [' '] + argument;
    LowerConcat(x + [' '], argument);
    LowerConcat(x, [' ']);
    LowerSpaces(x);
    FirstSpace(Lower(x), Lower(argument));
    AliasFirst(command[0], Lower(x), Lower(argument));
    assert Lower(original) == Lower(x) + [' '] + Lower(argument);
    assert Lower(original)[..|x|] == Lower(x) && original[|x| + 1..] == argument;
    assert Lower(original)[|x|] == ' ';
  }

  /** What follows its start, in any spelling of upper and lower case, is what `alwaysHandling` hands on. */
  lemma AlwaysHandsOn(start: Word, message: Word)
    ensures Handle(Always(start), message) != Pass <==> exists s, rest :: Lower(s) == Lower(start) && message == s + rest
    ensures forall s, rest :: Lower(s) == Lower(start) && message == s + rest ==>
      Handle(Always(start), message) == Answer(start, rest)
  {
    StartSplits(start, message);
  }

  /** And so does `handling`, which rejects what its handler passes on. */
  lemma HandlingHandsOn(start: Word, underlying: Handler, message: Word)
    requires Valid(underlying)
    ensures Handle(Handling(start, underlying), message) != Pass
      <==> exists s, rest :: Lower(s) == Lower(start) && message == s + rest
    ensures forall s, rest :: Lower(s) == Lower(start) && message == s + rest ==>
      Handle(Handling(start, underlying), message)
      == if Handle(underlying, rest) == Pass then Reject(message) else Handle(underlying, rest)
  {
    StartSplits(start, message);
  }

  lemma StartSplits(start: Word, message: Word)
    ensures StartsWith(Lower(message), Lower(start))
      <==> exists s, rest :: Lower(s) == Lower(start) && message == s + rest
    ensures forall s, rest :: Lower(s) == Lower(start) && message == s + rest ==> message[|start|..] == rest
  {
    forall s, rest | Lower(s) == Lower(start) && message == s + rest
      ensures message[|start|..] == rest && StartsWith(Lower(message), Lower(start))
    {
      LowerConcat(s, rest);
      assert |s| == |Lower(s)| == |start|;
    }
    if StartsWith(Lower(message), Lower(start)) {
      var s, rest := message[..|start|], message[|start|..];
      LowerConcat(s, rest);
      assert message == s + rest;
      assert Lower(s) == Lower(message)[..|start|];
    }
  }

  /** Without a space and beyond one letter, only the spelling of the whole message counts. */
  lemma ClaimsIffNear(command: Word, message: Word)
    requires |command| > 0 && SpaceFree(message) && |message| > 1
    ensures Claims(command, message) <==> Near(Lower(message), command)
    ensures Claims(command, message) ==> ShorthandArgument(command, message) == Some([])
  {
    var lower := Lower(message);
    assert forall i :: 0 <= i < |message| ==> lower[i] == LowerChar(message[i]) != ' ';
    assert IndexOfSpace(lower) == -1;
  }

  /** Two words can both be near some word exactly when they are at most four edits apart. */
  lemma NearBothIff(a: Word, b: Word)
    ensures (exists w :: Near(w, a) && Near(w, b)) <==> Distance(a, b) <= 4
  {
    if w :| Near(w, a) && Near(w, b) {
      Symmetric(w, a);
      Triangle(a, w, b);
    }
    if Distance(a, b) <= 4 {
      var m := Between(a, b, Min(2, Distance(a, b)));
      Symmetric(a, m);
      assert Near(m, a) && Near(m, b);
    }
  }

  /** Handlers of any kind, the command words among them spelled at least five edits apart. */
  predicate FarApart(hs: seq<Handler>) {
    && (forall i :: 0 <= i < |hs| ==> Valid(hs[i]))
    && (forall i, j :: 0 <= i < j < |hs| && hs[i].Shorthand? && hs[j].Shorthand? ==>
          Distance(hs[i].command, hs[j].command) >= 5)
  }

  /** All handlers of another kind leave the message to others. */
  predicate OthersPass(hs: seq<Handler>, message: Word) {
    forall i :: 0 <= i < |hs| && Valid(hs[i]) && !hs[i].Shorthand? ==> Handle(hs[i], message) == Pass
  }

  predicate ClaimedBy(hs: seq<Handler>, message: Word, i: nat) {
    i < |hs| && hs[i].Shorthand? && |hs[i].command| > 0 && Claims(hs[i].command, message)
  }

  lemma OneClaimant(hs: seq<Handler>, message: Word, i: nat, j: nat)
    requires FarApart(hs) && SpaceFree(message) && |message| > 1
    requires ClaimedBy(hs, message, i) && ClaimedBy(hs, message, j)
    ensures i == j
  {
    ClaimsIffNear(hs[i].command, message);
    ClaimsIffNear(hs[j].command, message);
    NearBothIff(hs[i].command, hs[j].command);
    Symmetric(hs[i].command, hs[j].command);
  }

  /** The dispatcher answers for the handler that claims, wherever it stands in the list. */
  lemma {:induction false} DispatchFinds(hs: seq<Handler>, message: Word, i: nat)
    requires FarApart(hs) && OthersPass(hs, message) && SpaceFree(message) && |message| > 1
    requires ClaimedBy(hs, message, i)
    ensures FirstClaim(hs, message) == Answer(hs[i].command, [])
  {
    hide Distance, ShorthandArgument;
    ClaimsIffNear(hs[i].command, message);
    if i > 0 {
      if ClaimedBy(hs, message, 0) {
        OneClaimant(hs, message, 0, i);
      }
      RestFarApart(hs, message);
      assert hs[1..][i - 1] == hs[i];
      DispatchFinds(hs[1..], message, i - 1);
      SkipFirst(hs, message);
    }
  }

  lemma RestFarApart(hs: seq<Handler>, message: Word)
    requires |hs| > 0 && FarApart(hs) && OthersPass(hs, message)
    ensures FarApart(hs[1..]) && OthersPass(hs[1..], message)
  {
    hide Distance, Handle;
    var rest := hs[1..];
    forall k, l | 0 <= k < l < |rest| && rest[k].Shorthand? && rest[l].Shorthand?
      ensures Distance(rest[k].command, rest[l].command) >= 5
    {
      assert rest[k] == hs[k + 1] && rest[l] == hs[l + 1];
    }
  }

  lemma SkipFirst(hs: seq<Handler>, message: Word)
    requires |hs| > 0 && (forall h :: h in hs ==> Valid(h)) && OthersPass(hs, message) && !ClaimedBy(hs, message, 0)
    ensures FirstClaim(hs, message) == FirstClaim(hs[1..], message)
  {
    assert hs[0] in hs;
  }

  lemma {:induction false} DispatchPasses(hs: seq<Handler>, message: Word)
    requires (forall h :: h in hs ==> Valid(h)) && OthersPass(hs, message)
    requires forall i: nat :: i < |hs| ==> !ClaimedBy(hs, message, i)
    ensures FirstClaim(hs, message) == Pass
  {
    if |hs| > 0 {
      SkipFirst(hs, message);
      forall i: nat | i < |hs[1..]| ensures !ClaimedBy(hs[1..], message, i) {
        assert !ClaimedBy(hs, message, i + 1);
      }
      DispatchPasses(hs[1..], message);
    }
  }

  lemma TwiceThere<T>(xs: seq<T>, i: nat, j: nat)
    requires i < j < |xs| && xs[i] == xs[j]
    ensures multiset(xs)[xs[i]] >= 2
  {
    assert xs == xs[..j] + [xs[j]] + xs[j + 1..];
    assert xs[..j][i] == xs[i] && xs[i] in multiset(xs[..j]);
  }

  lemma TwoPlaces<T>(xs: seq<T>, x: T) returns (i: nat, j: nat)
    requires multiset(xs)[x] >= 2
    ensures i < |xs| && j < |xs| && i != j && xs[i] == xs[j] == x
  {
    assert x in multiset(xs);
    i :| i < |xs| && xs[i] == x;
    var rest := xs[..i] + xs[i + 1..];
    assert xs == xs[..i] + [x] + xs[i + 1..];
    assert x in multiset(rest);
    var k: nat :| k < |rest| && rest[k] == x;
    j := if k < i then k else k + 1;
  }

  /** Being far apart does not depend on the arrangement. */
  lemma FarApartPermutes(hs: seq<Handler>, hs': seq<Handler>)
    requires FarApart(hs) && multiset(hs) == multiset(hs')
    ensures FarApart(hs')
  {
    hide Distance;
    forall i | 0 <= i < |hs'| ensures Valid(hs'[i]) {
      assert hs'[i] in multiset(hs);
    }
    forall i, j | 0 <= i < j < |hs'| && hs'[i].Shorthand? && hs'[j].Shorthand?
      ensures Distance(hs'[i].command, hs'[j].command) >= 5
    {
      var x, y := hs'[i], hs'[j];
      assert x in multiset(hs) && y in multiset(hs);
      var k: nat :| k < |hs| && hs[k] == x;
      var l: nat :| l < |hs| && hs[l] == y;
      if x == y {
        TwiceThere(hs', i, j);
        k, l := TwoPlaces(hs, x);
      }
      Symmetric(x.command, y.command);
    }
  }

  /** A message that others leave alone gets the same answer from every arrangement of the handlers. */
  lemma OrderIrrelevant(hs: seq<Handler>, hs': seq<Handler>, message: Word)
    requires FarApart(hs) && multiset(hs) == multiset(hs') && OthersPass(hs, message)
    requires SpaceFree(message) && |message| > 1
    ensures forall h :: h in hs' ==> Valid(h)
    ensures FirstClaim(hs, message) == FirstClaim(hs', message)
  {
    hide Distance, Handle, ShorthandArgument, FirstClaim;
    FarApartPermutes(hs, hs');
    forall j | 0 <= j < |hs'| ensures exists i :: 0 <= i < |hs| && hs[i] == hs'[j] {
      assert hs'[j] in multiset(hs);
    }
    assert OthersPass(hs', message);
    if i: nat :| ClaimedBy(hs, message, i) {
      assert hs[i] in multiset(hs');
      var j: nat :| j < |hs'| && hs'[j] == hs[i];
      DispatchFinds(hs, message, i);
      DispatchFinds(hs', message, j);
    } else {
      forall j: nat | j < |hs'| ensures !ClaimedBy(hs', message, j) {
        var i: nat :| i < |hs| && hs[i] == hs'[j];
        assert !ClaimedBy(hs, message, i);
      }
      DispatchPasses(hs, message);
      DispatchPasses(hs', message);
    }
  }

  // ---------------------------------------------------------------- how far apart is needed

  /** A word of at least four small letters, as commands are. */
  predicate Plain(w: Word) {
    |w| >= 4 && forall i :: 0 <= i < |w| ==> 'a' <= w[i] <= 'z'
  }

  /**
   * Five edits are exactly what it takes: two plain command words share a claim on some space-free message
   * of at least two letters if and only if they are at most four edits apart.
   */
  lemma AmbiguousIffClose(a: Word, b: Word)
    requires Plain(a) && Plain(b)
    ensures (exists m: Word :: SpaceFree(m) && |m| > 1 && Claims(a, m) && Claims(b, m)) <==> Distance(a, b) <= 4
  {
    NearBothIff(a, b);
    if m: Word :| SpaceFree(m) && |m| > 1 && Claims(a, m) && Claims(b, m) {
      ClaimsIffNear(a, m);
      ClaimsIffNear(b, m);
    }
    if Distance(a, b) <= 4 {
      var m := Between(a, b, Min(2, Distance(a, b)));
      Symmetric(a, m);
      LengthBound(a, m);
      forall i | 0 <= i < |m| ensures 'a' <= m[i] <= 'z' {
        assert m[i] in m;
      }
      assert Lower(m) == m;
      ClaimsIffNear(a, m);
      ClaimsIffNear(b, m);
    }
  }

  /** With long words and distinct initials not even one-letter messages are ambiguous. */
  lemma ShortMessages(a: Word, b: Word, message: Word)
    requires |a| >= 4 && |b| >= 4 && a[0] != b[0] && SpaceFree(message) && |message| <= 1
    ensures !(Claims(a, message) && Claims(b, message))
  {
    var lower := Lower(message);
    LengthBound(lower, a);
    LengthBound(lower, b);
    assert forall i :: 0 <= i < |message| ==> lower[i] == LowerChar(message[i]) != ' ';
  }

  /**
   * Messages with a space are another matter: however far apart two plain command words are, some message
   * is claimed by both, as one's short form and as the other's misspelling, and the order decides.
   */
  lemma SpacesAreAmbiguous(a: Word, b: Word)
    requires Plain(a) && Plain(b) && a != b
    ensures var m: Word := [a[0], ' '] + b[1..];
      && Claims(a, m) && Claims(b, m)
      && FirstClaim([Shorthand(a), Shorthand(b)], m) != FirstClaim([Shorthand(b), Shorthand(a)], m)
  {
    var m: Word := [a[0], ' '] + b[1..];
    assert Lower(m) == m;
    assert m[..2] == [a[0], ' '];
    assert StartsWith(m, [a[0], ' ']);
    var path: seq<Word> := [m, m[1..], b];
    assert OneEdit(m, m[1..]);
    assert m[1..][1..] == b[1..];
    NoShorterPath(path);
    assert Near(m, b);
  }
}
