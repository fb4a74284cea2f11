/** Cache coherence, mapping repair and the download schedule, over whole runs. */
module NameResolverRuns {
  import opened Wrappers
  import opened NameResolver

  // ---------------------------------------------------------------- coherence

  datatype Event =
    | Resolve(name: string, now: Time, later: Time, d: Download)
    | SetMapping(name: string, id: int, now: Time)
    | ResolveManually(id: int, user: Option<ApiUser>, now: Time)
    | Redownload(name: string, now: Time, d: Download)
    | Evict(name: string)

  function Next(s: State, e: Event): State {
    match e
    case Resolve(name, now, later, d) => Resolved(s, name, now, later, d).0
    case SetMapping(name, id, now) => Mapped(s, name, id, now)
    case ResolveManually(id, user, now) => if user.Some? then Mapped(s, IrcName(user.value), id, now) else s
    case Redownload(name, now, d) => Redownloaded(s, name, now, d).0
    case Evict(name) => s.(cache := s.cache - {name})
  }

  function Run(s: State, es: seq<Event>): State
    decreases |es|
  {
    if |es| == 0 then s else Run(Next(s, es[0]), es[1..])
  }

  /** A cached id is the stored one, and it is somebody. */
  ghost predicate Coherent(s: State) {
    forall n :: n in s.cache ==> n in s.rows && s.cache[n] == s.rows[n].userid && s.cache[n] != -1
  }

  lemma NextCoherent(s: State, e: Event)
    requires Coherent(s)
    ensures Coherent(Next(s, e))
  {
  }

  /** In every run of the operations, with arbitrary evictions, the cache never disagrees with the table. */
  lemma {:induction false} CacheCoherent(s: State, es: seq<Event>)
    requires Coherent(s)
    ensures Coherent(Run(s, es))
    decreases |es|
  {
    if |es| > 0 {
      NextCoherent(s, es[0]);
      CacheCoherent(Next(s, es[0]), es[1..]);
    }
  }

  // ---------------------------------------------------------------- one lookup

  /** A name that must be asked for and that the API knows is answered with that user, stored and cached. */
  lemma FoundIsResolved(s: State, name: string, now: Time, later: Time, user: ApiUser)
    requires name !in s.cache && Asks(Find(s.rows, name), now) && user.id != -1
    ensures var (s', a) := Resolved(s, name, now, later, Found(user));
      a == Id(user.id) && Holds(s', name, user.id, later) && Find(s'.cache, name) == Some(user.id)
  {
  }

  /** A name that must be asked for and that the API does not know is stored as nobody's and not cached. */
  lemma NotFoundIsNobody(s: State, name: string, now: Time, later: Time)
    requires name !in s.cache && Asks(Find(s.rows, name), now)
    ensures var (s', a) := Resolved(s, name, now, later, NotFound);
      && a == Nobody && s'.cache == s.cache && name in s'.rows
      && s'.rows[name].userid == -1 && s'.rows[name].resolved == later
      && s'.rows[name].firstAttempt == if name in s.rows then s.rows[name].firstAttempt else now
  {
  }

  /** When the API times out a stale mapping to a user still answers, and is cached; any other failure is an error. */
  lemma FailureAnswers(s: State, name: string, now: Time, later: Time, d: Download)
    requires name !in s.cache && Asks(Find(s.rows, name), now) && (d == Timeout || d == Failed)
    ensures var (s', a) := Resolved(s, name, now, later, d);
      && s'.rows == s.rows
      && a == (if d == Timeout && name in s.rows && s.rows[name].userid > 0 then Id(s.rows[name].userid) else Error)
      && s'.cache == if a.Id? then s.cache[name := a.id] else s.cache
  {
    assert name in s.rows ==> s.rows[name := s.rows[name]] == s.rows;
  }

  /** A cached or fresh name is answered without asking, and only the cache can change. */
  lemma KnownIsAnswered(s: State, name: string, now: Time, later: Time, d: Download)
    requires Coherent(s) && (name in s.cache || !Asks(Find(s.rows, name), now))
    ensures name in s.rows
    ensures var (s', a) := Resolved(s, name, now, later, d);
      && s'.rows == s.rows
      && a == if s.rows[name].userid == -1 then Nobody else Id(s.rows[name].userid)
  {
    assert name in s.rows ==> s.rows[name := s.rows[name]] == s.rows;
  }

  /** No lookup touches another name. */
  lemma OthersUntouched(s: State, name: string, now: Time, later: Time, d: Download, other: string)
    requires other != name
    ensures var s' := Resolved(s, name, now, later, d).0;
      Find(s'.rows, other) == Find(s.rows, other) && Find(s'.cache, other) == Find(s.cache, other)
  {
  }

  /**
   * When the API is asked, in milliseconds and after January 7th, 2017: for a name without a row, for a user after
   * 90 days, and for nobody after a day, or after an hour within a day of the first attempt.
   */
  lemma AsksWhen(row: Option<Mapping>, now: Time)
    requires now >= 1483747380000
    ensures Asks(row, now)
      <==> || row == None
           || (row.value.userid > 0 && now - row.value.resolved > 7776000000)
           || (row.value.userid < 0 && now - row.value.resolved > 86400000)
           || (row.value.userid < 0 && now - row.value.resolved > 3600000 && now - row.value.firstAttempt < 86400000)
  {
  }

  /** The age limit was 180 days until a week or so before, and has fallen twelve times as fast as time passed. */
  lemma MaxAgeBefore(now: Time)
    requires now < 1483747380000
    ensures MaxAge(now)
      == if 12 * (1483747380000 - now) >= 7776000000 then 15552000000
         else 7776000000 + 12 * (1483747380000 - now)
  {
  }

  /** The user that a name is found to be is its answer for 90 days, as long as nobody maps it elsewhere. */
  lemma FoundStays(s: State, name: string, now: Time, later: Time, user: ApiUser,
                   es: seq<Event>, t: Time, later': Time, d: Download)
    requires name !in s.cache && Asks(Find(s.rows, name), now) && user.id > 0
    requires forall i :: 0 <= i < |es| ==> LeavesAlone(es[i], name, later + 90 * DAY)
    requires t <= later + 90 * DAY
    ensures Resolved(Run(Resolved(s, name, now, later, Found(user)).0, es), name, t, later', d).1 == Id(user.id)
  {
    var s' := Resolved(s, name, now, later, Found(user)).0;
    FoundIsResolved(s, name, now, later, user);
    RunHolds(s', es, name, user.id, later);
    HoldsResolves(Run(s', es), name, user.id, later, t, later', d);
  }

  // ---------------------------------------------------------------- names

  /** In a chat name each space of the user name is an underscore. */
  lemma IrcNameIs(user: ApiUser)
    ensures |IrcName(user)| == |user.name| && ' ' !in IrcName(user)
    ensures forall i :: 0 <= i < |user.name| ==>
      if user.name[i] == ' ' then IrcName(user)[i] == '_' else IrcName(user)[i] == user.name[i]
  {
  }

  /** A mapping replaces what was known about the name, and the next lookup reads it. */
  lemma MappedIs(s: State, name: string, id: int, now: Time)
    ensures var s' := Mapped(s, name, id, now);
      && name !in s'.cache && name in s'.rows
      && s'.rows[name].userid == id && s'.rows[name].resolved == now
      && forall n :: n != name ==> Find(s'.rows, n) == Find(s.rows, n) && Find(s'.cache, n) == Find(s.cache, n)
  {
  }

  /** What the other events leave behind. */
  lemma EventsMap(s: State, name: string, id: int, user: ApiUser, now: Time)
    ensures Holds(Next(s, SetMapping(name, id, now)), name, id, now)
    ensures Holds(Next(s, ResolveManually(id, Some(user), now)), IrcName(user), id, now)
    ensures Next(s, ResolveManually(id, None, now)) == s
    ensures Holds(Next(s, Redownload(name, now, Found(user))), name, user.id, now)
    ensures Holds(Next(s, Redownload(name, now, NotFound)), name, -1, now)
    ensures Next(s, Redownload(name, now, Timeout)) == s == Next(s, Redownload(name, now, Failed))
    ensures Next(s, Evict(name)) == s.(cache := s.cache - {name})
  {
  }

  /** A nick that resolves to a user of that chat name gets that user, and nothing is mapped. */
  lemma MatchingNick(s: State, nick: string, now: Time, later: Time, d: Download, user: ApiUser,
                     repairAt: Time, d2: Download)
    requires Resolved(s, nick, now, later, d).1.Id? && nick == IrcName(user)
    ensures UserOrThrow(s, nick, now, later, d, Some(user), repairAt, d2)
      == (Resolved(s, nick, now, later, d).0, Some(user))
  {
  }

  /** Nobody, an error, or an id the API does not know is an exception, and nothing is mapped. */
  lemma UnknownNick(s: State, nick: string, now: Time, later: Time, d: Download, known: Option<ApiUser>,
                    repairAt: Time, d2: Download)
    requires !Resolved(s, nick, now, later, d).1.Id? || known == None
    ensures UserOrThrow(s, nick, now, later, d, known, repairAt, d2) == (Resolved(s, nick, now, later, d).0, None)
  {
  }

  /** A repair that finds nobody for the nick throws: the nick is nobody's, the other name is the old user's. */
  lemma RepairWithoutUser(s: State, nick: string, now: Time, later: Time, d: Download, old': ApiUser,
                          repairAt: Time, d2: Download)
    requires Resolved(s, nick, now, later, d).1.Id? && nick != IrcName(old') && !d2.Found?
    ensures var (s', r) := UserOrThrow(s, nick, now, later, d, Some(old'), repairAt, d2);
      && r == None && Holds(s', IrcName(old'), old'.id, repairAt)
      && (d2 == NotFound ==> Holds(s', nick, -1, repairAt))
  {
  }

  // ---------------------------------------------------------------- repair

  /** The name is mapped to the id since `at`, and the cache does not say otherwise. */
  ghost predicate Holds(s: State, name: string, id: int, at: Time) {
    && name in s.rows && s.rows[name].userid == id && s.rows[name].resolved == at
    && (name in s.cache ==> s.cache[name] == id)
  }

  /** An event by the deadline that does not map the name itself. */
  predicate LeavesAlone(e: Event, name: string, deadline: Time) {
    match e
    case Resolve(_, now, _, _) => now <= deadline
    case SetMapping(n, _, _) => n != name
    case ResolveManually(_, user, _) => user.Some? ==> IrcName(user.value) != name
    case Redownload(n, _, _) => n != name
    case Evict(_) => true
  }

  lemma NextHolds(s: State, e: Event, name: string, id: int, at: Time)
    requires Holds(s, name, id, at) && id > 0 && LeavesAlone(e, name, at + 90 * DAY)
    ensures Holds(Next(s, e), name, id, at)
  {
    if e.Resolve? {
      assert MaxAge(e.now) >= 90 * DAY;
    }
  }

  lemma {:induction false} RunHolds(s: State, es: seq<Event>, name: string, id: int, at: Time)
    requires Holds(s, name, id, at) && id > 0
    requires forall i :: 0 <= i < |es| ==> LeavesAlone(es[i], name, at + 90 * DAY)
    ensures Holds(Run(s, es), name, id, at)
    decreases |es|
  {
    if |es| > 0 {
      NextHolds(s, es[0], name, id, at);
      RunHolds(Next(s, es[0]), es[1..], name, id, at);
    }
  }

  /** A name that is mapped resolves to its id for 90 days, whatever asking again would give. */
  lemma HoldsResolves(s: State, name: string, id: int, at: Time, t: Time, later: Time, d: Download)
    requires Holds(s, name, id, at) && id > 0 && t <= at + 90 * DAY
    ensures Resolved(s, name, t, later, d).1 == Id(id)
  {
    assert MaxAge(t) >= 90 * DAY;
  }

  /**
   * Repair: when a nick leads to a user whose own chat name is another one and the API then finds a user for
   * the nick, both names resolve to the right ids for 90 days, after any lookups, evictions and mappings of other
   * names in between, and without asking again.
   */
  lemma RepairHolds(s: State, nick: string, now: Time, later: Time, d: Download, old': ApiUser,
                    repairAt: Time, found: ApiUser, es: seq<Event>, t: Time, later': Time, d': Download)
    requires Resolved(s, nick, now, later, d).1.Id?
    requires nick != IrcName(old')
    requires forall i :: 0 <= i < |es| ==>
      LeavesAlone(es[i], nick, repairAt + 90 * DAY) && LeavesAlone(es[i], IrcName(old'), repairAt + 90 * DAY)
    requires t <= repairAt + 90 * DAY
    requires old'.id > 0 && found.id > 0
    ensures var (s', r) := UserOrThrow(s, nick, now, later, d, Some(old'), repairAt, Found(found));
      var s'' := Run(s', es);
      && r == Some(found)
      && Resolved(s'', nick, t, later', d').1 == Id(found.id)
      && Resolved(s'', IrcName(old'), t, later', d').1 == Id(old'.id)
  {
    var s' := UserOrThrow(s, nick, now, later, d, Some(old'), repairAt, Found(found)).0;
    RunHolds(s', es, nick, found.id, repairAt);
    RunHolds(s', es, IrcName(old'), old'.id, repairAt);
    HoldsResolves(Run(s', es), nick, found.id, repairAt, t, later', d');
    HoldsResolves(Run(s', es), IrcName(old'), old'.id, repairAt, t, later', d');
  }

  // ---------------------------------------------------------------- users: the cutoff

  /** The age limit stays between 90 and 180 days and the cutoff never moves back. */
  lemma CutoffMonotone(t: Time, u: Time)
    requires t <= u
    ensures 90 * DAY <= MaxAge(t) <= 180 * DAY
    ensures t - MaxAge(t) <= u - MaxAge(u)
  {
  }

  /** A mapping to a user, once stale, stays so until it is refreshed. */
  lemma StaleStays(m: Mapping, t: Time, u: Time)
    requires m.userid > 0 && t <= u && Stale(m, t)
    ensures Stale(m, u)
  {
    CutoffMonotone(t, u);
  }

  /**
   * That nobody has a name is not as steady: a stale row stays stale if and only if it is more than a day old or
   * was last asked for before its first attempt.
   */
  lemma StaleNobodyStaysIff(m: Mapping, t: Time)
    requires m.userid < 0 && Stale(m, t)
    ensures (forall u :: u >= t ==> Stale(m, u)) <==> m.resolved < t - DAY || m.firstAttempt > m.resolved
  {
    assert m.resolved >= t - DAY && m.firstAttempt <= m.resolved ==> !Stale(m, m.firstAttempt + DAY);
  }

  /** Such a row: it turns fresh again a day after the first attempt. */
  lemma NegativeStalenessLapses(first: Time)
    ensures var m := Mapping(-1, first + 22 * HOUR, first);
      Stale(m, first + 23 * HOUR + 1) && !Stale(m, first + DAY)
  {
  }

  // ---------------------------------------------------------------- nobody: the schedule

  /** One look at a name that nobody has: when, until when, and whether the download went through. */
  datatype Look = Look(now: Time, later: Time, completes: bool)

  function Outcome(l: Look): Download {
    if l.completes then NotFound else Failed
  }

  predicate Ordered(from: Time, ls: seq<Look>)
    decreases |ls|
  {
    |ls| == 0 || (from <= ls[0].now <= ls[0].later && Ordered(ls[0].later, ls[1..]))
  }

  /** The looks whose downloads were made and completed. */
  function Downloads(row: Option<Mapping>, ls: seq<Look>): seq<Look>
    decreases |ls|
  {
    if |ls| == 0 then []
    else
      var l := ls[0];
      (if Asks(row, l.now) && l.completes then [l] else [])
      + Downloads(LookedUp(row, l.now, l.later, Outcome(l)).0, ls[1..])
  }

  /** Each download starts well after the one before ended: an hour, or a day once the first day is over. */
  predicate Spaced(end: Time, first: Time, ds: seq<Look>)
    decreases |ds|
  {
    |ds| == 0
    || (&& ds[0].now > end + HOUR
        && (ds[0].now >= first + DAY ==> ds[0].now > end + DAY)
        && ds[0].now <= ds[0].later
        && Spaced(ds[0].later, first, ds[1..]))
  }

  lemma {:induction false} DownloadsSpaced(m: Mapping, ls: seq<Look>)
    requires m.userid == -1 && Ordered(m.resolved, ls)
    ensures Spaced(m.resolved, m.firstAttempt, Downloads(Some(m), ls))
    decreases |ls|
  {
    if |ls| > 0 {
      var l := ls[0];
      var row := LookedUp(Some(m), l.now, l.later, Outcome(l)).0;
      if Asks(Some(m), l.now) && l.completes {
        DownloadsSpaced(row.value, ls[1..]);
        assert Downloads(Some(m), ls)[1..] == Downloads(row, ls[1..]);
      } else {
        LaterOrdered(m.resolved, l.later, ls[1..]);
        DownloadsSpaced(m, ls[1..]);
        assert Downloads(Some(m), ls) == Downloads(Some(m), ls[1..]);
      }
    }
  }

  lemma LaterOrdered(from: Time, t: Time, ls: seq<Look>)
    requires from <= t && Ordered(t, ls)
    ensures Ordered(from, ls)
  {
  }

  /** How many downloads start before a deadline. */
  function Before(ds: seq<Look>, deadline: Time): nat {
    if |ds| == 0 then 0 else (if ds[0].now < deadline then 1 else 0) + Before(ds[1..], deadline)
  }

  lemma {:induction false} SpacedCount(end: Time, first: Time, ds: seq<Look>, deadline: Time)
    requires Spaced(end, first, ds)
    ensures Before(ds, deadline) > 0 ==> Before(ds, deadline) * (HOUR + 1) <= deadline - 1 - end
    decreases |ds|
  {
    if |ds| > 0 {
      SpacedCount(ds[0].later, first, ds[1..], deadline);
    }
  }

  /**
   * The retry schedule of a name nobody has: after the first download that completes, downloads are more than
   * an hour apart, at most 24 start within a day of the first attempt, and later ones are more than a day apart.
   */
  lemma RetrySchedule(l: Look, ls: seq<Look>)
    requires l.completes && l.now <= l.later && Ordered(l.later, ls)
    ensures var ds := Downloads(None, [l] + ls);
      && |ds| > 0 && ds[0] == l
      && Spaced(l.later, l.now, ds[1..])
      && Before(ds, l.now + DAY) <= 24
  {
    var m := Mapping(-1, l.later, l.now);
    assert ([l] + ls)[1..] == ls;
    var rest := Downloads(Some(m), ls);
    assert Downloads(None, [l] + ls) == [l] + rest;
    assert ([l] + rest)[1..] == rest;
    DownloadsSpaced(m, ls);
    SpacedCount(l.later, l.now, rest, l.now + DAY);
  }
}
