/** Resolving chat names to user ids: a table of mappings, a cache without expiry, and rules when to ask again. */
module NameResolver {
  import opened Wrappers

  type Time = int

  const HOUR: Time := 60 * 60 * 1000
  const DAY: Time := 24 * HOUR
  /** Some time on January 7th, 2017, in milliseconds. */
  const CHANGEOVER: Time := 1483747380000

  /** A stored mapping; -1 says that nobody has the name. */
  datatype Mapping = Mapping(userid: int, resolved: Time, firstAttempt: Time)

  datatype ApiUser = ApiUser(id: int, name: string)

  /** What asking the API for a user can come to. */
  datatype Download = Found(user: ApiUser) | NotFound | Timeout | Failed

  datatype Answer = Id(id: int) | Nobody | Error

  function Min(x: int, y: int): int {
    if x < y then x else y
  }

  /** How old a mapping to a user may get. */
  function MaxAge(now: Time): Time {
    90 * DAY + if now < CHANGEOVER then Min(90 * DAY, 12 * (CHANGEOVER - now)) else 0
  }

  predicate Stale(m: Mapping, now: Time) {
    || (m.userid > 0 && m.resolved < now - MaxAge(now))
    || (m.userid < 0 && m.resolved < now - DAY)
    || (m.userid < 0 && m.resolved < now - HOUR && m.firstAttempt > now - DAY)
  }

  /** The mapping a download starts from: the stored one, or a new one whose first attempt is now. */
  function Started(row: Option<Mapping>, now: Time): Mapping {
    if row.Some? then row.value else Mapping(0, 0, now)
  }

  predicate Asks(row: Option<Mapping>, now: Time) {
    row.None? || Stale(row.value, now)
  }

  function AnswerOf(userid: int): Answer {
    if userid == -1 then Nobody else Id(userid)
  }

  /** The row after looking a name up at `now`, with a download that ends at `later` if one is made. */
  function LookedUp(row: Option<Mapping>, now: Time, later: Time, d: Download): (Option<Mapping>, Answer) {
    if !Asks(row, now) then (row, AnswerOf(row.value.userid))
    else
      match d
      case Found(user) =>
        (Some(Started(row, now).(userid := user.id, resolved := later)), AnswerOf(user.id))
      case NotFound => (Some(Started(row, now).(userid := -1, resolved := later)), Nobody)
      case Timeout => (row, if row.Some? && row.value.userid > 0 then Id(row.value.userid) else Error)
      case Failed => (row, Error)
  }

  function IrcName(user: ApiUser): string {
    seq(|user.name|, i requires 0 <= i < |user.name| => if user.name[i] == ' ' then '_' else user.name[i])
  }

  /** The table and the cache. */
  datatype State = State(rows: map<string, Mapping>, cache: map<string, int>)

  function Resolved(s: State, name: string, now: Time, later: Time, d: Download): (State, Answer) {
    if name in s.cache then (s, Id(s.cache[name]))
    else
      var (row, a) := LookedUp(Find(s.rows, name), now, later, d);
      var rows := if row.Some? then s.rows[name := row.value] else s.rows;
      (State(rows, if a.Id? then s.cache[name := a.id] else s.cache), a)
  }

  function Mapped(s: State, name: string, id: int, now: Time): State {
    State(s.rows[name := Mapping(id, now, 0)], s.cache - {name})
  }

  class Resolver {
    var rows: map<string, Mapping>
    var cache: map<string, int>

    ghost function Value(): State
      reads this
    {
      State(rows, cache)
    }

    method GetIDByUserName(name: string, now: Time, later: Time, d: Download) returns (a: Answer)
      modifies this`rows
      ensures var (row, a') := LookedUp(Find(old(rows), name), now, later, d);
        a == a' && rows == if row.Some? then old(rows)[name := row.value] else old(rows)
    {
      var mapping: Option<Mapping> := Find(rows, name);
      assert name in rows ==> rows[name := rows[name]] == rows;
      var maxAge := 90 * DAY;
      if now < CHANGEOVER {
        maxAge := maxAge + Min(maxAge, 12 * (CHANGEOVER - now));
      }
      if mapping.None?
         || (mapping.value.userid > 0 && mapping.value.resolved < now - maxAge)
         || (mapping.value.userid < 0 && mapping.value.resolved < now - DAY)
         || (mapping.value.userid < 0 && mapping.value.resolved < now - HOUR
             && mapping.value.firstAttempt > now - DAY) {
        if mapping.None? {
          mapping := Some(Mapping(0, 0, now));
        }
        if d.Timeout? || d.Failed? {
          if d.Timeout? && mapping.value.userid > 0 {
            return Id(mapping.value.userid);
          }
          return Error;
        }
        mapping := Some(mapping.value.(userid := if d.Found? then d.user.id else -1, resolved := later));
        rows := rows[name := mapping.value];
      }
      a := if mapping.value.userid == -1 then Nobody else Id(mapping.value.userid);
    }

    method ResolveIRCName(name: string, now: Time, later: Time, d: Download) returns (a: Answer)
      modifies this
      ensures (Value(), a) == Resolved(old(Value()), name, now, later, d)
    {
      if name in cache {
        return Id(cache[name]);
      }
      a := GetIDByUserName(name, now, later, d);
      if a.Id? {
        cache := cache[name := a.id];
      }
    }

    method SetMapping(name: string, id: int, now: Time)
      modifies this
      ensures Value() == Mapped(old(Value()), name, id, now)
    {
      rows := rows[name := Mapping(id, now, 0)];
      cache := cache - {name};
    }

    /** Maps a user's own name, as the API knows it. */
    method ResolveManually(id: int, user: Option<ApiUser>, now: Time) returns (r: Option<ApiUser>)
      modifies this
      ensures r == user
      ensures Value() == if user.Some? then Mapped(old(Value()), IrcName(user.value), id, now) else old(Value())
    {
      if user.Some? {
        SetMapping(IrcName(user.value), id, now);
      }
      r := user;
    }

    /** Asks the API again for a name; None for an exception. */
    method RedownloadUser(name: string, now: Time, d: Download) returns (r: Option<Option<ApiUser>>)
      modifies this
      ensures (Value(), r) == Redownloaded(old(Value()), name, now, d)
    {
      if d.Timeout? || d.Failed? {
        return None;
      }
      if d.NotFound? {
        SetMapping(name, -1, now);
        r := Some(None);
      } else {
        SetMapping(name, d.user.id, now);
        r := Some(Some(d.user));
      }
    }

    /**
     * The user behind a nick, or None for an exception. A user whose own chat name is another one had the
     * wrong nick: that name is mapped, and the nick is asked for anew.
     */
    method GetUserOrThrow(nick: string, now: Time, later: Time, d: Download, known: Option<ApiUser>,
                          repairAt: Time, d2: Download) returns (r: Option<ApiUser>)
      modifies this
      ensures (Value(), r) == UserOrThrow(old(Value()), nick, now, later, d, known, repairAt, d2)
    {
      var userId := ResolveIRCName(nick, now, later, d);
      if userId.Id? {
        var user := known;
        if user.Some? {
          if nick != IrcName(user.value) {
            SetMapping(IrcName(user.value), user.value.id, repairAt);
            var again := RedownloadUser(nick, repairAt, d2);
            if again.None? {
              return None;
            }
            user := again.value;
          }
        }
        if user.Some? {
          return user;
        }
      }
      r := None;
    }
  }

  function Redownloaded(s: State, name: string, now: Time, d: Download): (State, Option<Option<ApiUser>>) {
    match d
    case Found(user) => (Mapped(s, name, user.id, now), Some(Some(user)))
    case NotFound => (Mapped(s, name, -1, now), Some(None))
    case Timeout => (s, None)
    case Failed => (s, None)
  }

  function UserOrThrow(s: State, nick: string, now: Time, later: Time, d: Download, known: Option<ApiUser>,
                       repairAt: Time, d2: Download): (State, Option<ApiUser>) {
    var (s1, a) := Resolved(s, nick, now, later, d);
    if !a.Id? then (s1, None)
    else if known.None? || nick == IrcName(known.value) then (s1, known)
    else
      var s2 := Mapped(s1, IrcName(known.value), known.value.id, repairAt);
      var (s3, r) := Redownloaded(s2, nick, repairAt, d2);
      (s3, if r.Some? then r.value else None)
  }
}
