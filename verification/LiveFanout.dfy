/** The live feed: every event goes to every connection's own bounded channel. */
module LiveFanout {
  import opened Wrappers

  const CHANNEL_CAPACITY := 100

  type Client = nat

  datatype RabbitMessage =
    | Received(eventId: nat, ircUserName: string)
    | Sent(eventId: nat, ircUserName: string, ping: Option<int>)
    | ReceivedDetails(eventId: nat, text: string)

  datatype FrontendMessage =
    | UserReceived(eventId: nat, user: int)
    | UserSent(eventId: nat, user: int, ping: Option<int>)
    | MessageDetails(eventId: nat, message: string)

  /** What a client is sent: an event or the answer to its ping. */
  datatype Message = Event(message: FrontendMessage) | Pong

  /** Hides a user name behind a number that depends on the client's salt. */
  type Anonymizer = (string, nat) -> int

  function Convert(anonymize: Anonymizer, salt: nat, m: RabbitMessage): FrontendMessage {
    match m
    case Received(id, name) => UserReceived(id, anonymize(name, salt))
    case Sent(id, name, ping) => UserSent(id, anonymize(name, salt), ping)
    case ReceivedDetails(id, text) => MessageDetails(id, text)
  }

  /** A client's channel: what waits, and what has been taken out and forwarded to the client. */
  datatype Channel = Channel(salt: nat, queue: seq<Message>, delivered: seq<Message>, closed: bool)

  predicate Accepts(c: Channel) {
    !c.closed && |c.queue| < CHANNEL_CAPACITY
  }

  /** A send that does not wait: a full channel misses the message, a closed one reports it. */
  function TrySend(c: Channel, m: Message): Channel {
    if Accepts(c) then c.(queue := c.queue + [m]) else c
  }

  /** All channels ever opened, and the clients events are sent to. */
  datatype State = State(channels: map<Client, Channel>, connections: seq<Client>)

  predicate Inv(s: State) {
    && (forall c :: c in s.connections ==> c in s.channels)
    && (forall i, j :: 0 <= i < j < |s.connections| ==> s.connections[i] != s.connections[j])
    && (forall c :: c in s.channels ==> |s.channels[c].queue| <= CHANNEL_CAPACITY)
    && (forall c :: c in s.channels && !s.channels[c].closed ==> c in s.connections)
  }

  /** The connections that are not closed, in order. */
  function Open(channels: map<Client, Channel>, cs: seq<Client>): seq<Client> {
    if |cs| == 0 then []
    else (if cs[0] in channels && channels[cs[0]].closed then [] else [cs[0]]) + Open(channels, cs[1..])
  }

  /** The channels after an event was offered to some clients. */
  function Offered(anonymize: Anonymizer, channels: map<Client, Channel>, to: seq<Client>, m: RabbitMessage)
    : map<Client, Channel>
  {
    map c | c in channels ::
      if c in to then TrySend(channels[c], Event(Convert(anonymize, channels[c].salt, m))) else channels[c]
  }

  function Published(anonymize: Anonymizer, s: State, m: RabbitMessage): State {
    State(Offered(anonymize, s.channels, s.connections, m), Open(s.channels, s.connections))
  }

  lemma OfferNext(anonymize: Anonymizer, channels: map<Client, Channel>, cs: seq<Client>, i: nat, m: RabbitMessage)
    requires i < |cs| && cs[i] in channels
    requires forall k, l :: 0 <= k < l < |cs| ==> cs[k] != cs[l]
    ensures var before := Offered(anonymize, channels, cs[..i], m);
      && before[cs[i]] == channels[cs[i]]
      && Offered(anonymize, channels, cs[..i + 1], m)
         == before[cs[i] := TrySend(channels[cs[i]], Event(Convert(anonymize, channels[cs[i]].salt, m)))]
  {
    assert cs[..i + 1] == cs[..i] + [cs[i]];
    assert cs[i] !in cs[..i];
  }

  lemma OpenNext(channels: map<Client, Channel>, cs: seq<Client>, i: nat, kept: seq<Client>, keep: bool)
    requires i < |cs| && cs[i] in channels && keep == !channels[cs[i]].closed
    requires Open(channels, cs) == kept + Open(channels, cs[i..])
    ensures Open(channels, cs) == kept + (if keep then [cs[i]] else []) + Open(channels, cs[i + 1..])
  {
    assert cs[i..][1..] == cs[i + 1..];
    Assoc(kept, if keep then [cs[i]] else [], Open(channels, cs[i + 1..]));
  }

  /**
   * What a client gets of an event: its id and text or ping as they are, and the user's name hidden with the client's
   * own salt.
   */
  lemma ConvertIs(anonymize: Anonymizer, salt: nat, id: nat, name: string, text: string, ping: Option<int>)
    ensures Convert(anonymize, salt, Received(id, name)) == UserReceived(id, anonymize(name, salt))
    ensures Convert(anonymize, salt, Sent(id, name, ping)) == UserSent(id, anonymize(name, salt), ping)
    ensures Convert(anonymize, salt, ReceivedDetails(id, text)) == MessageDetails(id, text)
  {
  }

  /** An event reaches a connected client's queue while fewer than 100 messages wait there, and is missed otherwise. */
  lemma EventReaches(anonymize: Anonymizer, s: State, m: RabbitMessage, c: Client)
    requires Inv(s) && c in s.channels
    ensures var before, after := s.channels[c], Published(anonymize, s, m).channels[c];
      after == if !before.closed && |before.queue| < 100
               then before.(queue := before.queue + [Event(Convert(anonymize, before.salt, m))])
               else before
  {
  }

  class Hub {
    var channels: map<Client, Channel>
    var connections: seq<Client>

    ghost function Value(): State
      reads this
    {
      State(channels, connections)
    }

    constructor ()
      ensures Value() == State(map[], [])
    {
      channels, connections := map[], [];
    }

    /** Registers a new client's channel. */
    method Connect(c: Client, salt: nat)
      requires c !in channels
      modifies this
      ensures Value() == State(old(channels)[c := Channel(salt, [], [], false)], old(connections) + [c])
    {
      channels := channels[c := Channel(salt, [], [], false)];
      connections := connections + [c];
    }

    /** Offers an event to one client without waiting; false if its channel is closed. */
    method SendTo(anonymize: Anonymizer, c: Client, m: RabbitMessage) returns (keep: bool)
      requires c in channels
      modifies this`channels
      ensures channels == old(channels)[c :=
        TrySend(old(channels)[c], Event(Convert(anonymize, old(channels)[c].salt, m)))]
      ensures keep == !old(channels)[c].closed
    {
      var channel := channels[c];
      if !channel.closed && |channel.queue| < CHANNEL_CAPACITY {
        channels := channels[c := channel.(queue := channel.queue + [Event(Convert(anonymize, channel.salt, m))])];
      } else {
        assert channels[c := channel] == channels;
      }
      keep := !channel.closed;
    }

    /** Offers an event to every connection, dropping the closed ones on the way. */
    method ConsumeSingle(anonymize: Anonymizer, m: RabbitMessage)
      requires Inv(Value())
      modifies this
      ensures Value() == Published(anonymize, old(Value()), m)
    {
      ghost var all := channels;
      var kept: seq<Client> := [];
      assert connections[0..] == connections;
      for i := 0 to |connections|
        invariant connections == old(connections)
        invariant Open(all, connections) == kept + Open(all, connections[i..])
        invariant channels == Offered(anonymize, all, connections[..i], m)
      {
        var c := connections[i];
        OfferNext(anonymize, all, connections, i, m);
        var keep := SendTo(anonymize, c, m);
        OpenNext(all, connections, i, kept, keep);
        kept := kept + if keep then [c] else [];
      }
      assert connections[..|connections|] == connections && connections[|connections|..] == [];
      assert kept == Open(all, connections);
      connections := kept;
    }
  }

  // ---------------------------------------------------------------- runs

  datatype Step =
    | Publish(message: RabbitMessage)
    | Connect(client: Client, salt: nat)
    | Ping(client: Client)
    | Drain(client: Client)
    | Close(client: Client)

  /** A pong waits for room; draining hands the oldest message on; after closing nothing is handed on. */
  predicate Enabled(s: State, e: Step) {
    match e
    case Publish(_) => true
    case Connect(c, _) => c !in s.channels
    case Ping(c) => c in s.channels && (Accepts(s.channels[c]) || s.channels[c].closed)
    case Drain(c) => c in s.channels && !s.channels[c].closed && |s.channels[c].queue| > 0
    case Close(c) => c in s.channels
  }

  function Next(anonymize: Anonymizer, s: State, e: Step): State
    requires Enabled(s, e)
  {
    match e
    case Publish(m) => Published(anonymize, s, m)
    case Connect(c, salt) => State(s.channels[c := Channel(salt, [], [], false)], s.connections + [c])
    case Ping(c) => s.(channels := s.channels[c := TrySend(s.channels[c], Pong)])
    case Drain(c) =>
      var q := s.channels[c].queue;
      s.(channels := s.channels[c := s.channels[c].(queue := q[1..], delivered := s.channels[c].delivered + [q[0]])])
    case Close(c) => s.(channels := s.channels[c := s.channels[c].(closed := true)])
  }

  /** The final state; steps that are not possible are skipped. */
  function Run(anonymize: Anonymizer, s: State, es: seq<Step>): State
    decreases |es|
  {
    if |es| == 0 then s
    else Run(anonymize, if Enabled(s, es[0]) then Next(anonymize, s, es[0]) else s, es[1..])
  }

  lemma {:induction false} OpenMembers(channels: map<Client, Channel>, cs: seq<Client>)
    ensures forall c :: c in Open(channels, cs) <==> c in cs && !(c in channels && channels[c].closed)
    ensures (forall i, j :: 0 <= i < j < |cs| ==> cs[i] != cs[j]) ==>
      forall i, j :: 0 <= i < j < |Open(channels, cs)| ==> Open(channels, cs)[i] != Open(channels, cs)[j]
  {
    if |cs| > 0 {
      OpenMembers(channels, cs[1..]);
    }
  }

  lemma NextKeeps(anonymize: Anonymizer, s: State, e: Step)
    requires Inv(s) && Enabled(s, e)
    ensures Inv(Next(anonymize, s, e))
  {
    if e.Publish? {
      OpenMembers(s.channels, s.connections);
    }
  }

  /** In every run no channel holds more than 100 messages, and clients stay connected until they close. */
  lemma {:induction false} RunKeeps(anonymize: Anonymizer, s: State, es: seq<Step>)
    requires Inv(s)
    ensures Inv(Run(anonymize, s, es))
    decreases |es|
  {
    if |es| > 0 {
      var s' := if Enabled(s, es[0]) then Next(anonymize, s, es[0]) else s;
      if Enabled(s, es[0]) {
        NextKeeps(anonymize, s, es[0]);
      }
      RunKeeps(anonymize, s', es[1..]);
    }
  }

  // ---------------------------------------------------------------- isolation

  predicate Concerns(e: Step, c: Client) {
    e.Publish? || e.client == c
  }

  /** The run without what the other clients do. */
  function Own(es: seq<Step>, c: Client): seq<Step> {
    if |es| == 0 then [] else (if Concerns(es[0], c) then [es[0]] else []) + Own(es[1..], c)
  }

  predicate Agree(s: State, t: State, c: Client) {
    Find(s.channels, c) == Find(t.channels, c)
  }

  lemma StepIsolated(anonymize: Anonymizer, s: State, t: State, e: Step, c: Client)
    requires Inv(s) && Inv(t) && Agree(s, t, c)
    ensures Enabled(s, e) && Concerns(e, c) ==>
      Enabled(t, e) && Agree(Next(anonymize, s, e), Next(anonymize, t, e), c)
    ensures Enabled(s, e) && !Concerns(e, c) ==> Agree(Next(anonymize, s, e), t, c)
    ensures !Enabled(s, e) && Concerns(e, c) ==> !Enabled(t, e)
  {
    assert c in s.channels <==> c in t.channels;
  }

  /** What a client gets does not depend on the other clients: removing all they do changes nothing for it. */
  lemma {:induction false} ClientsAreIsolated(anonymize: Anonymizer, s: State, t: State, es: seq<Step>, c: Client)
    requires Inv(s) && Inv(t) && Agree(s, t, c)
    ensures Agree(Run(anonymize, s, es), Run(anonymize, t, Own(es, c)), c)
    decreases |es|
  {
    if |es| > 0 {
      var e, rest := es[0], Own(es[1..], c);
      StepIsolated(anonymize, s, t, e, c);
      var s' := if Enabled(s, e) then Next(anonymize, s, e) else s;
      if Enabled(s, e) {
        NextKeeps(anonymize, s, e);
      }
      if Concerns(e, c) {
        var t' := if Enabled(t, e) then Next(anonymize, t, e) else t;
        if Enabled(t, e) {
          NextKeeps(anonymize, t, e);
        }
        assert ([e] + rest)[0] == e && ([e] + rest)[1..] == rest;
        ClientsAreIsolated(anonymize, s', t', es[1..], c);
      } else {
        assert [] + rest == rest;
        ClientsAreIsolated(anonymize, s', t, es[1..], c);
      }
    }
  }

  // ---------------------------------------------------------------- what a client is sent

  /** The events among messages. */
  function Events(ms: seq<Message>): seq<FrontendMessage> {
    if |ms| == 0 then [] else EventOf(ms[0]) + Events(ms[1..])
  }

  function EventOf(m: Message): seq<FrontendMessage> {
    if m.Event? then [m.message] else []
  }

  lemma {:induction false} EventsAppend(a: seq<Message>, m: Message)
    ensures Events(a + [m]) == Events(a) + EventOf(m)
  {
    var r := a + [m];
    if |a| == 0 {
      assert r[1..] == [];
    } else {
      assert r[1..] == a[1..] + [m];
      EventsAppend(a[1..], m);
      Assoc(EventOf(a[0]), Events(a[1..]), EventOf(m));
    }
  }

  /** The event of a step as the client's channel takes it. */
  function AcceptedNow(anonymize: Anonymizer, s: State, e: Step, c: Client): seq<FrontendMessage> {
    if e.Publish? && c in s.channels && Accepts(s.channels[c])
    then [Convert(anonymize, s.channels[c].salt, e.message)] else []
  }

  /** The events published while the client's channel is open and has room, in order, converted for it. */
  function Accepted(anonymize: Anonymizer, s: State, es: seq<Step>, c: Client): seq<FrontendMessage>
    decreases |es|
  {
    if |es| == 0 then []
    else
      var e := es[0];
      AcceptedNow(anonymize, s, e, c)
      + Accepted(anonymize, if Enabled(s, e) then Next(anonymize, s, e) else s, es[1..], c)
  }

  /** All events that went into a channel: those delivered, then those that wait (or were lost at closing). */
  function Stream(s: State, c: Client): seq<FrontendMessage> {
    if c in s.channels then Events(s.channels[c].delivered + s.channels[c].queue) else []
  }

  lemma StepStream(anonymize: Anonymizer, s: State, e: Step, c: Client)
    requires Inv(s) && Enabled(s, e)
    ensures Stream(Next(anonymize, s, e), c) == Stream(s, c) + AcceptedNow(anonymize, s, e, c)
  {
    var s' := Next(anonymize, s, e);
    if c in s.channels {
      var ch, ch' := s.channels[c], s'.channels[c];
      if e.Publish? && Accepts(ch) {
        var m := Event(Convert(anonymize, ch.salt, e.message));
        assert ch'.delivered + ch'.queue == (ch.delivered + ch.queue) + [m];
        EventsAppend(ch.delivered + ch.queue, m);
      } else if e.Ping? && e.client == c && Accepts(ch) {
        assert ch'.delivered + ch'.queue == (ch.delivered + ch.queue) + [Pong];
        EventsAppend(ch.delivered + ch.queue, Pong);
      } else {
        assert ch'.delivered + ch'.queue == ch.delivered + ch.queue;
      }
    }
  }

  /**
   * A client's stream is exactly the events published while its own channel was open and had room, in order
   * and converted with its own salt: nothing else is ever missed, reordered or added.
   */
  lemma {:induction false} StreamIsAccepted(anonymize: Anonymizer, s: State, es: seq<Step>, c: Client)
    requires Inv(s)
    ensures Stream(Run(anonymize, s, es), c) == Stream(s, c) + Accepted(anonymize, s, es, c)
    decreases |es|
  {
    if |es| > 0 {
      var e := es[0];
      var s' := if Enabled(s, e) then Next(anonymize, s, e) else s;
      if Enabled(s, e) {
        NextKeeps(anonymize, s, e);
        StepStream(anonymize, s, e, c);
      }
      StreamIsAccepted(anonymize, s', es[1..], c);
      Assoc(Stream(s, c), AcceptedNow(anonymize, s, e, c), Accepted(anonymize, s', es[1..], c));
    }
  }

  // ---------------------------------------------------------------- salts, pings and draining

  /** The salt a client connects with first, unless it is connected already. */
  function SaltOf(s: State, es: seq<Step>, c: Client): Option<nat>
    decreases |es|
  {
    if c in s.channels then Some(s.channels[c].salt)
    else if |es| == 0 then None
    else if es[0].Connect? && es[0].client == c then Some(es[0].salt)
    else SaltOf(s, es[1..], c)
  }

  /** In every run a client keeps the salt it connected with. */
  lemma {:induction false} SaltIsOwn(anonymize: Anonymizer, s: State, es: seq<Step>, c: Client)
    ensures var s' := Run(anonymize, s, es);
      if c in s'.channels then SaltOf(s, es, c) == Some(s'.channels[c].salt) else SaltOf(s, es, c) == None
    decreases |es|
  {
    if |es| > 0 {
      var e := es[0];
      var s' := if Enabled(s, e) then Next(anonymize, s, e) else s;
      SaltIsOwn(anonymize, s', es[1..], c);
      SaltStep(anonymize, s, e, es[1..], c);
    }
  }

  lemma {:induction false} SaltStep(anonymize: Anonymizer, s: State, e: Step, es: seq<Step>, c: Client)
    ensures var s' := if Enabled(s, e) then Next(anonymize, s, e) else s;
      SaltOf(s', es, c) == if c !in s.channels && e.Connect? && e.client == c then Some(e.salt) else SaltOf(s, es, c)
    decreases |es|
  {
    var s' := if Enabled(s, e) then Next(anonymize, s, e) else s;
    if c !in s.channels && c !in s'.channels && |es| > 0 {
      SaltStep(anonymize, s, e, es[1..], c);
    }
  }

  /** The messages of a step, events and pongs, as the client's channel takes them. */
  function TakenNow(anonymize: Anonymizer, s: State, e: Step, c: Client): seq<Message> {
    if c !in s.channels || !Accepts(s.channels[c]) then []
    else if e.Publish? then [Event(Convert(anonymize, s.channels[c].salt, e.message))]
    else if e == Ping(c) then [Pong]
    else []
  }

  function Taken(anonymize: Anonymizer, s: State, es: seq<Step>, c: Client): seq<Message>
    decreases |es|
  {
    if |es| == 0 then []
    else
      TakenNow(anonymize, s, es[0], c)
      + Taken(anonymize, if Enabled(s, es[0]) then Next(anonymize, s, es[0]) else s, es[1..], c)
  }

  /** What a client was sent and still waits for it. */
  function AllOf(s: State, c: Client): seq<Message> {
    if c in s.channels then s.channels[c].delivered + s.channels[c].queue else []
  }

  lemma StepAll(anonymize: Anonymizer, s: State, e: Step, c: Client)
    requires Inv(s) && Enabled(s, e)
    ensures AllOf(Next(anonymize, s, e), c) == AllOf(s, c) + TakenNow(anonymize, s, e, c)
  {
    if c in s.channels {
      var ch := s.channels[c];
      assert e == Drain(c) ==> ch.delivered + [ch.queue[0]] + ch.queue[1..] == ch.delivered + ch.queue;
      assert forall m: Message :: ch.delivered + (ch.queue + [m]) == ch.delivered + ch.queue + [m];
    }
  }

  /** Events and pongs reach a client in one order, that of the events published and the pings answered. */
  lemma {:induction false} AllIsTaken(anonymize: Anonymizer, s: State, es: seq<Step>, c: Client)
    requires Inv(s)
    ensures AllOf(Run(anonymize, s, es), c) == AllOf(s, c) + Taken(anonymize, s, es, c)
    decreases |es|
  {
    if |es| > 0 {
      var e := es[0];
      var s' := if Enabled(s, e) then Next(anonymize, s, e) else s;
      if Enabled(s, e) {
        NextKeeps(anonymize, s, e);
        StepAll(anonymize, s, e, c);
      } else {
        NotTaken(anonymize, s, e, c);
      }
      AllIsTaken(anonymize, s', es[1..], c);
      Assoc(AllOf(s, c), TakenNow(anonymize, s, e, c), Taken(anonymize, s', es[1..], c));
    }
  }

  lemma NotTaken(anonymize: Anonymizer, s: State, e: Step, c: Client)
    requires !Enabled(s, e)
    ensures TakenNow(anonymize, s, e, c) == []
  {
  }

  function Drains(c: Client, n: nat): seq<Step> {
    seq(n, _ => Drain(c))
  }

  /** An open client gets all that waits for it, in order. */
  lemma {:induction false} DrainedInOrder(anonymize: Anonymizer, s: State, c: Client)
    requires c in s.channels && !s.channels[c].closed
    ensures var before, s' := s.channels[c], Run(anonymize, s, Drains(c, |s.channels[c].queue|));
      c in s'.channels && s'.channels[c].queue == []
      && s'.channels[c].delivered == before.delivered + before.queue
    decreases |s.channels[c].queue|
  {
    var ch := s.channels[c];
    if |ch.queue| > 0 {
      var s' := Next(anonymize, s, Drain(c));
      assert Drains(c, |ch.queue|)[1..] == Drains(c, |ch.queue| - 1);
      DrainedInOrder(anonymize, s', c);
      assert ch.delivered + [ch.queue[0]] + ch.queue[1..] == ch.delivered + ch.queue;
    }
  }
}
