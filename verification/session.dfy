/**
 * One websocket connection on the server (`handle_socket`).
 *
 * The session's `tokio::select!` loop is modelled as a deterministic step
 * function: each step consumes the one event that won the race and yields
 * the new state and the effects it had, in order. The state is the display
 * name plus whether the loop is still running.
 */
module Session {

  import opened Wrappers
  import opened ChatMessages
  import Json

  const NamePrefix := "Anonymous User "
  const NameLetters := "0123456789abcdef"
  const SuffixLength := 4

  /** Close code 1006 (abnormal closure) of section 7.4.1 of RFC 6455. */
  const AbnormalClose := 1006
  const LagCloseReason := "Error while retreiving other members' messages (maybe server going down?)"

  /** The only reply a client gets for trying to send a system message. */
  const ForgedReply := SystemMessage("Cannot send system messages")

  datatype State = State(name: string, alive: bool)

  datatype Event =
      /** A text frame from the client. */
    | ClientText(data: string)
      /** Any other frame from the client: binary, ping, pong or close. */
    | ClientOther
      /** The client stream ended or reported an error. */
    | ClientGone
      /** A message read from this session's broadcast receiver. */
    | Broadcast(msg: ChatMessage)
      /** The broadcast receiver lagged behind or was closed. */
    | BroadcastError

  /** Whether the channel operations attempted in a step succeed. */
  datatype Io = Io(relayOpen: bool, clientWritable: bool)

  datatype Frame =
      /** A text frame holding `serde_json::to_string(msg)`. */
    | Envelope(msg: ChatMessage)
    | Close(code: nat, reason: string)

  /** The bytes on the wire of an envelope frame. */
  function WireText(f: Frame): string
    requires f.Envelope?
  {
    Json.Encode(f.msg)
  }

  /** An observable effect of a step. */
  datatype Action =
      /** A message handed to the relay's inbound channel. */
    | Post(msg: ChatMessage)
      /** A frame delivered to this client. */
    | Send(frame: Frame)
      /** The error line printed when an inbound send fails. */
    | LogError
      /** `handle_socket` returns. */
    | Terminate

  /**
   * The default display name: the prefix followed by four letters, the
   * i-th chosen by the random index `picks[i]` into the hex alphabet.
   */
  method GenerateName(picks: seq<nat>) returns (name: string)
    requires |picks| == SuffixLength
    requires forall i :: 0 <= i < |picks| ==> picks[i] < |NameLetters|
    ensures |name| == |NamePrefix| + SuffixLength
    ensures name[..|NamePrefix|] == NamePrefix
    ensures forall i :: 0 <= i < SuffixLength ==> name[|NamePrefix| + i] == NameLetters[picks[i]]
    ensures forall i :: |NamePrefix| <= i < |name| ==> name[i] in NameLetters
  {
    name := NamePrefix;
    var k := 0;
    while k < SuffixLength
      invariant 0 <= k <= SuffixLength
      invariant |name| == |NamePrefix| + k
      invariant name[..|NamePrefix|] == NamePrefix
      invariant forall i :: 0 <= i < k ==> name[|NamePrefix| + i] == NameLetters[picks[i]]
      invariant forall i :: |NamePrefix| <= i < |name| ==> name[i] in NameLetters
    {
      name := name + [NameLetters[picks[k]]];
      k := k + 1;
    }
  }

  /** Whether handling `e` ends the session. */
  predicate EndsSession(e: Event, io: Io) {
    e.ClientGone? || e.BroadcastError? || (e.Broadcast? && !io.clientWritable)
  }

  /** An inbound send: its effect on success, the error line on failure. */
  function Attempt(effect: Action, ok: bool): seq<Action> {
    if ok then [effect] else [LogError]
  }

  /** The departure announcement with the current name, then the return. */
  function Depart(name: string): seq<Action> {
    [Post(Disconnected(name)), Terminate]
  }

  /** A text frame that parses as a system message, which only the server may send. */
  predicate IsForgery(e: Event) {
    e.ClientText? && Json.Decode(e.data).Some? && Json.Decode(e.data).value.SystemMessage?
  }

  /** `process_incoming_msg`: one client text frame; yields the new name. */
  function ProcessText(name: string, data: string, io: Io): (r: (string, seq<Action>))
    ensures |r.1| == 1 && r.1[0] != Terminate
    ensures r.0 != name ==> Json.Decode(data) == Some(ConnectionUsername(r.0))
    ensures r.1[0].Post? ==> r.1[0].msg.TextMessage? || r.1[0].msg == Connected(r.0)
    ensures IsForgery(ClientText(data)) ==> r.0 == name && !r.1[0].Post?
  {
    match Json.Decode(data)
    case Some(TextMessage(u, c, sig)) => (name, Attempt(Post(TextMessage(u, c, sig)), io.relayOpen))
    case Some(SystemMessage(_)) => (name, Attempt(Send(Envelope(ForgedReply)), io.clientWritable))
    case Some(ConnectionUsername(u)) => (u, Attempt(Post(Connected(u)), io.relayOpen))
    case None => (name, Attempt(Post(TextMessage(name, data, None)), io.relayOpen))
  }

  /**
   * One iteration of the loop. The departure sends unwrap their result, so
   * a step that ends the session needs the relay to be open.
   */
  function Step(s: State, e: Event, io: Io): (r: (State, seq<Action>))
    requires s.alive && EndsSession(e, io) ==> io.relayOpen
    ensures !s.alive ==> r == (s, [])
    ensures s.alive ==> (r.0.alive <==> !EndsSession(e, io))
    ensures Terminate in r.1 <==> s.alive && !r.0.alive
    ensures forall i :: 0 <= i < |r.1| - 1 ==> r.1[i] != Terminate
    ensures r.0.name != s.name ==>
              e.ClientText? && Json.Decode(e.data) == Some(ConnectionUsername(r.0.name))
  {
    if !s.alive then (s, [])
    else
      match e
      case ClientText(data) =>
        var (name', effects) := ProcessText(s.name, data, io);
        (State(name', true), effects)
      case ClientOther => (s, [])
      case ClientGone => (State(s.name, false), Depart(s.name))
      case Broadcast(msg) =>
        if io.clientWritable then (s, [Send(Envelope(msg))])
        else (State(s.name, false), Depart(s.name))
      case BroadcastError =>
        var close := if io.clientWritable then [Send(Close(AbnormalClose, LagCloseReason))] else [];
        (State(s.name, false), close + Depart(s.name))
  }

  predicate RelayUpWhenEnding(events: seq<Event>, ios: seq<Io>)
    requires |ios| == |events|
  {
    forall i :: 0 <= i < |events| && EndsSession(events[i], ios[i]) ==> ios[i].relayOpen
  }

  /** The loop run over a sequence of events; the effects concatenated. */
  function Run(s: State, events: seq<Event>, ios: seq<Io>): (r: (State, seq<Action>))
    requires |ios| == |events| && RelayUpWhenEnding(events, ios)
    decreases |events|
  {
    if events == [] then (s, [])
    else
      var n := |events| - 1;
      assert RelayUpWhenEnding(events[..n], ios[..n]);
      var (s1, a1) := Run(s, events[..n], ios[..n]);
      var (s2, a2) := Step(s1, events[n], ios[n]);
      (s2, a1 + a2)
  }

  // ----------------------------------------------------------- inbound path

  /** A frame that parses as a text message is posted unchanged. */
  lemma ForwardsTextMessage(s: State, data: string, io: Io)
    requires s.alive && io.relayOpen
    requires Json.Decode(data).Some? && Json.Decode(data).value.TextMessage?
    ensures Step(s, ClientText(data), io) == (s, [Post(Json.Decode(data).value)])
  {
  }

  /** A frame that does not parse is posted as plain text under the current name. */
  lemma FallsBackToPlainText(s: State, data: string, io: Io)
    requires s.alive && io.relayOpen && Json.Decode(data).None?
    ensures Step(s, ClientText(data), io) == (s, [Post(TextMessage(s.name, data, None))])
  {
  }

  /** A client's system message never reaches the relay; only that client is told. */
  lemma RejectsForgedSystemMessage(s: State, data: string, io: Io)
    requires s.alive
    requires Json.Decode(data).Some? && Json.Decode(data).value.SystemMessage?
    ensures var r := Step(s, ClientText(data), io);
      && r.0 == s
      && (forall a :: a in r.1 ==> !a.Post?)
      && r.1 == (if io.clientWritable then [Send(Envelope(ForgedReply))] else [LogError])
  {
  }

  /** A frame claiming a username renames the session and is announced, not forwarded. */
  lemma RenameAnnounces(s: State, data: string, u: string, io: Io)
    requires s.alive && io.relayOpen
    requires Json.Decode(data) == Some(ConnectionUsername(u))
    ensures Step(s, ClientText(data), io) == (State(u, true), [Post(Connected(u))])
  {
  }

  /** Non-text frames change nothing and do nothing. */
  lemma IgnoresOtherFrames(s: State, io: Io)
    ensures Step(s, ClientOther, io) == (s, [])
  {
  }

  /** A failed relay send while handling a text frame is logged; the loop goes on. */
  lemma FailedPostIsLogged(s: State, data: string, io: Io)
    requires s.alive && !io.relayOpen
    requires Json.Decode(data).None? || !Json.Decode(data).value.SystemMessage?
    ensures Step(s, ClientText(data), io).0.alive
    ensures Step(s, ClientText(data), io).1 == [LogError]
  {
  }

  // ------------------------------------------------- outbound and departure

  /** A broadcast message reaches the client serialised and unchanged. */
  lemma RelaysBroadcast(s: State, msg: ChatMessage, io: Io)
    requires s.alive && io.clientWritable
    ensures Step(s, Broadcast(msg), io) == (s, [Send(Envelope(msg))])
    ensures Json.Decode(WireText(Envelope(msg))) == Some(msg)
  {
    BroadcastStep(s, msg, io);
    EnvelopeDecodes(msg);
  }

  lemma BroadcastStep(s: State, msg: ChatMessage, io: Io)
    requires s.alive && io.clientWritable
    ensures Step(s, Broadcast(msg), io) == (s, [Send(Envelope(msg))])
  {
  }

  lemma EnvelopeDecodes(msg: ChatMessage)
    ensures Json.Decode(WireText(Envelope(msg))) == Some(msg)
  {
    Json.RoundTrip(msg);
  }

  /**
   * Every way the session ends posts exactly one departure with the current
   * name, as the last thing before returning; a lagging receiver first
   * gets an abnormal close frame.
   */
  lemma DepartureAnnounced(s: State, e: Event, io: Io)
    requires s.alive && EndsSession(e, io) && io.relayOpen
    ensures var r := Step(s, e, io);
      && r.0 == State(s.name, false)
      && r.1 == (if e.BroadcastError? && io.clientWritable
                 then [Send(Close(AbnormalClose, LagCloseReason))] else [])
                + [Post(Disconnected(s.name)), Terminate]
  {
  }

  // ------------------------------------------------------------ whole runs

  /** The name a session ends up with: the last username claimed, if any. */
  function LatestName(name: string, events: seq<Event>): string
    decreases |events|
  {
    if events == [] then name
    else
      var e := events[|events| - 1];
      if e.ClientText? && Json.Decode(e.data).Some? && Json.Decode(e.data).value.ConnectionUsername?
      then Json.Decode(e.data).value.username
      else LatestName(name, events[..|events| - 1])
  }

  /** While the session lives, its name is the last username the client claimed. */
  lemma {:induction false} NameIsLatestClaim(s: State, events: seq<Event>, ios: seq<Io>)
    requires s.alive && |ios| == |events|
    requires forall i :: 0 <= i < |events| ==> !EndsSession(events[i], ios[i])
    ensures RelayUpWhenEnding(events, ios)
    ensures Run(s, events, ios).0 == State(LatestName(s.name, events), true)
    decreases |events|
  {
    if events != [] {
      var n := |events| - 1;
      NameIsLatestClaim(s, events[..n], ios[..n]);
    }
  }

  /**
   * Only genuine messages reach the relay: text messages and the server's
   * own join and departure announcements, never a username claim.
   */
  lemma {:induction false} PostsAreGenuine(s: State, events: seq<Event>, ios: seq<Io>)
    requires |ios| == |events| && RelayUpWhenEnding(events, ios)
    ensures forall a :: a in Run(s, events, ios).1 && a.Post? ==>
              a.msg.TextMessage? || IsAnnouncement(a.msg)
    decreases |events|
  {
    if events != [] {
      var n := |events| - 1;
      assert RelayUpWhenEnding(events[..n], ios[..n]);
      PostsAreGenuine(s, events[..n], ios[..n]);
      var (s1, a1) := Run(s, events[..n], ios[..n]);
      StepPostsAreGenuine(s1, events[n], ios[n]);
      assert Run(s, events, ios).1 == a1 + Step(s1, events[n], ios[n]).1;
    }
  }

  /** One step posts only text messages and announcements. */
  lemma StepPostsAreGenuine(s: State, e: Event, io: Io)
    requires s.alive && EndsSession(e, io) ==> io.relayOpen
    ensures forall a :: a in Step(s, e, io).1 && a.Post? ==>
              a.msg.TextMessage? || IsAnnouncement(a.msg)
  {
    AnnouncementsAreAnnouncements(s.name);
    if s.alive && e.ClientText? {
      var (name', effects) := ProcessText(s.name, e.data, io);
      AnnouncementsAreAnnouncements(name');
    }
  }

  /** The messages posted to the relay, in order. */
  function Posts(actions: seq<Action>): (r: seq<ChatMessage>)
    ensures forall m :: m in r ==> Post(m) in actions
    decreases |actions|
  {
    if actions == [] then []
    else
      var n := |actions| - 1;
      Posts(actions[..n]) + (if actions[n].Post? then [actions[n].msg] else [])
  }

  lemma {:induction false} PostsAppend(a: seq<Action>, b: seq<Action>)
    ensures Posts(a + b) == Posts(a) + Posts(b)
    decreases |b|
  {
    if b != [] {
      var n := |b| - 1;
      assert (a + b)[..|a| + n] == a + b[..n];
      assert (a + b)[|a| + n] == b[n];
      PostsAppend(a, b[..n]);
    } else {
      assert a + b == a;
    }
  }

  /** The events with every forged system message taken out, with their `Io`s. */
  function DropForgeries(events: seq<Event>, ios: seq<Io>): (r: (seq<Event>, seq<Io>))
    requires |ios| == |events|
    ensures |r.1| == |r.0| <= |events|
    ensures forall i :: 0 <= i < |r.0| ==> !IsForgery(r.0[i])
    ensures RelayUpWhenEnding(events, ios) ==> RelayUpWhenEnding(r.0, r.1)
    decreases |events|
  {
    if events == [] then ([], [])
    else
      var n := |events| - 1;
      assert RelayUpWhenEnding(events, ios) ==> RelayUpWhenEnding(events[..n], ios[..n]);
      var (kept, keptIos) := DropForgeries(events[..n], ios[..n]);
      if IsForgery(events[n]) then (kept, keptIos)
      else (kept + [events[n]], keptIos + [ios[n]])
  }

  /**
   * A client's system message has no effect on the session or the relay:
   * over any run, taking every forged system message out leaves both the
   * final state and the sequence of posted messages unchanged.
   */
  lemma {:induction false} ForgeriesAreInert(s: State, events: seq<Event>, ios: seq<Io>)
    requires |ios| == |events| && RelayUpWhenEnding(events, ios)
    ensures var f := DropForgeries(events, ios);
      && Run(s, events, ios).0 == Run(s, f.0, f.1).0
      && Posts(Run(s, events, ios).1) == Posts(Run(s, f.0, f.1).1)
    decreases |events|
  {
    if events != [] {
      var n := |events| - 1;
      var pre, preIos := events[..n], ios[..n];
      var e, io := events[n], ios[n];
      assert RelayUpWhenEnding(pre, preIos);
      assert EndsSession(e, io) ==> io.relayOpen;
      assert events == pre + [e] && ios == preIos + [io];
      ForgeriesAreInert(s, pre, preIos);
      RunSnocPosts(s, pre, preIos, e, io);
      var f := DropForgeries(pre, preIos);
      if IsForgery(e) {
        ForgeryStep(Run(s, pre, preIos).0, e, io);
      } else {
        RunSnocPosts(s, f.0, f.1, e, io);
      }
    }
  }

  /** A forged system message keeps the state and posts nothing. */
  lemma ForgeryStep(s: State, e: Event, io: Io)
    requires IsForgery(e)
    ensures Step(s, e, io).0 == s && Posts(Step(s, e, io).1) == []
  {
    var effects := Step(s, e, io).1;
    assert effects == [] || effects == [Send(Envelope(ForgedReply))] || effects == [LogError];
  }

  /** `RunSnoc` seen through the posts. */
  lemma RunSnocPosts(s: State, events: seq<Event>, ios: seq<Io>, e: Event, io: Io)
    requires |ios| == |events| && RelayUpWhenEnding(events, ios)
    requires EndsSession(e, io) ==> io.relayOpen
    ensures RelayUpWhenEnding(events + [e], ios + [io])
    ensures var r := Run(s, events, ios);
      && Run(s, events + [e], ios + [io]).0 == Step(r.0, e, io).0
      && Posts(Run(s, events + [e], ios + [io]).1) == Posts(r.1) + Posts(Step(r.0, e, io).1)
  {
    RunSnoc(s, events, ios, e, io);
    var r := Run(s, events, ios);
    PostsAppend(r.1, Step(r.0, e, io).1);
  }

  lemma AnnouncementsAreAnnouncements(name: string)
    ensures IsAnnouncement(Connected(name)) && IsAnnouncement(Disconnected(name))
  {
    assert (name + ConnectedSuffix)[|name|..] == ConnectedSuffix;
    assert (name + DisconnectedSuffix)[|name|..] == DisconnectedSuffix;
  }

  /**
   * A session returns at most once: nothing follows `Terminate`, and the
   * session is over exactly when `Terminate` was emitted.
   */
  lemma {:induction false} TerminatesOnce(s: State, events: seq<Event>, ios: seq<Io>)
    requires s.alive && |ios| == |events| && RelayUpWhenEnding(events, ios)
    ensures var r := Run(s, events, ios);
      && (forall i :: 0 <= i < |r.1| - 1 ==> r.1[i] != Terminate)
      && (Terminate in r.1 <==> !r.0.alive)
    decreases |events|
  {
    if events != [] {
      var n := |events| - 1;
      assert RelayUpWhenEnding(events[..n], ios[..n]);
      TerminatesOnce(s, events[..n], ios[..n]);
    }
  }

  /**
   * Claiming a name and then typing unstructured text posts the join
   * announcement and then the text under the claimed name.
   */
  lemma RenameThenPlainText(s: State, claim: string, u: string, data: string)
    requires s.alive && Json.Decode(claim) == Some(ConnectionUsername(u)) && Json.Decode(data).None?
    ensures var io := Io(true, true);
      Run(s, [ClientText(claim), ClientText(data)], [io, io])
      == (State(u, true), [Post(Connected(u)), Post(TextMessage(u, data, None))])
  {
    var io := Io(true, true);
    var e1, e2 := ClientText(claim), ClientText(data);
    RenameAnnounces(s, claim, u, io);
    RunOne(s, e1, io);
    assert Run(s, [e1], [io]) == (State(u, true), [Post(Connected(u))]);
    FallsBackToPlainText(State(u, true), data, io);
    assert Step(State(u, true), e2, io) == (State(u, true), [Post(TextMessage(u, data, None))]);
    RunSnoc(s, [e1], [io], e2, io);
    assert [e1] + [e2] == [e1, e2];
    assert [io] + [io] == [io, io];
    var r := Run(s, [e1], [io]);
    var st := Step(r.0, e2, io);
    assert Run(s, [e1] + [e2], [io] + [io]) == (st.0, r.1 + st.1);
    assert r.1 + st.1 == [Post(Connected(u)), Post(TextMessage(u, data, None))];
  }

  lemma RunOne(s: State, e: Event, io: Io)
    requires EndsSession(e, io) ==> io.relayOpen
    ensures RelayUpWhenEnding([e], [io])
    ensures Run(s, [e], [io]) == Step(s, e, io)
  {
    assert [e][..0] == [] && [io][..0] == [];
    assert Run(s, [], []) == (s, []);
    assert [] + Step(s, e, io).1 == Step(s, e, io).1;
  }

  lemma RunSnoc(s: State, events: seq<Event>, ios: seq<Io>, e: Event, io: Io)
    requires |ios| == |events| && RelayUpWhenEnding(events, ios)
    requires EndsSession(e, io) ==> io.relayOpen
    ensures RelayUpWhenEnding(events + [e], ios + [io])
    ensures var r := Run(s, events, ios);
      Run(s, events + [e], ios + [io]) == (Step(r.0, e, io).0, r.1 + Step(r.0, e, io).1)
  {
    assert (events + [e])[..|events|] == events;
    assert (ios + [io])[..|ios|] == ios;
  }
}
