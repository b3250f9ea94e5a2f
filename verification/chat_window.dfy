/**
 * The browser's chat window component (`ChatWindow`): the history kept from
 * incoming frames, the one-time identity handshake driven by the
 * websocket's ready state, the send form, and the socket URL.
 */
module ChatWindow {

  import opened Wrappers
  import opened ChatMessages
  import Json
  import Session

  const UnexpectedPrefix := "Server sent an unexpected message: "

  /** What the model keeps of serde_json's error text. */
  const ParseErrorText := "malformed chat message"

  datatype ReadyState = Connecting | Open | Closing | Closed

  /** A frame the client sends: a serialised message, or text typed by the user. */
  datatype Outgoing = Serialized(msg: ChatMessage) | Raw(text: string)

  /** The text of an outgoing frame on the wire. */
  function WireText(f: Outgoing): string {
    match f
    case Serialized(msg) => Json.Encode(msg)
    case Raw(text) => text
  }

  /** The component's state hooks: history, the handshake flag and the input box. */
  datatype Window = Window(history: seq<ChatMessage>, didSendUsername: bool, text: string)

  /** The state hooks as the component creates them: empty history, flag clear, empty box. */
  function Initial(): Window {
    Window([], false, "")
  }

  // ------------------------------------------------------------- history

  /** The `onmessage` callback: append the decoded message, or an error note. */
  function OnMessage(w: Window, frame: string): (w': Window)
    ensures |w'.history| == |w.history| + 1
    ensures w'.history[..|w.history|] == w.history
    ensures Json.Decode(frame).Some? ==> w'.history[|w.history|] == Json.Decode(frame).value
    ensures Json.Decode(frame).None? ==>
              var m := w'.history[|w.history|];
              m.SystemMessage? && |UnexpectedPrefix| <= |m.content|
              && m.content[..|UnexpectedPrefix|] == UnexpectedPrefix
    ensures w'.didSendUsername == w.didSendUsername && w'.text == w.text
  {
    var entry := match Json.Decode(frame)
      case Some(msg) => msg
      case None => SystemMessage(UnexpectedPrefix + ParseErrorText);
    w.(history := w.history + [entry])
  }

  /** A frame the server sent for a message shows that very message. */
  lemma ShowsServerMessage(w: Window, msg: ChatMessage)
    ensures OnMessage(w, Json.Encode(msg)).history == w.history + [msg]
  {
    Json.RoundTrip(msg);
  }

  function OnMessages(w: Window, frames: seq<string>): Window
    decreases |frames|
  {
    if frames == [] then w
    else OnMessages(OnMessage(w, frames[0]), frames[1..])
  }

  /** Each frame adds exactly one entry and earlier entries are never touched. */
  lemma {:induction false} HistoryOnlyGrows(w: Window, frames: seq<string>)
    ensures |OnMessages(w, frames).history| == |w.history| + |frames|
    ensures OnMessages(w, frames).history[..|w.history|] == w.history
    decreases |frames|
  {
    if frames != [] {
      var w1 := OnMessage(w, frames[0]);
      HistoryOnlyGrows(w1, frames[1..]);
      var h := OnMessages(w, frames).history;
      assert h[..|w1.history|][..|w.history|] == h[..|w.history|];
    }
  }

  // ----------------------------------------------------------- handshake

  /**
   * One render in the given ready state, with the username held in local
   * storage. Yields the new state and the frames sent. An open socket whose
   * identity is not sent yet needs a stored username (the code throws
   * otherwise).
   */
  function Render(w: Window, state: ReadyState, stored: Option<string>): (r: (Window, seq<Outgoing>))
    requires state == Open && !w.didSendUsername ==> stored.Some?
    ensures r.0.history == w.history && r.0.text == w.text
    ensures state == Connecting || state == Closed ==> !r.0.didSendUsername && r.1 == []
    ensures state == Closing ==> r == (w, [])
    ensures state == Open ==> r.0.didSendUsername
    ensures state == Open && !w.didSendUsername ==> r.1 == [Serialized(ConnectionUsername(stored.value))]
    ensures w.didSendUsername && state != Connecting && state != Closed ==> r == (w, [])
  {
    match state
    case Connecting => (w.(didSendUsername := false), [])
    case Closing => (w, [])
    case Closed => (w.(didSendUsername := false), [])
    case Open =>
      if !w.didSendUsername then
        (w.(didSendUsername := true), [Serialized(ConnectionUsername(stored.value))])
      else (w, [])
  }

  /** A state that resets the handshake. */
  predicate Resets(state: ReadyState) {
    state == Connecting || state == Closed
  }

  /** Renders through a sequence of ready states; the frames sent concatenated. */
  function RenderRun(w: Window, states: seq<ReadyState>, u: string): (Window, seq<Outgoing>)
    decreases |states|
  {
    if states == [] then (w, [])
    else
      var (w1, sent1) := Render(w, states[0], Some(u));
      var (w2, sent2) := RenderRun(w1, states[1..], u);
      (w2, sent1 + sent2)
  }

  /** Every frame the handshake sends is the stored identity. */
  lemma {:induction false} OnlyIdentitySent(w: Window, states: seq<ReadyState>, u: string)
    ensures forall f :: f in RenderRun(w, states, u).1 ==> f == Serialized(ConnectionUsername(u))
    decreases |states|
  {
    if states != [] {
      var (w1, sent1) := Render(w, states[0], Some(u));
      OnlyIdentitySent(w1, states[1..], u);
    }
  }

  /**
   * The identity frame, read by the server's session, renames that session
   * to the stored username and announces the join.
   */
  lemma HandshakeRenamesSession(s: Session.State, u: string, io: Session.Io)
    requires s.alive && io.relayOpen
    ensures var frame := WireText(Serialized(ConnectionUsername(u)));
      Session.Step(s, Session.ClientText(frame), io) == (Session.State(u, true), [Session.Post(Connected(u))])
  {
    var frame := Json.Encode(ConnectionUsername(u));
    Json.RoundTrip(ConnectionUsername(u));
    Session.RenameAnnounces(s, frame, u, io);
  }

  /**
   * Without a reset the identity goes out at most once, and not at all if
   * it was already sent on this connection.
   */
  lemma {:induction false} OncePerConnection(w: Window, states: seq<ReadyState>, u: string)
    requires forall i :: 0 <= i < |states| ==> !Resets(states[i])
    ensures |RenderRun(w, states, u).1| <= (if w.didSendUsername then 0 else 1)
    ensures w.didSendUsername ==> RenderRun(w, states, u).0.didSendUsername
    decreases |states|
  {
    if states != [] {
      var w1 := Render(w, states[0], Some(u)).0;
      OncePerConnection(w1, states[1..], u);
    }
  }

  /** Once the flag is clear, the next open socket sends the identity. */
  lemma {:induction false} SentWhenOpened(w: Window, states: seq<ReadyState>, u: string)
    requires !w.didSendUsername && Open in states
    ensures Serialized(ConnectionUsername(u)) in RenderRun(w, states, u).1
    decreases |states|
  {
    if states[0] != Open {
      var w1 := Render(w, states[0], Some(u)).0;
      assert Open in states[1..];
      SentWhenOpened(w1, states[1..], u);
    }
  }

  /**
   * A fresh window whose socket opens without dropping sends exactly one
   * frame over the whole run: the stored identity.
   */
  lemma FreshWindowSendsIdentityOnce(states: seq<ReadyState>, u: string)
    requires Open in states
    requires forall i :: 0 <= i < |states| ==> !Resets(states[i])
    ensures RenderRun(Initial(), states, u).1 == [Serialized(ConnectionUsername(u))]
  {
    var sent := RenderRun(Initial(), states, u).1;
    OncePerConnection(Initial(), states, u);
    SentWhenOpened(Initial(), states, u);
    OnlyIdentitySent(Initial(), states, u);
    assert sent[0] in sent;
  }

  /** After any reset, the identity is sent again when the socket reopens. */
  lemma ResentAfterReconnect(w: Window, reset: ReadyState, states: seq<ReadyState>, u: string)
    requires Resets(reset) && Open in states
    ensures Serialized(ConnectionUsername(u)) in RenderRun(w, [reset] + states, u).1
  {
    var w1 := Render(w, reset, Some(u)).0;
    assert ([reset] + states)[1..] == states;
    SentWhenOpened(w1, states, u);
  }

  // ------------------------------------------------------------ the form

  /** `oninput_cb`: the input box mirrors what the user typed. */
  function OnInput(w: Window, value: string): (w': Window)
    ensures w'.text == value && w'.history == w.history && w'.didSendUsername == w.didSendUsername
  {
    w.(text := value)
  }

  /** `send_cb`: sends the typed text as a raw frame and clears the box. */
  function Submit(w: Window): (r: (Window, Outgoing))
    ensures r.1 == Raw(w.text) && WireText(r.1) == w.text && r.0.text == []
    ensures r.0.history == w.history && r.0.didSendUsername == w.didSendUsername
  {
    (w.(text := []), Raw(w.text))
  }

  // ------------------------------------------------------------- the URL

  function SocketUrl(protocol: string, host: string): (url: string)
    ensures protocol == "https:" ==> url == "wss://" + host + "/ws"
    ensures protocol != "https:" ==> url == "ws://" + host + "/ws"
  {
    "ws" + (if protocol == "https:" then "s" else "") + "://" + host + "/ws"
  }

  /** The socket is secure exactly when the page is. */
  lemma SecureIffHttps(protocol: string, host: string)
    ensures SocketUrl(protocol, host)[..3] == "wss" <==> protocol == "https:"
  {
    var url := SocketUrl(protocol, host);
    if protocol != "https:" {
      assert url[2] == ':';
    }
  }
}
