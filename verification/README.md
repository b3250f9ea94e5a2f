# simple-websocket-chat: the chat relay in Dafny

A model of the message path of simple-websocket-chat, a websocket chat server
(Rust, axum and tokio) with a Yew browser client. The model covers these parts:

- **`ChatMessage`** (`chat_message.dfy`) is the closed, three-variant message
  type shared by server and client. `json.dfy` holds its JSON form as serde
  derives it: the externally tagged enum `{"Variant":{fields}}`, with
  `signature` written as `null` or a string. It also holds a decoder for that
  form, and the two are proved to round-trip.
- **The connection session** (`session.dfy`) is `handle_socket`. It is a
  deterministic step function over the one event that won each
  `tokio::select!` race. The step yields the new state and the effects it
  had: messages posted to the relay, frames sent to the client, the error log
  line, and the return. The same file covers the generated default name and
  runs over whole event sequences.
- **The relay** (`relay.dfy`) is `manage_messages`, modelled over a finite
  prefix of its input. A reference definition splits the input into a
  broadcast log and a drop log. A loop method computes the same split.
- **The chat window** (`chat_window.dfy`) covers four things:
  - the history rule of `onmessage`
  - the handshake driven by the ready state and `did_send_username`
  - the input box and `send_cb`
  - the socket URL
- **The push-key decoder** (`web_push_bridge.dfy`, `base64.dfy`) is
  `urlBase64ToUint8Array`. The model includes the server's
  `URL_SAFE_NO_PAD` encoder (section 5 of RFC 4648). It also includes the
  browser's `atob`, which is the forgiving-base64 decode of the HTML standard
  over the alphabet of section 4 of RFC 4648.

Effects of the environment are parameters. A session step takes an `Io`
record that says whether the relay's inbound channel accepts a send and
whether the client socket accepts a frame. The random name suffix is a
sequence of indices into the hex alphabet. The relay takes the number of live
broadcast receivers at each send, and a flag saying whether the inbound
channel is closed at the end.

## Model

| member | source | states |
|---|---|---|
| Json.Encode | common/src/lib.rs:3-20 | `serde_json::to_string` of a message, as called at backend/src/main.rs:281 and :323 and frontend/src/chat_window.rs:84. Its own contract only fixes the outer braces; `Json.RoundTrip` is its partner and states what the encoding means. |
| Json.Decode | common/src/lib.rs:3-20 | `serde_json::from_str` into a message, as called at backend/src/main.rs:273 and frontend/src/chat_window.rs:29. Its own contract only says an accepted frame starts with an object; `Json.RoundTrip` is its partner. It accepts a narrower set of inputs than serde (see `Json.Decode` under "## Left out"). |
| Json.RoundTrip | common/src/lib.rs:3-20 | Decoding the serialised form of any message gives that message back. |
| Json.EncodeInjective | common/src/lib.rs:3-20 | Distinct messages never share a serialised form. |
| Session.GenerateName | backend/src/main.rs:246-254 | The default name is "Anonymous User " followed by exactly four characters. Character i is the hex letter the i-th random pick selects. |
| Session.Step | backend/src/main.rs:256-333 | A dead session does nothing. A live session ends exactly on client loss, a broadcast error or a failed send of a broadcast frame (main.rs:323); a failed send of the "Cannot send system messages" reply is only logged. It returns (Terminate) exactly when it ends, and nothing follows the return. The name changes only on a text frame that decodes to a username claim for the new name. |
| Session.ForwardsTextMessage | backend/src/main.rs:273-278 | A frame that parses as a text message is posted unchanged, and the state is unchanged. |
| Session.FallsBackToPlainText | backend/src/main.rs:292 | A frame that does not parse is posted as a text message with the current name, the raw text and no signature. |
| Session.RejectsForgedSystemMessage | backend/src/main.rs:279-283 | A client's system message posts nothing and keeps the name. The client alone gets "Cannot send system messages", or an error is logged if that send fails. |
| Session.RenameAnnounces | backend/src/main.rs:284-288 | A username claim sets the name to exactly the claimed one and posts "<name> connected to chat" instead of the claim. |
| ChatWindow.HandshakeRenamesSession | backend/src/main.rs:284-288 | The identity frame the client sends, read by a server session, renames the session to the stored username and announces the join. |
| Session.IgnoresOtherFrames | backend/src/main.rs:302 | A non-text frame changes nothing and does nothing. |
| Session.FailedPostIsLogged | backend/src/main.rs:297-300 | When the relay rejects an inbound post, the only effect is the log line, and the session keeps running. |
| Session.RelaysBroadcast | backend/src/main.rs:322-328 | A broadcast message goes to a writable client as one text frame, and that frame decodes to the same message. |
| Session.DepartureAnnounced | backend/src/main.rs:259-326 | Each way of ending gives the same effects: exactly one "<name> disconnected from chat" post with the current name, then the return. Nothing else is posted. A broadcast error first sends the 1006 close frame with the lag reason, and only when the socket is writable. |
| Session.NameIsLatestClaim | backend/src/main.rs:284-292 | While a session lives, its name is the last username the client claimed, or the initial name if there was no claim. |
| Session.StepPostsAreGenuine | backend/src/main.rs:274-307 | A single step posts only text messages and system messages shaped like the join or departure announcement (ending in " connected to chat" or " disconnected from chat", the suffixes that main.rs:264 and :287 append to the name). |
| Session.PostsAreGenuine | backend/src/main.rs:274-307 | Over any run, every message posted to the relay is a text message or a system message shaped like a join or departure announcement. A username claim is never posted. Whether a system message came from the client is the subject of `Session.ForgeriesAreInert`. |
| Session.ForgeriesAreInert | backend/src/main.rs:279-283 | Over any run, taking out every client frame that parses as a system message changes neither the final session state nor the sequence of messages posted to the relay. So a client-made system message never reaches the relay, whatever its text. |
| Session.ProcessText | backend/src/main.rs:274-295 | Each client text frame has exactly one effect and never ends the session. The name changes only to a username the frame claims. Anything posted is a text message or the join announcement for the resulting name. A frame that parses as a system message keeps the name and posts nothing. |
| Session.TerminatesOnce | backend/src/main.rs:256-333 | Over any run, the session returns at most once, last, and exactly when it is no longer alive. |
| Session.RenameThenPlainText | backend/src/main.rs:284-292 | After a claim, unstructured text is posted under the claimed name, right after the join announcement. |
| Relay.ManageMessages | backend/src/message_manager.rs:9-21 | The loop's broadcast and drop logs equal the reference split. A closed inbound channel ends in the "Message channel is closing" panic; otherwise the loop waits. |
| Relay.BroadcastIsSubsequence | backend/src/message_manager.rs:9-21 | The broadcast log is an in-order subsequence of what was received. |
| Relay.NothingInventedOrLost | backend/src/message_manager.rs:10-20 | Together, the broadcast log and the drop log are exactly the received messages as a multiset. |
| Relay.AllBroadcastWhenListened | backend/src/message_manager.rs:15-16 | With a live receiver at every send, everything is broadcast unchanged and in order, and nothing is dropped. |
| ChatWindow.OnMessage | frontend/src/chat_window.rs:28-34 | Every frame appends exactly one entry and keeps the earlier ones. The entry is the decoded message, or a system message starting "Server sent an unexpected message: ". |
| ChatWindow.ShowsServerMessage | frontend/src/chat_window.rs:29-31 | A frame the server serialised from a message appends that very message. |
| ChatWindow.HistoryOnlyGrows | frontend/src/chat_window.rs:28-34 | Over any frames, the history grows by one per frame and its prefix is untouched. |
| ChatWindow.Render | frontend/src/chat_window.rs:68-86 | Connecting and Closed clear the flag and send nothing. Closing changes nothing. Open with the flag clear sends the stored username claim once and sets the flag; with the flag set, it sends nothing. |
| ChatWindow.OnlyIdentitySent | frontend/src/chat_window.rs:80-86 | The only frame the handshake ever sends is the stored username claim. |
| ChatWindow.OncePerConnection | frontend/src/chat_window.rs:68-86 | With no reset in between, the identity goes out at most once, and not at all if it was already sent. |
| ChatWindow.SentWhenOpened | frontend/src/chat_window.rs:80-86 | With the flag clear, the stored username claim is among the frames sent once the socket is open. |
| ChatWindow.FreshWindowSendsIdentityOnce | frontend/src/chat_window.rs:17-86 | A freshly created window (empty history, flag clear) whose ready states include Open and never Connecting or Closed sends exactly one frame over the whole run, and that frame is the stored username claim. |
| ChatWindow.ResentAfterReconnect | frontend/src/chat_window.rs:68-86 | After a Connecting or Closed state, the stored username claim is sent again when the socket reopens. |
| ChatWindow.OnInput | frontend/src/chat_window.rs:47-56 | The input box holds what was typed, and the rest of the window is unchanged. |
| ChatWindow.Submit | frontend/src/chat_window.rs:58-66 | Submitting sends the typed text as a raw frame and empties the box. The frame is the text itself, not serialised. |
| ChatWindow.SocketUrl | frontend/src/chat_window.rs:11-15 | The URL is "wss://<host>/ws" for an https page and "ws://<host>/ws" otherwise. |
| ChatWindow.SecureIffHttps | frontend/src/chat_window.rs:11-15 | The socket scheme is wss exactly when the page protocol is "https:". |
| WebPushBridge.PaddingLength | frontend/web_push_bridge.js:29 | The padding count is below four, it brings the length to a multiple of four, and it is zero exactly when the length already is a multiple of four. |
| WebPushBridge.Standardize | frontend/web_push_bridge.js:30-32 | Every '-' becomes '+' and every '_' becomes '/'. Every other character and the length are kept. |
| WebPushBridge.UrlBase64ToUint8Array | frontend/web_push_bridge.js:28-41 | The helper fails exactly when `atob` throws. Otherwise it gives one byte per decoded character, equal to that character's code. The server's encoding of any key gives back that key. An unpadded length of 4k+1 is rejected. |
| WebPushBridge.CharCodes | frontend/web_push_bridge.js:35-39 | The filled array has one byte per character, and reading its bytes back as characters gives the decoded string. |
| WebPushBridge.DecodesServerKey | frontend/web_push_bridge.js:28-41 | Padding, standardising and decoding the server's URL-safe, unpadded encoding of a key gives the key's bytes. |
| WebPushBridge.RejectsImpossibleLength | frontend/web_push_bridge.js:29-34 | Any string of length 4k+1 gets three '='. Whitespace removal keeps all three and `atob` strips at most two, so it throws. |
| Base64.EncodeUrlSafeNoPad | backend/src/main.rs:96 | The unpadded encoding never has length 4k+1. |
| Base64.SextetsRoundTrip | backend/src/main.rs:96 | Regrouping the sextets of the server's encoding into bytes gives the encoded bytes back. |
| Base64.Atob | frontend/web_push_bridge.js:34 | When `atob` succeeds, every character of its result has a code below 256, so it is a byte string. Its partners are `Base64.AtobReadsStandard` and `WebPushBridge.RejectsImpossibleLength`. |
| Base64.AtobReadsStandard | frontend/web_push_bridge.js:34 | `atob` reads a padded standard-alphabet encoding of any byte-string length as the bytes it encodes. |

## Left out

- Server startup, configuration, the database, the HTTP handlers (`register_username`, `get_pubkey_by_username`) and the router are I/O and configuration. The channel capacities of 100 appear only as constants (`Relay.InboundCapacity`, `Relay.BroadcastCapacity`). A lagging broadcast receiver is the abstract `BroadcastError` event.
- backend/src/notification.rs is not part of this model. It consists of database handlers. Its insert at notification.rs:16 has no uniqueness check. The push dispatcher it is spawned with is not part of this model either.
- Concurrency: the interleaving that `tokio::select!` and the tokio channels decide is not modelled. Each session step consumes the one event that won the race, and the relay consumes messages in arrival order.
- Session.Run: the lemmas over runs require the relay to be open at every ending event of the sequence, including ones after the session has returned. A real session consumes no event after it returns, so in a real run only the last event can end it and the requirement is about that event alone.
- Session.Step: the departure posts unwrap their send result, so a closed relay there would panic. This is a precondition (the relay is open on any step that ends the session), not a modelled path.
- Session.Step: `socket.close()` after the abnormal close frame takes the socket by value and returns a future that is never awaited. No close handshake happens, and the socket and its connection are dropped at that line, before the departure post. The model has no action for dropping the connection. The departure post goes to the relay, not the socket, so it is modelled as usual.
- Session.Step: the text of the log line and the close reason are constants. The close frame is sent only when the socket is writable, and its send result is ignored, as in the source.
- Json.Decode decodes only the form the encoder writes: fields in declaration order. Whitespace between tokens and all JSON escapes except surrogate pairs are accepted. Reordered, missing or unknown fields, surrogate-pair escapes, the sequence form of struct variants and serde_json's error text (`ParseErrorText` stands for it) are not modelled. As a result, a frame that serde would accept in one of those other forms falls into the model's parse-failure branch. For example, `{"SystemMessage":{"content":"x","a":1}}` is a system message to serde, which the server rejects, but the model posts it as plain text under the current name. `Session.ForgeriesAreInert` covers only the system messages the model decodes.
- ChatMessage equality is Dafny's structural datatype equality, which is what the derived `PartialEq` gives. No separate lemma states it.
- `MessageDisplay` rendering, the rest of the Yew UI (frontend/src/main.rs, an older `ChatWindow` revision), frontend/src/web_push.rs, frontend/service_worker.js, and `resubscribe`/`get_subscription` are browser APIs and promises.
- WebPushBridge.UrlBase64ToUint8Array: `atob` is modelled to return `None` where it throws, rather than to demand a length that is not 4k+1. JavaScript string lengths count UTF-16 code units and Dafny strings count characters. The two differ only for characters outside the Basic Multilingual Plane, which `atob` rejects anyway.
- The username stored in local storage: the handshake needs it when the socket opens with the flag clear (`ChatWindow.Render`'s precondition), where the source throws.
