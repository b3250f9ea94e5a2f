/** The chat envelope shared by the server and the browser client. */
module ChatMessages {

  import opened Wrappers

  /** A closed set of three variants: every consumer matches on all of them. */
  datatype ChatMessage =
    | TextMessage(username: string, content: string, signature: Option<string>)
    | SystemMessage(content: string)
      /** Sent by the client to associate the connection with a user name. */
    | ConnectionUsername(username: string)

  const ConnectedSuffix := " connected to chat"
  const DisconnectedSuffix := " disconnected from chat"

  /** Announcement the server emits when a connection names itself. */
  function Connected(name: string): ChatMessage {
    SystemMessage(name + ConnectedSuffix)
  }

  /** Announcement the server emits when a connection ends. */
  function Disconnected(name: string): ChatMessage {
    SystemMessage(name + DisconnectedSuffix)
  }

  predicate EndsWith(s: string, suffix: string) {
    |suffix| <= |s| && s[|s| - |suffix|..] == suffix
  }

  /** A system message of the only two shapes the server itself generates. */
  predicate IsAnnouncement(m: ChatMessage) {
    m.SystemMessage? && (EndsWith(m.content, ConnectedSuffix) || EndsWith(m.content, DisconnectedSuffix))
  }
}
