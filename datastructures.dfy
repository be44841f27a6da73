/** The immutable records that parsed server lines are turned into. */
module DataStructures {

  /** Who sent a server line: a user `nick!username@hostname`, or a server known by its host name. */
  datatype Sender =
    | User(nick: string, username: string, hostname: string)
    | Server(hostname: string)

  /** One server line: its sender, its command word and its arguments in order. */
  datatype ServerMessage = ServerMessage(sender: Sender, command: string, args: seq<string>)

  /** A PRIVMSG seen by the command handlers. */
  datatype PrivmsgMessage = PrivmsgMessage(sender: Sender, recipient: string, text: string)

  /** A JOIN seen by the handlers: only who joined. */
  datatype JoinMessage = JoinMessage(sender: Sender)

  /** A PART seen by the handlers: only who left. */
  datatype PartMessage = PartMessage(sender: Sender)
}
