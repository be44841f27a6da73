/**
 * The handler table: per kind of event, the handlers to run, and for
 * commands a table from the command word, `!` included, to its handler.
 */
module Commands {
  import opened DataStructures
  import opened Bot

  /** What a command handler reads of a command: where it came from and the text after the word. */
  datatype CommandEvent = CommandEvent(recipient: string, argText: string)

  /** A handler of `join`, `part` or `privmsg` events; the source registers none. */
  type EventHandler = ServerMessage -> seq<PrivmsgRequest>

  /** A command handler: the private message it sends. */
  type CommandHandler = CommandEvent -> PrivmsgRequest

  /** A table entry: a list of event handlers, or the command table. */
  datatype Entry =
    | EventHandlers(handlers: seq<EventHandler>)
    | CommandHandlers(commands: map<string, CommandHandler>)

  /** `!echo`: sends the text after the command back to where it came from. */
  function Echo(c: CommandEvent): (r: PrivmsgRequest)
    ensures r.recipient == c.recipient && r.text == c.argText
  {
    SendPrivmsg(c.recipient, c.argText)
  }

  /** `handlers`. */
  const Handlers: map<string, Entry> := map[
    "join" := EventHandlers([]),
    "part" := EventHandlers([]),
    "privmsg" := EventHandlers([]),
    "command" := CommandHandlers(map["!echo" := Echo])
  ]

  /** The table has exactly the keys `join`, `part`, `privmsg` and `command`. */
  lemma HandlerKeys()
    ensures Handlers.Keys == {"join", "part", "privmsg", "command"}
  {
  }

  /** `join`, `part` and `privmsg` start as empty lists of handlers. */
  lemma EventListsEmpty()
    ensures forall key :: key in Handlers && key != "command" ==>
      Handlers[key].EventHandlers? && |Handlers[key].handlers| == 0
  {
  }

  /** `!echo` is the only command, and command words keep their leading `!`. */
  lemma CommandTable()
    ensures Handlers["command"].CommandHandlers?
    ensures Handlers["command"].commands.Keys == {"!echo"}
    ensures forall w :: w in Handlers["command"].commands ==> |w| > 0 && w[0] == '!'
  {
  }

  /** The echo handler sends one private message, to the recipient, with the text unchanged. */
  lemma EchoSendsBack(c: CommandEvent)
    ensures Handlers["command"].CommandHandlers?
    ensures "!echo" in Handlers["command"].commands
    ensures Handlers["command"].commands["!echo"](c) == PrivmsgRequest(c.recipient, c.argText)
  {
  }
}
