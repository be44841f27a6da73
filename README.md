# BananaBot core in Dafny

BananaBot is a small IRC bot. This project models its core and proves
properties of the model:

- the parser of server lines, `parse_server_message`, and its three
  projections `parse_privmsg`, `parse_join` and `parse_part`;
- the line framer of `Connector`. `recv` cuts the incoming bytes at CRLF
  and keeps a partial last line in `buffer`. `send` joins its arguments
  with spaces, adds CRLF and encodes the result as UTF-8;
- the record types: `User`, `Server`, `ServerMessage`, `PrivmsgMessage`,
  `JoinMessage` and `PartMessage`;
- `send_action`, which wraps an act as a CTCP ACTION (`\x01ACTION <act>\x01`);
- the handler table with its single command, `!echo`.

Modules:

- `Basics` holds `Option`, `Result` and `byte`.
- `Sequences` holds Python's `split` and `join`, generic over the separator, with their algebra.
- `DataStructures` holds the records.
- `Parsing` holds the parser. `ParsingFacts` holds what is proved about the parser.
- `Utf8` holds the encoder that `send` uses and a strict decoder that inverts it.
- `Connection` holds the `Connector` class and the framing functions.
- `Bot` models `bananabot.py`.
- `Commands` models `commands.py`.

The parser is modelled in two forms:

- `Parsing.ParseServerMessage` is a method. Like the source, it runs the
  `enumerate`/`break` loop that merges the trailing argument.
- `Parsing.ServerMessageOf` is the function that specifies the method.
  The method's postcondition states that the two agree.

The sender is classified by the effect of `USER_REGEXP`:

- The nick runs up to the first `!`.
- The user name runs from there up to the first `@`.
- The host name is the rest of the sender.
- In Python's `re`, `.` does not match a newline, but `$` matches just
  before a final newline. So:
  - a newline anywhere except at the very end makes the match fail;
  - a final newline is left out of the host name.
- When the match fails, the source's `assert` fails. In the model this is
  the error `UserPatternMismatch`.

Python's exceptions become `ParseError` values:

- `MissingSenderSeparator` is the unpacking error on line 18.
- `UserPatternMismatch` is the failed assert on line 29.
- `MissingArgument` is the `IndexError` on line 43.

`Connection.Connector` is a class with a mutable `buffer` field:

- `Recv` receives the chunk that `socket.recv(4096)` would return as a parameter.
- `Send` returns the bytes that `socket.send` would be handed.
- What `recv` does is specified by functions of the pending bytes: the
  complete lines, the remainder, and the next buffer.
- `Feed` runs `recv` over a list of chunks. `ChunkingIndependence` proves
  that any cutting into chunks gives the same result as a single chunk.

The code has no dispatcher, no reply to `PING` and no extraction of
commands from private messages: `mainloop` and `send_privmsg` have empty
bodies, and the framer keeps only a byte remainder, not a queue of lines.

## Model

| member | source | states |
|---|---|---|
| Sequences.SplitOnce | bananabot/parsing.py:18 | `split(" ", 1)`: no result exactly when the separator is absent; otherwise the text is the part before the first separator, the separator, and the rest |
| Sequences.Split | bananabot/parsing.py:19 | Python's `split` with an explicit separator: a scan from the left that cuts at each non-overlapping occurrence; there is always at least one piece |
| Sequences.Join | bananabot/parsing.py:25 | Python's `join`: the pieces with the separator between each two; the first piece is a prefix of the result |
| Sequences.JoinSplit | bananabot/parsing.py:19 | joining the pieces of a split with the separator gives the original text back |
| Sequences.SplitPiecesFree | bananabot/connection.py:45 | no piece of a split contains the separator |
| Sequences.SplitJoin | bananabot/connection.py:45 | splitting a join of separator-free pieces gives exactly those pieces back |
| Sequences.SplitAppend | bananabot/connection.py:43-45 | splitting a concatenation equals splitting the first part, then splitting its last piece together with the second part |
| Sequences.SplitCount | bananabot/connection.py:45-46 | for a separator that cannot overlap itself, a split has one more piece than the separator has occurrences |
| Parsing.TrailingIndex | bananabot/parsing.py:21-22 | the position of the first token that starts with `:`, and none exactly when no token does |
| Parsing.MergeTrailing | bananabot/parsing.py:21-26 | without a `:` token the arguments are unchanged; otherwise the tokens before the first `:` token are kept, followed by one argument: the space-join of the remaining tokens without its leading `:` |
| Parsing.MatchUser | bananabot/parsing.py:9-11 | the effect of `USER_REGEXP`: the nick runs to the first `!`, the user name to the first `@` after it, the host name is the rest without a final newline; no match without both separators or with a newline before the last character; a match is always a `User` |
| Parsing.SenderOf | bananabot/parsing.py:27-36 | a sender without `!` becomes `Server` with the text unchanged; a sender with `!` becomes a `User` or an error |
| Parsing.Header | bananabot/parsing.py:18 | `msg[1:].split(" ", 1)`: no result exactly when the text after the first character has no space; otherwise that text is a space-free sender, a space, and the rest |
| Parsing.MessageOf | bananabot/parsing.py:19-26 | the message a sender and the text after it make: the first space-separated token is the command and the remaining tokens go through the trailing merge |
| Parsing.ServerMessageOf | bananabot/parsing.py:18 | a line fails with a missing sender separator exactly when it has no space after its first character |
| Parsing.ParseServerMessage | bananabot/parsing.py:14-36 | the loop that merges the trailing argument, together with the sender classification, gives exactly `ServerMessageOf` |
| Parsing.PrivmsgOf | bananabot/parsing.py:43 | succeeds exactly when there are at least two arguments; the recipient and the text are the first two arguments and the sender is unchanged |
| Parsing.ParsePrivmsg | bananabot/parsing.py:39-43 | a message is projected; a raw line is parsed first and its parse error is passed on |
| Parsing.ParseJoin | bananabot/parsing.py:46-50 | keeps only the sender; a raw line is parsed first and its parse error is passed on |
| Parsing.ParsePart | bananabot/parsing.py:53-57 | keeps only the sender; a raw line is parsed first and its parse error is passed on |
| ParsingFacts.MatchUserSucceeds | bananabot/parsing.py:9-11 | the user pattern matches exactly when some `@` follows some `!` and no newline appears before the last character |
| ParsingFacts.MatchUserSeparators | bananabot/parsing.py:9-11 | the lazy groups stop at the first separator: a matched nick has no `!` and a matched user name has no `@` |
| ParsingFacts.MatchUserNoNewline | bananabot/parsing.py:9-11 | no group of a match holds a newline |
| ParsingFacts.MatchUserReassembles | bananabot/parsing.py:9-11 | the sender is nick, `!`, user name, `@`, host name, followed by the final newline if there was one |
| ParsingFacts.MatchUserRoundTrip | bananabot/parsing.py:28-32 | a `!`-free nick, an `@`-free user name and no newline give back exactly that user |
| ParsingFacts.SenderRoundTrip | bananabot/parsing.py:27-36 | a written sender that the parser can read back is classified as that same sender, and its text has no space |
| ParsingFacts.ParseSplitsHeader | bananabot/parsing.py:18 | a parsed line is its marker, a space-free sender text, a space, and the text that makes the command and arguments |
| ParsingFacts.CommandIsFirstToken | bananabot/parsing.py:19-20 | the command is the first space-separated token after the sender, and it has no space |
| ParsingFacts.ParseWithoutTrailing | bananabot/parsing.py:19-26 | without a `:` token, the arguments are the tokens after the command, and joining command and arguments with spaces gives the text back |
| ParsingFacts.ParseWithTrailing | bananabot/parsing.py:21-26 | with a `:` token at position n there are n+1 arguments; the first n are the tokens before it, which are middle arguments; the text is rebuilt as the command, those tokens, and ` :` followed by the last argument |
| ParsingFacts.BodyFormatted | bananabot/parsing.py:19-26 | text written from a command, middle arguments and an optional trailing argument parses back into exactly those |
| ParsingFacts.HeaderOfWire | bananabot/parsing.py:18 | the sender is split off at the first space of the line after the marker |
| ParsingFacts.ParseFormatted | bananabot/parsing.py:14-36 | a whole line written from a sender, command and arguments parses back into exactly that message |
| ParsingFacts.PrivmsgFromWire | bananabot/parsing.py:39-43 | a PRIVMSG line written from a recipient and a text yields that sender, recipient and text |
| ParsingFacts.ServerLineExample | bananabot/parsing.py:14-36 | `:srv CMD x` parses into server `srv`, command `CMD` and the one argument `x` |
| Utf8.EncodeChar | bananabot/connection.py:35 | a character is 1 to 4 bytes; it is a single byte with its own code exactly when it is ASCII; otherwise every byte is at least 0x80 |
| Utf8.Encode | bananabot/connection.py:35 | the bytes of a text are the bytes of its characters in order, at least one per character |
| Utf8.Decode | bananabot/connection.py:35 | strict UTF-8 decoding: a lead byte from 0xC2 to 0xF4 announces 2 to 4 bytes, the others must be continuation bytes, and overlong forms, surrogates and code points above U+10FFFF are refused |
| Utf8.EncodeDecode | bananabot/connection.py:35 | the decoder accepts only what the encoder writes: encoding a decoded text gives the bytes back |
| Utf8.DecodeRejects | bananabot/connection.py:35 | an overlong two-byte form, a bad continuation byte, a stray continuation byte and an encoded surrogate are refused |
| Utf8.EncodeAppend | bananabot/connection.py:34-35 | encoding distributes over concatenation |
| Utf8.DecodeEncode | bananabot/connection.py:35 | the strict decoder gives back the text from its encoded bytes, so the encoder writes well-formed UTF-8 |
| Utf8.EncodeAscii | bananabot/connection.py:35 | an ASCII character occurs in the text exactly when its byte occurs in the encoding |
| Utf8.EncodeAsciiString | bananabot/connection.py:35 | an ASCII text is encoded byte for byte |
| Connection.BufferAfter | bananabot/connection.py:49-51 | the next buffer is the last piece, or nothing exactly when that piece is empty |
| Connection.CompleteLines | bananabot/connection.py:45-48 | the lines yielded: every piece of `data.split(b'\r\n')` except the last |
| Connection.Remainder | bananabot/connection.py:49 | `lines[-1]`: the bytes after the last CRLF |
| Connection.Feed | bananabot/connection.py:37-51 | calling `recv` once per chunk from a given buffer: every line yielded, in order, and the buffer left at the end |
| Connection.Connector.constructor | bananabot/connection.py:14-21 | the fields are the arguments, and the buffer starts empty |
| Connection.Connector.Recv | bananabot/connection.py:37-51 | the lines emitted are every piece of the old buffer plus the chunk, cut at CRLF, except the last; the new buffer is that last piece if it is non-empty; the buffer invariant holds afterwards |
| Connection.Connector.Send | bananabot/connection.py:30-35 | the bytes sent are the UTF-8 encoding of the arguments joined by single spaces, followed by exactly one CRLF |
| Connection.RemainderInvariant | bananabot/connection.py:44-51 | whatever arrives, the buffer left behind is never empty and never contains CRLF |
| Connection.LinesFreeOfCRLF | bananabot/connection.py:45-48 | no emitted line contains CRLF |
| Connection.Reassembly | bananabot/connection.py:42-51 | the emitted lines, each followed by CRLF, then the new buffer, are exactly the old buffer plus the chunk |
| Connection.LineCount | bananabot/connection.py:45-48 | the number of lines emitted equals the number of CRLFs in the old buffer plus the chunk |
| Connection.TwoChunks | bananabot/connection.py:42-51 | receiving two chunks one after the other emits the same lines and keeps the same remainder as receiving their concatenation |
| Connection.ChunkingIndependence | bananabot/connection.py:41-51 | any cutting of the stream into chunks emits the same lines and leaves the same buffer as a single chunk, including a CRLF cut in two |
| Connection.EmptyChunk | bananabot/connection.py:41-51 | an empty chunk emits nothing and leaves the buffer as it was |
| Connection.FramingRoundTrip | bananabot/connection.py:45-51 | CRLF-free lines sent each with CRLF are received as exactly those lines, with no buffer left |
| Connection.SendThenRecv | bananabot/connection.py:30-51 | what `send` writes arrives through `recv` on a fresh connection as a single line, which decodes to the joined arguments, when no argument holds a carriage return |
| Bot.SendPrivmsg | bananabot/bananabot.py:26-28 | the request carries the recipient and the text it was given |
| Bot.ActionText | bananabot/bananabot.py:7 | the text is `\x01ACTION `, then the act, then `\x01`; its length is the act's length plus 9 |
| Bot.UnwrapAction | bananabot/bananabot.py:7 | a text carries an act exactly when it is at least 9 characters long, starts with the prefix and ends with the suffix |
| Bot.UnwrapWrap | bananabot/bananabot.py:7 | stripping the 8-character prefix and the 1-character suffix recovers the act exactly |
| Bot.WrapUnwrap | bananabot/bananabot.py:7 | every ACTION text is the wrapping of the act it carries |
| Bot.ActionTextInjective | bananabot/bananabot.py:7 | different acts give different texts |
| Bot.SendAction | bananabot/bananabot.py:30-32 | the recipient is passed on unchanged, and the text sent carries the act as a CTCP ACTION |
| Commands.Echo | bananabot/commands.py:9 | echo sends to the command's recipient, with the argument text unchanged |
| Commands.HandlerKeys | bananabot/commands.py:5-10 | the table has exactly the keys `join`, `part`, `privmsg` and `command` |
| Commands.EventListsEmpty | bananabot/commands.py:6-8 | `join`, `part` and `privmsg` are empty lists |
| Commands.CommandTable | bananabot/commands.py:9 | `!echo` is the only command, and command words start with `!` |
| Commands.EchoSendsBack | bananabot/commands.py:9 | the `!echo` entry sends one private message to the recipient, with the argument text unchanged |

## Left out

- Socket I/O is not modelled: `connect`, `disconnect`, and the real `socket.recv` and `socket.send`. The received chunk is a parameter of `Recv`, and the bytes sent are the result of `Send`. The `socket` field is not modelled either.
- `establish_connection` is not modelled, because it is broken as written. It calls `connect` with two arguments that `connect` does not take, and it reads an undefined `self.user`.
- Decoding received lines with UTF-8 and `'replace'` is not modelled, because it is a library codec. `Recv` emits lines as bytes. `Utf8.Decode` is a strict decoder, used only to state that what `send` encodes can be read back and that the encoder writes well-formed UTF-8; it does not substitute U+FFFD as `'replace'` does.
- Lone surrogates, which make Python's encoder raise an error, cannot occur, because a Dafny `char` is always a Unicode scalar value.
- Generator laziness is not modelled. In the source, `recv` updates `buffer` only once its generator is exhausted. `Recv` runs to completion and returns every line at once.
- There is no end-of-stream signal. A buffer left over when the stream ends is never emitted, in the source and in the model.
- `send_privmsg` and `mainloop` have empty bodies. `SendPrivmsg` stands for the call and returns the request it is handed.
- The bot argument that the handlers receive is not modelled, and neither is the `config` that `BananaBot` stores. The only use of the bot argument is to call `send_privmsg`.
- The source has no record for a command event. `Commands.CommandEvent` keeps only the two fields that `!echo` reads, `recipient` and `arg_text`.
- `Commands.EventHandler` has a guessed type. The source's event lists are empty, so it does not say what a handler takes.
- The regex engine is not modelled. Only the effect of `USER_REGEXP` on a sender is.
- `Bot.ActionText` models `str.format` only for a text act.
- Namedtuple behaviour beyond the fields is not modelled: indexing, unpacking and `_replace`.
- `bananabot/__main__.py` (argument parsing and configuration loading) and `setup.py` (packaging) are not part of this model.
