/**
 * Turning one server line into a `ServerMessage`, and the projections of a
 * `ServerMessage` to the records the handlers see.
 *
 * A line is `:<sender> <command> <arg> ... [:<trailing words>]`: the sender
 * runs to the first space, the rest is cut at every single space, and from
 * the first argument starting with `:` on, the arguments are glued back
 * together into one trailing argument without its `:` (the trailing
 * parameter of section 2.3.1 of RFC 2812).
 */
module Parsing {
  import opened Basics
  import opened Sequences
  import opened DataStructures

  /** Why a line or a message could not be turned into a record. */
  datatype ParseError =
    | MissingSenderSeparator   // no space after the sender: unpacking `split(" ", 1)` fails
    | UserPatternMismatch      // a sender with `!` that the user pattern does not match
    | MissingArgument          // a PRIVMSG with fewer than two arguments

  /** `msg[1:]`: the first character, the sender marker, is dropped without being looked at. */
  function DropFirst(line: string): string {
    if line == [] then [] else line[1..]
  }

  /** `token.startswith(":")`. */
  predicate IsTrailing(token: string) {
    |token| > 0 && token[0] == ':'
  }

  /** The position of the first token that starts a trailing argument, if any. */
  function TrailingIndex(tokens: seq<string>): (r: Option<nat>)
    ensures r.None? <==> forall k :: 0 <= k < |tokens| ==> !IsTrailing(tokens[k])
    ensures r.Some? ==> r.value < |tokens| && IsTrailing(tokens[r.value])
    ensures r.Some? ==> forall k :: 0 <= k < r.value ==> !IsTrailing(tokens[k])
  {
    if tokens == [] then None
    else if IsTrailing(tokens[0]) then Some(0)
    else match TrailingIndex(tokens[1..])
      case None => None
      case Some(n) => Some(n + 1)
  }

  /**
   * The arguments after the trailing-parameter rule: unchanged when no token
   * starts with `:`, otherwise the tokens before the first such one and then
   * all the rest joined by single spaces, with the `:` removed.
   */
  function MergeTrailing(tokens: seq<string>): (args: seq<string>)
    ensures TrailingIndex(tokens).None? ==> args == tokens
    ensures TrailingIndex(tokens).Some? ==>
      var n := TrailingIndex(tokens).value;
      |args| == n + 1 && args[..n] == tokens[..n] && ":" + args[n] == Join(tokens[n..], " ")
  {
    match TrailingIndex(tokens)
    case None => tokens
    case Some(n) =>
      var joined := Join(tokens[n..], " ");
      assert tokens[n..][0] <= joined;
      tokens[..n] + [joined[1..]]
  }

  /** No newline except possibly as the last character: what `.` and `$` allow. */
  predicate NoInnerNewline(info: string) {
    forall k :: 0 <= k < |info| - 1 ==> info[k] != '\n'
  }

  /** The user/nick/host split of a sender that `^(.*?)!(.*?)@(.*?)$` performs. */
  predicate UserShaped(info: string) {
    (exists i, j :: 0 <= i < j < |info| && info[i] == '!' && info[j] == '@')
    && NoInnerNewline(info)
  }

  /**
   * The effect of matching a sender against `^(.*?)!(.*?)@(.*?)$`: the nick
   * runs to the first `!`, the user name to the first `@` after it, the host
   * name is the rest. `.` matches no newline and `$` also matches before a
   * final newline, so a newline anywhere but at the very end defeats the
   * match, and a final newline is not part of the host name.
   */
  function MatchUser(info: string): (r: Option<Sender>)
    ensures r.Some? ==> r.value.User?
  {
    match SplitOnce(info, '!')
    case None => None
    case Some((nick, afterBang)) =>
      match SplitOnce(afterBang, '@')
      case None => None
      case Some((username, rest)) =>
        if NoInnerNewline(info) then Some(User(nick, username, DropFinalNewline(rest)))
        else None
  }

  /** The text without its last character if that is a newline. */
  function DropFinalNewline(s: string): string {
    if |s| > 0 && Last(s) == '\n' then DropLast(s) else s
  }

  /** A sender with `!` must match the user pattern (the source asserts it); any other is a server. */
  function SenderOf(info: string): (r: Result<Sender, ParseError>)
    ensures '!' !in info ==> r == Ok(Server(info))
    ensures '!' in info ==> r.Err? || r.value.User?
  {
    if '!' in info then
      match MatchUser(info)
      case None => Err(UserPatternMismatch)
      case Some(user) => Ok(user)
    else Ok(Server(info))
  }

  /** The sender text and the rest of a line, split at the first space after the dropped marker. */
  function Header(line: string): (r: Option<(string, string)>)
    ensures r.None? <==> ' ' !in DropFirst(line)
    ensures r.Some? ==> DropFirst(line) == r.value.0 + " " + r.value.1 && ' ' !in r.value.0
  {
    SplitOnce(DropFirst(line), ' ')
  }

  /** Python's `msg.split(" ")` on the text after the sender: the command and then its arguments. */
  function Tokens(body: string): (tokens: seq<string>)
    ensures |tokens| >= 1
  {
    Split(body, " ")
  }

  /** The message a sender and the text after it make: the first token is the command. */
  function MessageOf(sender: Sender, body: string): ServerMessage {
    var tokens := Tokens(body);
    ServerMessage(sender, tokens[0], MergeTrailing(tokens[1..]))
  }

  /** What `parse_server_message` returns for a line, or the error it raises. */
  function ServerMessageOf(line: string): (r: Result<ServerMessage, ParseError>)
    ensures r == Err(MissingSenderSeparator) <==> ' ' !in DropFirst(line)
  {
    match Header(line)
    case None => Err(MissingSenderSeparator)
    case Some((info, body)) =>
      match SenderOf(info)
      case Err(e) => Err(e)
      case Ok(sender) => Ok(MessageOf(sender, body))
  }

  /**
   * `parse_server_message`: split off the sender, cut the rest at spaces,
   * take the command, merge the trailing argument in one pass over the
   * tokens, then classify the sender.
   */
  method ParseServerMessage(line: string) returns (r: Result<ServerMessage, ParseError>)
    ensures r == ServerMessageOf(line)
  {
    var header := SplitOnce(DropFirst(line), ' ');
    if header.None? {
      return Err(MissingSenderSeparator);
    }
    var (info, body) := header.value;
    var args := Split(body, " ");
    var command := args[0];
    args := args[1..];
    ghost var tokens := args;
    var n := 0;
    while n < |args|
      invariant n <= |args| && args == tokens
      invariant forall k :: 0 <= k < n ==> !IsTrailing(tokens[k])
    {
      if IsTrailing(args[n]) {
        var temp := args[n..];
        args := args[..n];
        var joined := Join(temp, " ");
        assert temp[0] <= joined;
        args := args + [joined[1..]];
        break;
      }
      n := n + 1;
    }
    assert args == MergeTrailing(tokens);
    if '!' in info {
      var user := MatchUser(info);
      if user.None? {
        return Err(UserPatternMismatch);
      }
      r := Ok(ServerMessage(user.value, command, args));
    } else {
      r := Ok(ServerMessage(Server(info), command, args));
    }
  }

  /** What `parse_privmsg` and its two siblings accept: a raw line or a message parsed already. */
  datatype MessageInput = RawLine(line: string) | Parsed(message: ServerMessage)

  /** The PRIVMSG record of a parsed message: recipient and text are its first two arguments. */
  function PrivmsgOf(m: ServerMessage): (r: Result<PrivmsgMessage, ParseError>)
    ensures r.Ok? <==> |m.args| >= 2
    ensures r.Ok? ==> r.value.sender == m.sender && r.value.recipient == m.args[0] && r.value.text == m.args[1]
  {
    if |m.args| < 2 then Err(MissingArgument)
    else Ok(PrivmsgMessage(m.sender, m.args[0], m.args[1]))
  }

  /** `parse_privmsg`: a raw line is parsed first, then projected. */
  method ParsePrivmsg(input: MessageInput) returns (r: Result<PrivmsgMessage, ParseError>)
    ensures input.Parsed? ==> r == PrivmsgOf(input.message)
    ensures input.RawLine? ==>
      r == match ServerMessageOf(input.line) case Err(e) => Err(e) case Ok(m) => PrivmsgOf(m)
  {
    var message: ServerMessage;
    match input {
      case Parsed(m) =>
        message := m;
      case RawLine(line) =>
        var parsed := ParseServerMessage(line);
        if parsed.Err? {
          return Err(parsed.error);
        }
        message := parsed.value;
    }
    r := PrivmsgOf(message);
  }

  /** `parse_join`: a raw line is parsed first; only the sender is kept. */
  method ParseJoin(input: MessageInput) returns (r: Result<JoinMessage, ParseError>)
    ensures input.Parsed? ==> r == Ok(JoinMessage(input.message.sender))
    ensures input.RawLine? ==>
      r == match ServerMessageOf(input.line) case Err(e) => Err(e) case Ok(m) => Ok(JoinMessage(m.sender))
  {
    var message: ServerMessage;
    match input {
      case Parsed(m) =>
        message := m;
      case RawLine(line) =>
        var parsed := ParseServerMessage(line);
        if parsed.Err? {
          return Err(parsed.error);
        }
        message := parsed.value;
    }
    r := Ok(JoinMessage(message.sender));
  }

  /** `parse_part`: a raw line is parsed first; only the sender is kept. */
  method ParsePart(input: MessageInput) returns (r: Result<PartMessage, ParseError>)
    ensures input.Parsed? ==> r == Ok(PartMessage(input.message.sender))
    ensures input.RawLine? ==>
      r == match ServerMessageOf(input.line) case Err(e) => Err(e) case Ok(m) => Ok(PartMessage(m.sender))
  {
    var message: ServerMessage;
    match input {
      case Parsed(m) =>
        message := m;
      case RawLine(line) =>
        var parsed := ParseServerMessage(line);
        if parsed.Err? {
          return Err(parsed.error);
        }
        message := parsed.value;
    }
    r := Ok(PartMessage(message.sender));
  }
}

/** What the parser promises about the lines it accepts, and the lines it is given back. */
module ParsingFacts {
  import opened Basics
  import opened Sequences
  import opened DataStructures
  import opened Parsing

  // ---------------------------------------------------------------------
  // The user pattern.

  /** The parts of a sender that matched, around its first `!` and the first `@` after it. */
  lemma MatchUserParts(info: string) returns (afterBang: string, rest: string)
    requires MatchUser(info).Some?
    ensures var u := MatchUser(info).value;
      && info == u.nick + ['!'] + afterBang && afterBang == u.username + ['@'] + rest
      && '!' !in u.nick && '@' !in u.username
      && u.hostname == DropFinalNewline(rest)
      && NoInnerNewline(info)
  {
    var (nick, a) := SplitOnce(info, '!').value;
    var (username, r) := SplitOnce(a, '@').value;
    afterBang, rest := a, r;
  }

  /** A newline-free text before a character that is not a newline, and what follows. */
  lemma InnerSplit(p: string, x: char, q: string)
    requires x != '\n' && NoInnerNewline(p + [x] + q)
    ensures '\n' !in p && NoInnerNewline(q)
  {
    var s := p + [x] + q;
    forall k | 0 <= k < |p|
      ensures p[k] != '\n'
    {
      assert s[k] == p[k];
    }
    forall k | 0 <= k < |q| - 1
      ensures q[k] != '\n'
    {
      assert s[|p| + 1 + k] == q[k];
    }
  }

  /** Without its final newline, a text with no inner newline has none at all. */
  lemma DropFinalNewlineFree(s: string)
    requires NoInnerNewline(s)
    ensures '\n' !in DropFinalNewline(s)
  {
    var d := DropFinalNewline(s);
    forall k | 0 <= k < |d|
      ensures d[k] != '\n'
    {
      assert d[k] == s[k];
    }
  }

  /** A text with no newline at all has no inner newline. */
  lemma NewlineFree(s: string)
    requires '\n' !in s
    ensures NoInnerNewline(s)
  {
    forall k | 0 <= k < |s| - 1
      ensures s[k] != '\n'
    {
      assert s[k] in s;
    }
  }

  /** The user pattern matches exactly the senders that have a `@` after a `!` and no inner newline. */
  lemma MatchUserSucceeds(info: string)
    ensures MatchUser(info).Some? <==> UserShaped(info)
  {
    if UserShaped(info) {
      ShapedMatches(info);
    }
    if MatchUser(info).Some? {
      MatchedIsShaped(info);
    }
  }

  /** A sender with a `@` after a `!` and no inner newline is matched. */
  lemma ShapedMatches(info: string)
    requires UserShaped(info)
    ensures MatchUser(info).Some?
  {
    var i, j :| 0 <= i < j < |info| && info[i] == '!' && info[j] == '@';
    assert info[i] in info;
    var (nick, afterBang) := SplitOnce(info, '!').value;
    forall k | 0 <= k < |nick|
      ensures info[k] != '!'
    {
      assert info[k] == nick[k];
    }
    assert afterBang[j - |nick| - 1] == info[j];
  }

  /** A matched sender has a `@` after a `!` and no inner newline. */
  lemma MatchedIsShaped(info: string)
    requires MatchUser(info).Some?
    ensures UserShaped(info)
  {
    var u := MatchUser(info).value;
    var afterBang, rest := MatchUserParts(info);
    var i, j := |u.nick|, |u.nick| + 1 + |u.username|;
    assert afterBang[|u.username|] == '@';
    assert info[i] == '!' && info[j] == '@';
  }

  /** A matched nick has no `!` and a matched user name no `@`: both stop at the first one. */
  lemma MatchUserSeparators(info: string)
    requires MatchUser(info).Some?
    ensures '!' !in MatchUser(info).value.nick && '@' !in MatchUser(info).value.username
  {
    var afterBang, rest := MatchUserParts(info);
  }

  /** No part of a matched user holds a newline. */
  lemma MatchUserNoNewline(info: string)
    requires MatchUser(info).Some?
    ensures var u := MatchUser(info).value;
      '\n' !in u.nick && '\n' !in u.username && '\n' !in u.hostname
  {
    var u := MatchUser(info).value;
    var afterBang, rest := MatchUserParts(info);
    InnerSplit(u.nick, '!', u.username + ['@'] + rest);
    InnerSplit(u.username, '@', rest);
    DropFinalNewlineFree(rest);
  }

  /**
   * A matched user is the nick, `!`, the user name, `@` and the host name,
   * followed by the final newline if the sender ended in one.
   */
  lemma MatchUserReassembles(info: string)
    requires MatchUser(info).Some?
    ensures var u := MatchUser(info).value;
      info == u.nick + "!" + u.username + "@" + u.hostname + (if Last(info) == '\n' then "\n" else "")
  {
    var u := MatchUser(info).value;
    var afterBang, rest := MatchUserParts(info);
    var front := u.nick + "!" + u.username + "@";
    assert info == front + rest;
    assert Last(front) == '@';
    FinalNewline(front, rest);
  }

  /** A text after a front that does not end in a newline, with its final newline put aside. */
  lemma FinalNewline(front: string, rest: string)
    requires |front| > 0 && Last(front) != '\n'
    ensures front + rest == front + DropFinalNewline(rest) + (if Last(front + rest) == '\n' then "\n" else "")
  {
    if |rest| > 0 {
      assert Last(front + rest) == Last(rest);
      if Last(rest) == '\n' {
        assert rest == DropLast(rest) + "\n";
      }
    } else {
      assert front + rest == front;
    }
  }

  /** A user with a `!`-free nick, an `@`-free user name and no newline is matched back into its parts. */
  lemma MatchUserRoundTrip(nick: string, username: string, hostname: string)
    requires '!' !in nick && '@' !in username
    requires '\n' !in nick && '\n' !in username && '\n' !in hostname
    ensures MatchUser(nick + "!" + username + "@" + hostname) == Some(User(nick, username, hostname))
  {
    var info := nick + "!" + username + "@" + hostname;
    var afterBang := username + ['@'] + hostname;
    assert info == nick + ['!'] + afterBang;
    SplitOnceAt(nick, '!', afterBang);
    SplitOnceAt(username, '@', hostname);
    assert '\n' !in info;
    NewlineFree(info);
    if |hostname| > 0 {
      assert Last(hostname) in hostname;
    }
  }

  /** How a sender is written on the wire. */
  function SenderText(s: Sender): string {
    match s
    case User(nick, username, hostname) => nick + "!" + username + "@" + hostname
    case Server(hostname) => hostname
  }

  /** A sender whose written form this parser reads back as the same sender. */
  predicate Formattable(s: Sender) {
    match s
    case User(nick, username, hostname) =>
      '!' !in nick && '@' !in username
      && '\n' !in nick && '\n' !in username && '\n' !in hostname
      && ' ' !in nick && ' ' !in username && ' ' !in hostname
    case Server(hostname) => '!' !in hostname && ' ' !in hostname
  }

  /** Reading a written sender gives the sender back. */
  lemma SenderRoundTrip(s: Sender)
    requires Formattable(s)
    ensures SenderOf(SenderText(s)) == Ok(s)
    ensures ' ' !in SenderText(s)
  {
    if s.User? {
      MatchUserRoundTrip(s.nick, s.username, s.hostname);
      assert SenderText(s)[|s.nick|] == '!';
    }
  }

  // ---------------------------------------------------------------------
  // Command and arguments.

  /** An argument that can stand before the trailing one: no space, no leading `:`. */
  predicate Middle(arg: string) {
    ' ' !in arg && !IsTrailing(arg)
  }

  /** The text after the sender for a command, middle arguments and an optional trailing one. */
  function WireBody(command: string, middle: seq<string>, trailing: Option<string>): string {
    Join([command] + middle, " ") + (if trailing.Some? then " :" + trailing.value else "")
  }

  /** A whole server line with the `:` sender marker. */
  function WireLine(sender: Sender, command: string, middle: seq<string>, trailing: Option<string>): string {
    ":" + SenderText(sender) + " " + WireBody(command, middle, trailing)
  }

  /** The arguments a line written with `WireBody` carries. */
  function ArgsOf(middle: seq<string>, trailing: Option<string>): seq<string> {
    middle + (if trailing.Some? then [trailing.value] else [])
  }

  /** No token of a split on spaces contains a space. */
  lemma TokensHaveNoSpace(body: string)
    ensures forall k :: 0 <= k < |Tokens(body)| ==> ' ' !in Tokens(body)[k]
  {
    SplitPiecesFree(body, " ");
    forall k | 0 <= k < |Tokens(body)|
      ensures ' ' !in Tokens(body)[k]
    {
      ElementFree(Tokens(body)[k], ' ');
    }
  }

  /**
   * Parsing splits the line after the dropped marker at its first space:
   * the sender text before it has no space and is classified, and the text
   * after it makes the command and the arguments.
   */
  lemma ParseSplitsHeader(line: string)
    requires ServerMessageOf(line).Ok?
    ensures Header(line).Some?
    ensures var (info, body) := Header(line).value;
      var m := ServerMessageOf(line).value;
      && DropFirst(line) == info + " " + body && ' ' !in info
      && SenderOf(info) == Ok(m.sender)
      && m == MessageOf(m.sender, body)
  {
  }

  /** The command is the first space-separated token after the sender and has no space. */
  lemma CommandIsFirstToken(sender: Sender, body: string)
    ensures MessageOf(sender, body).command == Tokens(body)[0]
    ensures ' ' !in MessageOf(sender, body).command
  {
    TokensHaveNoSpace(body);
  }

  /**
   * Text without a trailing argument: the arguments are exactly the
   * space-separated tokens after the command, empty ones included, and
   * joining command and arguments with spaces gives the text back.
   */
  lemma ParseWithoutTrailing(sender: Sender, body: string)
    requires TrailingIndex(Tokens(body)[1..]).None?
    ensures var m := MessageOf(sender, body);
      && m.args == Tokens(body)[1..]
      && (forall k :: 0 <= k < |m.args| ==> Middle(m.args[k]))
      && body == WireBody(m.command, m.args, None)
  {
    var tokens := Tokens(body);
    JoinSplit(body, " ");
    TokensHaveNoSpace(body);
    assert tokens == [tokens[0]] + tokens[1..];
  }

  /**
   * Text with a trailing argument at token `n` after the command: there are
   * `n + 1` arguments, the first `n` are the tokens before it (none starts
   * with `:`), and the last is the text after that `:` exactly as it stood,
   * spaces included.
   */
  lemma ParseWithTrailing(sender: Sender, body: string)
    requires TrailingIndex(Tokens(body)[1..]).Some?
    ensures var m := MessageOf(sender, body);
      var n := TrailingIndex(Tokens(body)[1..]).value;
      && |m.args| == n + 1
      && m.args[..n] == Tokens(body)[1..n + 1]
      && (forall k :: 1 <= k <= n ==> Middle(Tokens(body)[k]))
      && body == WireBody(m.command, m.args[..n], Some(m.args[n]))
  {
    var tokens := Tokens(body);
    var n := TrailingIndex(tokens[1..]).value;
    var args := MergeTrailing(tokens[1..]);
    var m := MessageOf(sender, body);
    assert m.command == tokens[0] && m.args == args;
    assert |args| == n + 1 && args[..n] == tokens[1..n + 1] by {
      assert args[..n] == tokens[1..][..n];
    }
    assert body == WireBody(tokens[0], args[..n], Some(args[n])) by {
      JoinSplit(body, " ");
      TrailingRebuild(tokens);
    }
    assert forall k :: 1 <= k <= n ==> Middle(tokens[k]) by {
      TokensHaveNoSpace(body);
      MiddleBeforeTrailing(tokens);
    }
  }

  /** Tokens without a space before the first trailing one are middle arguments. */
  lemma MiddleBeforeTrailing(tokens: seq<string>)
    requires |tokens| >= 1 && TrailingIndex(tokens[1..]).Some?
    requires forall k :: 0 <= k < |tokens| ==> ' ' !in tokens[k]
    ensures forall k :: 1 <= k <= TrailingIndex(tokens[1..]).value ==> Middle(tokens[k])
  {
    forall k | 1 <= k <= TrailingIndex(tokens[1..]).value
      ensures Middle(tokens[k])
    {
      assert tokens[k] == tokens[1..][k - 1];
    }
  }

  /** Tokens whose trailing part was merged join back into the same text. */
  lemma TrailingRebuild(tokens: seq<string>)
    requires |tokens| >= 1 && TrailingIndex(tokens[1..]).Some?
    ensures var args := MergeTrailing(tokens[1..]);
      var n := TrailingIndex(tokens[1..]).value;
      Join(tokens, " ") == Join([tokens[0]] + args[..n], " ") + " :" + args[n]
  {
    var rest := tokens[1..];
    var args := MergeTrailing(rest);
    var n := TrailingIndex(rest).value;
    JoinAt(tokens, n + 1, " ");
    var front := Join([tokens[0]] + args[..n], " ");
    assert tokens[..n + 1] == [tokens[0]] + args[..n];
    assert Join(tokens[..n + 1], " ") == front;
    assert tokens[n + 1..] == rest[n..];
    assert Join(tokens[n + 1..], " ") == ":" + args[n];
    TrailingGlue(front, args[n]);
  }

  /** Gluing the trailing argument on with a space and its `:`. */
  lemma TrailingGlue(front: string, trailing: string)
    ensures front + " " + (":" + trailing) == front + " :" + trailing
  {
  }

  /** Neither the command nor a middle argument holds the space separator. */
  lemma PiecesFree(command: string, middle: seq<string>)
    requires ' ' !in command
    requires forall k :: 0 <= k < |middle| ==> Middle(middle[k])
    ensures forall k :: 0 <= k < |[command] + middle| ==> !Contains(([command] + middle)[k], " ")
  {
    var pieces := [command] + middle;
    forall k | 0 <= k < |pieces|
      ensures !Contains(pieces[k], " ")
    {
      ElementFree(pieces[k], ' ');
    }
  }

  /** Without a trailing argument the tokens are the command and the middle arguments. */
  lemma BodyTokens(command: string, middle: seq<string>)
    requires ' ' !in command
    requires forall k :: 0 <= k < |middle| ==> Middle(middle[k])
    ensures Tokens(WireBody(command, middle, None)) == [command] + middle
  {
    PiecesFree(command, middle);
    SingleNoSelfOverlap(' ');
    assert WireBody(command, middle, None) == Join([command] + middle, " ");
    SplitJoin([command] + middle, " ");
  }

  /** With a trailing argument the tokens are those, then the split of the `:` and the trailing text. */
  lemma BodyTokensTrailing(command: string, middle: seq<string>, trailing: string)
    requires ' ' !in command
    requires forall k :: 0 <= k < |middle| ==> Middle(middle[k])
    ensures Tokens(WireBody(command, middle, Some(trailing))) == [command] + middle + Split(":" + trailing, " ")
  {
    var pieces := [command] + middle;
    PiecesFree(command, middle);
    SingleNoSelfOverlap(' ');
    TrailingGlue(Join(pieces, " "), trailing);
    assert WireBody(command, middle, Some(trailing)) == Join(pieces, " ") + " " + (":" + trailing);
    SplitJoinThen(pieces, " ", ":" + trailing);
  }

  /** Middle arguments followed by the split of a `:` text merge back into them and that text. */
  lemma MergeAfterMiddle(middle: seq<string>, trailing: string)
    requires forall k :: 0 <= k < |middle| ==> Middle(middle[k])
    ensures MergeTrailing(middle + Split(":" + trailing, " ")) == middle + [trailing]
  {
    var last := ":" + trailing;
    var tail := Split(last, " ");
    var tokens := middle + tail;
    assert !(" " <= last);
    assert IsTrailing(tail[0]);
    assert tokens[|middle|] == tail[0];
    forall k | 0 <= k < |middle|
      ensures !IsTrailing(tokens[k])
    {
      assert tokens[k] == middle[k];
    }
    assert TrailingIndex(tokens) == Some(|middle|);
    assert tokens[..|middle|] == middle && tokens[|middle|..] == tail;
    JoinSplit(last, " ");
    var args := MergeTrailing(tokens);
    assert args == args[..|middle|] + [args[|middle|]];
  }

  /**
   * The converse: text written from a command, middle arguments and an
   * optional trailing argument gives back exactly those.
   */
  lemma BodyFormatted(sender: Sender, command: string, middle: seq<string>, trailing: Option<string>)
    requires ' ' !in command
    requires forall k :: 0 <= k < |middle| ==> Middle(middle[k])
    ensures MessageOf(sender, WireBody(command, middle, trailing)) == ServerMessage(sender, command, ArgsOf(middle, trailing))
  {
    var body := WireBody(command, middle, trailing);
    if trailing.None? {
      BodyTokens(command, middle);
      assert Tokens(body)[1..] == middle;
    } else {
      var tail := Split(":" + trailing.value, " ");
      BodyTokensTrailing(command, middle, trailing.value);
      assert Tokens(body)[1..] == middle + tail;
      MergeAfterMiddle(middle, trailing.value);
    }
  }

  /** A line cut after its marker at a space that the sender text does not contain. */
  lemma HeaderOfWire(info: string, body: string)
    requires ' ' !in info
    ensures Header(":" + info + " " + body) == Some((info, body))
  {
    assert DropFirst(":" + info + " " + body) == info + [' '] + body;
    SplitOnceAt(info, ' ', body);
  }

  /**
   * A line written from a sender, a command, middle arguments and an
   * optional trailing argument parses back into exactly those.
   */
  lemma ParseFormatted(sender: Sender, command: string, middle: seq<string>, trailing: Option<string>)
    requires Formattable(sender) && ' ' !in command
    requires forall k :: 0 <= k < |middle| ==> Middle(middle[k])
    ensures ServerMessageOf(WireLine(sender, command, middle, trailing))
         == Ok(ServerMessage(sender, command, ArgsOf(middle, trailing)))
  {
    SenderRoundTrip(sender);
    HeaderOfWire(SenderText(sender), WireBody(command, middle, trailing));
    BodyFormatted(sender, command, middle, trailing);
  }

  /** A PRIVMSG line written from recipient and text yields that sender, recipient and text. */
  lemma PrivmsgFromWire(sender: Sender, recipient: string, text: string)
    requires Formattable(sender) && Middle(recipient)
    ensures match ServerMessageOf(WireLine(sender, "PRIVMSG", [recipient], Some(text)))
      case Ok(m) => PrivmsgOf(m) == Ok(PrivmsgMessage(sender, recipient, text))
      case Err(_) => false
  {
    ParseFormatted(sender, "PRIVMSG", [recipient], Some(text));
  }

  /** A line with one middle argument, written out. */
  lemma WireLineOne(sender: Sender, command: string, m: string, trailing: Option<string>)
    ensures WireLine(sender, command, [m], trailing)
         == ":" + SenderText(sender) + " " + command + " " + m
            + (if trailing.Some? then " :" + trailing.value else "")
  {
    JoinFront(command, [m], " ");
    var joined := Join([command] + [m], " ");
    assert joined == command + " " + m;
    var tail := if trailing.Some? then " :" + trailing.value else "";
    assert WireLine(sender, command, [m], trailing) == ":" + SenderText(sender) + " " + (joined + tail);
  }

  /** `:srv CMD x`: a sender without `!` is a server. */
  lemma ServerLineExample()
    ensures ServerMessageOf(":srv CMD x") == Ok(ServerMessage(Server("srv"), "CMD", ["x"]))
  {
    var sender := Server("srv");
    assert Formattable(sender);
    ServerLineText();
    ParseFormatted(sender, "CMD", ["x"], None);
    assert ArgsOf(["x"], None) == ["x"];
  }

  /** How the server line of the example is written. */
  lemma ServerLineText()
    ensures WireLine(Server("srv"), "CMD", ["x"], None) == ":srv CMD x"
  {
    WireLineOne(Server("srv"), "CMD", "x", None);
  }
}
