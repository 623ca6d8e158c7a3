/** `server/UDPServer`: classifies each received text as a command or a chat
    line, tokenises commands, looks them up in the command table, runs them,
    and turns unknown names and escaping exceptions into error replies. */
module UdpServer {
  import opened Base
  import opened Model
  import opened ChatServer
  import opened ServerCommands
  import opened CommandFactory
  import JavaText

  /** `COMMAND_SYMBOL` of `UDPServer`, as text. */
  const CommandPrefix: string := [CommandSymbol]

  /** The names `UDPServer` registers on top of the factory's own. */
  const SlashNames: set<string> := {"/users", "/exit", "/private"}

  /** The table after `new UDPServer(...)`: the factory's four bare names
      plus `/users`, `/exit` and `/private`. */
  function ServerTable(): (t: Table)
    ensures t.Keys == {"login", "users", "private", "exit"} + SlashNames
    ensures t["/users"] == ListUsersCommand
    ensures t["/exit"] == DisconnectCommand
    ensures t["/private"] == PrivateMessageCommand
    ensures forall name :: name in NewFactory() ==> t[name] == NewFactory()[name]
  {
    assert CommandPrefix + "users" == "/users" && CommandPrefix + "exit" == "/exit" && CommandPrefix + "private" == "/private";
    var factory := NewFactory();
    assert forall name :: name in factory ==> name !in SlashNames by {
      assert "login"[0] != '/' && "users"[0] != '/' && "private"[0] != '/' && "exit"[0] != '/';
      assert "/users"[0] == '/' && "/exit"[0] == '/' && "/private"[0] == '/';
    }
    var t1 := RegisterCommand(factory, CommandPrefix + CommandName(ListUsersCommand), ListUsersCommand);
    var t2 := RegisterCommand(t1, CommandPrefix + CommandName(DisconnectCommand), DisconnectCommand);
    RegisterCommand(t2, CommandPrefix + CommandName(PrivateMessageCommand), PrivateMessageCommand)
  }

  /** The command classes that have the `execute()` the server calls. */
  predicate Executable(kind: CommandKind)
  {
    kind.ListUsersCommand? || kind.PrivateMessageCommand? || kind.DisconnectCommand?
  }

  /** Each slash name is in the table under an executable command, and only
      `/exit` is the disconnect command. */
  lemma SlashKinds(token: string)
    requires token in SlashNames
    ensures token in ServerTable() && Executable(ServerTable()[token])
    ensures ServerTable()[token].DisconnectCommand? <==> token == "/exit"
  {
    assert token == "/users" || token == "/exit" || token == "/private";
  }

  /** The command token: everything before the first space, `/` included. */
  function CommandToken(command: string): string
  {
    JavaText.SplitOnce(command, ' ')[0]
  }

  /** The argument words: what follows the first space, split on spaces
      (trailing empty words dropped), or none when there is no space. */
  function Arguments(command: string): seq<string>
  {
    var parts := JavaText.SplitOnce(command, ' ');
    if |parts| > 1 then JavaText.Split(parts[1], ' ') else []
  }

  /** A command's token starts with the command symbol, and is a table key
      exactly when it is one of the three names `UDPServer` registers; the
      factory's bare `login`, `users`, `private` and `exit` can never match. */
  lemma TokenLookup(command: string)
    requires JavaText.StartsWith(command, CommandPrefix)
    ensures JavaText.StartsWith(CommandToken(command), CommandPrefix)
    ensures CommandToken(command) in ServerTable() <==> CommandToken(command) in SlashNames
    ensures CommandToken(command) in ServerTable() ==> Executable(ServerTable()[CommandToken(command)])
  {
    var parts := JavaText.SplitOnce(command, ' ');
    var token := parts[0];
    if |parts| == 2 {
      assert token + [' '] + parts[1] == command;
      assert token[0] == command[0];
    }
    SlashedLookup(token);
  }

  /** A name starting with `/` is a table key exactly when it is a slash
      name, and then it names an executable command. */
  lemma SlashedLookup(token: string)
    requires |token| > 0 && token[0] == '/'
    ensures token in ServerTable() <==> token in SlashNames
    ensures token in ServerTable() ==> Executable(ServerTable()[token])
  {
    assert "login"[0] != '/' && "users"[0] != '/' && "private"[0] != '/' && "exit"[0] != '/';
    if token in SlashNames {
      SlashKinds(token);
    }
  }

  /** A token and its argument text are recovered from the command text. */
  lemma TokenAndArguments(name: string, rest: string)
    requires ' ' !in name
    ensures CommandToken(CommandPrefix + name + " " + rest) == CommandPrefix + name
    ensures Arguments(CommandPrefix + name + " " + rest) == JavaText.Split(rest, ' ')
    ensures Arguments(CommandPrefix + name) == []
  {
    var token := CommandPrefix + name;
    JavaText.IndexOfAfterPrefix(token, ' ', rest);
    assert CommandPrefix + name + " " + rest == token + [' '] + rest;
    assert ' ' !in token;
  }

  /** `step` is what running a command of class `kind` in `ctx` leaves
      behind, as that class's `execute()` is written. */
  ghost predicate Ran(kind: CommandKind, srv: Server, ctx: Context, step: Step)
  {
    match kind
    case ListUsersCommand => ListedUsers(srv, ctx, step)
    case PrivateMessageCommand => PrivateMessaged(srv, ctx, step)
    case DisconnectCommand => Disconnected(srv, ctx, step)
    case _ => false
  }

  /** `commandObject.execute()` for the three executable commands: each
      does what its class's `execute()` does. Every one of them throws for a
      `null` user before sending or changing anything. */
  method Execute(srv: Server, kind: CommandKind, ctx: Context) returns (step: Step)
    requires Executable(kind)
    ensures Ran(kind, srv, ctx, step)
    ensures !kind.DisconnectCommand? ==> step.server == srv
    ensures ctx.user.None? ==> step == Step(srv, [], Some(NullUser))
  {
    if kind.ListUsersCommand? {
      var order;
      step, order := ListUsers(srv, ctx);
      assert ListedUsers(srv, ctx, step);
    } else if kind.PrivateMessageCommand? {
      var recipient;
      step, recipient := PrivateMessage(srv, ctx);
    } else {
      var reached;
      step, reached := Disconnect(srv, ctx);
      assert Disconnected(srv, ctx, step) by {
        if ctx.user.Some? {
          assert Announced(step.server, reached, step.sent, ctx.user.value.name + LeftChatSuffix);
        }
      }
    }
  }

  const UnknownCommand: string := "Unknown command: "
  const ProcessingError: string := "Error processing command: "

  /** The reply `handleCommand`'s exception handler sends the sender: one
      error line carrying the exception's message, or nothing. */
  function ErrorReply(fault: Option<Fault>, host: string, port: int): (r: seq<Datagram>)
    ensures fault.None? ==> r == []
    ensures fault.Some? ==> |r| == 1 && r[0].to == Endpoint(host, port)
    ensures fault.Some? ==> r[0].text == ErrorPrefix + ProcessingError + Describe(fault.value)
  {
    if fault.Some? then [SendErrorMessage(ProcessingError + Describe(fault.value), host, port)] else []
  }

  /** `user` is the member `getUserByAddress(host)` can return, `None`
      exactly when no member has that address. */
  ghost predicate FoundAt(srv: Server, host: string, user: Option<Account>)
  {
    && (user.None? <==> !HasMemberAt(srv, host))
    && (user.Some? ==> user.value in srv.connected.members && user.value.host == host)
  }

  /** The outcome of `handleCommand` for `command` from `host:port`: an
      unknown token gets one unknown-command reply and changes nothing; a
      known one runs its class's `execute()` with the argument words and the
      user at the sender's address, and its datagrams are followed by the
      processing-error reply when it throws. */
  ghost predicate CommandHandled(srv: Server, command: string, host: string, port: int, next: Server, sent: seq<Datagram>)
  {
    var token := CommandToken(command);
    if token !in SlashNames then
      next == srv && sent == [SendErrorMessage(UnknownCommand + token, host, port)]
    else
      exists user: Option<Account>, step: Step ::
        && FoundAt(srv, host, user)
        && Ran(ServerTable()[token], srv, Context(Arguments(command), user), step)
        && next == step.server
        && sent == step.sent + ErrorReply(step.fault, host, port)
  }

  /** The `try` block of `handleCommand` for a known token: create the
      command, run it, and if it throws, follow whatever it sent with the
      processing-error reply. */
  method RunCommand(srv: Server, token: string, ctx: Context, host: string, port: int)
    returns (next: Server, sent: seq<Datagram>, ghost step: Step)
    requires token in SlashNames
    ensures Ran(ServerTable()[token], srv, ctx, step)
    ensures next == step.server && sent == step.sent + ErrorReply(step.fault, host, port)
    ensures token != "/exit" ==> next == srv
    ensures ctx.user.None? ==> next == srv && sent == [SendErrorMessage(ProcessingError + Describe(NullUser), host, port)]
  {
    var table := ServerTable();
    var creation := CreateCommand(table, token, ctx);
    SlashKinds(token);
    var run := Execute(srv, creation.command.kind, ctx);
    next, sent, step := run.server, run.sent + ErrorReply(run.fault, host, port), run;
  }

  /** `handleCommand`: the token is looked up in the table. An unknown token
      runs nothing and gets exactly one `[Error] Unknown command: <token>`
      back at the sender's endpoint. A known one runs with a context of the
      argument words and the user found at the sender's address; an
      exception it throws is caught and reported to the sender as
      `[Error] Error processing command: <message>`. (The source's log line
      after a successful command reads the user's name, which would throw for
      a `null` user; that point is never reached with one, because every
      command has already thrown.) `ctx` is the context built. */
  method HandleCommand(srv: Server, command: string, host: string, port: int)
    returns (next: Server, sent: seq<Datagram>, ctx: Context)
    requires JavaText.StartsWith(command, CommandPrefix)
    ensures ctx.args == Arguments(command)
    ensures ctx.user.None? <==> !HasMemberAt(srv, host)
    ensures ctx.user.Some? ==> ctx.user.value in srv.connected.members && ctx.user.value.host == host
    ensures CommandToken(command) !in SlashNames ==>
              next == srv && sent == [SendErrorMessage(UnknownCommand + CommandToken(command), host, port)]
    ensures CommandToken(command) in SlashNames && ctx.user.None? ==>
              next == srv && sent == [SendErrorMessage(ProcessingError + Describe(NullUser), host, port)]
    ensures CommandToken(command) != "/exit" ==> next == srv
    ensures CommandHandled(srv, command, host, port, next, sent)
  {
    var token := CommandToken(command);
    var user := GetUserByAddress(srv, host);
    ctx := Context(Arguments(command), user);
    TokenLookup(command);
    var table := ServerTable();
    if token !in table {
      return srv, [SendErrorMessage(UnknownCommand + token, host, port)], ctx;
    }
    ghost var step;
    next, sent, step := RunCommand(srv, token, ctx, host, port);
    assert FoundAt(srv, host, user);
  }

  /** `handleClientMessage`: a text that starts with `/` is a command, and
      whatever happens while handling it, nothing escapes; any other text is
      broadcast unchanged by `broadcastMessage(message, address, port)`,
      whose sender test compares each `userPorts` name with the sender's
      address (see the findings). The broadcast is outside the exception
      handler, so a `userPorts` entry without a member ends it with an
      escaping exception. `reached` lists the entries told, in order. */
  method HandleClientMessage(srv: Server, message: string, host: string, port: int)
    returns (step: Step, reached: seq<string>)
    ensures JavaText.StartsWith(message, CommandPrefix) ==>
              step.fault.None? && CommandHandled(srv, message, host, port, step.server, step.sent)
    ensures !JavaText.StartsWith(message, CommandPrefix) ==>
              var recipients := RecipientsAsWritten(srv, Some(host), port);
              && step.server == srv
              && Announced(srv, reached, step.sent, message)
              && (forall i, j :: 0 <= i < j < |reached| ==> reached[i] != reached[j])
              && (forall i :: 0 <= i < |reached| ==> reached[i] in recipients)
              && (step.fault.None? <==> forall name :: name in recipients ==> HasMemberNamed(srv, name))
              && (step.fault.None? ==> Enumerates(reached, recipients))
  {
    if JavaText.StartsWith(message, CommandPrefix) {
      var next, sent, ctx := HandleCommand(srv, message, host, port);
      step, reached := Step(next, sent, None), [];
    } else {
      var sent, fault;
      sent, reached, fault := BroadcastAsWritten(srv, message, Some(host), port);
      step := Step(srv, sent, fault);
    }
  }

  /** `handleClientMessage` with the sender test `broadcastMessage` evidently
      intends: a chat line reaches every entry except the sender's own
      endpoint, and it completes exactly when the state is consistent. */
  method HandleClientMessageIntended(srv: Server, message: string, host: string, port: int)
    returns (step: Step, reached: seq<string>)
    ensures JavaText.StartsWith(message, CommandPrefix) ==>
              step.fault.None? && CommandHandled(srv, message, host, port, step.server, step.sent)
    ensures !JavaText.StartsWith(message, CommandPrefix) ==>
              && step.server == srv
              && Announced(srv, reached, step.sent, message)
              && (forall i :: 0 <= i < |step.sent| ==> step.sent[i].to != Endpoint(host, port))
              && (step.fault.None? <==> Consistent(srv))
  {
    if JavaText.StartsWith(message, CommandPrefix) {
      var next, sent, ctx := HandleCommand(srv, message, host, port);
      step, reached := Step(next, sent, None), [];
    } else {
      var sent, fault;
      sent, reached, fault := Broadcast(srv, message, Some(Endpoint(host, port)));
      step := Step(srv, sent, fault);
    }
  }
}
