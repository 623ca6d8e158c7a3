/** The command table (`common/command/CommandFactory`). The source maps
    names to classes and instantiates them by reflection; here a name maps to
    the kind of command, and instantiation pairs the kind with the context. */
module CommandFactory {
  import opened Base

  /** `COMMAND_SYMBOL`: the character that marks a command. */
  const CommandSymbol: char := '/'

  /** The command classes of `common/command/commands`. */
  datatype CommandKind =
    | LoginCommand
    | ListUsersCommand
    | PrivateMessageCommand
    | ExitCommand        // a holder of the name "exit" with no constructor taking a context
    | DisconnectCommand

  /** The fully qualified class name reflection reports. */
  function ClassName(kind: CommandKind): string
  {
    "common.command.commands." +
    match kind
    case LoginCommand => "LoginCommand"
    case ListUsersCommand => "ListUsersCommand"
    case PrivateMessageCommand => "PrivateMessageCommand"
    case ExitCommand => "ExitCommand"
    case DisconnectCommand => "DisconnectCommand"
  }

  /** Whether the class declares the `(CommandContext)` constructor that
      `createCommand` looks up. */
  predicate HasContextConstructor(kind: CommandKind)
  {
    !kind.ExitCommand?
  }

  /** The name each command class reports (`getCommandName` or `getCommand`). */
  function CommandName(kind: CommandKind): string
  {
    match kind
    case LoginCommand => "login"
    case ListUsersCommand => "users"
    case PrivateMessageCommand => "private"
    case ExitCommand => "exit"
    case DisconnectCommand => "exit"
  }

  type Table = map<string, CommandKind>

  /** `registerCommand`: the name now maps to the kind, replacing any earlier
      entry; every other name keeps its entry. */
  function RegisterCommand(t: Table, name: string, kind: CommandKind): (r: Table)
    ensures r.Keys == t.Keys + {name}
    ensures r[name] == kind
    ensures forall n :: n in t && n != name ==> r[n] == t[n]
  {
    t[name := kind]
  }

  /** `new CommandFactory()`: exactly the login, users, private and exit
      entries, under their bare names (no command symbol). */
  function NewFactory(): (t: Table)
    ensures t.Keys == {"login", "users", "private", "exit"}
    ensures t["login"] == LoginCommand && t["users"] == ListUsersCommand
    ensures t["private"] == PrivateMessageCommand && t["exit"] == ExitCommand
    ensures forall name :: name in t ==> CommandName(t[name]) == name
  {
    var t0: Table := map[];
    var t1 := RegisterCommand(t0, CommandName(LoginCommand), LoginCommand);
    var t2 := RegisterCommand(t1, CommandName(ListUsersCommand), ListUsersCommand);
    var t3 := RegisterCommand(t2, CommandName(PrivateMessageCommand), PrivateMessageCommand);
    RegisterCommand(t3, CommandName(ExitCommand), ExitCommand)
  }

  /** An instantiated command: its kind and the context it was built with. */
  datatype Command<C> = Command(kind: CommandKind, context: C)

  /** What `createCommand` does: returns `null`, returns a command, or throws. */
  datatype Creation<C> = NotFound | Created(command: Command<C>) | Failed(fault: Fault)

  /** `createCommand`: `null` exactly when the name is not a key (names match
      exactly, case included); otherwise the registered kind built with the
      given context, or the reflection failure for a class without the
      context constructor. The table itself is not changed. */
  function CreateCommand<C>(t: Table, name: string, context: C): (r: Creation<C>)
    ensures r.NotFound? <==> name !in t
    ensures r.Created? ==> name in t && r.command.kind == t[name] && r.command.context == context
    ensures r.Failed? <==> name in t && !HasContextConstructor(t[name])
    ensures r.Failed? ==> r.fault == NoSuchConstructor(ClassName(t[name]))
  {
    if name !in t then NotFound
    else if HasContextConstructor(t[name]) then Created(Command(t[name], context))
    else Failed(NoSuchConstructor(ClassName(t[name])))
  }

  /** Lookup is exact: a name differing from every key, even only in case,
      finds nothing, and a fresh registration is found with the new kind. */
  lemma RegisterThenCreate<C>(t: Table, name: string, kind: CommandKind, context: C)
    requires HasContextConstructor(kind)
    ensures CreateCommand(RegisterCommand(t, name, kind), name, context) == Created(Command(kind, context))
    ensures CreateCommand(NewFactory(), "Login", context).NotFound?
  {
    assert "Login" !in NewFactory();
  }
}
