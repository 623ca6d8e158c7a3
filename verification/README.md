# Chat server engine, modelled in Dafny

This project models the server side of a UDP chat room written in Java, with
the sockets left out. The pieces modelled are:

- the username registry (`UserManager`, in the `common/` tree and the `test2/` tree);
- the capacity-bounded set of connected accounts (`Users`);
- the bounded message history (`MessageHistoryManager`, limit 10);
- the chat `Message` and its `[user] text` rendering;
- the command table (`CommandFactory`);
- the server's split of received text into commands and chat lines (`UDPServer`);
- the sending primitives of `AbstractUDPServer`: unicast, error reply, broadcast and disconnection;
- the command handlers of both trees: login, exit or disconnect, list users, private message;
- the comma-separated sign-on parser (`test/ConnectionHandler`).

Every operation is a pure function or a method over immutable values. A
handler gets the state and its input. It returns the new state, plus the
datagrams it sent or the calls it made on the server. A Java exception that
escapes a handler is a `Fault` value. Any datagrams sent before the exception
are kept.

Files and modules:

| file | module | covers |
|---|---|---|
| `base.dfy` | `Base` | `null` as `Option`, escaping exceptions, endpoints, enumeration of a hash set |
| `java_text.dfy` | `JavaText` | `startsWith`, `indexOf`, `String.split` with limit 0 and limit 2, `String.join` |
| `model.dfy` | `Model` | both `User` records, `Message`, `toString` and its inverse |
| `history.dfy` | `History` | the bounded history |
| `user_registry.dfy` | `UserRegistry` | `UserManager` of both trees |
| `user_set.dfy` | `UserSet` | `Users` |
| `command_factory.dfy` | `CommandFactory` | the command table and instantiation |
| `registry_commands.dfy` | `RegistryCommands` | login (both trees); `test2` exit, list users and private message |
| `server.dfy` | `ChatServer` | `AbstractUDPServer` state, sending, broadcast, disconnection |
| `server_commands.dfy` | `ServerCommands` | `common/` list users, private message and disconnect |
| `udp_server.dfy` | `UdpServer` | `UDPServer` command table, tokenising, dispatch, error replies |
| `connection_handler.dfy` | `ConnectionHandler` | the `name,password,ip` sign-on |

Hash iteration order. `HashMap` and `HashSet` iteration order is
unspecified. Every loop over one is a method that picks the next element
arbitrarily (`:|`). The order it used is returned as an out-parameter, and
contracts speak of "every element exactly once" (`Base.Enumerates`), never of
a fixed order.

Two command worlds. The source holds two sets of command classes that do not
compile against one server.

- The `test2` commands and the login command talk to a server with a
  `UserManager`, `broadcastMessage(Message, sender)` and `sendHistory`. That
  server class is not part of this model. Its calls are therefore returned as
  effects (`RegistryCommands.Effect`) and not expanded.
- The `common/` disconnect, list-users and private-message commands talk to
  `AbstractUDPServer`. They are modelled against `ChatServer.Server` and
  produce concrete datagrams.

Where the code behaves otherwise than the chat room is documented to, the model follows the code:

- `UDPServer` broadcasts a chat line as received. It is not wrapped as
  `[user] text` and not added to the history. A sender with no account is not
  refused. The broadcast's sender test compares each `userPorts` name with
  the sender's address, so a sender whose name differs from its address text
  is sent its own line back (see "## Findings").
- The factory registers `login`, `users`, `private` and `exit` without the
  command symbol. `UDPServer` adds only `/users`, `/exit` and `/private`. So
  `/login` is answered `[Error] Unknown command: /login`, and the reply keeps
  the `/` of the token.
- `DisconnectCommand` broadcasts `<name> has left the chat.` twice: once inside
  `disconnectUser` and once itself.
- Java's `split` drops trailing empty fields. So `bob,pw,10.0.0.1,,` is a
  well-formed sign-on, and `/private bob ` has one argument.
- Nothing in the server tree ever adds to `connectedUsers` or `userPorts`. The
  server operations are therefore stated for every state, not only reachable
  ones.

## Model

| member | source | states |
|---|---|---|
| `JavaText.SplitOnce` | src/server/UDPServer.java:40 | `split(" ", 2)`: two parts exactly when the separator occurs; the first has no separator and the parts rejoin to the input; otherwise the one part is the input |
| `JavaText.Split` | src/server/UDPServer.java:42 | `split(" ")`: the fields contain no separator, are a prefix of all separator-delimited fields, and only empty fields are dropped, none of them before a non-empty one |
| `Model.Render` | src/common/model/Message.java:69-72 | the rendering is `[`, the username, `] `, the text: length and the position of every part |
| `Model.RenderRoundTrip` | src/test2/common/model/Message.java:20-23 | for a username without `]`, the rendering can be read back into exactly that username and text |
| `Model.SetText` | src/common/model/Message.java:60-62 | only the text changes; the rendered author prefix is unchanged |
| `Model.SetUser` | src/common/model/Message.java:51-53 | only the author changes; the rendered text suffix is unchanged |
| `History.AddMessage` | src/common/data/MessageHistoryManager.java:42-53 | the new message is last; below the limit nothing is evicted; at or above it only index 0 is evicted |
| `History.HistorySnapshot` | src/common/data/MessageHistoryManager.java:42-65 | after any messages are added to a new manager, `getHistory` (`GetHistory`) returns the newest 10 of them (all, when fewer), oldest first, each at its place in the sequence added |
| `History.AddMessageBounded` | src/test2/common/data/MessageHistoryManager.java:16-21 | a history of at most 10 messages still has at most 10 after an append |
| `History.AddMessageKeepsOrder` | src/common/data/MessageHistoryManager.java:44-49 | the new history is a suffix of the old one followed by the new message, so retained messages keep their order |
| `History.AddAllKeepsLast` | src/test2/common/data/MessageHistoryManager.java:12-21 | from any history within the limit, a run of appends leaves the last 10 of old history plus new messages |
| `History.HistoryIsLastMessages` | src/common/data/MessageHistoryManager.java:32-53 | starting empty, after N appends the history is the last min(N, 10) messages in append order |
| `UserRegistry.AddUser` | src/common/data/UserManager.java:41-50 | succeeds exactly for a fresh name; a refusal changes nothing; success adds exactly name ↦ User(name, address); other entries untouched |
| `UserRegistry.RemoveUser` | src/test2/common/data/UserManager.java:23-25 | the name is gone and nothing else changes; removing an absent name is a no-op |
| `UserRegistry.GetUserByName` | src/common/data/UserManager.java:88-96 | `null` exactly when the name is not a key; otherwise the stored user |
| `UserRegistry.IsUserConnected` | src/test2/common/data/UserManager.java:48-50 | true exactly when lookup by name finds a user |
| `UserRegistry.AddedUserIsFound` | src/common/data/UserManager.java:120-122 | after adding a fresh name, it is connected and its lookup gives the user at the given address |
| `UserRegistry.SecondAddKeepsAddress` | src/test2/common/data/UserManager.java:15-21 | adding a taken name again is refused and keeps the first address |
| `UserRegistry.GetUserByAddress` | src/common/data/UserManager.java:70-80 | `null` exactly when no user has that address; otherwise a stored user with that address |
| `UserRegistry.GetUserList` | src/common/data/UserManager.java:103-112 | the heading, then every username exactly once, each followed by `, ` |
| `UserRegistry.UserListShape` | src/test2/common/data/UserManager.java:40-46 | the list has one entry per user and starts with the heading; an empty registry lists as the bare heading |
| `UserRegistry.OpsKeepEntries` | src/common/data/UserManager.java:41-62 | over any run of adds and removes, every user stays under its own name, and an entry not removed keeps its user |
| `UserSet.NewUsers` | src/common/util/data/Users.java:15-18 | a negative `maxUsers` throws `IllegalArgumentException` from `new HashSet<>(maxUsers)`; otherwise the new set is empty with capacity `maxUsers` |
| `UserSet.AddUser` | src/common/util/data/Users.java:20-38 | `null` and a full set are refused unchanged; otherwise true exactly for a non-member, which is then a member |
| `UserSet.DeleteUser` | src/common/util/data/Users.java:40-47 | `null` is refused; otherwise true exactly for a member, which is then absent |
| `UserSet.AmountUsers` | src/common/util/data/Users.java:53-71 | the count is zero exactly when the set is empty (`isEmpty`, modelled by `IsEmpty`) |
| `UserSet.AmountCountsMembers` | src/common/util/data/Users.java:69-71 | the count is the number of members met when iterating the set |
| `UserSet.AmountTracksChanges` | src/common/util/data/Users.java:20-47 | a successful add raises the count by one and a successful delete lowers it by one; a refused one leaves it |
| `UserSet.FullUntilDelete` | src/common/util/data/Users.java:26-51 | (`isFull`, modelled by `IsFull`: the size equals `MAX_USERS`) a full set refuses a newcomer unchanged; after one member is deleted it is no longer full, takes the newcomer, and is full again |
| `UserSet.UserNames` | src/common/util/data/Users.java:57-63 | exactly the names of the members, no more names than members |
| `UserSet.ApplyKeepsCapacity` | src/common/util/data/Users.java:26-31 | one add or delete keeps a set within a non-negative capacity |
| `UserSet.CapacityNeverExceeded` | src/common/util/data/Users.java:15-51 | from any set the constructor creates, no run of adds and deletes takes the size past `MAX_USERS` |
| `CommandFactory.RegisterCommand` | src/common/command/CommandFactory.java:51-53 | registration overwrites that name only; every other entry is kept |
| `CommandFactory.NewFactory` | src/common/command/CommandFactory.java:35-43 | exactly the `login`, `users`, `private` and `exit` entries, each under the name its class reports |
| `CommandFactory.CreateCommand` | src/common/command/CommandFactory.java:63-71 | `null` exactly for a name that is not a key; otherwise the registered kind with the context, or a reflection failure for a class without the context constructor |
| `CommandFactory.RegisterThenCreate` | src/common/command/CommandFactory.java:51-70 | a registered name is instantiated with its new kind; lookup is case-sensitive |
| `RegistryCommands.HandleConnect` | src/common/command/commands/LoginCommand.java:33-45 | registry change is exactly `addUser`; a taken name gets one reply and no broadcast; success broadcasts with no sender and then sends the history |
| `RegistryCommands.ConnectAnnouncement` | src/test2/common/command/commands/LoginCommand.java:40-43 | the success broadcast renders as `[<name>] is connected.` |
| `RegistryCommands.Login` | src/test2/common/command/commands/LoginCommand.java:26-31 | the name comes from the context user; a `null` user throws before anything happens |
| `RegistryCommands.LoginsKeepEntries` | src/test2/common/command/commands/LoginCommand.java:33-44 | over any run of logins, each name has one user under it and a logged-in user keeps its entry and address |
| `RegistryCommands.HandleDisconnect` | src/test2/common/command/commands/ExitCommand.java:31-39 | a user found by address is removed and `has disconnected.` is broadcast; no user found means no change and no effect |
| `RegistryCommands.SecondExitIsNoOp` | src/test2/common/command/commands/ExitCommand.java:33-38 | after the only user at an address exits, no user is found there, so a repeated exit is a no-op |
| `RegistryCommands.SharedAddressExitsTwice` | src/test2/common/command/commands/ExitCommand.java:33-36 | with two names at one address, either exit leaves a user at that address |
| `RegistryCommands.HandleUserList` | src/test2/common/command/commands/ListUsersCommand.java:29-35 | one datagram, to the client only: the Spanish heading and every name once |
| `RegistryCommands.HandlePrivateMessage` | src/test2/common/command/commands/PrivateMessageCommand.java:32-52 | (`PrivateOutcome`) no space: format error to the client; unknown target: not-found to the client; else one `[<sender>] [Private] <body>` to the target, or a throw when no user is at the client's address; registry unchanged |
| `RegistryCommands.PrivateMessage` | src/test2/common/command/commands/PrivateMessageCommand.java:26-30 | a `null` context user throws; otherwise the outcome is that of `handlePrivateMessage` with the context user's own name as the content, so that name is split into target and body |
| `ChatServer.NewServer` | src/server/AbstractUDPServer.java:28-33 | a negative `maxUsers` throws from the `Users` constructor; otherwise a new server has no users and no ports, is consistent (so its broadcasts and disconnections cannot throw for a missing member) and is within its capacity |
| `ChatServer.SendErrorMessage` | src/server/AbstractUDPServer.java:119-122 | exactly `[Error] ` followed by the text, to the given endpoint |
| `ChatServer.SendMessageToUser` | src/server/AbstractUDPServer.java:81-85 | throws for a `null` user or a name without a port; otherwise the text goes to the user's host at its name's port |
| `ChatServer.GetUserByName` | src/server/AbstractUDPServer.java:103-108 | `null` exactly when no member has the name; otherwise a member with it |
| `ChatServer.GetUserByAddress` | src/server/AbstractUDPServer.java:110-117 | `null` exactly when no member has that address text; otherwise such a member |
| `ChatServer.BroadcastAsWritten` | src/server/AbstractUDPServer.java:87-95 | as written: each entry not skipped by the key-against-address test is sent the text once; a name without a member throws |
| `ChatServer.SenderReceivesOwnBroadcast` | src/server/AbstractUDPServer.java:91-92 | a member whose name differs from its address is sent its own broadcast, at its own endpoint |
| `ChatServer.EchoExample` | src/server/AbstractUDPServer.java:88-93 | alice at 10.0.0.1:5000 broadcasting is among the recipients, at her own endpoint |
| `ChatServer.Broadcast` | src/server/AbstractUDPServer.java:87-95 | corrected: no datagram goes to the sender's endpoint; every other entry gets the text once; throws exactly when some entry has no member; no sender excludes no one |
| `ChatServer.NoSenderSkipsNothing` | src/server/AbstractUDPServer.java:100 | with sender `(null, -1)` the source's test skips no entry |
| `ChatServer.RemovalKeepsConsistent` | src/server/AbstractUDPServer.java:97-99 | removing a member and its name's port keeps every port entry backed by a member |
| `ChatServer.DisconnectUser` | src/server/AbstractUDPServer.java:97-101 | the user leaves the set and `userPorts`, then `<name> has left the chat.` is broadcast; it throws `NullPointerException` exactly when a remaining `userPorts` name has no member, and otherwise every remaining entry is sent the line once; `null` throws with no change |
| `ServerCommands.ListUsers` | src/common/command/commands/ListUsersCommand.java:17-26 | one reply, to the requester only: `Connected users:` then every member's name once, each followed by a newline; nothing changes |
| `ServerCommands.PrivateMessage` | src/common/command/commands/PrivateMessageCommand.java:17-35 | fewer than two arguments: usage to the sender; a found recipient gets `[Private from <sender>] <rest joined by spaces>` and the sender nothing; otherwise not-found to the sender; nothing changes |
| `ServerCommands.Disconnect` | src/common/command/commands/DisconnectCommand.java:17-23 | the user leaves the set and `userPorts`; the departure is broadcast twice, the second time by `broadcastMessage` with the sender `(null, -1)`; it throws exactly when a remaining `userPorts` name has no member, and otherwise every remaining entry is told twice; `null` throws with no change |
| `UdpServer.ServerTable` | src/server/UDPServer.java:18-28 | the factory's four names plus `/users`, `/exit` and `/private`, mapped to their commands |
| `UdpServer.TokenLookup` | src/server/UDPServer.java:40-49 | a command's token starts with `/` and is found exactly when it is one of the three slash names, never a bare factory name |
| `UdpServer.TokenAndArguments` | src/server/UDPServer.java:40-42 | the token is `/` and the name up to the first space; the arguments are the rest split on spaces, or none without a space |
| `UdpServer.ErrorReply` | src/server/UDPServer.java:55-56 | a caught exception gives exactly one `[Error] Error processing command: <message>` datagram to the sender; no exception gives none |
| `UdpServer.Execute` | src/server/UDPServer.java:50 | (`Ran`) each command does what its class's `execute()` does: the full listing, the private-message cases, or the disconnection with its two announcements, throwing exactly when a remaining `userPorts` name has no member; all throw for a `null` user before sending or changing anything; only disconnect changes state |
| `UdpServer.RunCommand` | src/server/UDPServer.java:47-58 | the created command is run; its datagrams are followed by the processing-error reply exactly when it throws; only `/exit` changes state |
| `UdpServer.HandleCommand` | src/server/UDPServer.java:39-59 | (`CommandHandled`) unknown token: one `[Error] Unknown command: <token>` to the sender, no change; a slash name runs its table entry with the argument words and the user at the sender's address, then the error reply if it threw |
| `UdpServer.HandleClientMessage` | src/server/UDPServer.java:31-37 | a `/` text is handled as a command and never escapes an exception; any other text is broadcast as written: sent once to each entry the name-against-address test keeps, which may include the sender; it throws exactly when such an entry has no member |
| `UdpServer.HandleClientMessageIntended` | src/server/UDPServer.java:31-37 | with the corrected broadcast, a chat line never goes to the sender's endpoint and throws exactly when the state is inconsistent |
| `ConnectionHandler.HandleConnection` | src/test/ConnectionHandler.java:13-35 | not three fields: format reply; a taken name: the in-use reply, no change; a free name: `UnknownHostException` when the ip does not resolve, else the account is added under the name and welcomed; the reply starts with `Bienvenido` exactly when the map grew; nothing existing is changed |
| `ConnectionHandler.SignOnRegisters` | src/test/ConnectionHandler.java:14-30 | a `name,password,ip` sign-on of comma-free fields under a free name, with a resolving ip, registers exactly that account and is welcomed |
| `ConnectionHandler.DetailsRoundTrip` | src/test/ConnectionHandler.java:14-18 | `name,password,ip` built from comma-free fields with a non-empty ip is parsed back into those three fields |
| `ConnectionHandler.ConnectionsKeepEntries` | src/test/ConnectionHandler.java:20-26 | over any run of sign-ons, an account is never replaced and each stays under its own name |

## Left out

- Sockets, the receive loop, `start` and `stop`. Sending is the emission of a datagram value. The 1024-byte receive buffer is not modelled, so received texts are unbounded.
- Logging in every class. It leaves no trace in the state or the datagrams.
- DNS lookups in `common/model/User`. Whether `InetAddress.getByName` resolves, and to which host text, is a parameter of `ConnectionHandler.HandleConnection`.
- `common/data/UserManager` as compiled against `common/model/User`: it calls a two-argument constructor that class does not have, and compares the `String` from `getAddress()` with a socket address. The registry is modelled with the `test2` `User` record, name and socket address, for both trees.
- Client code, bootstrap mains and terminal styling. These are not part of the server engine.
- The `test2` server class. It is not part of this model. So its `broadcastMessage(Message, sender)`, `sendMessage` and `sendHistory` are returned as effects rather than expanded into datagrams, and whether its broadcast appends to the history is not stated.
- The wiring between files that does not compile as written. Examples: the login command's `execute(DatagramSocket)` against `execute()`, and `getCommand` against `getCommandName`. Each file's logic is modelled as written.
- Reflection in `createCommand`. A class is a `CommandKind`. The exception text for a missing constructor follows the JVM's format.
- `Base.Describe`: for a `NullPointerException`, the text the JVM would put in `getMessage()` is not reproduced. The model uses a fixed description of the dereferenced value instead. For an `UnknownHostException` the message is the host text alone; the resolver's reason is not modelled.
- `Message.getUser` and `getText`. They are the datatype's fields, so they need no member of their own.
- The `test2` message's immutability. It holds by construction: a Dafny datatype value cannot change.
- `RegistryCommands.HandleConnect`: "login never adds to the history" holds because no effect adds to it. No history value is passed, so no member states it.

## Findings

| source | as written | input that shows it | evidently intended | confidence | as-written member | corrected member |
|---|---|---|---|---|---|---|
| src/server/AbstractUDPServer.java:88-92 | each `userPorts` entry is skipped only when its key, a username, equals the sender's address text and its port equals the sender's port | member alice with host `10.0.0.1`, `userPorts` = {alice ↦ 5000}; alice sends `hi` from `10.0.0.1:5000`; `hi` is sent back to `10.0.0.1:5000` (lemmas `ChatServer.SenderReceivesOwnBroadcast` and `ChatServer.EchoExample`) | skip the entry whose user's endpoint is the sender's, so a sender does not receive its own chat line | not executed | `ChatServer.BroadcastAsWritten` | `ChatServer.Broadcast` |
