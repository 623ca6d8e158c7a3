/** The command handlers that work on the username registry: login (the
    same code in `common/command/commands/LoginCommand` and
    `test2/common/command/commands/LoginCommand`) and the `test2` exit,
    list-users and private-message commands. The server they call into is
    not part of this model, so a handler returns the calls it makes on it as
    effects: a datagram to one endpoint, a broadcast of a message, or a
    replay of the history. */
module RegistryCommands {
  import opened Base
  import opened Model
  import opened UserRegistry
  import JavaText

  datatype Effect =
    | Deliver(to: Endpoint, text: string)                   // server.sendMessage(text, to)
    | Broadcast(message: Message, sender: Option<Endpoint>)  // server.broadcastMessage(message, sender)
    | SendHistory(to: Endpoint)                             // server.sendHistory(to)

  /** The handler context: the user it carries (which the login and private
      commands read their argument from) and the client's address. */
  datatype Context = Context(user: Option<User>, client: Endpoint)

  /** A handler either finishes, with the new registry and its effects, or
      throws before changing anything. */
  datatype Outcome = Done(registry: Registry, effects: seq<Effect>) | Threw(fault: Fault)

  const NameTaken: string := "User already exists. Try another name."
  const ConnectedText: string := "is connected."
  const DisconnectedText: string := "has disconnected."
  const PrivateFormatError: string := "Incorrect format. Use: /private <target_user> <message>"
  const NullContextUser: Fault := NullPointer("context.getUser() is null")

  /** `handleConnect`: registers the name for the client's address, or, when
      the name is taken, tells the client so and nothing else happens. On
      success it announces `[<name>] is connected.` to everyone (no sender is
      excluded) and then replays the history to the client. */
  function HandleConnect(reg: Registry, username: string, client: Endpoint): (o: Outcome)
    ensures o.Done?
    ensures o.registry == AddUser(reg, username, client).1
    ensures username in reg ==> o.registry == reg && o.effects == [Deliver(client, NameTaken)]
    ensures username !in reg ==> o.effects == [Broadcast(Message(User(username, client), ConnectedText), None), SendHistory(client)]
  {
    var added := AddUser(reg, username, client);
    if !added.0 then Done(reg, [Deliver(client, NameTaken)])
    else
      var newUser := added.1[username];
      Done(added.1, [Broadcast(Message(newUser, ConnectedText), None), SendHistory(client)])
  }

  /** The announcement of a successful login reads `[<name>] is connected.` */
  lemma ConnectAnnouncement(reg: Registry, username: string, client: Endpoint)
    requires username !in reg
    ensures HandleConnect(reg, username, client).effects[0].Broadcast?
    ensures Render(HandleConnect(reg, username, client).effects[0].message) == "[" + username + "] is connected."
  {
  }

  /** `LoginCommand.execute`: the requested name is the context user's name. */
  function Login(reg: Registry, ctx: Context): (o: Outcome)
    ensures ctx.user.None? ==> o == Threw(NullContextUser)
    ensures ctx.user.Some? ==> o == HandleConnect(reg, ctx.user.value.username, ctx.client)
  {
    if ctx.user.None? then Threw(NullContextUser)
    else HandleConnect(reg, ctx.user.value.username, ctx.client)
  }

  /** Login attempts one after the other, each a name and a client address. */
  function LoginAll(reg: Registry, attempts: seq<(string, Endpoint)>): Registry
    decreases |attempts|
  {
    if |attempts| == 0 then reg
    else LoginAll(HandleConnect(reg, attempts[0].0, attempts[0].1).registry, attempts[1..])
  }

  /** Over any sequence of logins every name has at most one user, stored
      under it, and a user already logged in keeps its entry, address
      included. */
  lemma {:induction false} LoginsKeepEntries(reg: Registry, attempts: seq<(string, Endpoint)>)
    requires Keyed(reg)
    ensures Keyed(LoginAll(reg, attempts))
    ensures forall n :: n in reg ==> n in LoginAll(reg, attempts) && LoginAll(reg, attempts)[n] == reg[n]
    decreases |attempts|
  {
    if |attempts| > 0 {
      var next := HandleConnect(reg, attempts[0].0, attempts[0].1).registry;
      LoginsKeepEntries(next, attempts[1..]);
    }
  }

  /** `ExitCommand.handleDisconnect`: the leaving user is found by the
      client's address; if there is one, its name is removed and
      `[<name>] has disconnected.` is announced to everyone; if there is none,
      nothing happens. `left` is the user found. */
  method HandleDisconnect(reg: Registry, client: Endpoint) returns (r: Registry, effects: seq<Effect>, left: Option<User>)
    ensures left.None? <==> !HasUserAt(reg, client)
    ensures left.None? ==> r == reg && effects == []
    ensures left.Some? ==> left.value in reg.Values && left.value.address == client
    ensures left.Some? ==> r == RemoveUser(reg, left.value.username)
    ensures left.Some? ==> effects == [Broadcast(Message(left.value, DisconnectedText), None)]
  {
    left := GetUserByAddress(reg, client);
    if left.Some? {
      r := RemoveUser(reg, left.value.username);
      effects := [Broadcast(Message(left.value, DisconnectedText), None)];
    } else {
      r, effects := reg, [];
    }
  }

  /** A second exit from the same address is a no-op, provided that address
      belonged to one user only. */
  lemma SecondExitIsNoOp(reg: Registry, client: Endpoint, leaving: User)
    requires Keyed(reg)
    requires leaving.username in reg && reg[leaving.username] == leaving && leaving.address == client
    requires forall n :: n in reg && reg[n].address == client ==> n == leaving.username
    ensures !HasUserAt(RemoveUser(reg, leaving.username), client)
  {
  }

  /** When two names share an address, a second exit from it removes the
      other one: exit is not idempotent in general. */
  lemma SharedAddressExitsTwice(a: string, b: string, client: Endpoint)
    requires a != b
    ensures var reg := map[a := User(a, client), b := User(b, client)];
            HasUserAt(RemoveUser(reg, a), client) && HasUserAt(RemoveUser(reg, b), client)
  {
    var reg := map[a := User(a, client), b := User(b, client)];
    assert RemoveUser(reg, a)[b].address == client;
    assert RemoveUser(reg, b)[a].address == client;
  }

  /** `test2` `ListUsersCommand.handleUserList`: the registry's user list,
      with the Spanish heading, goes to the client only. */
  method HandleUserList(reg: Registry, client: Endpoint) returns (effects: seq<Effect>, order: seq<string>)
    ensures Enumerates(order, reg.Keys)
    ensures effects == [Deliver(client, SpanishHeading + JavaText.Listing(order, ListSeparator))]
  {
    var text;
    text, order := GetUserList(reg, SpanishHeading);
    effects := [Deliver(client, text)];
  }

  /** What `test2`'s `PrivateMessageCommand.handlePrivateMessage(content,
      client)` does: the content is split once at its first space into target
      and body. Without a space the client gets the format error; an unknown
      target gets `User <t> not found.` back to the client; otherwise exactly
      one datagram `[<sender>] [Private] <body>` goes to the target's address,
      the sender `author` being whoever is registered at the client's address
      (when no one is, rendering the message throws). The registry is never
      changed. */
  ghost predicate PrivateOutcome(reg: Registry, content: string, client: Endpoint, o: Outcome, author: Option<User>)
  {
    && (o.Done? ==> o.registry == reg)
    && (' ' !in content ==> o == Done(reg, [Deliver(client, PrivateFormatError)]))
    && (' ' in content && JavaText.SplitOnce(content, ' ')[0] !in reg ==>
          o == Done(reg, [Deliver(client, "User " + JavaText.SplitOnce(content, ' ')[0] + " not found.")]))
    && (' ' in content && JavaText.SplitOnce(content, ' ')[0] in reg ==>
          var target := JavaText.SplitOnce(content, ' ')[0];
          var body := JavaText.SplitOnce(content, ' ')[1];
          && (author.None? <==> !HasUserAt(reg, client))
          && (author.None? ==> o.Threw?)
          && (author.Some? ==>
                && author.value in reg.Values && author.value.address == client
                && o == Done(reg, [Deliver(reg[target].address, "[" + author.value.username + "] [Private] " + body)])))
  }

  /** `test2` `PrivateMessageCommand.handlePrivateMessage`. */
  method HandlePrivateMessage(reg: Registry, content: string, client: Endpoint) returns (o: Outcome, author: Option<User>)
    ensures PrivateOutcome(reg, content, client, o, author)
  {
    var parts := JavaText.SplitOnce(content, ' ');
    author := None;
    if |parts| < 2 {
      return Done(reg, [Deliver(client, PrivateFormatError)]), author;
    }
    var target := GetUserByName(reg, parts[0]);
    if target.Some? {
      author := GetUserByAddress(reg, client);
      if author.None? {
        return Threw(NullPointer("the private message has a null author")), author;
      }
      var text := Render(Message(author.value, "[Private] " + parts[1]));
      assert "] " + "[Private] " == "] [Private] ";
      assert text == "[" + author.value.username + "] [Private] " + parts[1];
      return Done(reg, [Deliver(target.value.address, text)]), author;
    }
    return Done(reg, [Deliver(client, "User " + parts[0] + " not found.")]), author;
  }

  /** `test2` `PrivateMessageCommand.execute`: the content handed to
      `handlePrivateMessage` is the context user's name, not the text the
      client typed, so the user's name is what gets split into target and
      body. A `null` context user throws first. */
  method PrivateMessage(reg: Registry, ctx: Context) returns (o: Outcome, author: Option<User>)
    ensures ctx.user.None? ==> o == Threw(NullContextUser) && author.None?
    ensures ctx.user.Some? ==> PrivateOutcome(reg, ctx.user.value.username, ctx.client, o, author)
    ensures o.Done? ==> o.registry == reg && |o.effects| == 1 && o.effects[0].Deliver?
  {
    if ctx.user.None? {
      return Threw(NullContextUser), None;
    }
    o, author := HandlePrivateMessage(reg, ctx.user.value.username, ctx.client);
  }
}
