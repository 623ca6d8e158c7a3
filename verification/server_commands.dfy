/** The commands `server/UDPServer` executes (`common/command/commands`):
    list users, private message and disconnect. Each runs against the server
    state with a context holding the argument words and the user resolved
    from the sender's address, which may be `null`. */
module ServerCommands {
  import opened Base
  import opened Model
  import opened UserSet
  import opened ChatServer
  import JavaText

  /** `common/command/CommandContext`: the argument words and the user. */
  datatype Context = Context(args: seq<string>, user: Option<Account>)

  const UsersHeading: string := "Connected users:\n"
  const NameTerminator: string := "\n"
  const PrivateUsage: string := "Usage: /private <user> <message>"

  /** The names of a sequence of accounts, in order. */
  function Names(accounts: seq<Account>): (r: seq<string>)
    ensures |r| == |accounts|
    ensures forall i :: 0 <= i < |r| ==> r[i] == accounts[i].name
  {
    if |accounts| == 0 then [] else [accounts[0].name] + Names(accounts[1..])
  }

  /** What `ListUsersCommand.execute` leaves behind: the state unchanged and
      one reply to the context user, `Connected users:` and then every
      member's name once, in some order. */
  ghost predicate ListedUsers(srv: Server, ctx: Context, step: Step)
  {
    exists order :: Enumerates(order, srv.connected.members)
      && step == Emit(srv, SendMessageToUser(srv, ctx.user, UsersHeading + JavaText.Listing(Names(order), NameTerminator)))
  }

  /** What `PrivateMessageCommand.execute` leaves behind, case by case: the
      usage line, the not-found reply, the throw for a `null` sender, or the
      message to a member with the recipient's name. */
  ghost predicate PrivateMessaged(srv: Server, ctx: Context, step: Step)
  {
    if |ctx.args| < 2 then step == Emit(srv, SendMessageToUser(srv, ctx.user, PrivateUsage))
    else if !HasMemberNamed(srv, ctx.args[0]) then
      step == Emit(srv, SendMessageToUser(srv, ctx.user, "User " + ctx.args[0] + " not found."))
    else if ctx.user.None? then step == Step(srv, [], Some(NullUser))
    else exists r :: r in srv.connected.members && r.name == ctx.args[0]
           && step == Emit(srv, SendMessageToUser(srv, Some(r),
                "[Private from " + ctx.user.value.name + "] " + JavaText.Join(ctx.args[1..], " ")))
  }

  /** What `DisconnectCommand.execute` leaves behind: the user out of the set
      and out of `userPorts`, and the departure announced. It throws exactly
      when a remaining `userPorts` name has no member (never when the state
      was consistent); otherwise every remaining entry is told twice. A
      `null` user throws first. */
  ghost predicate Disconnected(srv: Server, ctx: Context, step: Step)
  {
    if ctx.user.None? then step == Step(srv, [], Some(NullUser))
    else
      var user := ctx.user.value;
      var keys := step.server.ports.Keys;
      && step.server.connected == DeleteUser(srv.connected, ctx.user).1
      && step.server.ports == srv.ports - {user.name}
      && (step.fault.None? <==> Consistent(step.server))
      && (Consistent(srv) ==> step.fault.None?)
      && exists reached :: Announced(step.server, reached, step.sent, user.name + LeftChatSuffix)
           && (step.fault.None? ==>
                 && |reached| == 2 * |keys|
                 && Enumerates(reached[..|keys|], keys)
                 && Enumerates(reached[|keys|..], keys))
  }

  /** `ListUsersCommand.execute`: `Connected users:` and then one line per
      member, in the set's unspecified order (returned as `order`), sent to
      the requesting user alone. Nothing changes. */
  method ListUsers(srv: Server, ctx: Context) returns (step: Step, order: seq<Account>)
    ensures Enumerates(order, srv.connected.members)
    ensures |order| == |srv.connected.members|
    ensures step == Emit(srv, SendMessageToUser(srv, ctx.user, UsersHeading + JavaText.Listing(Names(order), NameTerminator)))
  {
    var remaining := srv.connected.members;
    var text := UsersHeading;
    order := [];
    while remaining != {}
      invariant remaining <= srv.connected.members
      invariant forall i, j :: 0 <= i < j < |order| ==> order[i] != order[j]
      invariant forall a :: a in order <==> a in srv.connected.members - remaining
      invariant text == UsersHeading + JavaText.Listing(Names(order), NameTerminator)
      decreases remaining
    {
      var a :| a in remaining;
      assert a !in order;
      assert Names(order + [a]) == Names(order) + [a.name];
      JavaText.ListingAppend(Names(order), a.name, NameTerminator);
      text := text + a.name + NameTerminator;
      order := order + [a];
      remaining := remaining - {a};
    }
    EnumerationSize(order, srv.connected.members);
    step := Emit(srv, SendMessageToUser(srv, ctx.user, text));
  }

  /** `PrivateMessageCommand.execute`: with fewer than two words the usage
      line goes back to the user; otherwise the first word names the
      recipient and the rest, joined with single spaces, is the body. A found
      recipient (`recipient`) gets `[Private from <sender>] <body>` and the
      sender gets nothing; otherwise the sender gets `User <name> not found.`
      Nothing changes. */
  method PrivateMessage(srv: Server, ctx: Context) returns (step: Step, recipient: Option<Account>)
    ensures step.server == srv
    ensures |ctx.args| < 2 ==> step == Emit(srv, SendMessageToUser(srv, ctx.user, PrivateUsage))
    ensures |ctx.args| >= 2 ==> (recipient.None? <==> !HasMemberNamed(srv, ctx.args[0]))
    ensures |ctx.args| >= 2 && recipient.None? ==>
              step == Emit(srv, SendMessageToUser(srv, ctx.user, "User " + ctx.args[0] + " not found."))
    ensures |ctx.args| >= 2 && recipient.Some? ==>
              && recipient.value in srv.connected.members && recipient.value.name == ctx.args[0]
              && (ctx.user.None? ==> step == Step(srv, [], Some(NullUser)))
              && (ctx.user.Some? ==> step == Emit(srv, SendMessageToUser(srv, recipient,
                    "[Private from " + ctx.user.value.name + "] " + JavaText.Join(ctx.args[1..], " "))))
    ensures PrivateMessaged(srv, ctx, step)
  {
    recipient := None;
    if |ctx.args| < 2 {
      return Emit(srv, SendMessageToUser(srv, ctx.user, PrivateUsage)), recipient;
    }
    var name := ctx.args[0];
    var body := JavaText.Join(ctx.args[1..], " ");
    recipient := GetUserByName(srv, name);
    if recipient.Some? {
      if ctx.user.None? {
        return Step(srv, [], Some(NullUser)), recipient;
      }
      step := Emit(srv, SendMessageToUser(srv, recipient, "[Private from " + ctx.user.value.name + "] " + body));
    } else {
      step := Emit(srv, SendMessageToUser(srv, ctx.user, "User " + name + " not found."));
    }
  }

  /** `DisconnectCommand.execute`: disconnects the context user and then
      broadcasts `<name> has left the chat.` once more with the sender
      `(null, -1)`, so every remaining entry is told twice; neither broadcast
      excludes anyone, and either throws when a remaining name has no
      member. `reached` lists
      the entries sent to, first by the disconnection and then by the second
      broadcast. */
  method Disconnect(srv: Server, ctx: Context) returns (step: Step, reached: seq<string>)
    ensures ctx.user.None? ==> step == Step(srv, [], Some(NullUser))
    ensures ctx.user.Some? ==>
              var user := ctx.user.value;
              && step.server.connected.members == srv.connected.members - {user}
              && step.server.connected.capacity == srv.connected.capacity
              && step.server.ports == srv.ports - {user.name}
              && |step.sent| == |reached|
              && forall i :: 0 <= i < |reached| ==> DeliveredTo(step.server, reached[i], step.sent[i], user.name + LeftChatSuffix)
    ensures ctx.user.Some? && Consistent(srv) ==>
              && step.fault.None?
              && |reached| == 2 * |step.server.ports|
              && Enumerates(reached[..|step.server.ports|], step.server.ports.Keys)
              && Enumerates(reached[|step.server.ports|..], step.server.ports.Keys)
    ensures ctx.user.Some? ==> (step.fault.None? <==> Consistent(step.server))
    ensures ctx.user.Some? && step.fault.None? ==>
              && |reached| == 2 * |step.server.ports|
              && Enumerates(reached[..|step.server.ports|], step.server.ports.Keys)
              && Enumerates(reached[|step.server.ports|..], step.server.ports.Keys)
  {
    var first, firstReached := DisconnectUser(srv, ctx.user);
    if first.fault.Some? {
      return first, firstReached;
    }
    var user := ctx.user.value;
    var text := user.name + LeftChatSuffix;
    var sent, secondReached, fault := BroadcastAsWritten(first.server, text, None, -1);
    NoSenderSkipsNothing(first.server, -1);
    ConcatDeliveries(first.server, firstReached, first.sent, secondReached, sent, text);
    step := Step(first.server, first.sent + sent, fault);
    reached := firstReached + secondReached;
    if fault.None? {
      var keys := first.server.ports.Keys;
      EnumerationSize(firstReached, keys);
      EnumerationSize(secondReached, keys);
      assert |first.server.ports| == |keys|;
      assert reached[..|first.server.ports|] == firstReached;
      assert reached[|first.server.ports|..] == secondReached;
    }
  }

  /** Two runs of deliveries, one after the other, are deliveries. */
  lemma ConcatDeliveries(srv: Server, r1: seq<string>, s1: seq<Datagram>, r2: seq<string>, s2: seq<Datagram>, text: string)
    requires |r1| == |s1| && |r2| == |s2|
    requires forall i :: 0 <= i < |r1| ==> DeliveredTo(srv, r1[i], s1[i], text)
    requires forall i :: 0 <= i < |r2| ==> DeliveredTo(srv, r2[i], s2[i], text)
    ensures |r1 + r2| == |s1 + s2|
    ensures forall i :: 0 <= i < |r1 + r2| ==> DeliveredTo(srv, (r1 + r2)[i], (s1 + s2)[i], text)
  {
    forall i | 0 <= i < |r1 + r2|
      ensures DeliveredTo(srv, (r1 + r2)[i], (s1 + s2)[i], text)
    {
      if i < |r1| {
        assert (r1 + r2)[i] == r1[i] && (s1 + s2)[i] == s1[i];
      } else {
        assert (r1 + r2)[i] == r2[i - |r1|] && (s1 + s2)[i] == s2[i - |r1|];
      }
    }
  }
}
