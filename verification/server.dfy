/** The session state and the sending primitives of `server/AbstractUDPServer`:
    the capacity-bounded set of connected accounts, the map from username to
    port (`userPorts`), unicast to a user, error replies, broadcast and
    disconnection. Sockets are not modelled: sending is the emission of a
    datagram value. */
module ChatServer {
  import opened Base
  import opened Model
  import opened UserSet

  /** `connectedUsers` and `userPorts`. */
  datatype Server = Server(connected: Users, ports: map<string, int>)

  /** One UDP datagram the server sends. */
  datatype Datagram = Datagram(to: Endpoint, text: string)

  /** What a server operation leaves behind: the new state, the datagrams it
      sent, and the exception that escaped it, if any. Datagrams sent before
      the exception stay sent. */
  datatype Step = Step(server: Server, sent: seq<Datagram>, fault: Option<Fault>)

  const ErrorPrefix: string := "[Error] "
  const LeftChatSuffix: string := " has left the chat."
  const NullUser: Fault := NullPointer("user is null")
  const NoPort: Fault := NullPointer("userPorts has no port for the user")

  /** `new UDPServer(port, maxUsers)`: no users and no ports, so every
      broadcast finds a member for every entry; construction throws exactly
      where `new Users(maxUsers)` does. */
  function NewServer(maxUsers: int): (r: Result<Server>)
    ensures r.Err? <==> maxUsers < 0
    ensures r.Ok? ==> Consistent(r.value) && WithinCapacity(r.value.connected)
    ensures r.Ok? ==> r.value.connected.capacity == maxUsers && AmountUsers(r.value.connected) == 0 && |r.value.ports| == 0
  {
    match NewUsers(maxUsers)
    case Ok(users) => Ok(Server(users, map[]))
    case Err(f) => Err(f)
  }

  /** `sendErrorMessage`: exactly `[Error] <text>` to the given endpoint. */
  function SendErrorMessage(text: string, host: string, port: int): (d: Datagram)
    ensures d.to == Endpoint(host, port)
    ensures |d.text| == |ErrorPrefix| + |text|
    ensures d.text[..|ErrorPrefix|] == ErrorPrefix && d.text[|ErrorPrefix|..] == text
  {
    Datagram(Endpoint(host, port), ErrorPrefix + text)
  }

  /** `sendMessageToUser`: to the user's host at the port registered under
      the user's name. A `null` user, or a name without a port (the port is
      unboxed), throws. */
  function SendMessageToUser(srv: Server, user: Option<Account>, text: string): (r: Result<Datagram>)
    ensures user.None? ==> r == Err(NullUser)
    ensures user.Some? ==> (r.Ok? <==> user.value.name in srv.ports)
    ensures r.Ok? ==> r.value.text == text
    ensures r.Ok? ==> r.value.to == Endpoint(user.value.host, srv.ports[user.value.name])
  {
    if user.None? then Err(NullUser)
    else if user.value.name !in srv.ports then Err(NoPort)
    else Ok(Datagram(Endpoint(user.value.host, srv.ports[user.value.name]), text))
  }

  /** The step of a handler whose only action is one `sendMessageToUser`. */
  function Emit(srv: Server, r: Result<Datagram>): Step
  {
    match r
    case Ok(d) => Step(srv, [d], None)
    case Err(f) => Step(srv, [], Some(f))
  }

  ghost predicate HasMemberNamed(srv: Server, name: string)
  {
    exists a :: a in srv.connected.members && a.name == name
  }

  ghost predicate HasMemberAt(srv: Server, host: string)
  {
    exists a :: a in srv.connected.members && a.host == host
  }

  /** `getUserByName`: some member with that name, or `null` when there is
      none (the stream's `findFirst` over an unordered set). */
  method GetUserByName(srv: Server, name: string) returns (r: Option<Account>)
    ensures r.None? <==> !HasMemberNamed(srv, name)
    ensures r.Some? ==> r.value in srv.connected.members && r.value.name == name
  {
    var remaining := srv.connected.members;
    while remaining != {}
      invariant remaining <= srv.connected.members
      invariant forall a :: a in srv.connected.members - remaining ==> a.name != name
      decreases remaining
    {
      var a :| a in remaining;
      if a.name == name {
        return Some(a);
      }
      remaining := remaining - {a};
    }
    return None;
  }

  /** `getUserByAddress`: some member whose address text equals `host`, or
      `null` when there is none. */
  method GetUserByAddress(srv: Server, host: string) returns (r: Option<Account>)
    ensures r.None? <==> !HasMemberAt(srv, host)
    ensures r.Some? ==> r.value in srv.connected.members && r.value.host == host
  {
    var remaining := srv.connected.members;
    while remaining != {}
      invariant remaining <= srv.connected.members
      invariant forall a :: a in srv.connected.members - remaining ==> a.host != host
      decreases remaining
    {
      var a :| a in remaining;
      if a.host == host {
        return Some(a);
      }
      remaining := remaining - {a};
    }
    return None;
  }

  /** The datagram `d` is the delivery of `text` to the entry `name` of
      `userPorts`: it carries the text, goes to that entry's port, and goes to
      the host of a member with that name. */
  ghost predicate DeliveredTo(srv: Server, name: string, d: Datagram, text: string)
  {
    && name in srv.ports
    && d.text == text
    && d.to.port == srv.ports[name]
    && exists a :: a in srv.connected.members && a.name == name && a.host == d.to.host
  }

  /** `sent` delivers `text` to the entries `reached`, one datagram each, in
      order. */
  ghost predicate Announced(srv: Server, reached: seq<string>, sent: seq<Datagram>, text: string)
  {
    && |reached| == |sent|
    && forall i :: 0 <= i < |reached| ==> DeliveredTo(srv, reached[i], sent[i], text)
  }

  /** Every `userPorts` entry names a member, so no lookup made while
      sending to the entries finds `null`. */
  ghost predicate Consistent(srv: Server)
  {
    forall name :: name in srv.ports ==> HasMemberNamed(srv, name)
  }

  // ----- broadcast as the source writes it ---------------------------------

  /** The test `broadcastMessage` applies to a `userPorts` entry: the entry is
      skipped only when its KEY, a username, equals the sender's address and
      its port equals the sender's port. A `null` sender address equals no
      key. */
  predicate SkippedAsWritten(name: string, port: int, senderHost: Option<string>, senderPort: int)
  {
    senderHost == Some(name) && port == senderPort
  }

  /** The entries `broadcastMessage` sends to. */
  ghost function RecipientsAsWritten(srv: Server, senderHost: Option<string>, senderPort: int): set<string>
  {
    set name | name in srv.ports && !SkippedAsWritten(name, srv.ports[name], senderHost, senderPort)
  }

  /** `broadcastMessage(message, senderAddress, senderPort)` as written: walks
      `userPorts` in its unspecified order and sends the message to every entry
      not skipped, looking the user up by the entry's name. A name without a
      member throws, ending the walk; `reached` lists the entries sent to. */
  method BroadcastAsWritten(srv: Server, text: string, senderHost: Option<string>, senderPort: int)
    returns (sent: seq<Datagram>, reached: seq<string>, fault: Option<Fault>)
    ensures |sent| == |reached|
    ensures forall i, j :: 0 <= i < j < |reached| ==> reached[i] != reached[j]
    ensures forall i :: 0 <= i < |reached| ==> reached[i] in RecipientsAsWritten(srv, senderHost, senderPort)
    ensures forall i :: 0 <= i < |reached| ==> DeliveredTo(srv, reached[i], sent[i], text)
    ensures fault.None? ==> Enumerates(reached, RecipientsAsWritten(srv, senderHost, senderPort))
    ensures fault.None? <==> forall name :: name in RecipientsAsWritten(srv, senderHost, senderPort) ==> HasMemberNamed(srv, name)
    ensures fault.Some? ==> fault.value == NullUser
  {
    ghost var recipients := RecipientsAsWritten(srv, senderHost, senderPort);
    var remaining := srv.ports.Keys;
    sent, reached, fault := [], [], None;
    while remaining != {}
      invariant remaining <= srv.ports.Keys
      invariant |sent| == |reached|
      invariant forall i, j :: 0 <= i < j < |reached| ==> reached[i] != reached[j]
      invariant forall name :: name in reached <==> name in recipients && name !in remaining
      invariant forall i :: 0 <= i < |reached| ==> DeliveredTo(srv, reached[i], sent[i], text)
      invariant forall name :: name in recipients && name !in remaining ==> HasMemberNamed(srv, name)
      decreases remaining
    {
      var name :| name in remaining;
      if !SkippedAsWritten(name, srv.ports[name], senderHost, senderPort) {
        var user := GetUserByName(srv, name);
        var r := SendMessageToUser(srv, user, text);
        if r.Err? {
          return sent, reached, Some(NullUser);
        }
        assert name !in reached;
        sent, reached := sent + [r.value], reached + [name];
      }
      remaining := remaining - {name};
    }
  }

  /** The skip test never fires for a real user: when a member's name differs
      from its address text, a message it broadcasts from its own endpoint is
      sent back to that endpoint. */
  lemma SenderReceivesOwnBroadcast(srv: Server, author: Account, text: string, d: Datagram)
    requires author in srv.connected.members && author.name in srv.ports
    requires author.name != author.host
    requires forall a :: a in srv.connected.members && a.name == author.name ==> a == author
    requires DeliveredTo(srv, author.name, d, text)
    ensures author.name in RecipientsAsWritten(srv, Some(author.host), srv.ports[author.name])
    ensures d.to == Endpoint(author.host, srv.ports[author.name])
  {
  }

  /** A concrete case: alice at `10.0.0.1:5000` broadcasts, and the entry
      `alice` is among the recipients, with her own endpoint as destination. */
  lemma EchoExample()
    ensures var alice := Account(0, "alice", "pw", "10.0.0.1");
            var srv := Server(Users(10, {alice}), map["alice" := 5000]);
            && "alice" in RecipientsAsWritten(srv, Some("10.0.0.1"), 5000)
            && forall d :: DeliveredTo(srv, "alice", d, "hi") ==> d.to == Endpoint("10.0.0.1", 5000)
  {
    var alice := Account(0, "alice", "pw", "10.0.0.1");
    var srv := Server(Users(10, {alice}), map["alice" := 5000]);
    assert "alice" != "10.0.0.1";
    forall d | DeliveredTo(srv, "alice", d, "hi")
      ensures d.to == Endpoint("10.0.0.1", 5000)
    {
      var a :| a in srv.connected.members && a.name == "alice" && a.host == d.to.host;
      assert a == alice;
    }
  }

  // ----- broadcast with the sender excluded --------------------------------

  /** The entry of `name`, looked up as user `a`, is the sender's own. */
  predicate IsSender(a: Account, port: int, sender: Option<Endpoint>)
  {
    sender == Some(Endpoint(a.host, port))
  }

  /** `broadcastMessage` with the evidently intended exclusion: every entry's
      user is looked up (a missing user throws, as in the source), and the
      message goes to it unless the user's endpoint is the sender's. A `None`
      sender (the source's `null, -1`) excludes no one. */
  method Broadcast(srv: Server, text: string, sender: Option<Endpoint>)
    returns (sent: seq<Datagram>, reached: seq<string>, fault: Option<Fault>)
    ensures |sent| == |reached|
    ensures forall i, j :: 0 <= i < j < |reached| ==> reached[i] != reached[j]
    ensures forall i :: 0 <= i < |reached| ==> DeliveredTo(srv, reached[i], sent[i], text)
    ensures forall i :: 0 <= i < |sent| ==> sender != Some(sent[i].to)
    ensures fault.None? <==> Consistent(srv)
    ensures fault.Some? ==> fault.value == NullUser
    ensures fault.None? ==> forall name :: name in srv.ports && name !in reached ==>
              exists a :: a in srv.connected.members && a.name == name && IsSender(a, srv.ports[name], sender)
    ensures fault.None? && sender.None? ==> Enumerates(reached, srv.ports.Keys)
  {
    var remaining := srv.ports.Keys;
    sent, reached, fault := [], [], None;
    while remaining != {}
      invariant remaining <= srv.ports.Keys
      invariant |sent| == |reached|
      invariant forall i, j :: 0 <= i < j < |reached| ==> reached[i] != reached[j]
      invariant forall name :: name in reached ==> name in srv.ports && name !in remaining
      invariant forall i :: 0 <= i < |reached| ==> DeliveredTo(srv, reached[i], sent[i], text)
      invariant forall i :: 0 <= i < |sent| ==> sender != Some(sent[i].to)
      invariant forall name :: name in srv.ports && name !in remaining ==> HasMemberNamed(srv, name)
      invariant forall name :: name in srv.ports && name !in remaining && name !in reached ==>
                  exists a :: a in srv.connected.members && a.name == name && IsSender(a, srv.ports[name], sender)
      decreases remaining
    {
      var name :| name in remaining;
      var user := GetUserByName(srv, name);
      var r := SendMessageToUser(srv, user, text);
      if r.Err? {
        return sent, reached, Some(NullUser);
      }
      if !IsSender(user.value, srv.ports[name], sender) {
        assert name !in reached;
        sent, reached := sent + [r.value], reached + [name];
      }
      remaining := remaining - {name};
    }
  }

  /** With no sender, the corrected broadcast and the one as written reach the
      same entries: nothing is skipped by either. */
  lemma NoSenderSkipsNothing(srv: Server, senderPort: int)
    ensures RecipientsAsWritten(srv, None, senderPort) == srv.ports.Keys
  {
  }

  /** Removing one member and its name's port keeps the state consistent. */
  lemma RemovalKeepsConsistent(srv: Server, user: Account)
    requires Consistent(srv)
    ensures Consistent(Server(srv.connected.(members := srv.connected.members - {user}), srv.ports - {user.name}))
  {
    var next := Server(srv.connected.(members := srv.connected.members - {user}), srv.ports - {user.name});
    forall name | name in next.ports
      ensures HasMemberNamed(next, name)
    {
      assert HasMemberNamed(srv, name);
      var a :| a in srv.connected.members && a.name == name;
      assert a != user;
      assert a in next.connected.members;
    }
  }

  /** `disconnectUser`: the account leaves the set and its name leaves
      `userPorts`, then `<name> has left the chat.` is broadcast with the
      sender `(null, -1)`, which skips no entry. The broadcast throws exactly
      when a remaining `userPorts` name has no member. A `null` user changes
      nothing and throws. */
  method DisconnectUser(srv: Server, user: Option<Account>) returns (step: Step, reached: seq<string>)
    ensures user.None? ==> step == Step(srv, [], Some(NullUser))
    ensures user.Some? ==> step.server == Server(DeleteUser(srv.connected, user).1, srv.ports - {user.value.name})
    ensures user.Some? ==> user.value !in step.server.connected.members && user.value.name !in step.server.ports
    ensures user.Some? ==> |step.sent| == |reached|
    ensures user.Some? ==>
              forall i :: 0 <= i < |reached| ==> DeliveredTo(step.server, reached[i], step.sent[i], user.value.name + LeftChatSuffix)
    ensures user.Some? && Consistent(srv) ==> step.fault.None? && Consistent(step.server)
    ensures user.Some? && Consistent(srv) ==> Enumerates(reached, step.server.ports.Keys)
    ensures user.Some? ==> (step.fault.None? <==> Consistent(step.server))
    ensures user.Some? && step.fault.None? ==> Enumerates(reached, step.server.ports.Keys)
    ensures step.fault.Some? ==> step.fault.value == NullUser
  {
    var users := DeleteUser(srv.connected, user).1;
    if user.None? {
      return Step(srv, [], Some(NullUser)), [];
    }
    var next := Server(users, srv.ports - {user.value.name});
    if Consistent(srv) {
      RemovalKeepsConsistent(srv, user.value);
    }
    var sent, fault;
    sent, reached, fault := BroadcastAsWritten(next, user.value.name + LeftChatSuffix, None, -1);
    NoSenderSkipsNothing(next, -1);
    step := Step(next, sent, fault);
  }
}
