/** The username registry (`UserManager` in both source trees): a map from
    username to the `User` that logged in under it. The two trees differ only
    in the text that heads the user list and in whether removing an absent
    name logs a warning, which leaves no trace in the state. */
module UserRegistry {
  import opened Base
  import opened Model
  import JavaText

  type Registry = map<string, User>

  /** Heading of `getUserList` in `common/data/UserManager`. */
  const EnglishHeading: string := "Connected Users: "
  /** Heading of `getUserList` in `test2/common/data/UserManager`. */
  const SpanishHeading: string := "Usuarios conectados: "
  /** What follows every name in the user list. */
  const ListSeparator: string := ", "

  /** A new manager starts with no users. */
  const Empty: Registry := map[]

  /** Every entry is stored under its own username. */
  ghost predicate Keyed(reg: Registry)
  {
    forall name :: name in reg ==> reg[name].username == name
  }

  /** `addUser`: refuses a name that is already a key; otherwise stores
      `User(name, address)` under it. Addresses are never checked, so one
      address may be registered under several names. */
  function AddUser(reg: Registry, name: string, address: Endpoint): (r: (bool, Registry))
    ensures r.0 <==> name !in reg
    ensures !r.0 ==> r.1 == reg
    ensures r.0 ==> r.1.Keys == reg.Keys + {name} && r.1[name] == User(name, address)
    ensures forall n :: n in reg ==> n in r.1 && r.1[n] == reg[n]
    ensures Keyed(reg) ==> Keyed(r.1)
  {
    if name in reg then (false, reg)
    else (true, reg[name := User(name, address)])
  }

  /** `removeUser`: the entry for `name` is gone; nothing else changes, and
      removing an absent name changes nothing at all. */
  function RemoveUser(reg: Registry, name: string): (r: Registry)
    ensures name !in r
    ensures r.Keys == reg.Keys - {name}
    ensures forall n :: n in r ==> r[n] == reg[n]
    ensures name !in reg ==> r == reg
    ensures Keyed(reg) ==> Keyed(r)
  {
    reg - {name}
  }

  /** `getUserByName`: `null` exactly when the name is not a key. */
  function GetUserByName(reg: Registry, name: string): (r: Option<User>)
    ensures r.None? <==> name !in reg
    ensures r.Some? ==> name in reg && r.value == reg[name]
    ensures r.Some? && Keyed(reg) ==> r.value.username == name
  {
    if name in reg then Some(reg[name]) else None
  }

  /** `isUserConnected`: the name is a key. */
  function IsUserConnected(reg: Registry, name: string): (r: bool)
    ensures r <==> GetUserByName(reg, name).Some?
  {
    name in reg
  }

  /** After a successful `addUser(n, a)` the user is connected and is found
      by name with address `a`. */
  lemma AddedUserIsFound(reg: Registry, name: string, address: Endpoint)
    requires name !in reg
    ensures AddUser(reg, name, address).0
    ensures IsUserConnected(AddUser(reg, name, address).1, name)
    ensures GetUserByName(AddUser(reg, name, address).1, name) == Some(User(name, address))
  {
  }

  /** A registered name keeps its address across a second `addUser`. */
  lemma SecondAddKeepsAddress(reg: Registry, name: string, first: Endpoint, second: Endpoint)
    requires name !in reg
    ensures var once := AddUser(reg, name, first).1;
            var twice := AddUser(once, name, second);
            !twice.0 && GetUserByName(twice.1, name) == Some(User(name, first))
  {
  }

  /** Some user that logged in from `address`. */
  ghost predicate HasUserAt(reg: Registry, address: Endpoint)
  {
    exists name :: name in reg && reg[name].address == address
  }

  /** `getUserByAddress`: scans the entries in the map's (unspecified) order
      and returns the first user whose address equals `address`, or `null`
      when there is none. */
  method GetUserByAddress(reg: Registry, address: Endpoint) returns (r: Option<User>)
    ensures r.None? <==> !HasUserAt(reg, address)
    ensures r.Some? ==> r.value in reg.Values && r.value.address == address
  {
    var remaining := reg.Keys;
    while remaining != {}
      invariant remaining <= reg.Keys
      invariant forall name :: name in reg.Keys - remaining ==> reg[name].address != address
      decreases remaining
    {
      var name :| name in remaining;
      if reg[name].address == address {
        return Some(reg[name]);
      }
      remaining := remaining - {name};
    }
    return None;
  }

  /** `getUserList`: the heading followed by every username exactly once,
      each followed by `", "`, in the map's (unspecified) iteration order,
      which is returned as `order`. */
  method GetUserList(reg: Registry, heading: string) returns (text: string, order: seq<string>)
    ensures Enumerates(order, reg.Keys)
    ensures text == heading + JavaText.Listing(order, ListSeparator)
  {
    var remaining := reg.Keys;
    text, order := heading, [];
    while remaining != {}
      invariant remaining <= reg.Keys
      invariant forall i, j :: 0 <= i < j < |order| ==> order[i] != order[j]
      invariant forall name :: name in order <==> name in reg.Keys - remaining
      invariant text == heading + JavaText.Listing(order, ListSeparator)
      decreases remaining
    {
      var name :| name in remaining;
      assert name !in order;
      JavaText.ListingAppend(order, name, ListSeparator);
      text := text + name + ListSeparator;
      order := order + [name];
      remaining := remaining - {name};
    }
  }

  /** An empty registry lists as the bare heading; otherwise the list has one
      entry per user. */
  lemma UserListShape(reg: Registry, heading: string, text: string, order: seq<string>)
    requires Enumerates(order, reg.Keys)
    requires text == heading + JavaText.Listing(order, ListSeparator)
    ensures |order| == |reg|
    ensures reg == map[] ==> text == heading
    ensures JavaText.StartsWith(text, heading)
  {
    EnumerationSize(order, reg.Keys);
  }

  /** The operations that change the registry. */
  datatype Op = Add(name: string, address: Endpoint) | Remove(name: string)

  function Apply(reg: Registry, op: Op): Registry
  {
    match op
    case Add(name, address) => AddUser(reg, name, address).1
    case Remove(name) => RemoveUser(reg, name)
  }

  function ApplyAll(reg: Registry, ops: seq<Op>): Registry
    decreases |ops|
  {
    if |ops| == 0 then reg else ApplyAll(Apply(reg, ops[0]), ops[1..])
  }

  /** Over any sequence of additions and removals, every entry stays stored
      under its own username, so no name has two users; and an entry that is
      never removed keeps the user it was added with. */
  lemma {:induction false} OpsKeepEntries(reg: Registry, ops: seq<Op>, name: string)
    requires Keyed(reg)
    requires name in reg
    requires forall k :: 0 <= k < |ops| ==> ops[k] != Remove(name)
    ensures Keyed(ApplyAll(reg, ops))
    ensures name in ApplyAll(reg, ops) && ApplyAll(reg, ops)[name] == reg[name]
    decreases |ops|
  {
    if |ops| > 0 {
      var next := Apply(reg, ops[0]);
      assert name in next && next[name] == reg[name];
      OpsKeepEntries(next, ops[1..], name);
    }
  }
}
