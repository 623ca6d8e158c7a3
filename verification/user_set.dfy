/** The capacity-bounded set of connected accounts (`common/util/data/Users`).
    Membership is Java object equality, which for `common/model/User` is
    identity: two distinct objects with the same name are two members. */
module UserSet {
  import opened Base
  import opened Model

  /** `capacity` is `MAX_USERS`, fixed at construction; `members` is the
      `HashSet`. */
  datatype Users = Users(capacity: int, members: set<Account>)

  /** `new Users(maxUsers)`: an empty set with that capacity. The backing
      `HashSet` is created with `maxUsers` as its initial capacity, which
      throws for a negative number. */
  function NewUsers(maxUsers: int): (r: Result<Users>)
    ensures r.Err? <==> maxUsers < 0
    ensures r.Err? ==> r.fault == IllegalCapacity(maxUsers)
    ensures r.Ok? ==> r.value.capacity == maxUsers && IsEmpty(r.value) && WithinCapacity(r.value)
  {
    if maxUsers < 0 then Err(IllegalCapacity(maxUsers)) else Ok(Users(maxUsers, {}))
  }

  /** `isFull`: the size equals `MAX_USERS` exactly. */
  predicate IsFull(u: Users)
  {
    |u.members| == u.capacity
  }

  /** `addUser`: `null` and a full set are refused; otherwise the account is
      added, and the answer says whether it was not already a member. */
  function AddUser(u: Users, user: Option<Account>): (r: (bool, Users))
    ensures r.1.capacity == u.capacity
    ensures user.None? ==> !r.0 && r.1 == u
    ensures IsFull(u) ==> !r.0 && r.1 == u
    ensures user.Some? && !IsFull(u) ==> (r.0 <==> user.value !in u.members)
    ensures user.Some? && !IsFull(u) ==> r.1.members == u.members + {user.value}
    ensures r.0 ==> |r.1.members| == |u.members| + 1
  {
    if user.None? then (false, u)
    else if IsFull(u) then (false, u)
    else if user.value in u.members then (false, u)
    else (true, u.(members := u.members + {user.value}))
  }

  /** `deleteUser`: `null` is refused; otherwise the account is removed and
      the answer says whether it was a member. */
  function DeleteUser(u: Users, user: Option<Account>): (r: (bool, Users))
    ensures r.1.capacity == u.capacity
    ensures user.None? ==> !r.0 && r.1 == u
    ensures user.Some? ==> (r.0 <==> user.value in u.members)
    ensures user.Some? ==> r.1.members == u.members - {user.value}
    ensures |r.1.members| <= |u.members|
  {
    if user.None? then (false, u)
    else (user.value in u.members, u.(members := u.members - {user.value}))
  }

  /** `isEmpty`. */
  predicate IsEmpty(u: Users)
  {
    u.members == {}
  }

  /** `getAmountUsers`: the number of members; zero exactly when empty. */
  function AmountUsers(u: Users): (n: nat)
    ensures n == 0 <==> IsEmpty(u)
  {
    |u.members|
  }

  /** The count is the number of entries a walk over the set meets. */
  lemma AmountCountsMembers(u: Users, order: seq<Account>)
    requires Enumerates(order, u.members)
    ensures AmountUsers(u) == |order|
  {
    EnumerationSize(order, u.members);
  }

  /** The count goes up by one exactly on a successful add, down by one
      exactly on a successful delete, and is otherwise unchanged. */
  lemma AmountTracksChanges(u: Users, user: Option<Account>)
    ensures AmountUsers(AddUser(u, user).1) == AmountUsers(u) + (if AddUser(u, user).0 then 1 else 0)
    ensures AmountUsers(DeleteUser(u, user).1) == AmountUsers(u) - (if DeleteUser(u, user).0 then 1 else 0)
  {
    if user.Some? && user.value in u.members {
      assert u.members == (u.members - {user.value}) + {user.value};
    }
  }

  /** A full set refuses every addition until a member leaves; one deletion
      makes room for exactly one more. */
  lemma FullUntilDelete(u: Users, newcomer: Account, leaving: Account)
    requires WithinCapacity(u) && IsFull(u)
    requires leaving in u.members && newcomer !in u.members
    ensures AddUser(u, Some(newcomer)) == (false, u)
    ensures var after := DeleteUser(u, Some(leaving)).1;
            !IsFull(after) && AddUser(after, Some(newcomer)).0 && IsFull(AddUser(after, Some(newcomer)).1)
  {
    var after := DeleteUser(u, Some(leaving)).1;
    AmountTracksChanges(u, Some(leaving));
    AmountTracksChanges(after, Some(newcomer));
  }

  /** `getUserNames`: the names of the members, gathered by a loop over the
      set; distinct members may share a name, so there may be fewer names
      than members. */
  method UserNames(u: Users) returns (names: set<string>)
    ensures forall n :: n in names <==> exists a :: a in u.members && a.name == n
    ensures |names| <= |u.members|
  {
    var remaining := u.members;
    names := {};
    ghost var seen: set<Account> := {};
    while remaining != {}
      invariant remaining + seen == u.members && remaining !! seen
      invariant names == set a | a in seen :: a.name
      invariant |names| <= |seen|
      decreases remaining
    {
      var a :| a in remaining;
      NamesOfAdded(seen, a);
      names := names + {a.name};
      seen := seen + {a};
      remaining := remaining - {a};
    }
  }

  /** Adding one account to a set adds at most one name. */
  lemma NamesOfAdded(seen: set<Account>, a: Account)
    requires a !in seen
    ensures (set b | b in seen + {a} :: b.name) == (set b | b in seen :: b.name) + {a.name}
    ensures |seen + {a}| == |seen| + 1
  {
  }

  /** The size bound a set starting empty keeps: never above `MAX_USERS`. */
  ghost predicate WithinCapacity(u: Users)
  {
    |u.members| <= u.capacity
  }

  /** An addition or deletion of `Users`. */
  datatype Op = Add(user: Option<Account>) | Delete(user: Option<Account>)

  function Apply(u: Users, op: Op): Users
  {
    match op
    case Add(user) => AddUser(u, user).1
    case Delete(user) => DeleteUser(u, user).1
  }

  function ApplyAll(u: Users, ops: seq<Op>): Users
    decreases |ops|
  {
    if |ops| == 0 then u else ApplyAll(Apply(u, ops[0]), ops[1..])
  }

  /** Every operation keeps the set within its capacity. */
  lemma ApplyKeepsCapacity(u: Users, op: Op)
    requires WithinCapacity(u)
    ensures WithinCapacity(Apply(u, op))
    ensures Apply(u, op).capacity == u.capacity
  {
    if op.Add? && op.user.Some? && !IsFull(u) && op.user.value !in u.members {
      assert |u.members| < u.capacity;
    }
  }

  /** Starting from any set `new Users(maxUsers)` creates, no sequence of
      additions and deletions takes the set past `MAX_USERS`. */
  lemma {:induction false} CapacityNeverExceeded(maxUsers: int, ops: seq<Op>)
    requires NewUsers(maxUsers).Ok?
    ensures |ApplyAll(NewUsers(maxUsers).value, ops).members| <= maxUsers
  {
    OpsKeepCapacity(NewUsers(maxUsers).value, ops);
  }

  lemma {:induction false} OpsKeepCapacity(u: Users, ops: seq<Op>)
    requires WithinCapacity(u)
    ensures WithinCapacity(ApplyAll(u, ops))
    ensures ApplyAll(u, ops).capacity == u.capacity
    decreases |ops|
  {
    if |ops| > 0 {
      ApplyKeepsCapacity(u, ops[0]);
      OpsKeepCapacity(Apply(u, ops[0]), ops[1..]);
    }
  }
}
