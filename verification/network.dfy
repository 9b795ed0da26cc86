/**
 * The state of a social network: a fixed capacity and the filled prefix of
 * its user array, in the order the users were added. `userCount` is the
 * length of that prefix. Lookups scan only the filled prefix.
 */
module Networks {
  import opened Optional
  import opened Users

  datatype Network = Network(users: seq<User>, capacity: nat)

  /** The invariant the class keeps: the filled prefix never exceeds the capacity. */
  predicate Valid(net: Network)
  {
    |net.users| <= net.capacity
  }

  /** No two users share a name. */
  predicate DistinctNames(users: seq<User>)
  {
    forall i, j :: 0 <= i < j < |users| ==> users[i].name != users[j].name
  }

  /** The outcome of a mutating operation: the new state and the boolean the source returns. */
  datatype Update = Update(net: Network, result: bool)

  /** A network with room for `maxUserCount` users and none added yet. */
  function Empty(maxUserCount: nat): (net: Network)
    ensures Valid(net) && DistinctNames(net.users)
    ensures net.capacity == maxUserCount && |net.users| == 0
  {
    Network([], maxUserCount)
  }

  /** The demonstration network holding Foo, Bar and Baz. */
  function Seeded(maxUserCount: nat): (net: Network)
    requires maxUserCount >= 3
    ensures Valid(net) && DistinctNames(net.users)
    ensures net.capacity == maxUserCount && |net.users| == 3
    ensures forall i :: 0 <= i < 3 ==> net.users[i].follows == []
  {
    Network([NewUser("Foo"), NewUser("Bar"), NewUser("Baz")], maxUserCount)
  }

  function UserCount(net: Network): (n: nat)
    requires Valid(net)
    ensures n <= net.capacity
  {
    |net.users|
  }

  /** The position of the first user, in insertion order, carrying `name`. */
  function Find(users: seq<User>, name: Name): (r: Option<nat>)
    ensures r.None? <==> forall j :: 0 <= j < |users| ==> users[j].name != name
    ensures r.Some? ==> r.value < |users| && users[r.value].name == name
    ensures r.Some? ==> forall j :: 0 <= j < r.value ==> users[j].name != name
  {
    if |users| == 0 then None
    else if users[0].name == name then Some(0)
    else
      match Find(users[1..], name)
      case None => None
      case Some(k) => Some(k + 1)
  }

  /** Among distinct names, every user carrying `name` is the one `Find` returns. */
  lemma FindDistinct(users: seq<User>, name: Name, i: nat)
    requires DistinctNames(users)
    requires i < |users|
    ensures Find(users, name) == Some(i) <==> users[i].name == name
  {
  }

  /** The lookup loop: the first user whose name matches, or nothing. */
  method GetUser(net: Network, name: Name) returns (u: Option<User>)
    ensures u.None? <==> forall j :: 0 <= j < |net.users| ==> net.users[j].name != name
    ensures u.Some? ==> Find(net.users, name).Some? && u.value == net.users[Find(net.users, name).value]
    ensures u.Some? ==> u.value.name == name
  {
    var i := 0;
    while i < |net.users|
      invariant i <= |net.users|
      invariant forall j :: 0 <= j < i ==> net.users[j].name != name
    {
      var user := net.users[i];
      if user.name == name {
        assert Find(net.users, name) == Some(i);
        return Some(user);
      }
      i := i + 1;
    }
    return None;
  }

  /**
   * Adds a user. A full network refuses (false, unchanged). Otherwise the
   * result is true, and a user is appended only when no user already has
   * the name.
   */
  function AddUser(net: Network, name: Name): (r: Update)
    requires Valid(net)
    ensures Valid(r.net) && r.net.capacity == net.capacity
    ensures r.result <==> |net.users| < net.capacity
    ensures !r.result ==> r.net == net
    ensures Find(net.users, name).Some? ==> r.net == net
    ensures r.result && Find(net.users, name).None? ==>
      && |r.net.users| == |net.users| + 1
      && r.net.users[|net.users|] == NewUser(name)
      && r.net.users[..|net.users|] == net.users
  {
    if |net.users| < net.capacity then
      if Find(net.users, name).None? then
        Update(Network(net.users + [NewUser(name)], net.capacity), true)
      else
        Update(net, true)
    else
      Update(net, false)
  }

  /** Adding users keeps names distinct. */
  lemma AddUserKeepsNamesDistinct(net: Network, name: Name)
    requires Valid(net) && DistinctNames(net.users)
    ensures DistinctNames(AddUser(net, name).net.users)
  {
  }

  /** A second `AddUser` with the same name changes nothing. */
  lemma AddUserIdempotent(net: Network, name: Name)
    requires Valid(net)
    ensures var once := AddUser(net, name).net; AddUser(once, name).net == once
  {
  }

  /** After a successful append, lookups of the new name find the new slot and every other lookup is unchanged. */
  lemma AddUserLookup(net: Network, name: Name, other: Name)
    requires Valid(net)
    requires |net.users| < net.capacity && Find(net.users, name).None?
    ensures Find(AddUser(net, name).net.users, name) == Some(|net.users|)
    ensures other != name ==> Find(AddUser(net, name).net.users, other) == Find(net.users, other)
  {
  }

  /** Adds the names in turn, as a sequence of `addUser` calls would. */
  function AddUsers(net: Network, names: seq<Name>): Network
    requires Valid(net)
    decreases |names|
  {
    if |names| == 0 then net
    else
      AddUsers(AddUser(net, names[0]).net, names[1..])
  }

  /**
   * The filled prefix only grows by appending: whatever sequence of
   * `addUser` calls is made, the network stays within its capacity, keeps
   * its earlier users in place, and gains at most one user per call.
   */
  lemma {:induction false} AddUsersOnlyAppends(net: Network, names: seq<Name>)
    requires Valid(net)
    ensures Valid(AddUsers(net, names))
    ensures AddUsers(net, names).capacity == net.capacity
    ensures |net.users| <= |AddUsers(net, names).users| <= |net.users| + |names|
    ensures AddUsers(net, names).users[..|net.users|] == net.users
    decreases |names|
  {
    if |names| > 0 {
      var next := AddUser(net, names[0]).net;
      AddUsersOnlyAppends(next, names[1..]);
      var last := AddUsers(next, names[1..]);
      assert last == AddUsers(net, names);
      assert next.users[..|net.users|] == net.users;
      assert last.users[..|net.users|] == last.users[..|next.users|][..|net.users|];
    }
  }

  /**
   * Makes the user named `name1` follow `name2`. Both names must resolve;
   * then the first user named `name1` is replaced by the user's own
   * `follow` step, whose verdict is returned. `follow` is the unseen
   * `User.addFollowee`.
   */
  function AddFollowee(net: Network, name1: Name, name2: Name, follow: (User, Name) -> (User, bool)): (r: Update)
    requires Valid(net)
    ensures Valid(r.net) && r.net.capacity == net.capacity && |r.net.users| == |net.users|
    ensures Find(net.users, name1).None? || Find(net.users, name2).None? ==> r == Update(net, false)
    ensures Find(net.users, name1).Some? && Find(net.users, name2).Some? ==>
      var i := Find(net.users, name1).value;
      && r.result == follow(net.users[i], name2).1
      && r.net.users[i] == follow(net.users[i], name2).0
    ensures forall j :: 0 <= j < |net.users| && Find(net.users, name1) != Some(j) ==> r.net.users[j] == net.users[j]
  {
    match (Find(net.users, name1), Find(net.users, name2))
    case (Some(i), Some(_)) =>
      var (u, ok) := follow(net.users[i], name2);
      Update(Network(net.users[i := u], net.capacity), ok)
    case _ => Update(net, false)
  }

  /** Lookups see only names: two user lists with the same names answer every lookup alike. */
  lemma FindSeesOnlyNames(a: seq<User>, b: seq<User>, name: Name)
    requires |a| == |b|
    requires forall j :: 0 <= j < |a| ==> a[j].name == b[j].name
    ensures Find(a, name) == Find(b, name)
  {
    var ra := Find(a, name);
    var rb := Find(b, name);
    if ra.Some? && rb.Some? {
      assert !(ra.value < rb.value) && !(rb.value < ra.value);
    }
  }

  /** When the user's follow step keeps the user's name, so does the network: every lookup is unaffected. */
  lemma AddFolloweeKeepsNames(net: Network, name1: Name, name2: Name, follow: (User, Name) -> (User, bool), name: Name)
    requires Valid(net)
    requires forall u: User, n: Name :: follow(u, n).0.name == u.name
    ensures forall j :: 0 <= j < |net.users| ==>
      AddFollowee(net, name1, name2, follow).net.users[j].name == net.users[j].name
    ensures DistinctNames(net.users) ==> DistinctNames(AddFollowee(net, name1, name2, follow).net.users)
    ensures Find(AddFollowee(net, name1, name2, follow).net.users, name) == Find(net.users, name)
  {
    var after := AddFollowee(net, name1, name2, follow).net.users;
    assert forall j :: 0 <= j < |net.users| ==> after[j].name == net.users[j].name;
    FindSeesOnlyNames(after, net.users, name);
  }

  /** The text of every valid user, each followed by a space, in insertion order. */
  function UsersText(users: seq<User>, show: User -> string): string
  {
    if |users| == 0 then ""
    else UsersText(users[..|users| - 1], show) + show(users[|users| - 1]) + " "
  }

  /** The network's text: a header, then each valid user's text. `show` is the unseen `User.toString`. */
  function ToText(net: Network, show: User -> string): (r: string)
    ensures |r| >= 8 && r[..8] == "Network:"
    ensures |net.users| == 0 ==> r == "Network:"
  {
    "Network:" + UsersText(net.users, show)
  }

  /** Appending a user appends that user's text and changes nothing before it. */
  lemma ToTextAfterAddUser(net: Network, name: Name, show: User -> string)
    requires Valid(net)
    requires |net.users| < net.capacity && Find(net.users, name).None?
    ensures ToText(AddUser(net, name).net, show) == ToText(net, show) + show(NewUser(name)) + " "
  {
  }
}
