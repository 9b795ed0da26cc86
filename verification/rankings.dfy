/**
 * The network's cross-user queries: how many users follow a given user, the
 * most popular user, and the recommendation of whom to follow. All of them
 * scan the filled prefix of the user array.
 */
module Rankings {
  import opened Optional
  import opened Users
  import opened Networks
  import ArgMax

  /** The follow-list scan that stops at the first match: does `follows` list `name`? */
  method Contains(follows: seq<Name>, name: Name) returns (found: bool)
    ensures found <==> name in follows
  {
    found := false;
    var t := 0;
    while t < |follows|
      invariant t <= |follows|
      invariant forall k :: 0 <= k < t ==> follows[k] != name
    {
      if follows[t] == name {
        found := true;
        break;
      }
      t := t + 1;
    }
  }

  /**
   * The number of users among the first `n`, other than position `i`
   * itself, whose follow list names user `i`. Each list counts at most once.
   */
  function PopularityUpTo(users: seq<User>, i: nat, n: nat): (c: nat)
    requires i < |users| && n <= |users|
    ensures c <= n
    ensures i < n ==> c < n
  {
    if n == 0 then 0
    else
      PopularityUpTo(users, i, n - 1)
      + (if n - 1 != i && users[i].name in users[n - 1].follows then 1 else 0)
  }

  /** The popularity of user `i`: how many other users follow it. */
  function Popularity(users: seq<User>, i: nat): (c: nat)
    requires i < |users|
    ensures c < |users|
  {
    PopularityUpTo(users, i, |users|)
  }

  /** The positions among the first `n` of the users that follow user `i`. */
  function FollowersUpTo(users: seq<User>, i: nat, n: nat): set<nat>
    requires i < |users| && n <= |users|
  {
    set j: nat | j < n && j != i && users[i].name in users[j].follows
  }

  /** Extending the range by one position adds that position to the followers exactly when it follows user `i`. */
  lemma FollowersStep(users: seq<User>, i: nat, n: nat)
    requires i < |users| && 0 < n <= |users|
    ensures n - 1 != i && users[i].name in users[n - 1].follows ==>
      FollowersUpTo(users, i, n) == FollowersUpTo(users, i, n - 1) + {n - 1}
    ensures !(n - 1 != i && users[i].name in users[n - 1].follows) ==>
      FollowersUpTo(users, i, n) == FollowersUpTo(users, i, n - 1)
  {
    var before := FollowersUpTo(users, i, n - 1);
    var after := FollowersUpTo(users, i, n);
    var last: nat := n - 1;
    forall j | j in after && j != last ensures j in before {
    }
  }

  /** Popularity counts exactly the set of other users whose follow list names the user. */
  lemma {:induction false} PopularityCountsFollowers(users: seq<User>, i: nat, n: nat)
    requires i < |users| && n <= |users|
    ensures PopularityUpTo(users, i, n) == |FollowersUpTo(users, i, n)|
  {
    if n > 0 {
      PopularityCountsFollowers(users, i, n - 1);
      FollowersStep(users, i, n);
      var last: nat := n - 1;
      assert last !in FollowersUpTo(users, i, n - 1);
    }
  }

  /**
   * The number of users among the first `n`, other than those named `name`,
   * whose follow list names `name`. Each list counts at most once.
   */
  function FolloweeCountUpTo(users: seq<User>, name: Name, n: nat): (c: nat)
    requires n <= |users|
    ensures c <= n
  {
    if n == 0 then 0
    else
      FolloweeCountUpTo(users, name, n - 1)
      + (if users[n - 1].name != name && name in users[n - 1].follows then 1 else 0)
  }

  /** The positions among the first `n` of the users, other than those named `name`, that follow `name`. */
  function FolloweesUpTo(users: seq<User>, name: Name, n: nat): set<nat>
    requires n <= |users|
  {
    set j: nat | j < n && users[j].name != name && name in users[j].follows
  }

  /** Extending the range by one position adds that position exactly when it follows `name` under another name. */
  lemma FolloweesStep(users: seq<User>, name: Name, n: nat)
    requires 0 < n <= |users|
    ensures users[n - 1].name != name && name in users[n - 1].follows ==>
      FolloweesUpTo(users, name, n) == FolloweesUpTo(users, name, n - 1) + {n - 1}
    ensures !(users[n - 1].name != name && name in users[n - 1].follows) ==>
      FolloweesUpTo(users, name, n) == FolloweesUpTo(users, name, n - 1)
  {
    var before := FolloweesUpTo(users, name, n - 1);
    var after := FolloweesUpTo(users, name, n);
    var last: nat := n - 1;
    forall j | j in after && j != last ensures j in before {
    }
  }

  /** For any name, the followee count is the number of users under other names whose follow list names it. */
  lemma {:induction false} FolloweeCountCountsFollowers(users: seq<User>, name: Name, n: nat)
    requires n <= |users|
    ensures FolloweeCountUpTo(users, name, n) == |FolloweesUpTo(users, name, n)|
  {
    if n > 0 {
      FolloweeCountCountsFollowers(users, name, n - 1);
      FolloweesStep(users, name, n);
      var last: nat := n - 1;
      assert last !in FolloweesUpTo(users, name, n - 1);
    }
  }

  /** With distinct names, skipping by position and skipping by name agree: popularity is the followee count of the user's name. */
  lemma {:induction false} PopularityIsFolloweeCount(users: seq<User>, i: nat, n: nat)
    requires DistinctNames(users)
    requires i < |users| && n <= |users|
    ensures PopularityUpTo(users, i, n) == FolloweeCountUpTo(users, users[i].name, n)
  {
    if n > 0 {
      PopularityIsFolloweeCount(users, i, n - 1);
      if n - 1 < i {
        assert users[n - 1].name != users[i].name;
      } else if i < n - 1 {
        assert users[i].name != users[n - 1].name;
      }
    }
  }

  /** The loop that counts the followers of user `i`. */
  method PopularityOf(users: seq<User>, i: nat) returns (c: nat)
    requires i < |users|
    ensures c == Popularity(users, i)
  {
    var currentUser := users[i].name;
    c := 0;
    var j := 0;
    while j < |users|
      invariant j <= |users|
      invariant c == PopularityUpTo(users, i, j)
    {
      if i != j {
        var hit := Contains(users[j].follows, currentUser);
        if hit {
          c := c + 1;
        }
      }
      j := j + 1;
    }
  }

  /** How many users other than those named `name` follow `name`; never more than the users scanned. */
  method FolloweeCount(net: Network, name: Name) returns (c: nat)
    requires Valid(net)
    ensures c == FolloweeCountUpTo(net.users, name, |net.users|)
    ensures c <= |net.users|
  {
    c := 0;
    var j := 0;
    while j < |net.users|
      invariant j <= |net.users|
      invariant c == FolloweeCountUpTo(net.users, name, j)
    {
      if net.users[j].name != name {
        var hit := Contains(net.users[j].follows, name);
        if hit {
          c := c + 1;
        }
      }
      j := j + 1;
    }
  }

  /** Every user's popularity, in insertion order. */
  function PopularityScores(users: seq<User>): seq<int>
  {
    seq(|users|, i requires 0 <= i < |users| => Popularity(users, i))
  }

  /**
   * The name of the first user with the strictly greatest popularity, or
   * nothing when nobody is followed by anybody (including the empty network).
   */
  method MostPopularUser(net: Network) returns (r: Option<Name>)
    requires Valid(net)
    ensures r.None? <==> forall i :: 0 <= i < |net.users| ==> Popularity(net.users, i) == 0
    ensures r.Some? ==> exists k: nat :: ArgMax.IsFirstMax(PopularityScores(net.users), k) && r.value == net.users[k].name
  {
    var counts: seq<int> := [];
    var i := 0;
    while i < |net.users|
      invariant i <= |net.users|
      invariant |counts| == i
      invariant forall k :: 0 <= k < i ==> counts[k] == Popularity(net.users, k)
    {
      var c := PopularityOf(net.users, i);
      counts := counts + [c];
      i := i + 1;
    }
    assert counts == PopularityScores(net.users);
    var best := ArgMax.Scan(counts);
    if best.Some? {
      r := Some(net.users[best.value].name);
    } else {
      r := None;
    }
  }

  /**
   * The scores the recommendation ranks: `mutual` with the subject for every
   * user not carrying the subject's name, and 0 (never chosen) for those
   * that do.
   */
  function MutualScores(users: seq<User>, name: Name, subject: User, mutual: (User, User) -> int): seq<int>
  {
    seq(|users|, j requires 0 <= j < |users| =>
      if users[j].name != name then mutual(subject, users[j]) else 0)
  }

  /**
   * Recommends whom the user named `name` should follow: the first user, in
   * insertion order, with the strictly greatest positive mutual count, or
   * "" when no other user has a positive one. `mutual` is the unseen
   * `User.countMutual`. The name must resolve.
   */
  method RecommendWhoToFollow(net: Network, name: Name, mutual: (User, User) -> int) returns (r: Name)
    requires Valid(net)
    requires Find(net.users, name).Some?
    ensures var subject := net.users[Find(net.users, name).value];
      (forall j :: 0 <= j < |net.users| && net.users[j].name != name ==> mutual(subject, net.users[j]) <= 0) ==> r == ""
    ensures var subject := net.users[Find(net.users, name).value];
      var best := ArgMax.FirstMax(MutualScores(net.users, name, subject, mutual));
      best.Some? ==> r == net.users[best.value].name && ArgMax.IsFirstMax(MutualScores(net.users, name, subject, mutual), best.value)
    ensures r == "" || r != name
  {
    var maxMutual := 0;
    var maxName := "";
    var mainUser := GetUser(net, name);
    ghost var s := MutualScores(net.users, name, mainUser.value, mutual);
    var i := 0;
    while i < |net.users|
      invariant i <= |net.users|
      invariant ArgMax.FirstMaxOf(s, i).None? ==> maxMutual == 0 && maxName == ""
      invariant ArgMax.FirstMaxOf(s, i).Some? ==>
        maxMutual == s[ArgMax.FirstMaxOf(s, i).value] && maxName == net.users[ArgMax.FirstMaxOf(s, i).value].name
    {
      var user := net.users[i];
      if user.name != name {
        var cMutual := mutual(mainUser.value, user);
        if maxMutual < cMutual {
          maxMutual := cMutual;
          maxName := user.name;
        }
      }
      i := i + 1;
    }
    r := maxName;
  }

  /** Foo follows Bar and Baz, Baz follows Bar: Bar, followed twice, is the most popular. */
  lemma ThreeUserRanking()
    ensures var users := [User("Foo", ["Bar", "Baz"]), User("Bar", []), User("Baz", ["Bar"])];
      ArgMax.FirstMax(PopularityScores(users)) == Some(1)
  {
    var users := [User("Foo", ["Bar", "Baz"]), User("Bar", []), User("Baz", ["Bar"])];
    var scores := PopularityScores(users);
    assert "Bar" in users[0].follows && "Bar" in users[2].follows;
    assert "Baz" in users[0].follows && "Baz" !in users[1].follows;
    assert "Foo" !in users[1].follows && "Foo" !in users[2].follows;
    assert PopularityUpTo(users, 0, 3) == 0;
    assert PopularityUpTo(users, 1, 1) == 1 && PopularityUpTo(users, 1, 3) == 2;
    assert PopularityUpTo(users, 2, 1) == 1 && PopularityUpTo(users, 2, 3) == 1;
    ArgMax.FirstMaxIsUnique(scores, 1);
  }
}
