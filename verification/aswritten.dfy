/**
 * The user array as the class actually keeps it: `capacity` slots, the
 * first `userCount` holding users and the rest null (`None`). The loops of
 * `getUser` and `mostPopularUser` run over every slot rather than over the
 * filled prefix, and `mostPopularUser` reads the slot at the winning index
 * even when there is no winner (index -1). This module models those loops
 * as written, with the Java exception each can raise, so that the
 * discrepancies with the prefix model in `Networks` and `Rankings` can be
 * stated and proved.
 */
module AsWritten {
  import opened Optional
  import opened Users
  import Networks
  import Rankings
  import ArgMax

  /** What a Java call does: return a value or throw. */
  datatype Outcome<+T> = Returned(value: T) | NullPointer | IndexOutOfBounds

  /** The slot array of a consistent network: exactly the first `count` slots are filled. */
  predicate Filled(slots: seq<Option<User>>, count: nat)
  {
    && count <= |slots|
    && forall i :: 0 <= i < |slots| ==> (slots[i].Some? <==> i < count)
  }

  /** The users in the filled slots, in order. */
  function Prefix(slots: seq<Option<User>>, count: nat): seq<User>
    requires Filled(slots, count)
  {
    seq(count, i requires 0 <= i < count => slots[i].value)
  }

  /** A null slot at `k`, with every slot from `i` up to `k` filled by a user of another name. */
  predicate NullBeforeMatch(slots: seq<Option<User>>, name: Name, i: nat, k: nat)
  {
    && i <= k < |slots|
    && slots[k].None?
    && forall j :: i <= j < k ==> slots[j].Some? && slots[j].value.name != name
  }

  /** The lookup loop from slot `i` on: a null slot reached before a match throws. */
  function ScanFrom(slots: seq<Option<User>>, name: Name, i: nat): (r: Outcome<Option<User>>)
    ensures r != IndexOutOfBounds
    ensures r == NullPointer <==> exists k :: NullBeforeMatch(slots, name, i, k)
    ensures r.Returned? && r.value.Some? ==> r.value.value.name == name && r.value in slots
    decreases |slots| - i
  {
    if i >= |slots| then Returned(None)
    else
      match slots[i]
      case None => assert NullBeforeMatch(slots, name, i, i); NullPointer
      case Some(u) =>
        if u.name == name then Returned(Some(u))
        else
          NullBeforeMatchShift(slots, name, i, i + 1);
          ScanFrom(slots, name, i + 1)
  }

  /** Past a filled slot of another name, the scan reaches the same null slots as from the next slot. */
  lemma NullBeforeMatchShift(slots: seq<Option<User>>, name: Name, i: nat, next: nat)
    requires i < |slots| && slots[i].Some? && slots[i].value.name != name
    requires next == i + 1
    ensures (exists k :: NullBeforeMatch(slots, name, i, k)) <==> (exists k :: NullBeforeMatch(slots, name, next, k))
  {
    if k :| NullBeforeMatch(slots, name, i, k) {
      assert NullBeforeMatch(slots, name, next, k);
    }
    if k :| NullBeforeMatch(slots, name, next, k) {
      assert NullBeforeMatch(slots, name, i, k);
    }
  }

  /**
   * `getUser` as written: it throws exactly when it reaches a null slot
   * before any user carrying the name; a user it returns carries the name.
   */
  function GetUserAsWritten(slots: seq<Option<User>>, name: Name): (r: Outcome<Option<User>>)
    ensures r != IndexOutOfBounds
    ensures r == NullPointer <==> exists k :: NullBeforeMatch(slots, name, 0, k)
    ensures r.Returned? && r.value.Some? ==> r.value.value.name == name && r.value in slots
  {
    ScanFrom(slots, name, 0)
  }

  /** What the prefix lookup of `Networks` returns for the same users. */
  function PrefixLookup(users: seq<User>, name: Name): Option<User>
  {
    match Networks.Find(users, name)
    case None => None
    case Some(k) => Some(users[k])
  }

  /**
   * From a filled slot `i` on, the as-written lookup finds what the prefix
   * lookup finds among the remaining filled slots; failing that, it returns
   * null on a full array and throws on the first empty slot otherwise.
   */
  lemma {:induction false} ScanFromFilled(slots: seq<Option<User>>, count: nat, name: Name, i: nat)
    requires Filled(slots, count) && i <= count
    ensures ScanFrom(slots, name, i) ==
      match Networks.Find(Prefix(slots, count)[i..], name)
      case Some(k) => Returned(Some(Prefix(slots, count)[i + k]))
      case None => if count < |slots| then NullPointer else Returned(None)
    decreases count - i
  {
    var users := Prefix(slots, count);
    if i < count {
      ScanFromFilled(slots, count, name, i + 1);
      assert users[i..][1..] == users[i + 1..];
      assert users[i..][0] == users[i];
    }
  }

  /**
   * The as-written lookup throws exactly when the array has an empty slot
   * and no filled slot carries the name; otherwise it agrees with the
   * prefix lookup.
   */
  lemma GetUserAsWrittenVsPrefix(slots: seq<Option<User>>, count: nat, name: Name)
    requires Filled(slots, count)
    ensures var users := Prefix(slots, count);
      GetUserAsWritten(slots, name) ==
        if count < |slots| && Networks.Find(users, name).None? then NullPointer
        else Returned(PrefixLookup(users, name))
  {
    ScanFromFilled(slots, count, name, 0);
    assert Prefix(slots, count)[0..] == Prefix(slots, count);
  }

  /** `addUser` as written: the fresh-name branch first runs the as-written lookup. */
  function AddUserAsWritten(slots: seq<Option<User>>, count: nat, name: Name): (r: Outcome<(seq<Option<User>>, nat, bool)>)
    requires count <= |slots|
    ensures count == |slots| ==> r == Returned((slots, count, false))
    ensures r != IndexOutOfBounds
    ensures r == NullPointer <==> count < |slots| && GetUserAsWritten(slots, name) == NullPointer
    ensures r.Returned? && r.value.1 != count ==>
      r.value.1 == count + 1 && r.value.2 && r.value.0 == slots[count := Some(NewUser(name))]
  {
    if count < |slots| then
      var found := GetUserAsWritten(slots, name);
      if found == NullPointer then NullPointer
      else if found.value.None? then Returned((slots[count := Some(NewUser(name))], count + 1, true))
      else Returned((slots, count, true))
    else
      Returned((slots, count, false))
  }

  /**
   * As written, `addUser` can never add a user: on a consistent array it
   * either throws or returns with the array and the count unchanged, and it
   * throws whenever there is room and the name is new.
   */
  lemma AddUserAsWrittenNeverAppends(slots: seq<Option<User>>, count: nat, name: Name)
    requires Filled(slots, count)
    ensures AddUserAsWritten(slots, count, name) == NullPointer
         || AddUserAsWritten(slots, count, name) == Returned((slots, count, count < |slots|))
    ensures count < |slots| && Networks.Find(Prefix(slots, count), name).None? ==>
      AddUserAsWritten(slots, count, name) == NullPointer
  {
    GetUserAsWrittenVsPrefix(slots, count, name);
  }

  /** The first `addUser` on a new network of capacity 3 throws as written, and appends in the prefix model. */
  lemma FirstAddUserDiffers()
    ensures AddUserAsWritten([None, None, None], 0, "Foo") == NullPointer
    ensures Networks.AddUser(Networks.Empty(3), "Foo").net.users == [NewUser("Foo")]
  {
  }

  /**
   * `mostPopularUser` as written. Its loops dereference every slot, so any
   * empty slot throws. On a full array it computes the popularities and
   * the arg-max scan, starting from index -1, and reads the slot at the
   * resulting index, which throws when no popularity is positive.
   */
  function MostPopularAsWritten(slots: seq<Option<User>>): (r: Outcome<Name>)
    ensures r == NullPointer <==> exists k :: 0 <= k < |slots| && slots[k].None?
    ensures r == IndexOutOfBounds <==>
      Filled(slots, |slots|) && forall i :: 0 <= i < |slots| ==> Rankings.Popularity(Prefix(slots, |slots|), i) == 0
    ensures r.Returned? ==>
      && Filled(slots, |slots|)
      && exists k: nat :: ArgMax.IsFirstMax(Rankings.PopularityScores(Prefix(slots, |slots|)), k)
           && r.value == Prefix(slots, |slots|)[k].name
  {
    if !Filled(slots, |slots|) then NullPointer
    else
      var users := Prefix(slots, |slots|);
      var scores := Rankings.PopularityScores(users);
      assert forall i :: 0 <= i < |users| ==> scores[i] == Rankings.Popularity(users, i);
      match ArgMax.FirstMax(scores)
      case None => IndexOutOfBounds
      case Some(k) => Returned(users[k].name)
  }

  /**
   * The as-written ranking throws on an array that is not full, and throws
   * on a full one exactly when nobody follows anybody, where the prefix
   * model reports that there is no most popular user. When it returns, it
   * returns the first user with the strictly greatest popularity.
   */
  lemma MostPopularAsWrittenVsPrefix(slots: seq<Option<User>>, count: nat)
    requires Filled(slots, count)
    ensures count < |slots| ==> MostPopularAsWritten(slots) == NullPointer
    ensures count == |slots| ==>
      (MostPopularAsWritten(slots) == IndexOutOfBounds <==>
       forall i :: 0 <= i < count ==> Rankings.Popularity(Prefix(slots, count), i) == 0)
    ensures MostPopularAsWritten(slots).Returned? ==>
      exists k: nat :: ArgMax.IsFirstMax(Rankings.PopularityScores(Prefix(slots, count)), k)
        && MostPopularAsWritten(slots).value == Prefix(slots, count)[k].name
  {
    if count < |slots| {
      assert !Filled(slots, |slots|) by {
        assert slots[count].None?;
      }
    } else {
      var users := Prefix(slots, count);
      var scores := Rankings.PopularityScores(users);
      assert forall i :: 0 <= i < count ==> scores[i] == Rankings.Popularity(users, i);
    }
  }

  /**
   * Two networks the code can build where nobody follows anybody, so the
   * ranking as written reads index -1: `new Network(0)`, and the seeded
   * `new Network(3, true)`, whose three slots are all filled.
   */
  lemma UnfollowedRanking()
    ensures MostPopularAsWritten([]) == IndexOutOfBounds
    ensures MostPopularAsWritten([Some(NewUser("Foo")), Some(NewUser("Bar")), Some(NewUser("Baz"))]) == IndexOutOfBounds
  {
    var slots := [Some(NewUser("Foo")), Some(NewUser("Bar")), Some(NewUser("Baz"))];
    assert Filled(slots, 3);
    var users := Prefix(slots, 3);
    assert users == Networks.Seeded(3).users;
    assert forall i :: 0 <= i < 3 ==> Rankings.Popularity(users, i) == 0;
  }
}
