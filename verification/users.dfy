/**
 * The part of a User that the network touches: its name and the valid
 * entries of its follow list (the first `getfCount()` entries of
 * `getfFollows()`). The rules by which a user accepts a followee and the
 * mutual-followee count are not part of this model; the network operations
 * take them as parameters instead.
 */
module Users {

  /** User names, compared with plain equality and no case folding. */
  type Name = string

  datatype User = User(name: Name, follows: seq<Name>)

  /** A freshly created user: the given name and nobody followed yet. */
  function NewUser(name: Name): User
  {
    User(name, [])
  }
}
