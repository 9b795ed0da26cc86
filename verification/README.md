# Social network model

A Dafny model of the `Network` class of a small social network: a
fixed-capacity array of users whose filled prefix grows only by appending,
with a first-match lookup by name, a capacity-guarded `addUser`, a guarded
`addFollowee`, two arg-max scans in which the first strictly greater value
wins (`recommendWhoToFollow`, `mostPopularUser`) and a bounded counting scan
(`followeeCount`).

Modules:

- `Users` (`users.dfy`): what the network touches of a user, namely its name
  and the valid entries of its follow list (`getfFollows()` up to
  `getfCount()`).
- `Networks` (`network.dfy`): the network state as an immutable datatype,
  holding the filled prefix `users` and the `capacity`, so `userCount` is
  `|users|`. It covers the constructors, lookup, `addUser`, `addFollowee`
  and `toString`.
- `ArgMax` (`argmax.dfy`): the shared "first strictly greater value wins"
  scan. It has a recursive specification, a characterisation and the loop.
- `Rankings` (`rankings.dfy`): popularity, `followeeCount`,
  `mostPopularUser` and `recommendWhoToFollow`. Each loop is checked
  against a recursive specification.
- `AsWritten` (`aswritten.dfy`): the Java array with its null slots, and
  `getUser`, `addUser` and `mostPopularUser` as written. It is used for the
  findings below.
- `Optional` (`optional.dfy`): `Option`, used in place of a null reference.

Parameters stand in for the parts of `User` that are not part of this
model:

- `follow: (User, Name) -> (User, bool)` is `User.addFollowee`.
- `mutual: (User, User) -> int` is `User.countMutual`.
- `show: User -> string` is `User.toString`.

None of them is given a contract.

Names are strings compared with plain equality. Java's `==` on `String`
compares references; the model treats it as value equality and does no case
folding, because the code does none.

Deliberate reading: every loop of the class runs to `users.length`, not to
`userCount`. On a network that is not full, those loops reach a null slot.
`Networks` and `Rankings` scan only the filled prefix. The class itself
marks that prefix as its users: the field comment calls `userCount` the
actual number of users (Network.java:9), and `toString` visits only
`i < userCount` (Network.java:181). `AsWritten` models `getUser`, `addUser`
and `mostPopularUser` as written and proves where the two readings part for
those three (see Findings). The other scans are listed under "Left out".

Where the code and its documentation disagree, the model follows the code:
`addUser` with a name already present returns true, not the false that its
doc comment promises (Network.java:53-54, :61-66).

Two further facts about the code, which the model keeps:

- Names are compared case-sensitively; no comparison folds case.
- `addFollowee` does no self-follow or null check of its own. It leaves
  such rules to `User.addFollowee`.

## Model

| member | source | states |
|---|---|---|
| Networks.Empty | Network.java:12-15 | a new network has the given capacity, no users, and satisfies the capacity invariant |
| Networks.Seeded | Network.java:22-28 | the demonstration constructor fills three slots with distinct names and needs a capacity of at least 3 |
| Networks.UserCount | Network.java:30-32 | the user count never exceeds the capacity |
| Networks.Find | Network.java:39-48 | lookup yields the first position, in insertion order, whose name matches; it yields nothing exactly when no user has the name |
| Networks.GetUser | Network.java:39-48 | the lookup loop returns the user at the first matching position, or nothing exactly when no user carries the name |
| Networks.FindDistinct | Network.java:39-48 | among distinct names, the lookup returns position i exactly when user i carries the name |
| Networks.AddUser | Network.java:58-70 | a full network returns false and is unchanged; otherwise the result is true; a known name changes nothing; a new name is placed at index userCount, the count grows by one and earlier slots are unchanged |
| Networks.AddUserKeepsNamesDistinct | Network.java:61-66 | addUser never introduces a second user with an existing name |
| Networks.AddUserIdempotent | Network.java:61-66 | a second addUser with the same name leaves the network as the first left it |
| Networks.AddUserLookup | Network.java:61-64 | after an append, the new name resolves to the new slot and every other name resolves as before |
| Networks.AddUsersOnlyAppends | Network.java:61-69 | any sequence of addUser calls stays within capacity, keeps every earlier user in place, and adds at most one user per call |
| Networks.AddFollowee | Network.java:78-88 | if either name does not resolve, the result is false and nothing changes; otherwise only the first user named name1 changes, to the result of its own follow step, whose verdict is returned |
| Networks.AddFolloweeKeepsNames | Network.java:80-87 | when the follow step keeps a user's name, addFollowee leaves every name, name distinctness and every lookup unchanged |
| Networks.ToText | Network.java:177-185 | the text starts with the header "Network:", and an empty network renders as the header alone |
| Networks.ToTextAfterAddUser | Network.java:180-184 | appending a user appends exactly that user's text, and the text before it is unchanged |
| ArgMax.FirstMaxOf | Network.java:141-149 | the scan that takes only strictly greater values, starting from 0, has no winner exactly when no value is positive; otherwise it ends on a positive maximum that is strictly above everything before it |
| ArgMax.FirstMaxIsUnique | Network.java:141-149 | the winner characterisation names at most one position, so it determines the scan's outcome |
| ArgMax.Scan | Network.java:141-149 | the loop keeping maxIndex and maxC ends on the first strictly greatest positive value, or on no winner when none is positive |
| Rankings.Contains | Network.java:128-134 | the follow-list scan that breaks at the first match reports whether the list contains the name |
| Rankings.PopularityUpTo | Network.java:123-138 | a user's popularity over the first n users is at most n, and below n once the user itself is among them, because each list counts at most once and the user's own list is skipped |
| Rankings.Popularity | Network.java:123-138 | a popularity is less than the number of users |
| Rankings.PopularityCountsFollowers | Network.java:123-138 | popularity equals the number of other users whose follow list contains the name |
| Rankings.PopularityOf | Network.java:123-138 | the nested counting loop computes exactly the popularity |
| Rankings.FolloweeCountUpTo | Network.java:158-173 | the followee count over the first n users is at most n |
| Rankings.FolloweeCount | Network.java:158-173 | the counting loop computes the followee count, which is at most the number of users scanned |
| Rankings.FolloweeCountCountsFollowers | Network.java:158-173 | for any name, the followee count equals the number of users under other names whose follow list contains the name |
| Rankings.PopularityIsFolloweeCount | Network.java:123-138 | with distinct names, the popularity computed with a skip by position equals the followee count of the user's name computed with a skip by name |
| Rankings.MostPopularUser | Network.java:120-151 | the result is the name of the first user with the strictly greatest popularity; there is no result exactly when every popularity is 0 |
| Rankings.ThreeUserRanking | Network.java:120-151 | if Foo follows Bar and Baz and Baz follows Bar, then Bar (followed twice) is the most popular |
| Rankings.RecommendWhoToFollow | Network.java:96-114 | the result is "" when no other user has a positive mutual count; otherwise it is the first user whose mutual count is strictly maximal; it is never the subject's own name |
| AsWritten.ScanFrom | Network.java:41-47 | the lookup loop from slot i throws exactly when it reaches a null slot before any user carrying the name; a user it returns carries the name |
| AsWritten.GetUserAsWritten | Network.java:39-48 | getUser as written throws NullPointerException exactly when it reaches a null slot before a match; otherwise it returns a user carrying the name, or null |
| AsWritten.AddUserAsWritten | Network.java:58-70 | addUser as written returns false and changes nothing when full; when there is room it throws exactly when the as-written lookup throws, which happens for every new name |
| AsWritten.MostPopularAsWritten | Network.java:120-151 | mostPopularUser as written throws NullPointerException exactly when some slot is null, throws ArrayIndexOutOfBoundsException (users[-1]) exactly when the array is full and no popularity is positive, and otherwise returns the first user with the strictly greatest popularity |
| AsWritten.ScanFromFilled | Network.java:39-48 | from a filled slot on, the as-written lookup returns the prefix lookup's match; failing that, it returns null on a full array and throws at the first empty slot otherwise |
| AsWritten.GetUserAsWrittenVsPrefix | Network.java:39-48 | the as-written lookup throws exactly when the array has an empty slot and no user carries the name; otherwise it agrees with the prefix lookup |
| AsWritten.AddUserAsWrittenNeverAppends | Network.java:58-70 | as written, addUser either throws or returns with array and count unchanged, and it throws whenever there is room and the name is new |
| AsWritten.FirstAddUserDiffers | Network.java:61-64 | the first addUser on a new capacity-3 network throws as written but appends in the prefix model |
| AsWritten.MostPopularAsWrittenVsPrefix | Network.java:120-151 | as written, the ranking throws on a network that is not full; on a full one it throws exactly when every popularity is 0; otherwise it returns the first strictly most popular user |
| AsWritten.UnfollowedRanking | Network.java:141-150 | as written, the ranking reads index -1 on `new Network(0)` and on the full seeded network `new Network(3, true)`, where nobody follows anybody |

## Left out

- `User.addFollowee`, `User.countMutual` and `User.toString` are not part of this model. Each is a function parameter with no contract, so no rule about self-follow, duplicate followees, follow-list capacity or the symmetry of the mutual count is assumed.
- Java reference equality on `String`, and `null` names: names are values compared with `==` on strings.
- A negative `maxUserCount`, which makes the array allocation throw: the capacity is a `nat`.
- Object identity and aliasing: `GetUser` returns the user as a value, so a caller changing the returned `User` object in place is not modelled. `AddFollowee` replaces the user in the sequence instead.
- Integer overflow: every count is bounded by the number of users, so 32-bit wrap-around cannot occur.
- Rankings.RecommendWhoToFollow: requires that the name resolves. The source dereferences a null user there, unless the network is empty, where it returns "". Also, as written its loop (Network.java:101-103) calls `getName()` on every slot, so it throws `NullPointerException` at the first null slot of every network that is not full. Only the filled-prefix reading is modelled.
- Networks.AddFollowee: as written it resolves both names with `getUser` (Network.java:80-81), so on a network that is not full, a name that matches no filled slot throws `NullPointerException` instead of yielding false. Only the filled-prefix reading is modelled.
- Rankings.FolloweeCount: as written its loop (Network.java:160-161) calls `getName()` on every slot, so it throws `NullPointerException` at the first null slot of every network that is not full. Only the filled-prefix reading is modelled.
- Networks.ToText: states only the header and how the text grows when a user is appended. Each user's own text comes from the unseen `User.toString`.

## Findings

| source | as written | input that shows it | evidently intended | confidence | as-written member | corrected member |
|---|---|---|---|---|---|---|
| Network.java:41-44, 61-63 | `getUser` loops to `users.length` and calls `getName()` on every slot, so on a network that is not full it throws `NullPointerException` at the first empty slot unless a filled slot matches first. `addUser` calls it for every new name, so it can never add a user. | `new Network(3).addUser("Foo")` | the lookup scans only the `userCount` filled slots, so `addUser` appends a new name | high (not executed) | AsWritten.AddUserAsWrittenNeverAppends | Networks.AddUser |
| Network.java:141-150 | `maxIndex` starts at -1 and moves only on a strictly positive count, so if nobody follows anybody (this includes a capacity-0 network) `users[maxIndex]` throws `ArrayIndexOutOfBoundsException` | `new Network(0).mostPopularUser()`, or `new Network(3, true).mostPopularUser()` on the seeded, full network | report that there is no most popular user | high (not executed) | AsWritten.UnfollowedRanking | Rankings.MostPopularUser |
