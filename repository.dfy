/** An in-memory stand-in for the JPA repository the service runs on: a table from id to
    record and a counter that hands out fresh ids. Queries scan the ids in ascending order. */
module Repository {
  import opened Wrappers
  import opened Model

  /** The lowest id in [from, bound) whose record holds `key`, if any. */
  function FirstHolder(users: map<nat, User>, key: Key, from: nat, bound: nat): (r: Option<nat>)
    decreases if from < bound then bound - from else 0
    ensures r.Some? ==> from <= r.value < bound && r.value in users && Holds(users[r.value], key)
    ensures r.Some? ==> forall k :: from <= k < r.value && k in users ==> !Holds(users[k], key)
    ensures r.None? <==> forall k :: from <= k < bound && k in users ==> !Holds(users[k], key)
  {
    if from >= bound then None
    else if from in users && Holds(users[from], key) then Some(from)
    else FirstHolder(users, key, from + 1, bound)
  }

  ghost predicate Increasing(s: seq<nat>) {
    forall i, j :: 0 <= i < j < |s| ==> s[i] < s[j]
  }

  /** Putting an id below every element in front of an ascending list keeps it ascending. */
  lemma ConsIncreasing(x: nat, s: seq<nat>)
    requires Increasing(s)
    requires forall i :: 0 <= i < |s| ==> x < s[i]
    ensures Increasing([x] + s)
  {
    var r := [x] + s;
    forall i, j | 0 <= i < j < |r| ensures r[i] < r[j] {
      assert r[j] == s[j - 1];
      if 0 < i {
        assert r[i] == s[i - 1];
      }
    }
  }

  /** The stored ids in [from, bound), in ascending order. */
  function IdsFrom(users: map<nat, User>, from: nat, bound: nat): (r: seq<nat>)
    decreases if from < bound then bound - from else 0
    ensures forall i :: 0 <= i < |r| ==> from <= r[i] < bound && r[i] in users
    ensures forall k :: from <= k < bound && k in users ==> k in r
    ensures Increasing(r)
  {
    if from >= bound then []
    else
      var rest := IdsFrom(users, from + 1, bound);
      if from in users then
        ConsIncreasing(from, rest);
        [from] + rest
      else rest
  }

  ghost function Elements(s: seq<nat>): set<nat> {
    set x | x in s
  }

  /** A strictly increasing sequence has as many distinct elements as it has positions. */
  lemma {:induction false} IncreasingCard(s: seq<nat>)
    requires Increasing(s)
    ensures |Elements(s)| == |s|
  {
    if s != [] {
      var tail := s[1..];
      IncreasingCard(tail);
      assert s == [s[0]] + tail;
      assert Elements(s) == Elements(tail) + {s[0]};
      assert s[0] !in tail;
    }
  }

  /** The records stored under `ids`, position by position. */
  function RecordsAt(users: map<nat, User>, ids: seq<nat>): (r: seq<User>)
    requires forall i :: 0 <= i < |ids| ==> ids[i] in users
    ensures |r| == |ids| && forall i :: 0 <= i < |ids| ==> r[i] == users[ids[i]]
  {
    seq(|ids|, i requires 0 <= i < |ids| => users[ids[i]])
  }

  /** With a bound that covers the table, the listed ids are exactly the stored ones. */
  lemma ListedIds(users: map<nat, User>, bound: nat)
    requires forall k :: k in users ==> k < bound
    ensures var ids := IdsFrom(users, 0, bound);
      Elements(ids) == users.Keys && |ids| == |users|
  {
    var ids := IdsFrom(users, 0, bound);
    forall k | k in Elements(ids) ensures k in users {
      var i :| 0 <= i < |ids| && ids[i] == k;
    }
    forall k | k in users ensures k in Elements(ids) {
      assert 0 <= k < bound;
    }
    assert Elements(ids) == users.Keys;
    IncreasingCard(ids);
  }

  /** Listing the records of every id below a bound that covers the table, where each record is
      filed under its own id, yields each record once, in ascending id order. */
  lemma ListingComplete(users: map<nat, User>, bound: nat)
    requires forall k :: k in users ==> k < bound && users[k].id == k
    ensures var r := RecordsAt(users, IdsFrom(users, 0, bound));
      && |r| == |users|
      && (forall i :: 0 <= i < |r| ==> r[i].id in users && users[r[i].id] == r[i])
      && (forall k :: k in users ==> users[k] in r)
      && (forall i, j :: 0 <= i < j < |r| ==> r[i].id < r[j].id)
  {
    var ids := IdsFrom(users, 0, bound);
    var r := RecordsAt(users, ids);
    ListedIds(users, bound);
    forall k | k in users ensures users[k] in r {
      var i :| 0 <= i < |ids| && ids[i] == k;
      assert r[i] == users[k];
    }
  }

  class UserRepository {
    var users: map<nat, User>
    var nextId: nat

    /** Every record is filed under its own id, and every id is below the fresh-id counter. */
    ghost predicate Valid()
      reads this
    {
      && 0 < nextId
      && forall k :: k in users ==> Unassigned < k < nextId && users[k].id == k
    }

    constructor ()
      ensures Valid() && users == map[] && nextId == 1
    {
      users := map[];
      nextId := 1;
    }

    function ExistsById(id: nat): (r: bool)
      reads this
      ensures r <==> FindById(id).Some?
    {
      id in users
    }

    /** Agrees with `FindBy`: an email exists exactly when a lookup by it finds a record. */
    function ExistsByEmail(email: string): (r: bool)
      reads this
      requires Valid()
      ensures r <==> FindBy(ByEmail(email)).Some?
    {
      Taken(users, ByEmail(email))
    }

    /** Agrees with `FindBy`: a username exists exactly when a lookup by it finds a record. */
    function ExistsByUsername(username: string): (r: bool)
      reads this
      requires Valid()
      ensures r <==> FindBy(ByUsername(username)).Some?
    {
      Taken(users, ByUsername(username))
    }

    /** The record filed under `id`, if any. */
    function FindById(id: nat): (r: Option<User>)
      reads this
      ensures r.Some? <==> id in users
      ensures r.Some? ==> r.value == users[id]
      ensures Valid() && r.Some? ==> r.value.id == id
    {
      if id in users then Some(users[id]) else None
    }

    /** The record with the lowest id that holds `key`. */
    function FindBy(key: Key): (r: Option<User>)
      reads this
      requires Valid()
      ensures r.None? <==> !Taken(users, key)
      ensures r.Some? ==> r.value.id in users && users[r.value.id] == r.value && Holds(r.value, key)
      ensures UniqueEmails(users) && key.ByEmail? ==> forall k :: k in users && Holds(users[k], key) ==> r == Some(users[k])
      ensures UniqueUsernames(users) && key.ByUsername? ==> forall k :: k in users && Holds(users[k], key) ==> r == Some(users[k])
    {
      match FirstHolder(users, key, 0, nextId)
      case Some(k) => Some(users[k])
      case None => None
    }

    /** Every record, in ascending id order. */
    function FindAll(): (r: seq<User>)
      reads this
      requires Valid()
      ensures |r| == |users|
      ensures forall i :: 0 <= i < |r| ==> r[i].id in users && users[r[i].id] == r[i]
      ensures forall k :: k in users ==> users[k] in r
      ensures forall i, j :: 0 <= i < j < |r| ==> r[i].id < r[j].id
    {
      ListingComplete(users, nextId);
      RecordsAt(users, IdsFrom(users, 0, nextId))
    }

    /** Saves a new record: the store stamps it with a fresh id (the `id` it carries is ignored). */
    method Insert(user: User) returns (saved: User)
      requires Valid()
      modifies this
      ensures Valid()
      ensures saved == user.(id := old(nextId))
      ensures saved.id !in old(users)
      ensures users == old(users)[saved.id := saved]
      ensures nextId == old(nextId) + 1
    {
      saved := user.(id := nextId);
      users := users[nextId := saved];
      nextId := nextId + 1;
    }

    /** Saves a record that is already stored, replacing it. */
    method Update(user: User) returns (saved: User)
      requires Valid() && user.id in users
      modifies this
      ensures Valid()
      ensures saved == user
      ensures users == old(users)[user.id := user]
      ensures nextId == old(nextId)
    {
      users := users[user.id := user];
      saved := user;
    }

    method DeleteById(id: nat)
      requires Valid()
      modifies this
      ensures Valid()
      ensures users == old(users) - {id}
      ensures nextId == old(nextId)
    {
      users := users - {id};
    }
  }
}
