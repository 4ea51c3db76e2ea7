/**
 * The user repository: the `users` table keyed by a generated id, the
 * `friendship` join table in row order, the generated JPA operations the
 * services call, and the two native friendship queries.
 */
module UserRepository {
  import opened Wrappers
  import opened Dates
  import opened Domain
  import opened BaseSpecification

  /** The friendship table after `DELETE ... WHERE iduser = row.0 AND idfriend = row.1`. */
  function Without(friendship: seq<Row>, row: Row): (r: seq<Row>)
    ensures |r| <= |friendship|
  {
    if friendship == [] then []
    else
      var rest := Without(friendship[1..], row);
      if friendship[0] == row then rest else [friendship[0]] + rest
  }

  /** The delete removes every copy of the row, keeps every other row with its multiplicity, and keeps their order. */
  lemma {:induction false} WithoutRemovesExactly(friendship: seq<Row>, row: Row)
    ensures multiset(Without(friendship, row)) == multiset(friendship)[row := 0]
    ensures |friendship| - |Without(friendship, row)| == multiset(friendship)[row]
  {
    if friendship != [] {
      WithoutRemovesExactly(friendship[1..], row);
      assert friendship == [friendship[0]] + friendship[1..];
    }
  }

  /**
   * The friendship table once user `id` is removed: Hibernate first deletes
   * the rows of the owning side `myFriends` (iduser = id); rows naming the
   * user as idfriend belong to the inverse side and stay.
   */
  function WithoutOwner(friendship: seq<Row>, id: int): (r: seq<Row>)
    ensures |r| <= |friendship|
  {
    if friendship == [] then []
    else
      var rest := WithoutOwner(friendship[1..], id);
      if friendship[0].0 == id then rest else [friendship[0]] + rest
  }

  /** Exactly the rows the removed user owns are gone. */
  lemma {:induction false} WithoutOwnerKeepsOthers(friendship: seq<Row>, id: int, row: Row)
    ensures row in WithoutOwner(friendship, id) <==> row in friendship && row.0 != id
  {
    if friendship != [] {
      WithoutOwnerKeepsOthers(friendship[1..], id, row);
      assert friendship == [friendship[0]] + friendship[1..];
    }
  }

  /** After the delete the removed user has no myFriends left, and whoever named them as friend still does. */
  lemma DeleteUserUnlinksOwnedRows(friendship: seq<Row>, id: int, f: int, u: int)
    ensures f !in MyFriends(WithoutOwner(friendship, id), id)
    ensures u != id ==> (u in FriendsOfMine(WithoutOwner(friendship, id), id) <==> u in FriendsOfMine(friendship, id))
  {
    WithoutOwnerKeepsOthers(friendship, id, (id, f));
    MyFriendsAreRows(WithoutOwner(friendship, id), id, f);
    WithoutOwnerKeepsOthers(friendship, id, (u, id));
    FriendsOfMineAreRows(WithoutOwner(friendship, id), id, u);
    FriendsOfMineAreRows(friendship, id, u);
  }

  /** The ids in [lo, hi), in increasing order, of the rows satisfying `spec`. */
  function Select(users: map<int, User>, spec: Option<Spec>, w: World, lo: int, hi: int): (ids: seq<int>)
    decreases hi - lo
  {
    if lo >= hi then []
    else
      var rest := Select(users, spec, w, lo + 1, hi);
      if lo in users && Holds(spec, lo, users[lo], w) then [lo] + rest else rest
  }

  lemma {:induction false} SelectIsExactly(users: map<int, User>, spec: Option<Spec>, w: World, lo: int, hi: int)
    ensures forall x :: x in Select(users, spec, w, lo, hi) <==>
      lo <= x < hi && x in users && Holds(spec, x, users[x], w)
    ensures forall i, j :: 0 <= i < j < |Select(users, spec, w, lo, hi)| ==>
      Select(users, spec, w, lo, hi)[i] < Select(users, spec, w, lo, hi)[j]
    decreases hi - lo
  {
    if lo < hi {
      SelectIsExactly(users, spec, w, lo + 1, hi);
      var rest := Select(users, spec, w, lo + 1, hi);
      forall j | 0 <= j < |rest| ensures lo < rest[j] {
        assert rest[j] in rest;
      }
    }
  }

  /** The repository's failures. */
  datatype Error =
    | NoEntityWithId(id: int)        // EmptyResultDataAccessException from deleteById
    | ConstraintViolation            // bean validation of the entity before an insert or update

  class UserRepository {
    var users: map<int, User>
    var friendship: seq<Row>
    /** The next value of the id column's IDENTITY generator. */
    var nextId: int

    ghost predicate Valid()
      reads this
    {
      nextId >= 1 && forall id :: id in users ==> 1 <= id < nextId
    }

    constructor ()
      ensures Valid() && users == map[] && friendship == []
    {
      users := map[];
      friendship := [];
      nextId := 1;
    }

    /** findById. */
    function FindById(id: int): (r: Option<User>)
      reads this
      ensures r.Some? <==> id in users
      ensures r.Some? ==> r.value == users[id]
    {
      if id in users then Some(users[id]) else None
    }

    /**
     * save of a new entity: the entity's constraints are checked before the
     * insert; a valid entity is inserted under a freshly generated id.
     */
    method SaveNew(u: User) returns (r: Result<int, Error>)
      requires Valid()
      modifies this
      ensures Valid()
      ensures friendship == old(friendship)
      ensures !UserValid(u) ==> r == Err(ConstraintViolation) && users == old(users)
      ensures UserValid(u) ==> r.Ok? && r.value !in old(users) && users == old(users)[r.value := u]
    {
      if !UserValid(u) {
        return Err(ConstraintViolation);
      }
      var id := nextId;
      users := users[id := u];
      nextId := nextId + 1;
      r := Ok(id);
    }

    /**
     * save of an entity that is already stored: the entity's constraints are
     * checked before the update; a valid entity overwrites its row.
     */
    method SaveExisting(id: int, u: User) returns (r: Result<(), Error>)
      requires Valid() && id in users
      modifies this`users
      ensures Valid()
      ensures !UserValid(u) ==> r == Err(ConstraintViolation) && users == old(users)
      ensures UserValid(u) ==> r.Ok? && users == old(users)[id := u]
    {
      if !UserValid(u) {
        return Err(ConstraintViolation);
      }
      users := users[id := u];
      r := Ok(());
    }

    /** deleteById: removes the user with the rows it owns, or fails when there is none. */
    method DeleteById(id: int) returns (r: Result<(), Error>)
      requires Valid()
      modifies this`users, this`friendship
      ensures Valid()
      ensures id in old(users) ==>
        r.Ok? && users == old(users) - {id} && friendship == WithoutOwner(old(friendship), id)
      ensures id !in old(users) ==>
        r == Err(NoEntityWithId(id)) && users == old(users) && friendship == old(friendship)
    {
      if id in users {
        friendship := WithoutOwner(friendship, id);
        users := users - {id};
        r := Ok(());
      } else {
        r := Err(NoEntityWithId(id));
      }
    }

    /** addFriend, as its commented-out INSERT INTO friendship intends: one new row, one row changed. */
    method AddFriend(idUser: int, idFriend: int) returns (count: int)
      requires Valid()
      modifies this`friendship
      ensures Valid()
      ensures friendship == old(friendship) + [(idUser, idFriend)]
      ensures count == 1
    {
      friendship := friendship + [(idUser, idFriend)];
      count := 1;
    }

    /** deleteFriend: deletes every row (idUser, idFriend) and returns how many there were. */
    method DeleteFriend(idUser: int, idFriend: int) returns (count: int)
      requires Valid()
      modifies this`friendship
      ensures Valid()
      ensures friendship == Without(old(friendship), (idUser, idFriend))
      ensures count == multiset(old(friendship))[(idUser, idFriend)]
    {
      WithoutRemovesExactly(friendship, (idUser, idFriend));
      var before := |friendship|;
      friendship := Without(friendship, (idUser, idFriend));
      count := before - |friendship|;
    }

    /** findAll(specification): the ids of the rows satisfying it, in increasing order. */
    function FindAll(spec: Option<Spec>, today: Date): (ids: seq<int>)
      requires Valid()
      reads this
      ensures forall x :: x in ids <==> x in users && Holds(spec, x, users[x], World(friendship, today))
      ensures forall i, j :: 0 <= i < j < |ids| ==> ids[i] < ids[j]
    {
      SelectIsExactly(users, spec, World(friendship, today), 1, nextId);
      Select(users, spec, World(friendship, today), 1, nextId)
    }
  }

  /** After deleteFriend(u, f) no row (u, f) is left, and the reverse row and all other rows are untouched. */
  lemma DeleteFriendEffect(friendship: seq<Row>, u: int, f: int, row: Row)
    ensures (u, f) !in Without(friendship, (u, f))
    ensures row != (u, f) ==> (row in Without(friendship, (u, f)) <==> row in friendship)
  {
    WithoutRemovesExactly(friendship, (u, f));
    assert (u, f) in Without(friendship, (u, f)) <==> (u, f) in multiset(Without(friendship, (u, f)));
    assert row in Without(friendship, (u, f)) <==> row in multiset(Without(friendship, (u, f)));
  }

  /** Deleting an edge that is not there deletes nothing. */
  lemma {:induction false} DeleteAbsentFriend(friendship: seq<Row>, row: Row)
    requires row !in friendship
    ensures Without(friendship, row) == friendship
  {
    if friendship != [] {
      DeleteAbsentFriend(friendship[1..], row);
      assert friendship == [friendship[0]] + friendship[1..];
    }
  }

  /** After addFriend(2, 3), 3 is in 2's myFriends and 2 is in 3's friendsOfMine. */
  lemma AddFriendLinksBoth(friendship: seq<Row>, u: int, f: int)
    ensures f in MyFriends(friendship + [(u, f)], u)
    ensures u in FriendsOfMine(friendship + [(u, f)], f)
  {
    MyFriendsAreRows(friendship + [(u, f)], u, f);
    FriendsOfMineAreRows(friendship + [(u, f)], f, u);
  }

  /** After deleteFriend(1, 2), 2 is not in 1's myFriends and 1 is not in 2's friendsOfMine. */
  lemma DeleteFriendUnlinks(friendship: seq<Row>, u: int, f: int)
    ensures f !in MyFriends(Without(friendship, (u, f)), u)
    ensures u !in FriendsOfMine(Without(friendship, (u, f)), f)
  {
    DeleteFriendEffect(friendship, u, f, (u, f));
    MyFriendsAreRows(Without(friendship, (u, f)), u, f);
    FriendsOfMineAreRows(Without(friendship, (u, f)), f, u);
  }
}
