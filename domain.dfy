/**
 * The persistent entities: users with their city and region, and the
 * `friendship` join table whose rows (iduser, idfriend) give every user the
 * two friend collections `myFriends` and `friendsOfMine`.
 */
module Domain {
  import opened Wrappers
  import opened Dates
  import opened Text

  /** The gender enumeration; its two constants are the ones the application stores. */
  datatype Gender = M | F

  datatype Region = Region(id: int, name: Option<string>)

  datatype City = City(id: int, name: Option<string>, region: Option<Region>)

  /**
   * The columns of a `users` row. The id is the key under which the row is
   * stored; the two friend collections live in the friendship table.
   */
  datatype User = User(
    name: Option<string>,
    surname: Option<string>,
    dateOfBDay: Option<Date>,
    gender: Option<Gender>,
    interests: Option<string>,
    city: Option<City>)

  /** @Length(min, max) on a string column, counted in UTF-16 units as String.length does: an absent value passes. */
  predicate LengthBetween(s: Option<string>, min: int, max: int) {
    s.Some? ==> min <= Utf16Length(s.value) <= max
  }

  /** The entity's bean-validation constraints: name and surname required, 1..45 characters; interests at most 512. */
  predicate UserValid(u: User) {
    && u.name.Some? && LengthBetween(u.name, 1, 45)
    && u.surname.Some? && LengthBetween(u.surname, 1, 45)
    && LengthBetween(u.interests, 0, 512)
  }

  /** A row of the friendship join table: (iduser, idfriend). */
  type Row = (int, int)

  /** The owning side `myFriends` of user `id`: the idfriend of each of its rows, in table order. */
  function MyFriends(friendship: seq<Row>, id: int): (r: seq<int>)
    ensures |r| <= |friendship|
  {
    if friendship == [] then []
    else
      var rest := MyFriends(friendship[1..], id);
      if friendship[0].0 == id then [friendship[0].1] + rest else rest
  }

  /** The inverse side `friendsOfMine` (mappedBy myFriends): the iduser of each row naming `id` as friend. */
  function FriendsOfMine(friendship: seq<Row>, id: int): (r: seq<int>)
    ensures |r| <= |friendship|
  {
    if friendship == [] then []
    else
      var rest := FriendsOfMine(friendship[1..], id);
      if friendship[0].1 == id then [friendship[0].0] + rest else rest
  }

  /** A row (iduser, idfriend) puts idfriend in iduser's myFriends, and nothing else does. */
  lemma {:induction false} MyFriendsAreRows(friendship: seq<Row>, id: int, f: int)
    ensures f in MyFriends(friendship, id) <==> (id, f) in friendship
  {
    if friendship != [] {
      MyFriendsAreRows(friendship[1..], id, f);
      assert friendship == [friendship[0]] + friendship[1..];
    }
  }

  /** A row (iduser, idfriend) puts iduser in idfriend's friendsOfMine, and nothing else does. */
  lemma {:induction false} FriendsOfMineAreRows(friendship: seq<Row>, id: int, u: int)
    ensures u in FriendsOfMine(friendship, id) <==> (u, id) in friendship
  {
    if friendship != [] {
      FriendsOfMineAreRows(friendship[1..], id, u);
      assert friendship == [friendship[0]] + friendship[1..];
    }
  }

  /** friendsOfMine is the inverse of myFriends: b is in a's friendsOfMine iff a is in b's myFriends. */
  lemma FriendsOfMineIsInverse(friendship: seq<Row>, a: int, b: int)
    ensures b in FriendsOfMine(friendship, a) <==> a in MyFriends(friendship, b)
  {
    FriendsOfMineAreRows(friendship, a, b);
    MyFriendsAreRows(friendship, b, a);
  }

  /** `u` is in `c`'s friendsOfMine or in `c`'s myFriends: one row in either direction. */
  predicate AreFriends(friendship: seq<Row>, u: int, c: int) {
    (u, c) in friendship || (c, u) in friendship
  }

  /** Friendship for search purposes is symmetric although rows are directed. */
  lemma AreFriendsSymmetric(friendship: seq<Row>, u: int, c: int)
    ensures AreFriends(friendship, u, c) <==> AreFriends(friendship, c, u)
  {
  }

  /** AreFriends is membership in one of the two collections of the candidate. */
  lemma AreFriendsIsMembership(friendship: seq<Row>, u: int, c: int)
    ensures AreFriends(friendship, u, c) <==> u in FriendsOfMine(friendship, c) || u in MyFriends(friendship, c)
  {
    FriendsOfMineAreRows(friendship, c, u);
    MyFriendsAreRows(friendship, c, u);
  }
}
