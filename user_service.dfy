/**
 * The user service: the converters between entities and view models, and
 * the operations on the store (register, view, edit, delete, search, friend
 * list, add and remove a friend). `today` stands for LocalDate.now().
 */
module UserService {
  import opened Wrappers
  import opened Dates
  import opened Domain
  import opened Dtos
  import opened BaseSpecification
  import opened Filters
  import opened CityService
  import Repo = UserRepository

  /** The two failures the service raises besides the repository's own. */
  datatype Error =
    | UserNotFound                   // RuntimeException("User not found")
    | NoValuePresent                 // Optional.get on an empty Optional
    | Repository(cause: Repo.Error)

  /** `%s` of String.format: a null argument prints as "null". */
  function FormatArg(s: Option<string>): string {
    if s.Some? then s.value else "null"
  }

  /** `String.format("%s %s", name, surname)`. */
  function Fio(u: User): (r: string)
    ensures u.name.Some? && u.surname.Some? ==> r == u.name.value + " " + u.surname.value
  {
    FormatArg(u.name) + " " + FormatArg(u.surname)
  }

  /** The displayed age: the years of Period.between(birth date, today); none without a birth date. */
  function Age(u: User, today: Date): (r: Option<int>)
    ensures r.Some? <==> u.dateOfBDay.Some?
  {
    if u.dateOfBDay.Some? then Some(YearsBetween(u.dateOfBDay.value, today)) else None
  }

  /** The displayed age is the number of whole years lived: born after today minus a+1 years, on or before today minus a years. */
  lemma AgeIsWholeYears(u: User, today: Date)
    requires u.dateOfBDay.Some? && Valid(u.dateOfBDay.value) && Valid(today)
    requires OnOrBefore(u.dateOfBDay.value, today)
    ensures Age(u, today).Some? && Age(u, today).value >= 0
    ensures OnOrBefore(u.dateOfBDay.value, MinusYears(today, Age(u, today).value))
    ensures !OnOrBefore(u.dateOfBDay.value, MinusYears(today, Age(u, today).value + 1))
  {
    YearsBetweenBracket(u.dateOfBDay.value, today);
  }

  /** converterUserRegisterDtoToUser: only name and surname are copied. */
  function ConverterUserRegisterDtoToUser(dto: UserRegisterDto): (u: User)
    ensures u.name == dto.name && u.surname == dto.surname
    ensures u.dateOfBDay.None? && u.gender.None? && u.interests.None? && u.city.None?
  {
    User(dto.name, dto.surname, None, None, None, None)
  }

  /** A registration that passes validation yields an entity that satisfies the entity's constraints. */
  lemma RegisteredUserValid(dto: UserRegisterDto)
    requires RegisterValid(dto)
    ensures UserValid(ConverterUserRegisterDtoToUser(dto))
  {
  }

  /** Birth date, gender and city given at registration are dropped. */
  lemma RegistrationDropsOptionalFields(dto: UserRegisterDto)
    requires dto.dateOfBDay.Some? || dto.gender.Some? || dto.city.Some?
    ensures ConverterUserRegisterDtoToUser(dto).dateOfBDay != dto.dateOfBDay
      || ConverterUserRegisterDtoToUser(dto).gender != dto.gender
      || ConverterUserRegisterDtoToUser(dto).city != dto.city
  {
  }

  /** The six setters of updateUser: every editable column takes the DTO's value, absent values included. */
  function ApplyEdit(u: User, dto: UserEditDto): (r: User)
    ensures r.name == dto.name && r.surname == dto.surname && r.dateOfBDay == dto.dateOfBDay
    ensures r.gender == dto.gender && r.interests == dto.interests && r.city == dto.city
  {
    u.(name := dto.name, surname := dto.surname, dateOfBDay := dto.dateOfBDay,
       gender := dto.gender, interests := dto.interests, city := dto.city)
  }

  /** A valid edit that carries a name and a surname leaves a valid entity. */
  lemma EditWithNamesKeepsUserValid(u: User, dto: UserEditDto)
    requires EditValid(dto) && dto.name.Some? && dto.surname.Some?
    ensures UserValid(ApplyEdit(u, dto))
  {
  }

  /** An edit without a name passes the body's validation, yet the edited entity breaks the required name, so saving it is refused. */
  lemma EditWithoutNameBreaksUser(u: User, dto: UserEditDto)
    requires dto.name.None? && EditValid(dto)
    ensures !UserValid(ApplyEdit(u, dto))
  {
  }

  /** convertToUserByListDto. */
  function ConvertToUserByListDto(u: User, today: Date): (r: UserByListDto)
    ensures r.fio == Fio(u) && r.gender == u.gender && r.age == Age(u, today)
  {
    UserByListDto(Fio(u), u.gender, Age(u, today))
  }

  /** Each user of a list converted, order kept (a stream map). */
  function ConvertAll(us: seq<User>, today: Date): (r: seq<UserByListDto>)
    ensures |r| == |us|
    ensures forall i :: 0 <= i < |us| ==> r[i] == ConvertToUserByListDto(us[i], today)
  {
    seq(|us|, i requires 0 <= i < |us| => ConvertToUserByListDto(us[i], today))
  }

  /** convertToUserPageDto; the friends are myFriends followed by friendsOfMine. */
  function ConvertToUserPageDto(u: User, myFriends: seq<User>, friendsOfMine: seq<User>, today: Date): (r: UserPageDto)
    ensures r.fio == Fio(u) && r.age == Age(u, today) && r.gender == u.gender && r.interests == u.interests
    ensures r.city == ConvertToCityDto(u.city)
    ensures |r.friends| == |myFriends| + |friendsOfMine|
    ensures forall i :: 0 <= i < |myFriends| ==> r.friends[i] == ConvertToUserByListDto(myFriends[i], today)
    ensures forall i :: 0 <= i < |friendsOfMine| ==>
      r.friends[|myFriends| + i] == ConvertToUserByListDto(friendsOfMine[i], today)
  {
    UserPageDto(Fio(u), Age(u, today), u.gender, u.interests, ConvertToCityDto(u.city),
                ConvertAll(myFriends + friendsOfMine, today))
  }

  /** Loading a friend collection: the stored users behind a list of ids, in order; rows naming no stored user are skipped. */
  function LoadUsers(users: map<int, User>, ids: seq<int>): (r: seq<User>)
    ensures |r| <= |ids|
  {
    if ids == [] then []
    else
      var rest := LoadUsers(users, ids[1..]);
      if ids[0] in users then [users[ids[0]]] + rest else rest
  }

  lemma {:induction false} LoadUsersHas(users: map<int, User>, ids: seq<int>, x: int)
    requires x in ids && x in users
    ensures users[x] in LoadUsers(users, ids)
  {
    if ids[0] != x {
      LoadUsersHas(users, ids[1..], x);
    }
  }

  /** Every loaded user is the stored user behind some listed id. */
  lemma {:induction false} LoadUsersOnly(users: map<int, User>, ids: seq<int>, v: User)
    requires v in LoadUsers(users, ids)
    ensures exists i :: 0 <= i < |ids| && ids[i] in users && users[ids[i]] == v
  {
    assert ids != [];
    if !(ids[0] in users && v == users[ids[0]]) {
      assert v in LoadUsers(users, ids[1..]);
      LoadUsersOnly(users, ids[1..], v);
      var i :| 0 <= i < |ids[1..]| && ids[1..][i] in users && users[ids[1..][i]] == v;
      assert ids[i + 1] == ids[1..][i];
    }
  }

  /** The stored users behind ids that are all stored, in order (findAll's entity list). */
  function Lookup(users: map<int, User>, ids: seq<int>): (r: seq<User>)
    requires forall i :: 0 <= i < |ids| ==> ids[i] in users
    ensures |r| == |ids| && forall i :: 0 <= i < |ids| ==> r[i] == users[ids[i]]
  {
    seq(|ids|, i requires 0 <= i < |ids| => users[ids[i]])
  }

  /** The page of user `id` as the store holds it. */
  function UserPage(users: map<int, User>, friendship: seq<Row>, id: int, today: Date): UserPageDto
    requires id in users
  {
    ConvertToUserPageDto(users[id],
      LoadUsers(users, MyFriends(friendship, id)), LoadUsers(users, FriendsOfMine(friendship, id)), today)
  }

  /** A user of either loaded collection is listed among the page's friends. */
  lemma ListedOnPage(u: User, myFriends: seq<User>, friendsOfMine: seq<User>, v: User, today: Date)
    requires v in myFriends || v in friendsOfMine
    ensures ConvertToUserByListDto(v, today) in ConvertToUserPageDto(u, myFriends, friendsOfMine, today).friends
  {
    var friends := ConvertToUserPageDto(u, myFriends, friendsOfMine, today).friends;
    if v in myFriends {
      var i :| 0 <= i < |myFriends| && myFriends[i] == v;
      assert friends[i] == ConvertToUserByListDto(v, today);
    } else {
      var j :| 0 <= j < |friendsOfMine| && friendsOfMine[j] == v;
      assert friends[|myFriends| + j] == ConvertToUserByListDto(v, today);
    }
  }

  /** A stored user in the loaded myFriends collection is listed on the page. */
  lemma MyFriendOnPage(users: map<int, User>, friendship: seq<Row>, id: int, x: int, today: Date)
    requires id in users && x in users && x in MyFriends(friendship, id)
    ensures ConvertToUserByListDto(users[x], today) in UserPage(users, friendship, id, today).friends
  {
    var my := LoadUsers(users, MyFriends(friendship, id));
    var fom := LoadUsers(users, FriendsOfMine(friendship, id));
    LoadUsersHas(users, MyFriends(friendship, id), x);
    ListedOnPage(users[id], my, fom, users[x], today);
  }

  /** A stored user in the loaded friendsOfMine collection is listed on the page, after myFriends. */
  lemma FriendOfMineOnPage(users: map<int, User>, friendship: seq<Row>, id: int, x: int, today: Date)
    requires id in users && x in users && x in FriendsOfMine(friendship, id)
    ensures ConvertToUserByListDto(users[x], today) in UserPage(users, friendship, id, today).friends
  {
    var my := LoadUsers(users, MyFriends(friendship, id));
    var fom := LoadUsers(users, FriendsOfMine(friendship, id));
    LoadUsersHas(users, FriendsOfMine(friendship, id), x);
    ListedOnPage(users[id], my, fom, users[x], today);
  }

  /** Each entry of the page's friend list is a user of one of the two loaded collections. */
  lemma PageEntryFromCollections(u: User, myFriends: seq<User>, friendsOfMine: seq<User>, k: int, today: Date)
    requires 0 <= k < |ConvertToUserPageDto(u, myFriends, friendsOfMine, today).friends|
    ensures exists v :: ((v in myFriends || v in friendsOfMine)
      && ConvertToUserPageDto(u, myFriends, friendsOfMine, today).friends[k] == ConvertToUserByListDto(v, today))
  {
    if k < |myFriends| {
      assert myFriends[k] in myFriends;
    } else {
      assert friendsOfMine[k - |myFriends|] in friendsOfMine;
    }
  }

  /** Every entry of the page's friend list is a stored user of one of the two friend collections. */
  lemma OnlyFriendsOnPage(users: map<int, User>, friendship: seq<Row>, id: int, k: int, today: Date)
    requires id in users && 0 <= k < |UserPage(users, friendship, id, today).friends|
    ensures exists x :: (x in users && (x in MyFriends(friendship, id) || x in FriendsOfMine(friendship, id))
      && UserPage(users, friendship, id, today).friends[k] == ConvertToUserByListDto(users[x], today))
  {
    var my := LoadUsers(users, MyFriends(friendship, id));
    var fom := LoadUsers(users, FriendsOfMine(friendship, id));
    PageEntryFromCollections(users[id], my, fom, k, today);
    var v :| (v in my || v in fom)
      && ConvertToUserPageDto(users[id], my, fom, today).friends[k] == ConvertToUserByListDto(v, today);
    var x;
    if v in my {
      LoadUsersOnly(users, MyFriends(friendship, id), v);
      var i :| 0 <= i < |MyFriends(friendship, id)| && MyFriends(friendship, id)[i] in users
        && users[MyFriends(friendship, id)[i]] == v;
      x := MyFriends(friendship, id)[i];
    } else {
      LoadUsersOnly(users, FriendsOfMine(friendship, id), v);
      var i :| 0 <= i < |FriendsOfMine(friendship, id)| && FriendsOfMine(friendship, id)[i] in users
        && users[FriendsOfMine(friendship, id)[i]] == v;
      x := FriendsOfMine(friendship, id)[i];
    }
    assert UserPage(users, friendship, id, today).friends[k] == ConvertToUserByListDto(users[x], today);
  }

  /** After addFriend(a, b), each of the two users appears in the friend list of the other's page. */
  lemma AddFriendShowsOnBothPages(users: map<int, User>, friendship: seq<Row>, a: int, b: int, today: Date)
    requires a in users && b in users
    ensures ConvertToUserByListDto(users[b], today) in UserPage(users, friendship + [(a, b)], a, today).friends
    ensures ConvertToUserByListDto(users[a], today) in UserPage(users, friendship + [(a, b)], b, today).friends
  {
    Repo.AddFriendLinksBoth(friendship, a, b);
    MyFriendOnPage(users, friendship + [(a, b)], a, b, today);
    FriendOfMineOnPage(users, friendship + [(a, b)], b, a, today);
  }

  class UserService {
    const repo: Repo.UserRepository

    constructor (repo: Repo.UserRepository)
      ensures this.repo == repo
    {
      this.repo := repo;
    }

    /**
     * save: registers the user and returns the generated id; the insert is
     * refused when the converted entity breaks its constraints.
     */
    method Save(dto: UserRegisterDto) returns (r: Result<int, Error>)
      requires repo.Valid()
      modifies repo
      ensures repo.Valid()
      ensures repo.friendship == old(repo.friendship)
      ensures !UserValid(ConverterUserRegisterDtoToUser(dto)) ==>
        r == Err(Repository(Repo.ConstraintViolation)) && repo.users == old(repo.users)
      ensures UserValid(ConverterUserRegisterDtoToUser(dto)) ==>
        r.Ok? && r.value !in old(repo.users)
        && repo.users == old(repo.users)[r.value := ConverterUserRegisterDtoToUser(dto)]
    {
      var user := ConverterUserRegisterDtoToUser(dto);
      var saved := repo.SaveNew(user);
      if saved.Err? {
        return Err(Repository(saved.error));
      }
      r := Ok(saved.value);
    }

    /** getUser: the page of a stored user; `findById(id).get()` fails on an absent id. */
    method GetUser(id: int, today: Date) returns (r: Result<UserPageDto, Error>)
      ensures id !in repo.users ==> r == Err(NoValuePresent)
      ensures id in repo.users ==> r == Ok(UserPage(repo.users, repo.friendship, id, today))
    {
      var found := repo.FindById(id);
      if found.None? {
        return Err(NoValuePresent);
      }
      r := Ok(ConvertToUserPageDto(found.value,
        LoadUsers(repo.users, MyFriends(repo.friendship, id)),
        LoadUsers(repo.users, FriendsOfMine(repo.friendship, id)), today));
    }

    /**
     * updateUser: overwrites the six editable columns of a stored user, or
     * fails with "User not found"; the update is refused, and the stored row
     * kept, when the edited entity breaks its constraints.
     */
    method UpdateUser(dto: UserEditDto, id: int) returns (r: Result<(), Error>)
      requires repo.Valid()
      modifies repo`users
      ensures repo.Valid()
      ensures id !in old(repo.users) ==> r == Err(UserNotFound) && repo.users == old(repo.users)
      ensures id in old(repo.users) && !UserValid(ApplyEdit(old(repo.users)[id], dto)) ==>
        r == Err(Repository(Repo.ConstraintViolation)) && repo.users == old(repo.users)
      ensures id in old(repo.users) && UserValid(ApplyEdit(old(repo.users)[id], dto)) ==>
        r.Ok? && repo.users == old(repo.users)[id := ApplyEdit(old(repo.users)[id], dto)]
    {
      var found := repo.FindById(id);
      if found.None? {
        return Err(UserNotFound);
      }
      var user := ApplyEdit(found.value, dto);
      var saved := repo.SaveExisting(id, user);
      if saved.Err? {
        return Err(Repository(saved.error));
      }
      r := Ok(());
    }

    /** delete: removes the user with that id and the friendship rows it owns; the others stay. */
    method Delete(id: int) returns (r: Result<(), Error>)
      requires repo.Valid()
      modifies repo`users, repo`friendship
      ensures repo.Valid()
      ensures id in old(repo.users) ==>
        r.Ok? && repo.users == old(repo.users) - {id} && repo.friendship == Repo.WithoutOwner(old(repo.friendship), id)
      ensures id !in old(repo.users) ==>
        r == Err(Repository(Repo.NoEntityWithId(id))) && repo.users == old(repo.users)
        && repo.friendship == old(repo.friendship)
    {
      var deleted := repo.DeleteById(id);
      if deleted.Err? {
        return Err(Repository(deleted.error));
      }
      r := Ok(());
    }

    /** The ids getFriends selects: the friend filter with its own user set to `id`. */
    function FriendIds(id: int, filter: FriendFilter, notFriend: NotFriend, today: Date): seq<int>
      requires repo.Valid()
      reads this, repo
    {
      repo.FindAll(FriendFilterSpec(SetUser(filter, Some(id)), notFriend), today)
    }

    /**
     * getFriends: the stored users the friend filter admits once its user is
     * set to the stored user; fails with "User not found" on an absent id.
     */
    method GetFriends(id: int, filter: FriendFilter, notFriend: NotFriend, today: Date)
      returns (r: Result<seq<UserByListDto>, Error>)
      requires repo.Valid()
      ensures id !in repo.users ==> r == Err(UserNotFound)
      ensures id in repo.users ==> r.Ok? && |r.value| == |FriendIds(id, filter, notFriend, today)|
      ensures r.Ok? ==> forall i :: 0 <= i < |r.value| ==>
        FriendIds(id, filter, notFriend, today)[i] in repo.users
        && r.value[i] == ConvertToUserByListDto(repo.users[FriendIds(id, filter, notFriend, today)[i]], today)
      ensures r.Ok? ==> forall x :: x in FriendIds(id, filter, notFriend, today) <==>
        (x in repo.users && AreFriends(repo.friendship, id, x)
         && Eval(notFriend(filter.parent.user), x, repo.users[x], World(repo.friendship, today))
         && Holds(filter.parent.base, x, repo.users[x], World(repo.friendship, today)))
    {
      var found := repo.FindById(id);
      if found.None? {
        return Err(UserNotFound);
      }
      var f := SetUser(filter, Some(id));
      var ids := repo.FindAll(FriendFilterSpec(f, notFriend), today);
      forall x | x in ids
        ensures x in repo.users && AreFriends(repo.friendship, id, x)
      {
        FriendFilterHolds(f, notFriend, x, repo.users[x], World(repo.friendship, today));
      }
      forall x | x in repo.users
        ensures x in ids <==> (AreFriends(repo.friendship, id, x)
          && Eval(notFriend(filter.parent.user), x, repo.users[x], World(repo.friendship, today))
          && Holds(filter.parent.base, x, repo.users[x], World(repo.friendship, today)))
      {
        FriendFilterHolds(f, notFriend, x, repo.users[x], World(repo.friendship, today));
      }
      r := Ok(ConvertAll(Lookup(repo.users, ids), today));
    }

    /** findAll: every stored user the user filter admits, in id order, converted for a list. */
    method FindAll(filter: UserFilter, notFriend: NotFriend, today: Date) returns (r: seq<UserByListDto>)
      requires repo.Valid()
      ensures |r| == |repo.FindAll(UserFilterSpec(filter, notFriend), today)|
      ensures forall i :: 0 <= i < |r| ==>
        var x := repo.FindAll(UserFilterSpec(filter, notFriend), today)[i];
        x in repo.users && r[i] == ConvertToUserByListDto(repo.users[x], today)
    {
      var ids := repo.FindAll(UserFilterSpec(filter, notFriend), today);
      r := ConvertAll(Lookup(repo.users, ids), today);
    }

    /** addFriend: delegates to the repository. */
    method AddFriend(userId: int, friendId: int)
      requires repo.Valid()
      modifies repo`friendship
      ensures repo.Valid()
      ensures repo.friendship == old(repo.friendship) + [(userId, friendId)]
    {
      var _ := repo.AddFriend(userId, friendId);
    }

    /** deleteFriend: delegates to the repository. */
    method DeleteFriend(userId: int, friendId: int)
      requires repo.Valid()
      modifies repo`friendship
      ensures repo.Valid()
      ensures repo.friendship == Repo.Without(old(repo.friendship), (userId, friendId))
    {
      var _ := repo.DeleteFriend(userId, friendId);
    }
  }

  /** Registering {name: "Name", surname: "Surname"} shows the full name "Name Surname". */
  lemma RegisteredFio()
    ensures Fio(ConverterUserRegisterDtoToUser(UserRegisterDto(Some("Name"), Some("Surname"), None, None, None)))
      == "Name Surname"
  {
  }
}
