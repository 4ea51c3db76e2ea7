/**
 * The two search filters. BaseFilter (the name, city, age and gender
 * criteria) and BaseSpecification.notFriend are not part of this model:
 * the predicate BaseFilter compiles to is a field of the filter, and
 * notFriend is a parameter whose documented promise is stated as
 * NotFriendAsDocumented.
 */
module Filters {
  import opened Wrappers
  import opened Domain
  import opened BaseSpecification

  /** `BaseSpecification.notFriend`, from the searching user (possibly null) to a predicate. */
  type NotFriend = Option<int> -> Spec

  /**
   * The documented promise of the user search: the result never holds the
   * searching user nor anyone who is their friend in either direction.
   */
  ghost predicate NotFriendAsDocumented(notFriend: NotFriend) {
    forall u: int, id: int, c: User, w: World {:trigger Eval(notFriend(Some(u)), id, c, w)} ::
      Eval(notFriend(Some(u)), id, c, w) ==> id != u && !AreFriends(w.friendship, u, id)
  }

  /**
   * A notFriend written out as its documentation reads: the row is not the
   * user and is no friend of theirs, as `id <> :user AND NOT isFriend(:user)`.
   */
  function NotSelfNorFriend(user: Option<int>): Spec {
    And(Not(IdEquals(user)), Not(IsFriend(user)))
  }

  /** For a given user it admits exactly the rows that are neither that user nor a friend of theirs. */
  lemma NotSelfNorFriendAdmits(u: int, id: int, c: User, w: World)
    ensures Eval(NotSelfNorFriend(Some(u)), id, c, w) <==> id != u && !AreFriends(w.friendship, u, id)
  {
    assert Eval(Not(IdEquals(Some(u))), id, c, w) == Refuted(IdEquals(Some(u)), id, c, w);
    assert Eval(Not(IsFriend(Some(u))), id, c, w) == Refuted(IsFriend(Some(u)), id, c, w);
  }

  /** It keeps the documented promise, so the promise is no contradiction. */
  lemma NotSelfNorFriendAsDocumented()
    ensures NotFriendAsDocumented(NotSelfNorFriend)
  {
    forall u: int, id: int, c: User, w: World | Eval(NotSelfNorFriend(Some(u)), id, c, w)
      ensures id != u && !AreFriends(w.friendship, u, id)
    {
      NotSelfNorFriendAdmits(u, id, c, w);
    }
  }

  /** UserFilter: its own private `user` field and the predicate of the inherited BaseFilter criteria. */
  datatype UserFilter = UserFilter(user: Option<int>, base: Option<Spec>)

  /**
   * FriendFilter: a `user` field of its own that shadows the parent's, and
   * the parent UserFilter part.
   */
  datatype FriendFilter = FriendFilter(user: Option<int>, parent: UserFilter)

  /** UserFilter.toSpecification: `notFriend(user).and(super.toSpecification())`. */
  function UserFilterSpec(f: UserFilter, notFriend: NotFriend): (r: Option<Spec>)
    ensures r.Some?
    ensures f.base.None? ==> r == Some(notFriend(f.user))
  {
    Conj(Some(notFriend(f.user)), f.base)
  }

  /** The FriendFilter(User) constructor: only FriendFilter's own field is set. */
  function NewFriendFilter(user: Option<int>, base: Option<Spec>): (r: FriendFilter)
    ensures r.user == user && r.parent.user.None? && r.parent.base == base
  {
    FriendFilter(user, UserFilter(None, base))
  }

  /** FriendFilter's generated setter: the parent's `user` is left as it was. */
  function SetUser(f: FriendFilter, user: Option<int>): (r: FriendFilter)
    ensures r.user == user && r.parent == f.parent
  {
    f.(user := user)
  }

  /** FriendFilter.toSpecification: `where(isFriend(user)).and(super.toSpecification())`. */
  function FriendFilterSpec(f: FriendFilter, notFriend: NotFriend): (r: Option<Spec>)
    ensures r.Some?
  {
    Conj(IsFriendSpec(f.user), UserFilterSpec(f.parent, notFriend))
  }

  /** A user search admits a row iff notFriend of the searching user and the base criteria both do. */
  lemma UserFilterHolds(f: UserFilter, notFriend: NotFriend, id: int, c: User, w: World)
    ensures Holds(UserFilterSpec(f, notFriend), id, c, w) <==>
      Eval(notFriend(f.user), id, c, w) && Holds(f.base, id, c, w)
  {
    ConjHolds(Some(notFriend(f.user)), f.base, id, c, w);
  }

  /** With notFriend as documented, the user search never returns the searching user or a friend of theirs. */
  lemma UserFilterExcludesSelfAndFriends(f: UserFilter, notFriend: NotFriend, id: int, c: User, w: World)
    requires NotFriendAsDocumented(notFriend) && f.user.Some?
    requires Holds(UserFilterSpec(f, notFriend), id, c, w)
    ensures id != f.user.value && !AreFriends(w.friendship, f.user.value, id)
  {
    UserFilterHolds(f, notFriend, id, c, w);
  }

  /**
   * With the notFriend above and no base criteria, the user search finds
   * every row other than the user and their friends.
   */
  lemma UserSearchFindsStrangers(f: UserFilter, id: int, c: User, w: World)
    requires f.user.Some? && f.base.None?
    ensures Holds(UserFilterSpec(f, NotSelfNorFriend), id, c, w) <==>
      id != f.user.value && !AreFriends(w.friendship, f.user.value, id)
  {
    UserFilterHolds(f, NotSelfNorFriend, id, c, w);
    NotSelfNorFriendAdmits(f.user.value, id, c, w);
  }

  /** A friend search admits a row iff it is a friend of the filter's user and the parent search admits it. */
  lemma FriendFilterHolds(f: FriendFilter, notFriend: NotFriend, id: int, c: User, w: World)
    ensures Holds(FriendFilterSpec(f, notFriend), id, c, w) <==>
      && f.user.Some? && AreFriends(w.friendship, f.user.value, id)
      && Eval(notFriend(f.parent.user), id, c, w) && Holds(f.parent.base, id, c, w)
  {
    ConjHolds(IsFriendSpec(f.user), UserFilterSpec(f.parent, notFriend), id, c, w);
    UserFilterHolds(f.parent, notFriend, id, c, w);
  }

  /** A candidate in neither friend collection of the filter's user is never matched. */
  lemma FriendFilterOnlyFriends(f: FriendFilter, notFriend: NotFriend, id: int, c: User, w: World)
    requires f.user.Some?
    requires id !in FriendsOfMine(w.friendship, f.user.value) && id !in MyFriends(w.friendship, f.user.value)
    ensures !Holds(FriendFilterSpec(f, notFriend), id, c, w)
  {
    FriendFilterHolds(f, notFriend, id, c, w);
    FriendsOfMineAreRows(w.friendship, f.user.value, id);
    MyFriendsAreRows(w.friendship, f.user.value, id);
  }

  /**
   * Because FriendFilter's `user` shadows UserFilter's, a friend filter built
   * and set as the service does applies notFriend to a null user.
   */
  lemma ShadowedUserStaysNull(u: Option<int>, v: Option<int>, base: Option<Spec>, notFriend: NotFriend)
    ensures FriendFilterSpec(SetUser(NewFriendFilter(u, base), v), notFriend)
      == Conj(IsFriendSpec(v), Conj(Some(notFriend(None)), base))
  {
  }

  /**
   * Were the parent's `user` the same as the friend filter's, a notFriend
   * that keeps its promise would leave no row at all.
   */
  lemma SharedUserWouldMatchNobody(f: FriendFilter, notFriend: NotFriend, id: int, c: User, w: World)
    requires NotFriendAsDocumented(notFriend)
    requires f.user.Some? && f.parent.user == f.user
    ensures !Holds(FriendFilterSpec(f, notFriend), id, c, w)
  {
    FriendFilterHolds(f, notFriend, id, c, w);
  }
}
