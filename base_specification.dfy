/**
 * The search-predicate builders. Each builder yields either no constraint
 * (`None`, Java's null specification) or a predicate over a user row; the
 * predicates are evaluated in memory against a row, the friendship table
 * and today's date, in SQL's three-valued logic: `Eval` says a predicate is
 * true, `Refuted` that it is false, and a predicate that reads a NULL column
 * is neither, so a WHERE clause drops the row even under a negation.
 */
module BaseSpecification {
  import opened Wrappers
  import opened Text
  import opened Dates
  import opened Domain

  /** What a predicate reads besides the candidate row: the friendship table and LocalDate.now(). */
  datatype World = World(friendship: seq<Row>, today: Date)

  datatype Spec =
    | Like(column: string, value: string)
    | EqualText(column: string, value: string)
    | LikeJoined(join: string, column: string, value: string)
    | EqualEnum(column: string, gender: Gender)
    | BornOnOrBefore(years: int)  // dateOfBDay <= today.minusYears(years)
    | BornOnOrAfter(years: int)   // dateOfBDay >= today.minusYears(years)
    | IsFriend(user: Option<int>)
    | IdEquals(user: Option<int>)   // id = :user
    | Not(inner: Spec)
    | And(left: Spec, right: Spec)
    | Or(left: Spec, right: Spec)

  /** The value of a text column of the users table; NULL (None) also for a column the row does not have. */
  function TextColumn(u: User, column: string): Option<string> {
    if column == "name" then u.name
    else if column == "surname" then u.surname
    else if column == "interests" then u.interests
    else None
  }

  /** The value of a text column of the entity reached by a LEFT join; NULL when there is no such entity. */
  function JoinedTextColumn(u: User, join: string, column: string): Option<string> {
    if join == "city" && u.city.Some? && column == "name" then u.city.value.name else None
  }

  /** Whether `p` is true of row `u` with id `id`. */
  function Eval(p: Spec, id: int, u: User, w: World): bool
    decreases p, 1
  {
    match p
    case Like(column, value) =>
      TextColumn(u, column).Some? && LikeMatch(LowerStr(TextColumn(u, column).value), LowerStr("%" + value + "%"))
    case EqualText(column, value) =>
      TextColumn(u, column).Some? && LowerStr(TextColumn(u, column).value) == LowerStr(value)
    case LikeJoined(join, column, value) =>
      JoinedTextColumn(u, join, column).Some?
      && LikeMatch(LowerStr(JoinedTextColumn(u, join, column).value), LowerStr("%" + value + "%"))
    case EqualEnum(column, gender) =>
      column == "gender" && u.gender == Some(gender)
    case BornOnOrBefore(years) =>
      u.dateOfBDay.Some? && Valid(w.today) && OnOrBefore(u.dateOfBDay.value, MinusYears(w.today, years))
    case BornOnOrAfter(years) =>
      u.dateOfBDay.Some? && Valid(w.today) && OnOrBefore(MinusYears(w.today, years), u.dateOfBDay.value)
    case IsFriend(user) =>
      user.Some? && AreFriends(w.friendship, user.value, id)
    case IdEquals(user) =>
      user.Some? && id == user.value
    case Not(inner) =>
      Refuted(inner, id, u, w)
    case And(left, right) =>
      Eval(left, id, u, w) && Eval(right, id, u, w)
    case Or(left, right) =>
      Eval(left, id, u, w) || Eval(right, id, u, w)
  }

  /** Whether `p` is false of row `u`: its columns are not NULL and it does not hold. */
  function Refuted(p: Spec, id: int, u: User, w: World): bool
    decreases p, 0
  {
    match p
    case Like(column, value) =>
      TextColumn(u, column).Some? && !LikeMatch(LowerStr(TextColumn(u, column).value), LowerStr("%" + value + "%"))
    case EqualText(column, value) =>
      TextColumn(u, column).Some? && LowerStr(TextColumn(u, column).value) != LowerStr(value)
    case LikeJoined(join, column, value) =>
      JoinedTextColumn(u, join, column).Some?
      && !LikeMatch(LowerStr(JoinedTextColumn(u, join, column).value), LowerStr("%" + value + "%"))
    case EqualEnum(column, gender) =>
      column == "gender" && u.gender.Some? && u.gender != Some(gender)
    case BornOnOrBefore(years) =>
      u.dateOfBDay.Some? && Valid(w.today) && !OnOrBefore(u.dateOfBDay.value, MinusYears(w.today, years))
    case BornOnOrAfter(years) =>
      u.dateOfBDay.Some? && Valid(w.today) && !OnOrBefore(MinusYears(w.today, years), u.dateOfBDay.value)
    case IsFriend(user) =>
      user.Some? && !AreFriends(w.friendship, user.value, id)
    case IdEquals(user) =>
      user.Some? && id != user.value
    case Not(inner) =>
      Eval(inner, id, u, w)
    case And(left, right) =>
      Refuted(left, id, u, w) || Refuted(right, id, u, w)
    case Or(left, right) =>
      Refuted(left, id, u, w) && Refuted(right, id, u, w)
  }

  /** No predicate is both true and false of a row. */
  lemma {:induction false} NeverBoth(p: Spec, id: int, u: User, w: World)
    ensures !(Eval(p, id, u, w) && Refuted(p, id, u, w))
  {
    match p
    case Not(inner) => NeverBoth(inner, id, u, w);
    case And(left, right) => NeverBoth(left, id, u, w); NeverBoth(right, id, u, w);
    case Or(left, right) => NeverBoth(left, id, u, w); NeverBoth(right, id, u, w);
    case _ =>
  }

  /** A negated `like` on a NULL column drops the row, as SQL's NOT does. */
  lemma NotOnNullColumnDrops(column: string, v: string, id: int, u: User, w: World)
    requires TextColumn(u, column).None?
    ensures !Eval(Not(Like(column, v)), id, u, w) && !Eval(Like(column, v), id, u, w)
  {
  }

  /** A possibly absent specification; no constraint holds of every row. */
  predicate Holds(p: Option<Spec>, id: int, u: User, w: World) {
    p.None? || Eval(p.value, id, u, w)
  }

  /** `like(column, value)`: case-insensitive `LIKE '%value%'`; no constraint for an empty column or value. */
  function LikeSpec(column: string, value: Option<string>): (r: Option<Spec>)
    ensures r.None? <==> column == "" || value.None? || value.value == ""
  {
    if column == "" || value.None? || value.value == "" then None else Some(Like(column, value.value))
  }

  /** `equal(column, String)`: case-insensitive equality; no constraint for an empty column or value. */
  function EqualSpec(column: string, value: Option<string>): (r: Option<Spec>)
    ensures r.None? <==> column == "" || value.None? || value.value == ""
  {
    if column == "" || value.None? || value.value == "" then None else Some(EqualText(column, value.value))
  }

  /** `like(joinAttribute, column, value)` on the LEFT-joined entity; the join attribute is not checked. */
  function LikeJoinedSpec(join: string, column: string, value: Option<string>): (r: Option<Spec>)
    ensures r.None? <==> column == "" || value.None? || value.value == ""
  {
    if column == "" || value.None? || value.value == "" then None else Some(LikeJoined(join, column, value.value))
  }

  /** `equal(column, Enum)`: exact equality; no constraint for an empty column or a null value. */
  function EqualEnumSpec(column: string, value: Option<Gender>): (r: Option<Spec>)
    ensures r.None? <==> column == "" || value.None?
  {
    if column == "" || value.None? then None else Some(EqualEnum(column, value.value))
  }

  /** `gt(column, min)`: born at least `min` years before today, always on dateOfBDay. */
  function GtSpec(column: string, min: Option<int>): (r: Option<Spec>)
    ensures r.None? <==> column == "" || min.None?
  {
    if column == "" || min.None? then None else Some(BornOnOrBefore(min.value))
  }

  /** `lt(column, max)`: born at most `max` years before today, always on dateOfBDay. */
  function LtSpec(column: string, max: Option<int>): (r: Option<Spec>)
    ensures r.None? <==> column == "" || max.None?
  {
    if column == "" || max.None? then None else Some(BornOnOrAfter(max.value))
  }

  /** `isFriend(user)`: never "no constraint". */
  function IsFriendSpec(user: Option<int>): (r: Option<Spec>)
    ensures r.Some?
  {
    Some(IsFriend(user))
  }

  /** `a.and(b)` of Spring's Specification: a null side imposes nothing. */
  function Conj(a: Option<Spec>, b: Option<Spec>): (r: Option<Spec>)
    ensures a.None? ==> r == b
    ensures b.None? ==> r == a
    ensures r.None? <==> a.None? && b.None?
  {
    if a.None? then b else if b.None? then a else Some(And(a.value, b.value))
  }

  /** A conjunction holds of exactly the rows both sides hold of. */
  lemma ConjHolds(a: Option<Spec>, b: Option<Spec>, id: int, u: User, w: World)
    ensures Holds(Conj(a, b), id, u, w) <==> Holds(a, id, u, w) && Holds(b, id, u, w)
  {
  }

  /**
   * For a value without `%` or `_`, `like` is the case-insensitive substring
   * test on the column; an empty value imposes nothing.
   */
  lemma LikeIsSubstring(column: string, v: string, id: int, u: User, w: World)
    requires column != "" && NoWildcards(v)
    ensures Holds(LikeSpec(column, Some(v)), id, u, w) <==>
      v == "" || (TextColumn(u, column).Some? && Contains(LowerStr(TextColumn(u, column).value), LowerStr(v)))
  {
    if v != "" && TextColumn(u, column).Some? {
      LowerStrConcat("%" + v, "%");
      LowerStrConcat("%", v);
      assert LowerStr("%") == "%";
      LowerStrNoWildcards(v);
      LikeIsContains(LowerStr(TextColumn(u, column).value), LowerStr(v));
    }
  }

  /** The joined `like` is the substring test on the city's name; a user without a city never matches. */
  lemma LikeJoinedIsCitySubstring(v: string, id: int, u: User, w: World)
    requires v != "" && NoWildcards(v)
    ensures Holds(LikeJoinedSpec("city", "name", Some(v)), id, u, w) <==>
      u.city.Some? && u.city.value.name.Some? && Contains(LowerStr(u.city.value.name.value), LowerStr(v))
  {
    if u.city.Some? && u.city.value.name.Some? {
      LowerStrConcat("%" + v, "%");
      LowerStrConcat("%", v);
      assert LowerStr("%") == "%";
      LowerStrNoWildcards(v);
      LikeIsContains(LowerStr(u.city.value.name.value), LowerStr(v));
    }
  }

  /** `equal` on a string column ignores case. */
  lemma EqualIgnoresCase(column: string, v: string, id: int, u: User, w: World)
    requires column != "" && v != ""
    ensures Holds(EqualSpec(column, Some(v)), id, u, w) <==>
      TextColumn(u, column).Some? && LowerStr(TextColumn(u, column).value) == LowerStr(v)
  {
  }

  /** `equal` on the gender column is exact equality; a row without gender never matches. */
  lemma EqualEnumIsExact(g: Gender, id: int, u: User, w: World)
    ensures Holds(EqualEnumSpec("gender", Some(g)), id, u, w) <==> u.gender == Some(g)
  {
  }

  /**
   * With a valid birth date on or before today, `gt(min)` holds exactly of
   * users at least `min` whole years old.
   */
  lemma GtIsAgeAtLeast(column: string, min: int, id: int, u: User, w: World)
    requires column != "" && Valid(w.today)
    requires u.dateOfBDay.Some? && Valid(u.dateOfBDay.value) && OnOrBefore(u.dateOfBDay.value, w.today)
    ensures Holds(GtSpec(column, Some(min)), id, u, w) <==> YearsBetween(u.dateOfBDay.value, w.today) >= min
  {
    AgeAtLeast(u.dateOfBDay.value, w.today, min);
  }

  /**
   * `lt(max)` holds exactly of users younger than `max` whole years, or whose
   * `max`-th birthday is today: a user `max` years and a day old is excluded.
   */
  lemma LtIsAgeBelowOrBirthday(column: string, max: int, id: int, u: User, w: World)
    requires column != "" && Valid(w.today)
    requires u.dateOfBDay.Some? && Valid(u.dateOfBDay.value) && OnOrBefore(u.dateOfBDay.value, w.today)
    ensures Holds(LtSpec(column, Some(max)), id, u, w) <==>
      YearsBetween(u.dateOfBDay.value, w.today) < max || u.dateOfBDay.value == MinusYears(w.today, max)
  {
    AgeAtMost(u.dateOfBDay.value, w.today, max);
  }

  /** `gt(min)` and `lt(max)` together admit the birth dates in [today - max years, today - min years], both ends included. */
  lemma AgeRange(column: string, min: int, max: int, id: int, u: User, w: World)
    requires column != "" && Valid(w.today)
    ensures Holds(Conj(GtSpec(column, Some(min)), LtSpec(column, Some(max))), id, u, w) <==>
      u.dateOfBDay.Some?
      && OnOrBefore(MinusYears(w.today, max), u.dateOfBDay.value)
      && OnOrBefore(u.dateOfBDay.value, MinusYears(w.today, min))
  {
    ConjHolds(GtSpec(column, Some(min)), LtSpec(column, Some(max)), id, u, w);
  }

  /** Someone born exactly 30 years ago today is inside the range 30..40. */
  lemma BornExactlyMinYearsAgoIsIncluded(id: int, u: User, w: World)
    requires Valid(w.today) && u.dateOfBDay == Some(MinusYears(w.today, 30))
    ensures Holds(Conj(GtSpec("dateOfBDay", Some(30)), LtSpec("dateOfBDay", Some(40))), id, u, w)
  {
    MinusYearsStrictlyEarlier(w.today, 30, 40);
  }

  /** `isFriend(user)` holds of a candidate iff `user` is in its friendsOfMine or in its myFriends. */
  lemma IsFriendIsMembership(f: int, id: int, u: User, w: World)
    ensures Holds(IsFriendSpec(Some(f)), id, u, w) <==>
      f in FriendsOfMine(w.friendship, id) || f in MyFriends(w.friendship, id)
  {
    AreFriendsIsMembership(w.friendship, f, id);
  }
}
