# Social network back end: users, friends, search filters

This project models the core of a small social-network back end in Dafny.
Users register, edit and delete their profile. They add and remove friends
and search for other users. Searches combine criteria over the `users`
table and the directed `friendship(iduser, idfriend)` join table. The
project also models the keyboard-layout converter that the name search
uses to re-read a query typed on the Latin layout as Russian text.

Modules, following the program's layers:

- `Wrappers`: `Option` and `Result`.
- `Text`: `Character.toLowerCase` on Latin and Cyrillic capitals, SQL `LIKE` with `%` and `_`, and the substring test.
- `Dates`: `LocalDate` as (year, month, day), `minusYears` with its 29 February clamp, and the whole years of `Period.between`.
- `KeyboardConverter`: the layout table and `convert`, a method over a `char` array proved against the function `Converted`.
- `Domain`: `User`, `City` and `Region`, the entity constraints, the friendship rows, and the two friend collections `myFriends` and `friendsOfMine` derived from those rows.
- `Dtos`: the registration and edit bodies with their validation, and the list, page and city view models.
- `BaseSpecification`: the predicate builders. Each builder returns no constraint (`None`, Java's `null`) or a `Spec`. A `Spec` is judged for one row in SQL's three-valued logic: `Eval` says it is true, `Refuted` that it is false. A predicate that reads a NULL column is neither, so the row is dropped even under `Not`.
- `Filters`: `UserFilter` and `FriendFilter` and what they compile to.
- `CityService`: the city view model and the city search.
- `UserRepository`: a class holding the `users` map (keyed by generated id), the `friendship` rows in table order and the id generator, with the JPA operations the services use and the two native friendship queries.
- `UserService`: the converters as functions, and a class over a repository whose methods are the service operations.

`LocalDate.now()` is the parameter `today`. `BaseSpecification.notFriend`
is a function parameter, and its documented promise (no result is the
searching user or one of their friends) is the hypothesis
`NotFriendAsDocumented`. `Filters.NotSelfNorFriend` writes that promise out
as a predicate. It keeps the promise and still admits every other row, so
the hypothesis can be met by a search that is not empty. `BaseFilter` is not part of this model: the
predicate it compiles to is the `base` field of `UserFilter`.

Where the code and its documentation or tests disagree, the model follows the code:

- `converterUserRegisterDtoToUser` copies only name and surname (UserService.java:140-145). A unit test expects the birth date, gender and city to be copied too.
- `FriendFilter` declares its own `user` field, which shadows `UserFilter`'s. `getFriends` sets only the friend filter's field, so the parent part calls `notFriend` with a null user (`Filters.ShadowedUserStaysNull`). Had the two fields been one, a `notFriend` that keeps its promise would leave every friend search empty (`Filters.SharedUserWouldMatchNobody`).
- `lt(max)` keeps users born on or after today minus `max` years. Someone exactly `max` years old is kept only on their birthday, so a user `max` years and one day old is excluded (`BaseSpecification.LtIsAgeBelowOrBirthday`). `gt(min)` keeps everyone at least `min` whole years old.
- The edit body has no not-null rule. An edit without a name therefore passes the body's validation, but the edited entity breaks the entity's required name (`UserService.EditWithoutNameBreaksUser`). The entity's own constraints are checked before the update, so `updateUser` fails and the stored row stays as it was (`UserService.UserService.UpdateUser`).
- The active `addFriend` query, `INSERT INTO users `, is malformed. `addFriend` is modelled as the commented-out `INSERT INTO friendship (iduser, idfriend)` that it evidently means.
- `%` and `_` inside a search value are not escaped, so they act as wildcards. `LikeMatch` models this. The substring lemmas are stated for values that contain neither character and no backslash.

## Model

| member | source | states |
|---|---|---|
| KeyboardConverter.Convert | src/main/java/com/example/social_network/utils/KeyboardConverter.java:17-32 | the char-array loop with early return yields exactly `Converted(s)` |
| KeyboardConverter.Converted | src/main/java/com/example/social_network/utils/KeyboardConverter.java:20-21 | the output is as long as the input |
| KeyboardConverter.Keyboard | src/main/java/com/example/social_network/utils/KeyboardConverter.java:39-81 | the layout table `getKeyboard` builds: the 39 pairs of its `put` calls |
| KeyboardConverter.KeyboardIsLatinToCyrillic | src/main/java/com/example/social_network/utils/KeyboardConverter.java:39-81 | every key of the table is ASCII, every value is a Cyrillic letter or the space, and the space maps to the space |
| KeyboardConverter.ConvertedTranslates | src/main/java/com/example/social_network/utils/KeyboardConverter.java:22-25 | when every lower-cased character is a key, position i of the output is the table entry for the lower-cased input character at i |
| KeyboardConverter.NoPartialConversion | src/main/java/com/example/social_network/utils/KeyboardConverter.java:26-28 | one character without a key returns the input unchanged, case included |
| KeyboardConverter.RussianLayoutUnchanged | src/main/java/com/example/social_network/utils/KeyboardConverter.java:10-11 | a string containing a Cyrillic letter is returned unchanged |
| KeyboardConverter.CaseInsensitive | src/main/java/com/example/social_network/utils/KeyboardConverter.java:23 | a string and its lower-cased form are convertible alike and convert to the same output |
| KeyboardConverter.AllKeysConcat | src/main/java/com/example/social_network/utils/KeyboardConverter.java:22-29 | a concatenation is convertible iff both parts are |
| KeyboardConverter.ConvertedConcat | src/main/java/com/example/social_network/utils/KeyboardConverter.java:22-31 | two convertible strings convert independently: the conversion of the concatenation is the concatenation of the conversions |
| KeyboardConverter.WordByWord | src/main/java/com/example/social_network/utils/KeyboardConverter.java:79 | for two convertible words, `a + " " + b` converts to the converted words joined by a space |
| KeyboardConverter.Idempotent | src/main/java/com/example/social_network/utils/KeyboardConverter.java:39-80 | converting a converted string changes nothing |
| KeyboardConverter.EmptyConvertsToEmpty | src/main/java/com/example/social_network/utils/KeyboardConverter.java:20-31 | the empty string converts to the empty string |
| KeyboardConverter.KeyV | src/main/java/com/example/social_network/utils/KeyboardConverter.java:67 | `v` and `V` look up `м` |
| KeyboardConverter.KeyF | src/main/java/com/example/social_network/utils/KeyboardConverter.java:56 | `f` looks up `а` |
| KeyboardConverter.KeyI | src/main/java/com/example/social_network/utils/KeyboardConverter.java:48 | `i` looks up `ш` |
| KeyboardConverter.DigitOneIsNoKey | src/main/java/com/example/social_network/utils/KeyboardConverter.java:39-80 | the digit `1` has no key in the table |
| KeyboardConverter.ConvertsName | src/main/java/com/example/social_network/utils/KeyboardConverter.java:17-32 | "Vfif" converts to "маша" |
| KeyboardConverter.KelvinSignConverts | src/main/java/com/example/social_network/utils/KeyboardConverter.java:23-25 | the Kelvin sign lower-cases to `k` and converts to `л` |
| KeyboardConverter.DigitBlocksConversion | src/main/java/com/example/social_network/utils/KeyboardConverter.java:26-28 | "Vfif1" is returned as it is |
| Text.Lower | src/main/java/com/example/social_network/utils/KeyboardConverter.java:23 | the modelled lower-casing keeps a character Cyrillic or not Cyrillic and keeps ASCII characters ASCII; the only non-ASCII characters it maps into ASCII are U+0130 and the Kelvin sign U+212A, as `Character.toLowerCase` does |
| Text.Utf16Length | src/main/java/com/example/social_network/domain/User.java:35-38 | a string's length as `@Length` counts it lies between its number of characters and twice that |
| Text.Utf16LengthBmp | src/main/java/com/example/social_network/domain/User.java:35-38 | characters of the Basic Multilingual Plane count one unit each |
| Text.Utf16LengthAstral | src/main/java/com/example/social_network/domain/User.java:35-38 | characters outside the Basic Multilingual Plane count two units each |
| Text.LikeMatch | src/main/java/com/example/social_network/service/Specification/BaseSpecification.java:27-29 | SQL `LIKE`: `%` matches any run of characters, `_` any one character, every other character itself; no escape character |
| Text.LikeIsContains | src/main/java/com/example/social_network/service/Specification/BaseSpecification.java:27-30 | `LIKE '%v%'` holds iff `v` occurs in the text, for `v` without wildcards |
| Text.LowerStr | src/main/java/com/example/social_network/service/Specification/BaseSpecification.java:28-29 | the modelled `lower()` of the search predicates keeps the length and lower-cases each character in place with `Text.Lower` |
| Domain.MyFriendsAreRows | src/main/java/com/example/social_network/domain/User.java:60-64 | f is in myFriends of u iff the row (u, f) exists |
| Domain.FriendsOfMineAreRows | src/main/java/com/example/social_network/domain/User.java:66-67 | u is in friendsOfMine of f iff the row (u, f) exists |
| Domain.FriendsOfMineIsInverse | src/main/java/com/example/social_network/domain/User.java:60-67 | b is in a's friendsOfMine iff a is in b's myFriends |
| Domain.AreFriendsSymmetric | src/main/java/com/example/social_network/service/Specification/BaseSpecification.java:115-121 | being friends in either direction is symmetric |
| Domain.AreFriendsIsMembership | src/main/java/com/example/social_network/service/Specification/BaseSpecification.java:117-119 | friends in either direction iff membership in the candidate's friendsOfMine or myFriends |
| Domain.MyFriends | src/main/java/com/example/social_network/domain/User.java:60-64 | myFriends has at most one entry per friendship row |
| Domain.FriendsOfMine | src/main/java/com/example/social_network/domain/User.java:66-67 | friendsOfMine has at most one entry per friendship row |
| Dates.LengthOfMonth | src/main/java/com/example/social_network/service/Specification/BaseSpecification.java:93 | month lengths lie in 28..31, and only February of a leap year has 29 days |
| Dates.MinusYears | src/main/java/com/example/social_network/service/Specification/BaseSpecification.java:93 | `minusYears` keeps a valid date valid, moves the year back by n, keeps the month, and changes the day only to clamp 29 February to 28 February |
| Dates.YearsBetween | src/main/java/com/example/social_network/service/UserService.java:186 | the years of `Period.between(start, end)`: the month difference corrected by the day, divided by 12 truncating toward zero |
| Dates.YearsBetweenIsWholeYears | src/test/java/com/example/social_network/service/UserServiceTest.java:247-253 | the years of `Period.between(b, t)` are the year difference, less one before the birthday |
| Dates.AgeAtLeast | src/main/java/com/example/social_network/service/Specification/BaseSpecification.java:89-93 | born on or before today minus n years iff at least n whole years old |
| Dates.AgeAtMost | src/main/java/com/example/social_network/service/Specification/BaseSpecification.java:102-106 | born on or after today minus n years iff younger than n, or today is the n-th birthday |
| Dates.MinusYearsStrictlyEarlier | src/main/java/com/example/social_network/service/Specification/BaseSpecification.java:89-106 | going back more years gives a strictly earlier date |
| Dates.YearsBetweenBracket | src/test/java/com/example/social_network/service/UserServiceTest.java:265-271 | the whole years a are the unique count with today minus (a+1) years before the birth date and today minus a years on or after it |
| Domain.UserValid | src/main/java/com/example/social_network/domain/User.java:35-54 | name and surname present with 1..45 UTF-16 units, interests at most 512 |
| Dtos.RegisterValid | src/main/java/com/example/social_network/dto/UserRegisterDto.java:27-33 | the `@Valid` check of a registration body: name and surname present with 1..45 UTF-16 units |
| Dtos.EditValid | src/main/java/com/example/social_network/dto/UserEditDto.java:26-38 | the `@Valid` check of an edit body: name and surname absent or 1..45 units, interests absent or at most 512 |
| Dtos.RequiredNameViolation | src/main/java/com/example/social_network/dto/UserRegisterDto.java:27-33 | a required name field has no violation iff it is present with 1..45 UTF-16 units |
| Dtos.LengthViolation | src/main/java/com/example/social_network/dto/UserEditDto.java:26-38 | an optional field has no violation iff it is absent or within its length bounds |
| Dtos.RegisterViolations | src/main/java/com/example/social_network/dto/UserRegisterDto.java:27-40 | a registration body reports name or surname iff that field is absent or not 1..45 UTF-16 units long; no violation at all iff the body is valid |
| Dtos.EditViolations | src/main/java/com/example/social_network/dto/UserEditDto.java:26-40 | an edit body reports name, surname or interests iff that field is present and breaks its length bound; no violation at all iff valid |
| Dtos.RegisterEmptyName | src/main/java/com/example/social_network/dto/UserRegisterDto.java:28 | an empty name is refused with "length must be between 1 and 45" |
| Dtos.EditEmptyName | src/main/java/com/example/social_network/dto/UserEditDto.java:26-27 | an empty name in an edit is refused with the same message |
| Dtos.AstralNameRefused | src/main/java/com/example/social_network/dto/UserRegisterDto.java:27-29 | a name of 23 characters outside the Basic Multilingual Plane is 46 units long and is refused with the length message |
| Dtos.EditAllowsAbsentName | src/main/java/com/example/social_network/dto/UserEditDto.java:26 | an edit without a name passes, while a registration without one fails |
| BaseSpecification.Eval | src/main/java/com/example/social_network/service/Specification/BaseSpecification.java:23-121 | a predicate is true of a row: the atoms as their lambdas build them, false on a NULL column; `And`/`Or`/`Not` by SQL's three-valued logic |
| BaseSpecification.Refuted | src/main/java/com/example/social_network/service/Specification/BaseSpecification.java:23-121 | a predicate is false of a row: an atom over a non-NULL column whose test fails; `Not` of a true predicate |
| BaseSpecification.NeverBoth | src/main/java/com/example/social_network/service/filters/UserFilter.java:25 | no composed predicate is both true and false of a row |
| BaseSpecification.NotOnNullColumnDrops | src/main/java/com/example/social_network/service/Specification/BaseSpecification.java:23-31 | on a NULL column, neither `like` nor its negation admits the row |
| BaseSpecification.LikeSpec | src/main/java/com/example/social_network/service/Specification/BaseSpecification.java:23-26 | `like` imposes nothing iff the column or the value is empty |
| BaseSpecification.EqualSpec | src/main/java/com/example/social_network/service/Specification/BaseSpecification.java:40-43 | `equal` on a string imposes nothing iff the column or the value is empty |
| BaseSpecification.LikeJoinedSpec | src/main/java/com/example/social_network/service/Specification/BaseSpecification.java:58-61 | the joined `like` imposes nothing iff the column or the value is empty |
| BaseSpecification.EqualEnumSpec | src/main/java/com/example/social_network/service/Specification/BaseSpecification.java:75-78 | `equal` on an enum imposes nothing iff the column is empty or the value null |
| BaseSpecification.GtSpec | src/main/java/com/example/social_network/service/Specification/BaseSpecification.java:89-92 | `gt` imposes nothing iff the column is empty or min is null |
| BaseSpecification.LtSpec | src/main/java/com/example/social_network/service/Specification/BaseSpecification.java:102-105 | `lt` imposes nothing iff the column is empty or max is null |
| BaseSpecification.IsFriendSpec | src/main/java/com/example/social_network/service/Specification/BaseSpecification.java:115-116 | `isFriend` always yields a predicate |
| BaseSpecification.Conj | src/main/java/com/example/social_network/service/filters/UserFilter.java:25 | `and` with a null side is the other side; the result is null only when both sides are |
| BaseSpecification.ConjHolds | src/main/java/com/example/social_network/service/filters/UserFilter.java:25 | a conjunction holds of exactly the rows both sides hold of |
| BaseSpecification.LikeIsSubstring | src/main/java/com/example/social_network/service/Specification/BaseSpecification.java:23-31 | for a value without wildcards, `like` holds iff the value is empty or the lower-cased column contains the lower-cased value |
| BaseSpecification.LikeJoinedIsCitySubstring | src/main/java/com/example/social_network/service/Specification/BaseSpecification.java:58-66 | the `like` on the joined city holds iff the user has a named city whose lower-cased name contains the lower-cased value |
| BaseSpecification.EqualIgnoresCase | src/main/java/com/example/social_network/service/Specification/BaseSpecification.java:40-48 | `equal` on a string holds iff the lower-cased column equals the lower-cased value |
| BaseSpecification.EqualEnumIsExact | src/main/java/com/example/social_network/service/Specification/BaseSpecification.java:75-80 | `equal` on gender holds iff the user's gender is that value |
| BaseSpecification.GtIsAgeAtLeast | src/main/java/com/example/social_network/service/Specification/BaseSpecification.java:89-93 | `gt(min)` holds iff the user is at least min whole years old |
| BaseSpecification.LtIsAgeBelowOrBirthday | src/main/java/com/example/social_network/service/Specification/BaseSpecification.java:102-106 | `lt(max)` holds iff the user is younger than max whole years or today is their max-th birthday |
| BaseSpecification.AgeRange | src/main/java/com/example/social_network/service/Specification/BaseSpecification.java:89-106 | `gt(min)` and `lt(max)` together admit exactly the birth dates from today minus max years to today minus min years, both ends included |
| BaseSpecification.BornExactlyMinYearsAgoIsIncluded | src/main/java/com/example/social_network/service/Specification/BaseSpecification.java:93 | someone born exactly 30 years ago today is in the range 30..40 |
| BaseSpecification.IsFriendIsMembership | src/main/java/com/example/social_network/service/Specification/BaseSpecification.java:115-121 | `isFriend(u)` holds of a candidate iff u is in its friendsOfMine or its myFriends |
| Filters.NotSelfNorFriendAdmits | src/main/java/com/example/social_network/service/filters/UserFilter.java:9 | the written-out notFriend of a user admits a row iff it is not that user and no friend of theirs |
| Filters.NotSelfNorFriendAsDocumented | src/main/java/com/example/social_network/service/filters/UserFilter.java:9 | the written-out notFriend keeps the documented promise |
| Filters.UserSearchFindsStrangers | src/main/java/com/example/social_network/service/filters/UserFilter.java:9-26 | with the written-out notFriend and no base criteria, the user search finds exactly the rows that are neither the user nor a friend |
| Filters.UserFilterSpec | src/main/java/com/example/social_network/service/filters/UserFilter.java:23-26 | the user search always yields a predicate; with no base criteria it is `notFriend(user)` alone |
| Filters.NewFriendFilter | src/main/java/com/example/social_network/service/filters/FriendFilter.java:12-16 | the constructor sets only the friend filter's own user; the parent's stays null |
| Filters.SetUser | src/main/java/com/example/social_network/service/filters/FriendFilter.java:12-16 | the setter changes only the friend filter's own user; the parent part is unchanged |
| Filters.FriendFilterSpec | src/main/java/com/example/social_network/service/filters/FriendFilter.java:18-21 | the friend search always yields a predicate |
| Filters.UserFilterHolds | src/main/java/com/example/social_network/service/filters/UserFilter.java:23-26 | the user search admits a row iff `notFriend(user)` and the base criteria both do |
| Filters.UserFilterExcludesSelfAndFriends | src/main/java/com/example/social_network/service/filters/UserFilter.java:9-17 | when `notFriend` keeps its promise, the user search never returns the searching user or a friend of theirs |
| Filters.FriendFilterHolds | src/main/java/com/example/social_network/service/filters/FriendFilter.java:18-21 | the friend search admits a row iff it is a friend of the filter's user and the parent search admits it |
| Filters.FriendFilterOnlyFriends | src/main/java/com/example/social_network/service/filters/FriendFilter.java:20 | a candidate in neither friend collection of the filter's user never matches |
| Filters.ShadowedUserStaysNull | src/main/java/com/example/social_network/service/filters/FriendFilter.java:16-20 | a friend filter built and set as the service does passes a null user to `notFriend` |
| Filters.SharedUserWouldMatchNobody | src/main/java/com/example/social_network/service/filters/UserFilter.java:9-17 | with one shared user field, a `notFriend` that keeps its promise would leave no friend at all |
| CityService.ConvertToCityDto | src/main/java/com/example/social_network/service/CityService.java:49-58 | a null city gives null; otherwise the name is the city's, and the region name is the region's when there is a region and unset when there is none |
| CityService.FindCityByName | src/main/java/com/example/social_network/service/CityService.java:38-41 | the found cities are converted one to one and in order |
| CityService.FoundCitiesMatch | src/main/java/com/example/social_network/service/CityService.java:38-41 | when the repository keeps its promise, every returned city's name contains the search string, ignoring case |
| UserRepository.Without | src/main/java/com/example/social_network/repository/UserRepository.java:43-46 | the delete never adds rows |
| UserRepository.WithoutRemovesExactly | src/main/java/com/example/social_network/repository/UserRepository.java:43-46 | the delete removes every copy of the row and keeps every other row with its multiplicity; the number removed is the row's count |
| UserRepository.WithoutOwner | src/main/java/com/example/social_network/domain/User.java:60-64 | removing a user's owned rows never adds rows |
| UserRepository.WithoutOwnerKeepsOthers | src/main/java/com/example/social_network/domain/User.java:60-64 | after a user is removed, a row remains iff it was there and the user does not own it |
| UserRepository.DeleteUserUnlinksOwnedRows | src/main/java/com/example/social_network/domain/User.java:60-67 | a removed user has no myFriends left, and the rows naming them as friend are kept |
| UserRepository.Select | src/main/java/com/example/social_network/service/UserService.java:129-131 | the `findAll(spec)` scan: ids from lo up to hi whose stored rows the predicate holds of, in id order |
| UserRepository.SelectIsExactly | src/main/java/com/example/social_network/repository/UserRepository.java:21 | the selection holds exactly the stored ids in range whose rows satisfy the predicate, in increasing order |
| UserRepository.UserRepository.constructor | src/main/java/com/example/social_network/repository/UserRepository.java:21 | the store starts with no users and no friendship rows |
| UserRepository.UserRepository.FindById | src/main/java/com/example/social_network/repository/UserRepository.java:21 | `findById` finds a user iff the id is stored, and then the stored user |
| UserRepository.UserRepository.SaveNew | src/main/java/com/example/social_network/domain/User.java:35-54 | saving a new user that breaks the entity's constraints fails and changes nothing; a valid one is stored under a fresh id and nothing else changes |
| UserRepository.UserRepository.SaveExisting | src/main/java/com/example/social_network/domain/User.java:35-54 | saving a stored user that breaks the entity's constraints fails and changes nothing; a valid one overwrites its row only |
| UserRepository.UserRepository.DeleteById | src/main/java/com/example/social_network/service/UserService.java:81-83 | `deleteById` removes exactly that id together with the friendship rows it owns, or fails on an absent id and changes nothing |
| UserRepository.UserRepository.AddFriend | src/main/java/com/example/social_network/repository/UserRepository.java:30-34 | the intended insert appends the one row (idUser, idFriend) and reports one row changed |
| UserRepository.UserRepository.DeleteFriend | src/main/java/com/example/social_network/repository/UserRepository.java:43-46 | the delete leaves the table without the row (idUser, idFriend) and returns how many copies it removed |
| UserRepository.UserRepository.FindAll | src/main/java/com/example/social_network/service/UserService.java:129-131 | `findAll(spec)` returns exactly the stored ids whose rows satisfy the predicate, in increasing id order |
| UserRepository.DeleteFriendEffect | src/main/java/com/example/social_network/repository/UserRepository.java:44 | after `deleteFriend(u, f)` no row (u, f) is left; the reverse row and every other row are present iff they were before |
| UserRepository.DeleteAbsentFriend | src/main/java/com/example/social_network/repository/UserRepository.java:38-44 | deleting an absent edge changes nothing |
| UserRepository.AddFriendLinksBoth | src/test/java/com/example/social_network/controller/UserControllerIntegrationTest.java:199-213 | after `addFriend(u, f)`, f is in u's myFriends and u is in f's friendsOfMine |
| UserRepository.DeleteFriendUnlinks | src/test/java/com/example/social_network/controller/UserControllerIntegrationTest.java:221-235 | after `deleteFriend(u, f)`, f is not in u's myFriends and u is not in f's friendsOfMine |
| UserService.Fio | src/main/java/com/example/social_network/service/UserService.java:184 | with both names present, the full name is name, a space and surname |
| UserService.RegisteredFio | src/test/java/com/example/social_network/service/UserServiceTest.java:246 | registering "Name" "Surname" shows "Name Surname" |
| UserService.Age | src/main/java/com/example/social_network/service/UserService.java:186 | an age is shown iff there is a birth date |
| UserService.AgeIsWholeYears | src/test/java/com/example/social_network/service/UserServiceTest.java:265-271 | the shown age is the number of whole years lived up to today |
| UserService.ConverterUserRegisterDtoToUser | src/main/java/com/example/social_network/service/UserService.java:140-145 | only name and surname are copied; every other field is unset |
| UserService.RegisteredUserValid | src/main/java/com/example/social_network/domain/User.java:35-43 | a valid registration gives a user that meets the entity's constraints |
| UserService.RegistrationDropsOptionalFields | src/main/java/com/example/social_network/service/UserService.java:140-145 | a birth date, gender or city given at registration is lost |
| UserService.ApplyEdit | src/main/java/com/example/social_network/service/UserService.java:67-72 | every editable field takes the body's value, absent values included |
| UserService.EditWithNamesKeepsUserValid | src/main/java/com/example/social_network/dto/UserEditDto.java:26-38 | a valid edit with a name and a surname leaves a valid user |
| UserService.EditWithoutNameBreaksUser | src/main/java/com/example/social_network/dto/UserEditDto.java:26 | a valid edit body without a name gives an entity that breaks the required name, so `updateUser` refuses it |
| UserService.ConvertToUserByListDto | src/main/java/com/example/social_network/service/UserService.java:181-188 | the list entry shows the full name, gender and age of the user |
| UserService.ConvertAll | src/main/java/com/example/social_network/service/UserService.java:169-170 | every user is converted, one to one and in order |
| UserService.ConvertToUserPageDto | src/main/java/com/example/social_network/service/UserService.java:154-172 | the page shows the user's full name, age, gender, interests and city; its friends are myFriends followed by friendsOfMine, each converted, order kept, length the sum of the two |
| UserService.LoadUsers | src/main/java/com/example/social_network/domain/User.java:60-67 | a loaded collection has at most one user per id |
| UserService.LoadUsersHas | src/main/java/com/example/social_network/domain/User.java:60-67 | every stored user named in the id list is in the loaded collection |
| UserService.LoadUsersOnly | src/main/java/com/example/social_network/domain/User.java:60-67 | every user in a loaded collection is the stored user behind an id in the list |
| UserService.Lookup | src/main/java/com/example/social_network/service/UserService.java:95-97 | the users behind the found ids, one to one and in order |
| UserService.ListedOnPage | src/main/java/com/example/social_network/service/UserService.java:163-170 | a user of either friend collection is listed among the page's friends |
| UserService.UserPage | src/main/java/com/example/social_network/service/UserService.java:52-55 | the page `getUser` builds for a stored user from its loaded friend collections |
| UserService.MyFriendOnPage | src/main/java/com/example/social_network/service/UserService.java:163-170 | a stored user in the owner's myFriends is listed among the page's friends |
| UserService.FriendOfMineOnPage | src/main/java/com/example/social_network/service/UserService.java:163-170 | a stored user in the owner's friendsOfMine is listed among the page's friends |
| UserService.PageEntryFromCollections | src/main/java/com/example/social_network/service/UserService.java:163-170 | every entry of the page's friend list is the converted form of a user from one of the two loaded collections |
| UserService.OnlyFriendsOnPage | src/main/java/com/example/social_network/service/UserService.java:163-170 | every entry of the page's friend list is a stored user from the owner's myFriends or friendsOfMine |
| UserService.AddFriendShowsOnBothPages | src/test/java/com/example/social_network/controller/UserControllerIntegrationTest.java:199-213 | after `addFriend(a, b)`, each of the two users is listed among the other's friends on their page |
| UserService.UserService.constructor | src/main/java/com/example/social_network/service/UserService.java:30 | the service works on the given repository |
| UserService.UserService.Save | src/main/java/com/example/social_network/service/UserService.java:39-43 | registration fails and changes nothing when the converted user breaks the entity's constraints; otherwise it stores the converted user under a fresh id and returns that id; friendships are unchanged |
| UserService.UserService.GetUser | src/main/java/com/example/social_network/service/UserService.java:52-55 | an absent id fails; otherwise the result is the page of the stored user with its loaded friend collections |
| UserService.UserService.UpdateUser | src/main/java/com/example/social_network/service/UserService.java:65-74 | an absent id fails with "User not found" and changes nothing; an edit that leaves the entity breaking its constraints fails and keeps the stored row; otherwise only that user changes, by the six setters |
| UserService.UserService.Delete | src/main/java/com/example/social_network/service/UserService.java:81-83 | the user with that id is removed with the friendship rows it owns, and all others remain; an absent id fails and changes nothing |
| UserService.UserService.GetFriends | src/main/java/com/example/social_network/service/UserService.java:92-98 | an absent id fails with "User not found"; otherwise the result lists, in id order, exactly the stored users who are friends of the user in either direction and whom the parent search admits |
| UserService.UserService.FindAll | src/main/java/com/example/social_network/service/UserService.java:128-132 | the result lists, converted and in id order, the users the user filter's predicate selects |
| UserService.UserService.AddFriend | src/main/java/com/example/social_network/service/UserService.java:106-108 | the friendship table gains the row (userId, friendId) |
| UserService.UserService.DeleteFriend | src/main/java/com/example/social_network/service/UserService.java:116-118 | the friendship table loses every row (userId, friendId) and nothing else |

## Left out

- Controllers, the application entry point, HTTP routing and logging are not modelled. The field-to-message map of validation errors is `Dtos.RegisterViolations` and `Dtos.EditViolations`.
- Pagination, sorting and `Page` wrapping are not modelled. `findAll` and `getFriends` return every match in increasing id order.
- Transactions, lazy fetching and cascades are not modelled. Deleting a user removes the friendship rows it owns (iduser = id), as Hibernate does for the owning side `myFriends`. Rows naming the user as idfriend stay. Whether the database then refuses the delete depends on its foreign keys, and the schema is not part of this model. A loaded friend collection skips rows that name no stored user.
- Bean validation of the entity on persist and update is modelled as an error result, `ConstraintViolation`, that leaves the store unchanged. The exception types, and the rollback of the surrounding transaction, are not modelled.
- `LocalDate.now()` is the parameter `today`. The year range of `LocalDate` and overflow of `Integer` ages are not modelled.
- Text.Lower: `Character.toLowerCase` is modelled for Latin and Cyrillic capitals and for the two characters that lower-case into ASCII (U+0130 and U+212A). Other scripts are kept unchanged. This is exact for the keyboard lookup, whose keys are all ASCII. It is not exact for the search predicates, where the database's `LOWER` applies.
- Text.LowerStr: lower-casing is modelled one character to one character, with no locale. Java's `String.toLowerCase` turns U+0130 into the two characters `i` and U+0307, where the model gives `i` alone. Under a Turkish default locale it also maps `I` to the dotless `ı`, where the model gives `i`.
- A Dafny `char` is a Unicode scalar value, while a Java `String` is a sequence of UTF-16 code units. Lengths are counted as Java counts them (`Text.Utf16Length`), so `Domain.UserValid`, `Dtos.RegisterViolations` and `Dtos.EditViolations` follow `@Length`. Unpaired surrogates cannot be represented.
- BaseFilter is not part of this model. Its predicate is the `base` field of `UserFilter`. The name tokenising and the use of `KeyboardConverter` in name search are therefore not covered.
- `BaseSpecification.notFriend` is not part of this model. It is a parameter, and its documented promise is the hypothesis `NotFriendAsDocumented`. `Filters.NotSelfNorFriend` is one predicate that meets it, not the program's own.
- Criteria's `root.get` and `root.join` throw `IllegalArgumentException` for an attribute the entity lacks. The model treats such a column as NULL instead, so the predicate is neither true nor false and the row is dropped.
- `LikeMatch` has no escape character. Several databases take the backslash as the default escape when the query names none. The substring lemmas therefore exclude values containing a backslash.
- The parent part of a friend search is never empty, because `notFriend` always yields a predicate. The case "parent predicate neutral ⇒ friend search is `isFriend(user)` alone" therefore cannot arise, and no lemma states it.
- `CityRepository.findByNameContainsIgnoreCase` is not part of this model. Its results are the parameter of `CityService.FindCityByName`.
- The `Genders` enum is assumed to be `M` and `F`.
- `User.toString` is not modelled. It is used only for display.
- The active `addFriend` query is malformed, so the model does not reproduce its failure. The model implements the commented-out insert.
- `getKeyboard` is modelled as the constant table its `put` calls build. The table is the union of four row maps whose keys are disjoint.
- `CityOnUserPageDto` and `CityDto` carry the same two fields and are one datatype, `Dtos.CityDto`.
- The id fields that the converters set on the view models are not modelled. Those view models declare no id.
- Birth-date accessors spelled `getDateOfBirth` and `setDateOfBirth` are taken to mean the `dateOfBDay` field. When there is a birth date, the age passed to the view models is taken as the whole years of `Period.between(birth date, today)`.
- UserService.Age: a user without a birth date gets no age (`None`). `Period.between` would throw a `NullPointerException` on a null birth date. A freshly registered user has no birth date, because `converterUserRegisterDtoToUser` drops it, so under that reading every `getUser` of such a user fails. The model does not reproduce that failure: `UserService.UserService.GetUser` returns the page.
- `Domain.MyFriends`, `Domain.FriendsOfMine` and `UserService.LoadUsers` list friends in friendship-table row order. The two collections have no `@OrderBy`, so the program's order is unspecified; the model fixes it to row order.
- `UserService.UserService.GetFriends` takes the friend filter by value. The Java setter mutates the caller's filter object, and the model does not capture that aliasing.
