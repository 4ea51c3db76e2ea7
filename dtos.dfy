/**
 * The data-transfer objects: the two request bodies with their bean
 * validation constraints, and the three view models the services build.
 */
module Dtos {
  import opened Wrappers
  import opened Dates
  import opened Domain
  import opened Text

  /** Body of the registration request. */
  datatype UserRegisterDto = UserRegisterDto(
    name: Option<string>,
    surname: Option<string>,
    dateOfBDay: Option<Date>,
    gender: Option<Gender>,
    city: Option<City>)

  /** Body of the profile edit request; every field may be absent. */
  datatype UserEditDto = UserEditDto(
    name: Option<string>,
    surname: Option<string>,
    dateOfBDay: Option<Date>,
    gender: Option<Gender>,
    interests: Option<string>,
    city: Option<City>)

  /** A city with its region's name, as shown in lists and on a user's page. */
  datatype CityDto = CityDto(name: Option<string>, regionName: Option<string>)

  /** A user as shown in a list. */
  datatype UserByListDto = UserByListDto(fio: string, gender: Option<Gender>, age: Option<int>)

  /** A user's page. */
  datatype UserPageDto = UserPageDto(
    fio: string,
    age: Option<int>,
    gender: Option<Gender>,
    interests: Option<string>,
    city: Option<CityDto>,
    friends: seq<UserByListDto>)

  /** Default message of @NotNull. */
  const NotNullMessage := "must not be null"
  /** Default message of @Length(min = 1, max = 45). */
  const NameLengthMessage := "length must be between 1 and 45"
  /** Default message of @Length(max = 512). */
  const InterestsLengthMessage := "length must be between 0 and 512"

  /** @NotNull @Length(min = 1, max = 45) on name and surname. */
  predicate RegisterValid(dto: UserRegisterDto) {
    && dto.name.Some? && LengthBetween(dto.name, 1, 45)
    && dto.surname.Some? && LengthBetween(dto.surname, 1, 45)
  }

  /** @Length(min = 1, max = 45) on name and surname, @Length(max = 512) on interests; nothing is required. */
  predicate EditValid(dto: UserEditDto) {
    && LengthBetween(dto.name, 1, 45)
    && LengthBetween(dto.surname, 1, 45)
    && LengthBetween(dto.interests, 0, 512)
  }

  /** The violation of a required 1..45 field, if any. */
  function RequiredNameViolation(s: Option<string>): (r: Option<string>)
    ensures r.None? <==> s.Some? && LengthBetween(s, 1, 45)
  {
    if s.None? then Some(NotNullMessage)
    else if !LengthBetween(s, 1, 45) then Some(NameLengthMessage)
    else None
  }

  /** The violation of an optional field with a length bound, if any. */
  function LengthViolation(s: Option<string>, min: int, max: int, message: string): (r: Option<string>)
    ensures r.None? <==> LengthBetween(s, min, max)
  {
    if LengthBetween(s, min, max) then None else Some(message)
  }

  function Field(field: string, violation: Option<string>): map<string, string> {
    if violation.Some? then map[field := violation.value] else map[]
  }

  /** Field name to message for every constraint a registration body breaks. */
  function RegisterViolations(dto: UserRegisterDto): (errors: map<string, string>)
    ensures "name" in errors <==> !(dto.name.Some? && LengthBetween(dto.name, 1, 45))
    ensures "surname" in errors <==> !(dto.surname.Some? && LengthBetween(dto.surname, 1, 45))
    ensures errors == map[] <==> RegisterValid(dto)
  {
    var errors := Field("name", RequiredNameViolation(dto.name)) + Field("surname", RequiredNameViolation(dto.surname));
    assert errors == map[] ==> "name" !in errors && "surname" !in errors;
    errors
  }

  /** Field name to message for every constraint an edit body breaks. */
  function EditViolations(dto: UserEditDto): (errors: map<string, string>)
    ensures "name" in errors <==> !LengthBetween(dto.name, 1, 45)
    ensures "surname" in errors <==> !LengthBetween(dto.surname, 1, 45)
    ensures "interests" in errors <==> !LengthBetween(dto.interests, 0, 512)
    ensures errors == map[] <==> EditValid(dto)
  {
    var errors :=
      Field("name", LengthViolation(dto.name, 1, 45, NameLengthMessage))
      + Field("surname", LengthViolation(dto.surname, 1, 45, NameLengthMessage))
      + Field("interests", LengthViolation(dto.interests, 0, 512, InterestsLengthMessage));
    assert errors == map[] ==> "name" !in errors && "surname" !in errors && "interests" !in errors;
    errors
  }

  /** An empty name is refused at registration with the length message. */
  lemma RegisterEmptyName(dto: UserRegisterDto)
    requires dto.name == Some("") && dto.surname == Some("surname")
    ensures RegisterViolations(dto) == map["name" := "length must be between 1 and 45"]
  {
  }

  /** An empty name is refused on edit with the length message. */
  lemma EditEmptyName(dto: UserEditDto)
    requires dto == UserEditDto(Some(""), None, None, None, None, None)
    ensures EditViolations(dto) == map["name" := "length must be between 1 and 45"]
  {
  }

  /**
   * A name of 23 characters outside the Basic Multilingual Plane is 46 UTF-16
   * units long and is refused, although it has only 23 characters.
   */
  lemma AstralNameRefused(dto: UserRegisterDto)
    requires dto.name == Some(seq(23, _ => '\U{1F600}')) && dto.surname == Some("surname")
    ensures |dto.name.value| == 23
    ensures RegisterViolations(dto) == map["name" := "length must be between 1 and 45"]
  {
    Utf16LengthAstral(dto.name.value);
    Utf16LengthBmp("surname");
  }

  /** Unlike registration, an edit without a name passes validation. */
  lemma EditAllowsAbsentName(dto: UserEditDto)
    requires dto.name.None? && EditValid(dto)
    ensures EditViolations(dto) == map[]
    ensures !RegisterValid(UserRegisterDto(dto.name, dto.surname, dto.dateOfBDay, dto.gender, dto.city))
  {
  }
}
