/** The transport-to-domain mappers of `MapperExtenstion.kt`. */
module Mapper {
  import opened Wrappers
  import opened Entities

  /** `ProductDto.toDomain()`: a field-for-field copy. */
  function ProductToDomain(dto: ProductDto): (p: Product)
    ensures p.id == dto.id && p.title == dto.title && p.price == dto.price
    ensures p.description == dto.description && p.category == dto.category && p.image == dto.image
  {
    Product(dto.id, dto.title, dto.price, dto.description, dto.category, dto.image)
  }

  /** The mapping loses nothing: every field of the transport record can be
      read back from the product, so distinct records give distinct products. */
  lemma ProductToDomainLossless(dto: ProductDto)
    ensures var p := ProductToDomain(dto);
      ProductDto(p.id, p.title, p.price, p.description, p.category, p.image) == dto
  {
  }

  lemma ProductToDomainInjective(a: ProductDto, b: ProductDto)
    requires ProductToDomain(a) == ProductToDomain(b)
    ensures a == b
  {
    ProductToDomainLossless(a);
    ProductToDomainLossless(b);
  }

  /** `"$x"` for a `String?`: Kotlin's string template renders `null` as "null". */
  function Render(s: Option<string>): string {
    s.GetOr("null")
  }

  /** `First + " " + Last`: two parts joined by a single space. */
  function JoinName(first: string, last: string): (r: string)
    ensures |r| == |first| + 1 + |last|
    ensures r[..|first|] == first && r[|first|] == ' ' && r[|first| + 1..] == last
  {
    first + " " + last
  }

  /** When the first part holds no space, the joined name determines both parts. */
  lemma JoinNameInjective(f1: string, l1: string, f2: string, l2: string)
    requires ' ' !in f1 && ' ' !in f2
    requires JoinName(f1, l1) == JoinName(f2, l2)
    ensures f1 == f2 && l1 == l2
  {
  }

  /** `UserDto.toDomain()` as the source writes it: `"${name.firstname} ${name.lastname}"`
      with the email copied through. The source dereferences the nullable name
      object directly; it is read here as the safe call `name?.firstname`, so
      every absent part renders as "null". */
  function UserToDomainAsWritten(dto: UserDto): (u: User)
    ensures u.id == dto.id && u.email == dto.email
    ensures dto.name.None? ==> u.name == "null null"
    ensures dto.name.Some? ==> u.name == JoinName(Render(dto.name.value.firstname), Render(dto.name.value.lastname))
  {
    var first := if dto.name.Some? then dto.name.value.firstname else None;
    var last := if dto.name.Some? then dto.name.value.lastname else None;
    User(dto.id, Render(first) + " " + Render(last), dto.email)
  }

  /** A user with a null name object and a null email comes out with the placeholder
      name "null null" and a null email, where an empty name and email are expected. */
  lemma AsWrittenRendersNullPlaceholder()
    ensures var u := UserToDomainAsWritten(UserDto(3, Some("user 3"), None, None));
      u.name == "null null" && u.name != "" && u.email == None
  {
  }

  /** `UserDto.toDomain()` as intended: the id is kept, the name is the first and
      last name joined with one space (an absent part counting as empty), an absent
      name object gives the empty name and an absent email the empty email. */
  function UserToDomain(dto: UserDto): (u: User)
    ensures u.id == dto.id
    ensures u.email == Some(dto.email.GetOr(""))
    ensures dto.name.None? ==> u.name == ""
    ensures dto.name.Some? ==> u.name == JoinName(dto.name.value.firstname.GetOr(""), dto.name.value.lastname.GetOr(""))
  {
    var name := match dto.name
      case None => ""
      case Some(n) => n.firstname.GetOr("") + " " + n.lastname.GetOr("");
    User(dto.id, name, Some(dto.email.GetOr("")))
  }

  /** Whenever every part is present the intended mapping and the written one agree. */
  lemma UserMappersAgreeWhenPresent(dto: UserDto)
    requires dto.email.Some? && dto.name.Some?
    requires dto.name.value.firstname.Some? && dto.name.value.lastname.Some?
    ensures UserToDomain(dto) == UserToDomainAsWritten(dto)
  {
  }

  /** The case the mapper's behaviour was pinned down by: "Jhon" and "Smith" give "Jhon Smith". */
  lemma UserNameJoinExample()
    ensures UserToDomain(UserDto(1, Some("Jhon Smith"), Some("a@b"), Some(NameDto(Some("Jhon"), Some("Smith"))))).name == "Jhon Smith"
  {
  }

  /** An absent name object and email give an empty name and email. */
  lemma UserToDomainNullsAreEmpty()
    ensures var u := UserToDomain(UserDto(3, Some("user 3"), None, None)); u.name == "" && u.email == Some("")
  {
  }
}
