/** `NetworkRepositoryImpl`: each operation maps the remote API's answer to the
    domain. The API call itself is an input: the decoded answer, or the
    exception it threw. */
module Network {
  import opened Wrappers
  import opened Entities
  import Lists
  import opened Mapper

  /** `getUsers()`: the API's list mapped elementwise by `UserDto.toDomain()`,
      or the API's exception. The mapper is a parameter, so the repository can be
      taken with the mapper as written (`UserToDomainAsWritten`) or as intended
      (`UserToDomain`). */
  function GetUsers(api: Result<seq<UserDto>, Fault>, toDomain: UserDto -> User): (r: Result<seq<User>, Fault>)
    ensures api.Failure? ==> r == Failure(api.error)
    ensures api.Success? ==> r.Success? && |r.value| == |api.value|
    ensures api.Success? ==> forall i :: 0 <= i < |api.value| ==> r.value[i] == toDomain(api.value[i])
  {
    match api
    case Success(dtos) => Success(Lists.Map(toDomain, dtos))
    case Failure(f) => Failure(f)
  }

  /** `getProducts()`: the API's list mapped elementwise, or the API's exception. */
  function GetProducts(api: Result<seq<ProductDto>, Fault>): (r: Result<seq<Product>, Fault>)
    ensures api.Failure? ==> r == Failure(api.error)
    ensures api.Success? ==> r.Success? && |r.value| == |api.value|
    ensures api.Success? ==> forall i :: 0 <= i < |api.value| ==> r.value[i] == ProductToDomain(api.value[i])
  {
    match api
    case Success(dtos) => Success(Lists.Map(ProductToDomain, dtos))
    case Failure(f) => Failure(f)
  }

  /** `getProduct(id)`: the API is asked for `id` and its answer is mapped. */
  function GetProduct(id: int, api: int -> Result<ProductDto, Fault>): (r: Result<Product, Fault>)
    ensures api(id).Failure? ==> r == Failure(api(id).error)
    ensures api(id).Success? ==> r.Success? && r.value.id == api(id).value.id && r.value.title == api(id).value.title
    ensures api(id).Success? ==> r.value == ProductToDomain(api(id).value)
  {
    match api(id)
    case Success(dto) => Success(ProductToDomain(dto))
    case Failure(f) => Failure(f)
  }

  /** An empty answer gives an empty list. */
  lemma EmptyAnswers()
    ensures GetUsers(Success([]), UserToDomain) == Success([])
    ensures GetProducts(Success([])) == Success([])
  {
  }

  /** A failure reaches the caller unchanged, status code included. */
  lemma NotFoundPropagates(msg: Option<string>)
    ensures GetProducts(Failure(Fault(msg, Some(404)))) == Failure(Fault(msg, Some(404)))
    ensures GetUsers(Failure(Fault(msg, Some(404))), UserToDomain).error.status == Some(404)
  {
  }

  /** The list endpoint and the single-product endpoint agree: when the API's
      answer for an id is a record the list also holds, both give the same product. */
  lemma ListAndItemAgree(list: seq<ProductDto>, i: int, api: int -> Result<ProductDto, Fault>)
    requires 0 <= i < |list| && api(list[i].id) == Success(list[i])
    ensures GetProduct(list[i].id, api) == Success(GetProducts(Success(list)).value[i])
  {
  }

  /** Mapping a list of users distributes over concatenation: the mapper treats
      each user on its own. */
  lemma GetUsersAppend(xs: seq<UserDto>, ys: seq<UserDto>, toDomain: UserDto -> User)
    ensures GetUsers(Success(xs + ys), toDomain).value == GetUsers(Success(xs), toDomain).value + GetUsers(Success(ys), toDomain).value
  {
    Lists.MapAppend(toDomain, xs, ys);
  }

  /** The repository-level view of the user with null properties: with the mapper
      as written the list holds three users and the third is named "null null"
      with a null email; with the intended mapper its name and email are empty. */
  lemma NullUserThroughRepository()
    ensures var api := Success([UserDto(1, Some("user 1"), Some("user1@xyz.com"), Some(NameDto(Some("user"), Some("1")))),
                                UserDto(2, None, Some("user2@xyz.com"), Some(NameDto(Some("user"), Some("2")))),
                                UserDto(3, Some("user 3"), None, None)]);
      && |GetUsers(api, UserToDomainAsWritten).value| == 3
      && GetUsers(api, UserToDomainAsWritten).value[0].name == "user 1"
      && GetUsers(api, UserToDomainAsWritten).value[2].name == "null null"
      && GetUsers(api, UserToDomainAsWritten).value[2].email == None
      && GetUsers(api, UserToDomain).value[0].name == "user 1"
      && GetUsers(api, UserToDomain).value[2].name == ""
      && GetUsers(api, UserToDomain).value[2].email == Some("")
  {
  }
}
