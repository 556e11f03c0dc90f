/** The records the core passes around: transport records decoded from the
    remote API, the domain records shown on screen, the favourites row, and
    the exception a failing call throws. Prices are copied and compared only,
    never computed on, so a `Double` is modelled as a `real`; ids and
    timestamps are only compared, so they are unbounded integers. */
module Entities {
  import opened Wrappers

  /** A row of the `favorites` table; `id` is its primary key. */
  datatype FavoriteEntity = FavoriteEntity(
    id: int,
    title: string,
    image: string,
    price: real,
    description: Option<string>,
    category: Option<string>,
    savedAt: int)

  /** A product as the remote API returns it. */
  datatype ProductDto = ProductDto(
    id: int,
    title: string,
    price: real,
    description: Option<string>,
    category: Option<string>,
    image: string)

  /** The name object nested in a user returned by the remote API. */
  datatype NameDto = NameDto(firstname: Option<string>, lastname: Option<string>)

  /** A user as the remote API returns it. */
  datatype UserDto = UserDto(
    id: int,
    username: Option<string>,
    email: Option<string>,
    name: Option<NameDto>)

  /** A product of the domain layer. */
  datatype Product = Product(
    id: int,
    title: string,
    price: real,
    description: Option<string>,
    category: Option<string>,
    image: string)

  /** A user of the domain layer: `name` is the composed display name. */
  datatype User = User(id: int, name: string, email: Option<string>)

  /** A thrown exception: its (nullable) message and, for an HTTP error
      response, its status code. */
  datatype Fault = Fault(message: Option<string>, status: Option<int>)

  const UnknownError: string := "Unknown error"

  /** The text a view model stores for a failure: `e.message ?: "Unknown error"`. */
  function ErrorText(f: Fault): (r: string)
    ensures f.message.Some? ==> r == f.message.value
    ensures f.message.None? ==> r == UnknownError
  {
    f.message.GetOr(UnknownError)
  }

  /** The row `product.toFavoriteEntity()` builds when the clock reads `now`:
      the product's fields as the mapper copies them, and `savedAt` left at its
      default, the current time. */
  function FavoriteRow(toFavoriteEntity: Product -> FavoriteEntity, product: Product, now: int): (e: FavoriteEntity)
    ensures e.savedAt == now
    ensures e.id == toFavoriteEntity(product).id && e.title == toFavoriteEntity(product).title
    ensures e.(savedAt := toFavoriteEntity(product).savedAt) == toFavoriteEntity(product)
  {
    toFavoriteEntity(product).(savedAt := now)
  }
}
