/** `ProductViewDetailsViewModel`: the product detail screen's state holder.
    A load shows the spinner and clears the error, then shows the product
    fetched for the requested id, or records the error and keeps whatever
    product was shown; adding a favourite saves it and then emits one toast.
    The product repository is an input: its answer for each id. */
module ProductDetails {
  import opened Wrappers
  import opened Entities
  import opened Store
  import opened Repository
  import opened Mapper
  import opened Network

  datatype ProductDetailsState = ProductDetailsState(loading: bool, productDetails: Option<Product>, error: Option<string>)

  const InitialDetailsState: ProductDetailsState := ProductDetailsState(false, None, None)

  datatype ProductDetailsIntent = LoadProductDetails(id: int) | AddToFavorites(favProduct: Product)

  datatype ProductDetailsEffect = ShowToast(message: string)

  const AddedToFavorites: string := "Added to favorites"

  /** The spinner and an error message are never shown together. */
  ghost predicate Consistent(s: ProductDetailsState) {
    s.loading ==> s.error.None?
  }

  /** The first update of a load: spinner on, error cleared, product kept. */
  function StartLoad(s: ProductDetailsState): (t: ProductDetailsState)
    ensures t.loading && t.error.None? && t.productDetails == s.productDetails
    ensures Consistent(t)
  {
    s.(loading := true, error := None)
  }

  /** The second update of a load. The fetch runs inside the update, so a
      failing fetch makes no update of its own and only the error update
      follows: the previous product stays. */
  function FinishLoad(s: ProductDetailsState, fetched: Result<Product, Fault>): (t: ProductDetailsState)
    ensures !t.loading && Consistent(t)
    ensures fetched.Success? ==> t.productDetails == Some(fetched.value) && t.error == s.error
    ensures fetched.Failure? ==> t.productDetails == s.productDetails && t.error == Some(ErrorText(fetched.error))
  {
    match fetched
    case Success(p) => s.(loading := false, productDetails := Some(p))
    case Failure(f) => s.(loading := false, error := Some(ErrorText(f)))
  }

  /** The state a whole load of product `id` leaves behind. */
  function Load(s: ProductDetailsState, id: int, getProduct: int -> Result<Product, Fault>): (t: ProductDetailsState)
    ensures getProduct(id).Success? ==> t == ProductDetailsState(false, Some(getProduct(id).value), None)
    ensures getProduct(id).Failure? ==> t == ProductDetailsState(false, s.productDetails, Some(ErrorText(getProduct(id).error)))
  {
    FinishLoad(StartLoad(s), getProduct(id))
  }

  /** End to end, with the product repository of `NetworkRepositoryImpl`: a load
      shows the API's record for exactly the requested id, mapped to the domain. */
  lemma ShowsRequestedProduct(s: ProductDetailsState, id: int, api: int -> Result<ProductDto, Fault>)
    ensures var t := Load(s, id, (i: int) => GetProduct(i, api));
      && (api(id).Success? ==> t.productDetails == Some(ProductToDomain(api(id).value)) && t.productDetails.value.id == api(id).value.id)
      && (api(id).Failure? ==> t.productDetails == s.productDetails && t.error == Some(ErrorText(api(id).error)))
  {
  }

  /** A failed load of another product keeps the product already on screen and
      only adds the error. */
  lemma FailureKeepsShownProduct(s: ProductDetailsState, id: int, other: int, getProduct: int -> Result<Product, Fault>)
    requires getProduct(id).Success? && getProduct(other).Failure?
    ensures Load(Load(s, id, getProduct), other, getProduct).productDetails == Some(getProduct(id).value)
    ensures Load(Load(s, id, getProduct), other, getProduct).error.Some?
  {
  }

  class ProductViewDetailsViewModel {
    /** `_productDetailsState.value` */
    var productDetailsState: ProductDetailsState
    /** The effects emitted on `_productDetailsEffect`, in order. */
    var productDetailsEffects: seq<ProductDetailsEffect>
    /** Every value the state flow has taken, in order. */
    ghost var published: seq<ProductDetailsState>
    const favRepo: FavoritesRepository
    /** `Product.toFavoriteEntity()`, which is not part of this model: it supplies
        the product's fields; the row's `savedAt` is the clock reading `now` taken
        at each save (see `FavoriteRow`). */
    const toFavoriteEntity: Product -> FavoriteEntity

    ghost predicate Valid()
      reads this
    {
      && Consistent(productDetailsState)
      && published != []
      && published[|published| - 1] == productDetailsState
    }

    constructor (favRepo: FavoritesRepository, toFavoriteEntity: Product -> FavoriteEntity)
      ensures Valid()
      ensures productDetailsState == InitialDetailsState && productDetailsEffects == []
      ensures published == [InitialDetailsState]
      ensures this.favRepo == favRepo && this.toFavoriteEntity == toFavoriteEntity
    {
      productDetailsState := InitialDetailsState;
      productDetailsEffects := [];
      published := [InitialDetailsState];
      this.favRepo := favRepo;
      this.toFavoriteEntity := toFavoriteEntity;
    }

    /** `onProductDetailsIntent(detailsIntent)`: `getProduct` is what the product
        repository answers for each id, `now` the clock reading at a save and
        `storeFault` how the favourites table answers. */
    method OnProductDetailsIntent(detailsIntent: ProductDetailsIntent, getProduct: int -> Result<Product, Fault>, now: int, storeFault: Option<Fault>)
      requires Valid() && favRepo.favoriteDao.Valid()
      modifies this, favRepo.favoriteDao
      ensures Valid() && favRepo.favoriteDao.Valid()
      ensures detailsIntent.LoadProductDetails? ==>
        && productDetailsState == Load(old(productDetailsState), detailsIntent.id, getProduct)
        && published == old(published) + [StartLoad(old(productDetailsState)), productDetailsState]
        && productDetailsEffects == old(productDetailsEffects)
        && favRepo.favoriteDao.rows == old(favRepo.favoriteDao.rows)
        && favRepo.favoriteDao.writes == old(favRepo.favoriteDao.writes)
      ensures detailsIntent.AddToFavorites? ==>
        && productDetailsState == old(productDetailsState) && published == old(published)
        && favRepo.favoriteDao.writes == old(favRepo.favoriteDao.writes) + [Insert(FavoriteRow(toFavoriteEntity, detailsIntent.favProduct, now))]
        && (storeFault.None? ==>
              favRepo.favoriteDao.rows == Upsert(old(favRepo.favoriteDao.rows), FavoriteRow(toFavoriteEntity, detailsIntent.favProduct, now))
              && productDetailsEffects == old(productDetailsEffects) + [ShowToast(AddedToFavorites)])
        && (storeFault.Some? ==>
              favRepo.favoriteDao.rows == old(favRepo.favoriteDao.rows) && productDetailsEffects == old(productDetailsEffects))
    {
      match detailsIntent
      case LoadProductDetails(id) =>
        LoadDetails(id, getProduct);
      case AddToFavorites(favProduct) =>
        var _ := AddToFavoritesFor(favProduct, now, storeFault);
    }

    /** `loadDetails(productId)`: two updates of the state flow. */
    method LoadDetails(productId: int, getProduct: int -> Result<Product, Fault>)
      requires Valid()
      modifies this`productDetailsState, this`published
      ensures Valid()
      ensures productDetailsState == Load(old(productDetailsState), productId, getProduct)
      ensures published == old(published) + [StartLoad(old(productDetailsState)), productDetailsState]
    {
      productDetailsState := StartLoad(productDetailsState);
      published := published + [productDetailsState];
      productDetailsState := FinishLoad(productDetailsState, getProduct(productId));
      published := published + [productDetailsState];
    }

    /** `addToFavorites(product)`: save, then emit one toast; a failing save
        throws before the toast. */
    method AddToFavoritesFor(product: Product, now: int, storeFault: Option<Fault>) returns (r: Outcome<Fault>)
      requires favRepo.favoriteDao.Valid()
      modifies this`productDetailsEffects, favRepo.favoriteDao
      ensures favRepo.favoriteDao.Valid()
      ensures favRepo.favoriteDao.writes == old(favRepo.favoriteDao.writes) + [Insert(FavoriteRow(toFavoriteEntity, product, now))]
      ensures storeFault.None? ==>
        && r == Pass
        && favRepo.favoriteDao.rows == Upsert(old(favRepo.favoriteDao.rows), FavoriteRow(toFavoriteEntity, product, now))
        && productDetailsEffects == old(productDetailsEffects) + [ShowToast(AddedToFavorites)]
      ensures storeFault.Some? ==>
        && r == Fail(storeFault.value)
        && favRepo.favoriteDao.rows == old(favRepo.favoriteDao.rows)
        && productDetailsEffects == old(productDetailsEffects)
    {
      r := favRepo.SaveFavorite(FavoriteRow(toFavoriteEntity, product, now), storeFault);
      if r.Pass? {
        productDetailsEffects := productDetailsEffects + [ShowToast(AddedToFavorites)];
      }
    }
  }
}
