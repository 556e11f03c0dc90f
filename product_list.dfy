/** `ProductsViewModel`: the product list screen's state holder. A load shows
    the spinner and clears the error, then either replaces the list or records
    the error and keeps the stale list; adding a favourite saves it and then
    emits one toast. The product repository's answer is an input. */
module ProductList {
  import opened Wrappers
  import opened Entities
  import opened Store
  import opened Repository
  import opened Mapper
  import opened Network

  datatype ProductState = ProductState(loading: bool, products: seq<Product>, error: Option<string>)

  const InitialProductState: ProductState := ProductState(false, [], None)

  datatype ProductIntent = LoadProducts | AddToFavorites(product: Product)

  datatype UiEffect = ShowToast(message: string)

  const AddedToFavorites: string := "Added to favorites"

  /** The spinner and an error message are never shown together. */
  ghost predicate Consistent(s: ProductState) {
    s.loading ==> s.error.None?
  }

  /** The first update of a load: spinner on, error cleared, list kept. */
  function StartLoad(s: ProductState): (t: ProductState)
    ensures t.loading && t.error.None? && t.products == s.products
    ensures Consistent(t)
  {
    s.(loading := true, error := None)
  }

  /** The second update of a load: spinner off, then the fetched list, or the
      failure's message (or "Unknown error") with the previous list kept. */
  function FinishLoad(s: ProductState, fetched: Result<seq<Product>, Fault>): (t: ProductState)
    ensures !t.loading && Consistent(t)
    ensures fetched.Success? ==> t.products == fetched.value && t.error == s.error
    ensures fetched.Failure? ==> t.products == s.products && t.error == Some(ErrorText(fetched.error))
  {
    match fetched
    case Success(products) => s.(loading := false, products := products)
    case Failure(f) => s.(loading := false, error := Some(ErrorText(f)))
  }

  /** The state a whole load leaves behind. */
  function Load(s: ProductState, fetched: Result<seq<Product>, Fault>): (t: ProductState)
    ensures fetched.Success? ==> t == ProductState(false, fetched.value, None)
    ensures fetched.Failure? ==> t == ProductState(false, s.products, Some(ErrorText(fetched.error)))
  {
    FinishLoad(StartLoad(s), fetched)
  }

  /** Retrying after a failure: a successful load clears the error and shows the
      new list, whatever the failed attempt left. */
  lemma RetryAfterFailure(s: ProductState, f: Fault, products: seq<Product>)
    ensures Load(s, Failure(f)).products == s.products
    ensures Load(Load(s, Failure(f)), Success(products)) == ProductState(false, products, None)
  {
  }

  /** End to end, with the product repository of `NetworkRepositoryImpl`: a load
      shows the API's products mapped one by one, in order, or keeps the stale
      list beside the API's message. */
  lemma ShowsMappedProducts(s: ProductState, api: Result<seq<ProductDto>, Fault>)
    ensures api.Success? ==> var t := Load(s, GetProducts(api));
      && |t.products| == |api.value|
      && (forall i :: 0 <= i < |api.value| ==> t.products[i] == ProductToDomain(api.value[i]))
      && !t.loading && t.error == None
    ensures api.Failure? ==> Load(s, GetProducts(api)) == ProductState(false, s.products, Some(ErrorText(api.error)))
  {
  }

  /** Favouriting a product again later moves its row to the top of the
      favourites list: the new save carries the later clock reading. */
  lemma RefavouriteComesFirst(rows: map<int, FavoriteEntity>, toFavoriteEntity: Product -> FavoriteEntity, product: Product, now: int)
    requires PrimaryKey(rows)
    requires forall id :: id in rows ==> rows[id].savedAt < now
    ensures var after := Snapshot(Upsert(rows, FavoriteRow(toFavoriteEntity, product, now)));
      after != [] && after[0] == FavoriteRow(toFavoriteEntity, product, now) && after[0].savedAt == now
  {
    NewestSaveComesFirst(rows, FavoriteRow(toFavoriteEntity, product, now));
  }

  class ProductsViewModel {
    /** `_productListState.value` */
    var productListState: ProductState
    /** The effects emitted on `_uiEffectState`, in order. */
    var uiEffects: seq<UiEffect>
    /** Every value the state flow has taken, in order. */
    ghost var published: seq<ProductState>
    const favRepo: FavoritesRepository
    /** `Product.toFavoriteEntity()`, which is not part of this model: it supplies
        the product's fields; the row's `savedAt` is the clock reading `now` taken
        at each save (see `FavoriteRow`). */
    const toFavoriteEntity: Product -> FavoriteEntity

    ghost predicate Valid()
      reads this
    {
      && Consistent(productListState)
      && published != []
      && published[|published| - 1] == productListState
    }

    constructor (favRepo: FavoritesRepository, toFavoriteEntity: Product -> FavoriteEntity)
      ensures Valid()
      ensures productListState == InitialProductState && uiEffects == [] && published == [InitialProductState]
      ensures this.favRepo == favRepo && this.toFavoriteEntity == toFavoriteEntity
    {
      productListState := InitialProductState;
      uiEffects := [];
      published := [InitialProductState];
      this.favRepo := favRepo;
      this.toFavoriteEntity := toFavoriteEntity;
    }

    /** `onProductListIntent(intent)`: `LoadProducts` runs the load, `AddToFavorites`
        the save; `fetched` is what the product repository answers, `now` the
        clock reading at the save and `storeFault` how the favourites table answers. */
    method OnProductListIntent(intent: ProductIntent, fetched: Result<seq<Product>, Fault>, now: int, storeFault: Option<Fault>)
      requires Valid() && favRepo.favoriteDao.Valid()
      modifies this, favRepo.favoriteDao
      ensures Valid() && favRepo.favoriteDao.Valid()
      ensures intent.LoadProducts? ==>
        && productListState == Load(old(productListState), fetched)
        && published == old(published) + [StartLoad(old(productListState)), productListState]
        && uiEffects == old(uiEffects)
        && favRepo.favoriteDao.rows == old(favRepo.favoriteDao.rows)
        && favRepo.favoriteDao.writes == old(favRepo.favoriteDao.writes)
      ensures intent.AddToFavorites? ==>
        && productListState == old(productListState) && published == old(published)
        && favRepo.favoriteDao.writes == old(favRepo.favoriteDao.writes) + [Insert(FavoriteRow(toFavoriteEntity, intent.product, now))]
        && (storeFault.None? ==>
              favRepo.favoriteDao.rows == Upsert(old(favRepo.favoriteDao.rows), FavoriteRow(toFavoriteEntity, intent.product, now))
              && uiEffects == old(uiEffects) + [ShowToast(AddedToFavorites)])
        && (storeFault.Some? ==>
              favRepo.favoriteDao.rows == old(favRepo.favoriteDao.rows) && uiEffects == old(uiEffects))
    {
      match intent
      case LoadProducts =>
        LoadProducts(fetched);
      case AddToFavorites(product) =>
        var _ := AddFavorite(product, now, storeFault);
    }

    /** `loadProducts()`: two updates of the state flow. */
    method LoadProducts(fetched: Result<seq<Product>, Fault>)
      requires Valid()
      modifies this`productListState, this`published
      ensures Valid()
      ensures productListState == Load(old(productListState), fetched)
      ensures published == old(published) + [StartLoad(old(productListState)), productListState]
    {
      productListState := StartLoad(productListState);
      published := published + [productListState];
      productListState := FinishLoad(productListState, fetched);
      published := published + [productListState];
    }

    /** `addFavorite(product)`: save, and only once the save has returned emit
        one toast; a failing save throws before the toast. */
    method AddFavorite(product: Product, now: int, storeFault: Option<Fault>) returns (r: Outcome<Fault>)
      requires favRepo.favoriteDao.Valid()
      modifies this`uiEffects, favRepo.favoriteDao
      ensures favRepo.favoriteDao.Valid()
      ensures favRepo.favoriteDao.writes == old(favRepo.favoriteDao.writes) + [Insert(FavoriteRow(toFavoriteEntity, product, now))]
      ensures storeFault.None? ==>
        && r == Pass
        && favRepo.favoriteDao.rows == Upsert(old(favRepo.favoriteDao.rows), FavoriteRow(toFavoriteEntity, product, now))
        && uiEffects == old(uiEffects) + [ShowToast(AddedToFavorites)]
      ensures storeFault.Some? ==>
        && r == Fail(storeFault.value)
        && favRepo.favoriteDao.rows == old(favRepo.favoriteDao.rows)
        && uiEffects == old(uiEffects)
    {
      r := favRepo.SaveFavorite(FavoriteRow(toFavoriteEntity, product, now), storeFault);
      if r.Pass? {
        uiEffects := uiEffects + [ShowToast(AddedToFavorites)];
      }
    }
  }
}
