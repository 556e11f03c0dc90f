/** `FavoritesViewModel`: the favourites screen shows the table's snapshots,
    each mapped entity by entity to a product, with repeated lists dropped,
    starting from an empty list; deleting forwards the id to the repository. */
module FavoriteList {
  import opened Wrappers
  import opened Entities
  import Lists
  import opened Flows
  import opened Store
  import opened Repository

  /** One snapshot as products: `it.map { entity -> entity.toProduct() }`. */
  function ProductsOf(snapshot: seq<FavoriteEntity>, toProduct: FavoriteEntity -> Product): (r: seq<Product>)
    ensures |r| == |snapshot|
    ensures forall i :: 0 <= i < |snapshot| ==> r[i] == toProduct(snapshot[i])
  {
    Lists.Map(toProduct, snapshot)
  }

  /** The flow's `.map { ... }` stage: every delivered snapshot as products, in order. */
  function MappedSnapshots(snapshots: seq<seq<FavoriteEntity>>, toProduct: FavoriteEntity -> Product): (r: seq<seq<Product>>)
    ensures |r| == |snapshots|
    ensures forall j :: 0 <= j < |snapshots| ==> r[j] == ProductsOf(snapshots[j], toProduct)
  {
    Lists.Map((snapshot: seq<FavoriteEntity>) => ProductsOf(snapshot, toProduct), snapshots)
  }

  /** `allFavorites`: the values the screen's state flow takes when the table
      delivers `snapshots`, in order:
      `.map { ... }.distinctUntilChanged().stateIn(..., emptyList())`. The
      screen shows one list per run of equal lists in the empty list followed by
      the mapped snapshots, in order. */
  function AllFavorites(snapshots: seq<seq<FavoriteEntity>>, toProduct: FavoriteEntity -> Product): (r: seq<seq<Product>>)
    ensures RunsOf([[]] + MappedSnapshots(snapshots, toProduct), r)
    ensures r != [] && r[0] == []
    ensures NoAdjacentRepeats(r)
    ensures snapshots != [] ==> r[|r| - 1] == ProductsOf(snapshots[|snapshots| - 1], toProduct)
    ensures forall xs :: xs in r ==> xs == [] || exists j :: 0 <= j < |snapshots| && xs == ProductsOf(snapshots[j], toProduct)
  {
    var mapped := MappedSnapshots(snapshots, toProduct);
    DistinctBeforeStateInRedundant(mapped);
    MappedMembers(snapshots, toProduct);
    StateIn([], DistinctUntilChanged(mapped))
  }

  /** Each mapped delivery is some snapshot as products. */
  lemma MappedMembers(snapshots: seq<seq<FavoriteEntity>>, toProduct: FavoriteEntity -> Product)
    ensures forall xs :: xs in MappedSnapshots(snapshots, toProduct) ==>
              exists j :: 0 <= j < |snapshots| && xs == ProductsOf(snapshots[j], toProduct)
  {
    var mapped := MappedSnapshots(snapshots, toProduct);
    forall xs | xs in mapped ensures exists j :: 0 <= j < |snapshots| && xs == ProductsOf(snapshots[j], toProduct) {
      var j :| 0 <= j < |mapped| && mapped[j] == xs;
    }
  }

  /** A state flow already drops repeated values, so the `distinctUntilChanged()`
      stage in front of `stateIn` changes nothing the screen sees. */
  lemma DistinctBeforeStateInRedundant(mapped: seq<seq<Product>>)
    ensures StateIn([], DistinctUntilChanged(mapped)) == StateIn([], mapped)
  {
    DistinctUntilChangedAbsorbed([], mapped);
  }

  /** Every change reaches the screen: when a delivered snapshot maps to a list
      other than the one before it (the empty list before the first), the screen
      shows the earlier list and then the new one. */
  lemma FavoritesChangesReachScreen(snapshots: seq<seq<FavoriteEntity>>, toProduct: FavoriteEntity -> Product, j: nat)
    requires j < |snapshots|
    requires ProductsOf(snapshots[j], toProduct) != (if j == 0 then [] else ProductsOf(snapshots[j - 1], toProduct))
    ensures exists k ::
              && 0 < k < |AllFavorites(snapshots, toProduct)|
              && AllFavorites(snapshots, toProduct)[k - 1] == (if j == 0 then [] else ProductsOf(snapshots[j - 1], toProduct))
              && AllFavorites(snapshots, toProduct)[k] == ProductsOf(snapshots[j], toProduct)
  {
    var xs := [[]] + MappedSnapshots(snapshots, toProduct);
    var r := AllFavorites(snapshots, toProduct);
    assert xs[j + 1] == ProductsOf(snapshots[j], toProduct);
    assert xs[j] == if j == 0 then [] else ProductsOf(snapshots[j - 1], toProduct);
    var k := RunsOfPassesChanges(xs, r, j + 1);
  }

  /** The screen shows exactly one list per change: its number of lists is one
      more than the number of deliveries whose list differs from the one before. */
  lemma FavoritesCount(snapshots: seq<seq<FavoriteEntity>>, toProduct: FavoriteEntity -> Product)
    ensures |AllFavorites(snapshots, toProduct)| == RunIndex([[]] + MappedSnapshots(snapshots, toProduct), |snapshots|) + 1
  {
  }

  /** Before the table delivers anything the screen shows the empty list. */
  lemma StartsEmpty(toProduct: FavoriteEntity -> Product)
    ensures AllFavorites([], toProduct) == [[]]
  {
  }

  /** The snapshots a table delivers as it passes through `tables`. */
  ghost function Snapshots(tables: seq<map<int, FavoriteEntity>>): (r: seq<seq<FavoriteEntity>>)
    requires forall i :: 0 <= i < |tables| ==> PrimaryKey(tables[i])
    ensures |r| == |tables|
    ensures forall i :: 0 <= i < |tables| ==> r[i] == Snapshot(tables[i])
  {
    Lists.Map((t: map<int, FavoriteEntity>) requires PrimaryKey(t) => Snapshot(t), tables)
  }

  /** The list shown once the table has settled is the current table's
      snapshot as products: one per row, most recently saved first. */
  lemma ShowsCurrentTable(tables: seq<map<int, FavoriteEntity>>, toProduct: FavoriteEntity -> Product)
    requires tables != [] && forall i :: 0 <= i < |tables| ==> PrimaryKey(tables[i])
    ensures var shown := AllFavorites(Snapshots(tables), toProduct);
      && shown[|shown| - 1] == ProductsOf(Snapshot(tables[|tables| - 1]), toProduct)
      && |shown[|shown| - 1]| == |tables[|tables| - 1]|
  {
  }

  class FavoritesViewModel {
    const favoritesRepo: FavoritesRepository
    /** `FavoriteEntity.toProduct()`, which is not part of this model. */
    const toProduct: FavoriteEntity -> Product

    constructor (favoritesRepo: FavoritesRepository, toProduct: FavoriteEntity -> Product)
      ensures this.favoritesRepo == favoritesRepo && this.toProduct == toProduct
    {
      this.favoritesRepo := favoritesRepo;
      this.toProduct := toProduct;
    }

    /** `deleteFavorite(id)`: forwards exactly that id to the repository. */
    method DeleteFavorite(id: int, fault: Option<Fault>) returns (r: Outcome<Fault>)
      requires favoritesRepo.favoriteDao.Valid()
      modifies favoritesRepo.favoriteDao
      ensures favoritesRepo.favoriteDao.Valid()
      ensures favoritesRepo.favoriteDao.writes == old(favoritesRepo.favoriteDao.writes) + [Delete(id)]
      ensures fault.None? ==> r == Pass && favoritesRepo.favoriteDao.rows == old(favoritesRepo.favoriteDao.rows) - {id}
      ensures fault.Some? ==> r == Fail(fault.value) && favoritesRepo.favoriteDao.rows == old(favoritesRepo.favoriteDao.rows)
    {
      r := favoritesRepo.DeleteFavorite(id, fault);
    }
  }
}
