/** `FavoritesRepository`: a stateless façade whose every operation issues
    exactly one call on the favourites table with the same argument and hands
    back the table's answer, failures included. */
module Repository {
  import opened Wrappers
  import opened Entities
  import opened Store

  class FavoritesRepository {
    const favoriteDao: FavoriteDao

    constructor (favoriteDao: FavoriteDao)
      ensures this.favoriteDao == favoriteDao
    {
      this.favoriteDao := favoriteDao;
    }

    /** `getAllFavorites()`: the table's snapshot, in the table's order, or the
        table's failure unchanged. */
    ghost function GetAllFavorites(fault: Option<Fault>): (r: Result<seq<FavoriteEntity>, Fault>)
      reads favoriteDao
      requires favoriteDao.Valid()
      ensures r == favoriteDao.GetAllFavorites(fault)
      ensures fault.Some? ==> r == Failure(fault.value)
      ensures fault.None? ==> r.Success? && SnapshotOf(favoriteDao.rows, r.value)
    {
      favoriteDao.GetAllFavorites(fault)
    }

    /** `saveFavorite(favoriteItem)`: one `insertFavorite` with the identical entity. */
    method SaveFavorite(favoriteItem: FavoriteEntity, fault: Option<Fault>) returns (r: Outcome<Fault>)
      requires favoriteDao.Valid()
      modifies favoriteDao
      ensures favoriteDao.Valid()
      ensures favoriteDao.writes == old(favoriteDao.writes) + [Insert(favoriteItem)]
      ensures fault.None? ==> r == Pass && favoriteDao.rows == Upsert(old(favoriteDao.rows), favoriteItem)
      ensures fault.Some? ==> r == Fail(fault.value) && favoriteDao.rows == old(favoriteDao.rows)
    {
      r := favoriteDao.InsertFavorite(favoriteItem, fault);
    }

    /** `deleteFavorite(favoriteId)`: one `deleteFavorite` with the same id; an absent,
        zero or negative id completes without error and changes nothing. */
    method DeleteFavorite(favoriteId: int, fault: Option<Fault>) returns (r: Outcome<Fault>)
      requires favoriteDao.Valid()
      modifies favoriteDao
      ensures favoriteDao.Valid()
      ensures favoriteDao.writes == old(favoriteDao.writes) + [Delete(favoriteId)]
      ensures fault.None? ==> r == Pass && favoriteDao.rows == old(favoriteDao.rows) - {favoriteId}
      ensures fault.None? && favoriteId !in old(favoriteDao.rows) ==> favoriteDao.rows == old(favoriteDao.rows)
      ensures fault.Some? ==> r == Fail(fault.value) && favoriteDao.rows == old(favoriteDao.rows)
    {
      r := favoriteDao.DeleteFavorite(favoriteId, fault);
    }
  }

  /** Observing the favourites after an insertion: on an empty table, one
      committed save issues exactly one insert of that entity, and the next
      snapshot is exactly that entity. */
  method ObserveAfterInsertion(repo: FavoritesRepository, favorite: FavoriteEntity)
    requires repo.favoriteDao.Valid() && repo.favoriteDao.rows == EmptyTable
    modifies repo.favoriteDao
    ensures repo.favoriteDao.Valid()
    ensures repo.favoriteDao.writes == old(repo.favoriteDao.writes) + [Insert(favorite)]
    ensures repo.GetAllFavorites(None) == Success([favorite])
  {
    var r := repo.SaveFavorite(favorite, None);
    ghost var snap := repo.GetAllFavorites(None);
    assert favorite in snap.value && |snap.value| == 1;
    assert snap.value == [favorite];
  }

  /** Observing the favourites after a deletion: of two saved rows, deleting the
      second issues exactly one delete with its id and leaves a snapshot holding
      just the first. */
  method ObserveAfterDeletion(repo: FavoritesRepository, first: FavoriteEntity, second: FavoriteEntity)
    requires repo.favoriteDao.Valid() && repo.favoriteDao.rows == EmptyTable
    requires first.id != second.id
    modifies repo.favoriteDao
    ensures repo.favoriteDao.Valid()
    ensures repo.favoriteDao.writes == old(repo.favoriteDao.writes) + [Insert(first), Insert(second), Delete(second.id)]
    ensures repo.GetAllFavorites(None) == Success([first])
  {
    var r := repo.SaveFavorite(first, None);
    r := repo.SaveFavorite(second, None);
    assert repo.favoriteDao.rows == map[first.id := first, second.id := second];
    r := repo.DeleteFavorite(second.id, None);
    assert repo.favoriteDao.rows == map[first.id := first];
    ghost var snap := repo.GetAllFavorites(None);
    assert first in snap.value && |snap.value| == 1;
    assert snap.value == [first];
  }
}
