# ShopEasy core, modelled in Dafny

ShopEasy is an Android shop front. This project models the layer under its
screens:

- **The favourites table and its DAO** (`FavoriteDao`). The table is a map from primary key to row. The snapshot query gives every row exactly once, most recently saved first. Insert replaces on conflict, delete is by id, and `favoriteExists` counts the rows.
- **The favourites repository** (`FavoritesRepository`). It forwards each call to the DAO with the same argument.
- **The network repository** (`NetworkRepositoryImpl`) and the mappers of `MapperExtenstion.kt`. They turn the API's transport records into domain records.
- **The four view models.**
  - The product list, product details and user list view models are classes whose fields are the state flow's current value and, for the product screens, the effects emitted. A ghost log records every value the state flow took.
  - The favourites view model is a class holding only its repository and the `toProduct` mapper. Its state flow is the pure function `FavoriteList.AllFavorites` over the snapshots delivered so far.
  - The product list, product details and user list view models run a two-step load: spinner on, then either the result or the error.
  - Adding a favourite saves the row and then emits one "Added to favorites" toast.
  - The favourites view model exposes the table's snapshots as products, drops repeated lists, and starts from an empty list.

## How effects appear in the model

Storage, network, clock and threads are not part of the model. They appear as inputs instead:

- **Storage statements.** Each SQL statement takes `fault: Option<Fault>`: `None` when it commits, `Some(f)` when the engine throws `f`.
- **API calls.** Each answer is a `Result<_, Fault>`. For `getProduct` it is a function from id to answer, so the model can state that exactly the requested id is asked for.
- **The DAO's write log.** A ghost `writes` field records every write statement issued. The repository and view-model contracts use it to state that exactly one store call is made, with exactly the given argument.
- **The external mappers.** `Product.toFavoriteEntity()` and `FavoriteEntity.toProduct()` are not part of this model: their source is not shown. Each view model receives them as a function-typed constant.
- **The clock.** Each save takes the clock reading `now`, which becomes the saved row's `savedAt`.
- **State flow values.** A `StateFlow` does not emit a value equal to the current one, so `stateIn(initial)` is modelled as "distinct until changed" applied to the initial value followed by the upstream values.

## Model

| member | source | states |
|---|---|---|
| Entities.ErrorText | app/src/main/java/com/service/shopeasy/ui/viewmodel/ProductsViewModel.kt:65-71 | The stored error is the exception's message when there is one, and "Unknown error" otherwise. |
| Entities.FavoriteRow | app/src/main/java/com/service/shopeasy/data/local/entity/FavoriteEntity.kt:14 | The saved row's savedAt is the clock reading at the save. Every other field (id, title, image, price, description, category) is the mapper's. |
| Lists.Map | app/src/main/java/com/service/shopeasy/data/repository/impl/NetworkRepositoryImpl.kt:13-14 | The list is mapped elementwise: same length, and element i is f of input element i. |
| Lists.MapAppend | app/src/main/java/com/service/shopeasy/data/repository/impl/NetworkRepositoryImpl.kt:13-14 | Mapping a concatenation gives the concatenation of the mapped parts. |
| Flows.DistinctUntilChanged | app/src/main/java/com/service/shopeasy/ui/viewmodel/FavoritesViewModel.kt:19 | No two adjacent outputs are equal. The output is empty exactly when the input is, keeps the input's first and last values, is no longer than the input, and holds only input values. Its full characterization is `Flows.DistinctUntilChangedRuns`. |
| Flows.DistinctUntilChangedRuns | app/src/main/java/com/service/shopeasy/ui/viewmodel/FavoritesViewModel.kt:19 | The output holds one value per run of equal neighbours, in order. Input position i's value is at output position RunIndex(i), the number of changes up to i. The output has exactly one more value than the input has changes. |
| Flows.RunsOfUnique | app/src/main/java/com/service/shopeasy/ui/viewmodel/FavoritesViewModel.kt:19 | That run characterization determines the output: any two sequences meeting it are equal. |
| Flows.RunsOfPassesChanges | app/src/main/java/com/service/shopeasy/ui/viewmodel/FavoritesViewModel.kt:19 | In any sequence of runs, a change between neighbouring inputs appears as neighbouring values. |
| Flows.DistinctUntilChangedPassesChanges | app/src/main/java/com/service/shopeasy/ui/viewmodel/FavoritesViewModel.kt:19 | Only repeats are dropped: every change between neighbouring upstream values reaches the output as neighbouring values. |
| Flows.DistinctUntilChangedSnoc | app/src/main/java/com/service/shopeasy/ui/viewmodel/FavoritesViewModel.kt:19 | Appending a value grows the output by that value exactly when it differs from the last upstream value. |
| Flows.DistinctUntilChangedAbsorbed | app/src/main/java/com/service/shopeasy/ui/viewmodel/FavoritesViewModel.kt:19-20 | Dropping repeats of the tail first, then of the whole flow, gives the same as dropping repeats of the whole flow once. |
| Flows.DistinctUntilChangedKeeps | app/src/main/java/com/service/shopeasy/ui/viewmodel/FavoritesViewModel.kt:19 | A stream with no adjacent repeats passes through unchanged. |
| Flows.DistinctUntilChangedIdempotent | app/src/main/java/com/service/shopeasy/ui/viewmodel/FavoritesViewModel.kt:19 | Applying the operator twice is the same as applying it once. |
| Flows.StateIn | app/src/main/java/com/service/shopeasy/ui/viewmodel/FavoritesViewModel.kt:20 | The state flow takes one value per run of equal neighbours in the initial value followed by the upstream values, in order, so every upstream change becomes a value of the state flow. The first value is the initial one and the last is the latest upstream value (or the initial one if upstream is empty). No two adjacent values are equal, and every value is the initial one or an upstream one. |
| Mapper.ProductToDomain | app/src/main/java/com/service/shopeasy/domain/mapper/MapperExtenstion.kt:14-22 | Each of the six fields is copied from the transport product unchanged. |
| Mapper.ProductToDomainLossless | app/src/main/java/com/service/shopeasy/domain/mapper/MapperExtenstion.kt:14-22 | Every field of the transport product can be read back from the domain product. |
| Mapper.ProductToDomainInjective | app/src/main/java/com/service/shopeasy/domain/mapper/MapperExtenstion.kt:14-22 | Distinct transport products map to distinct domain products. |
| Mapper.JoinName | app/src/main/java/com/service/shopeasy/domain/mapper/MapperExtenstion.kt:10 | The display name is the first part, one space, then the second part. |
| Mapper.JoinNameInjective | app/src/main/java/com/service/shopeasy/domain/mapper/MapperExtenstion.kt:10 | When the first names hold no space, the joined name determines both parts. |
| Mapper.UserToDomainAsWritten | app/src/main/java/com/service/shopeasy/domain/mapper/MapperExtenstion.kt:8-12 | As written: the id and email are copied, and each absent part of the name renders as "null", so an absent name object gives "null null". |
| Mapper.AsWrittenRendersNullPlaceholder | app/src/main/java/com/service/shopeasy/domain/mapper/MapperExtenstion.kt:8-12 | As written, user 3 with a null name and email gets the name "null null" (not empty) and a null email. |
| Mapper.UserToDomain | app/src/main/java/com/service/shopeasy/domain/mapper/MapperExtenstion.kt:8-12 | Intended mapping: the id is copied. The name is first and last name joined by one space, an absent part counting as empty; an absent name object gives the empty name. An absent email becomes the empty email. |
| Mapper.UserMappersAgreeWhenPresent | app/src/main/java/com/service/shopeasy/domain/mapper/MapperExtenstion.kt:8-12 | When every part is present, the intended and written mappings give the same user. |
| Mapper.UserNameJoinExample | app/src/test/java/com/service/shopeasy/data/dao/UserDtoTest.kt:12-25 | "Jhon" and "Smith" map to the name "Jhon Smith". |
| Mapper.UserToDomainNullsAreEmpty | app/src/test/java/com/service/shopeasy/data/repository/UserRepositoryTest.kt:149-169 | A user with a null name object and a null email gets an empty name and an empty email. |
| Network.GetUsers | app/src/main/java/com/service/shopeasy/data/repository/impl/NetworkRepositoryImpl.kt:13 | The API's exception reaches the caller unchanged. Otherwise the result has one user per transport record, each mapped in order by the given user mapper. The mapper is a parameter: `Mapper.UserToDomainAsWritten` is what the source calls, and `Mapper.UserToDomain` is the corrected one. |
| Network.GetProducts | app/src/main/java/com/service/shopeasy/data/repository/impl/NetworkRepositoryImpl.kt:14 | The API's exception reaches the caller unchanged. Otherwise the result has one product per transport record, each mapped, in order. |
| Network.GetProduct | app/src/main/java/com/service/shopeasy/data/repository/impl/NetworkRepositoryImpl.kt:15 | The API is asked for exactly the given id. Its exception reaches the caller unchanged; otherwise its record is returned mapped, with the same id and title. |
| Network.EmptyAnswers | app/src/main/java/com/service/shopeasy/data/repository/impl/NetworkRepositoryImpl.kt:13-14 | An empty answer gives an empty list. |
| Network.NotFoundPropagates | app/src/main/java/com/service/shopeasy/data/repository/impl/NetworkRepositoryImpl.kt:13-14 | An HTTP 404 reaches the caller with its status code intact. |
| Network.ListAndItemAgree | app/src/main/java/com/service/shopeasy/data/repository/impl/NetworkRepositoryImpl.kt:14-15 | When the single-product endpoint returns a record the list also holds, both endpoints give the same domain product. |
| Network.GetUsersAppend | app/src/main/java/com/service/shopeasy/data/repository/impl/NetworkRepositoryImpl.kt:13 | Users are mapped independently, whatever the mapper: mapping a concatenation concatenates the results. |
| Network.NullUserThroughRepository | app/src/test/java/com/service/shopeasy/data/repository/UserRepositoryTest.kt:149-169 | For the three users of this test, the as-written mapper names the third "null null" with a null email. The corrected mapper gives an empty name and email. Both give "user 1" for the first user. |
| Store.LatestExists | app/src/main/java/com/service/shopeasy/data/local/dao/FavoriteDao.kt:12-13 | A non-empty table has a most recently saved row. |
| Store.SnapshotOfCons | app/src/main/java/com/service/shopeasy/data/local/dao/FavoriteDao.kt:12-13 | A most recently saved row followed by an ordered snapshot of the other rows is an ordered snapshot of the table. |
| Store.Snapshot | app/src/main/java/com/service/shopeasy/data/local/dao/FavoriteDao.kt:12-13 | The query's answer holds every row exactly once and nothing else, ordered by savedAt, most recent first. |
| Store.SnapshotOfTail | app/src/main/java/com/service/shopeasy/data/local/dao/FavoriteDao.kt:12-13 | Dropping the first row of a snapshot leaves a snapshot of the remaining table. |
| Store.SnapshotHeadIsLatest | app/src/main/java/com/service/shopeasy/data/local/dao/FavoriteDao.kt:12-13 | The first row of a snapshot is a most recently saved row. |
| Store.SnapshotUnique | app/src/main/java/com/service/shopeasy/data/local/dao/FavoriteDao.kt:12-13 | When no two rows share a savedAt, the ordered answer is unique. |
| Store.Upsert | app/src/main/java/com/service/shopeasy/data/local/dao/FavoriteDao.kt:15-16 | Insert-or-replace keeps the primary key. The id's row becomes the entity, and every other row is unchanged. |
| Store.UpsertAll | app/src/main/java/com/service/shopeasy/data/local/dao/FavoriteDao.kt:15-16 | Successive inserts keep the primary key. |
| Store.UpsertAllDistinct | app/src/main/java/com/service/shopeasy/data/local/dao/FavoriteDao.kt:15-16 | Inserting entities with distinct new ids adds exactly one row per entity and keeps the existing rows. |
| Store.SnapshotAfterUpsert | app/src/main/java/com/service/shopeasy/data/local/dao/FavoriteDao.kt:15-16 | After an insert, the snapshot holds the entity as given. The row count grows by one exactly when the id was new. The rows with other ids are exactly those of the old snapshot. |
| Store.NewestSaveComesFirst | app/src/main/java/com/service/shopeasy/data/local/dao/FavoriteDao.kt:12-16 | A row saved later than every row in the table comes first in the next snapshot, whether its id was new or already present. |
| Store.SnapshotAfterDeleteAt | app/src/main/java/com/service/shopeasy/data/local/dao/FavoriteDao.kt:18-19 | A row is in the snapshot after a delete exactly when it was in it before and its id differs. |
| Store.SnapshotAfterDelete | app/src/main/java/com/service/shopeasy/data/local/dao/FavoriteDao.kt:18-19 | After a delete, the snapshot holds exactly the old rows whose id differs. The count drops by one for a present id and is unchanged otherwise. |
| Store.EmptyTableSnapshot | app/src/androidTest/java/com/service/shopeasy/data/local/dao/FavoriteDaoTest.kt:46-52 | A fresh table's snapshot is empty. |
| Store.UpsertThree | app/src/androidTest/java/com/service/shopeasy/data/local/dao/FavoriteDaoTest.kt:72-74 | Three inserts with distinct ids give a table of exactly those three rows. |
| Store.ThreeRowSnapshot | app/src/main/java/com/service/shopeasy/data/local/dao/FavoriteDao.kt:12-13 | Three rows with savedAt strictly decreasing are snapshotted in that order. |
| Store.OrdersBySavedAtDescending | app/src/androidTest/java/com/service/shopeasy/data/local/dao/FavoriteDaoTest.kt:67-83 | Ids 1, 2 and 3, saved at 1000, 5000 and 3000, are listed as 2, 3, 1. |
| Store.ReplaceKeepsOneRow | app/src/androidTest/java/com/service/shopeasy/data/local/dao/FavoriteDaoTest.kt:86-101 | A second insert under the same id leaves one row, carrying the new fields. |
| Store.FavoriteDao.constructor | app/src/main/java/com/service/shopeasy/data/local/dao/FavoriteDao.kt:11-13 | A new table is empty, and its query answers the empty list. |
| Store.FavoriteDao.GetAllFavorites | app/src/main/java/com/service/shopeasy/data/local/dao/FavoriteDao.kt:12-13 | The query answers an ordered snapshot of the current rows, or the fault the engine throws. |
| Store.FavoriteDao.InsertFavorite | app/src/main/java/com/service/shopeasy/data/local/dao/FavoriteDao.kt:15-16 | One insert is issued. If it commits, the rows become the insert-or-replace of the entity; if it fails, the rows are unchanged and the fault is reported. |
| Store.FavoriteDao.DeleteFavorite | app/src/main/java/com/service/shopeasy/data/local/dao/FavoriteDao.kt:18-19 | One delete is issued. If it commits, exactly that id's row is removed, and an absent id leaves the table unchanged without error. If it fails, the rows are unchanged. |
| Store.FavoriteDao.FavoriteExists | app/src/main/java/com/service/shopeasy/data/local/dao/FavoriteDao.kt:21-22 | The count of rows with the id is 1 exactly when the id is present and 0 exactly when it is absent. |
| Repository.FavoritesRepository.constructor | app/src/main/java/com/service/shopeasy/data/repository/FavoritesRepository.kt:10 | The repository wraps exactly the given DAO. |
| Repository.FavoritesRepository.GetAllFavorites | app/src/main/java/com/service/shopeasy/data/repository/FavoritesRepository.kt:11 | The repository answers exactly the DAO's snapshot or the DAO's fault. |
| Repository.FavoritesRepository.SaveFavorite | app/src/main/java/com/service/shopeasy/data/repository/FavoritesRepository.kt:12 | Exactly one DAO insert is issued, with the same entity. The rows and the outcome are the DAO's. |
| Repository.FavoritesRepository.DeleteFavorite | app/src/main/java/com/service/shopeasy/data/repository/FavoritesRepository.kt:13 | Exactly one DAO delete is issued, with the same id. The rows and the outcome are the DAO's. |
| Repository.ObserveAfterInsertion | app/src/test/java/com/service/shopeasy/data/repository/FavoritesRepositoryTest.kt:88-126 | On an empty table, one committed save issues exactly one insert of the entity, and the next snapshot is exactly that entity. |
| Repository.ObserveAfterDeletion | app/src/test/java/com/service/shopeasy/data/repository/FavoritesRepositoryTest.kt:128-165 | Of two saved rows, deleting the second issues exactly one delete with its id, and the snapshot holds just the first. |
| ProductList.StartLoad | app/src/main/java/com/service/shopeasy/ui/viewmodel/ProductsViewModel.kt:57-59 | Starting a load turns the spinner on and clears the error, keeping the list. |
| ProductList.FinishLoad | app/src/main/java/com/service/shopeasy/ui/viewmodel/ProductsViewModel.kt:60-72 | The spinner goes off. Success replaces the list. Failure keeps the stale list and stores the error text. |
| ProductList.Load | app/src/main/java/com/service/shopeasy/ui/viewmodel/ProductsViewModel.kt:51-73 | A whole load ends in one of two states: not loading with the fetched list and no error, or not loading with the old list and the error text. |
| ProductList.RetryAfterFailure | app/src/main/java/com/service/shopeasy/ui/viewmodel/ProductsViewModel.kt:51-73 | A failed load keeps the list. A later successful load shows the new list and no error. |
| ProductList.ShowsMappedProducts | app/src/main/java/com/service/shopeasy/ui/viewmodel/ProductsViewModel.kt:60-64 | Combined with the network repository, a load shows the API's products mapped one by one, or the stale list beside the API's message. |
| ProductList.RefavouriteComesFirst | app/src/main/java/com/service/shopeasy/ui/viewmodel/ProductsViewModel.kt:75-76 | Favouriting a product again at a later clock reading puts its row at the top of the favourites snapshot, carrying that reading. |
| ProductList.ProductsViewModel.constructor | app/src/main/java/com/service/shopeasy/ui/viewmodel/ProductsViewModel.kt:37-41 | The initial state is not loading, with an empty list and no error. No effects have been emitted. |
| ProductList.ProductsViewModel.OnProductListIntent | app/src/main/java/com/service/shopeasy/ui/viewmodel/ProductsViewModel.kt:44-49 | LoadProducts runs a load and touches no favourite and no effect. AddToFavorites saves the product's row, stamped with the clock reading `now`, and toasts only after the save commits. |
| ProductList.ProductsViewModel.LoadProducts | app/src/main/java/com/service/shopeasy/ui/viewmodel/ProductsViewModel.kt:51-73 | The state flow takes exactly two values: the loading state, then the load's result. |
| ProductList.ProductsViewModel.AddFavorite | app/src/main/java/com/service/shopeasy/ui/viewmodel/ProductsViewModel.kt:75-78 | Exactly one save of the product's row, with savedAt the clock reading `now`, is issued. If it commits, one "Added to favorites" toast follows; if it fails, no toast is emitted. |
| ProductDetails.StartLoad | app/src/main/java/com/service/shopeasy/ui/viewmodel/ProductViewDetailsViewModel.kt:52-54 | Starting a load turns the spinner on and clears the error, keeping the product shown. |
| ProductDetails.FinishLoad | app/src/main/java/com/service/shopeasy/ui/viewmodel/ProductViewDetailsViewModel.kt:55-63 | The spinner goes off. Success shows the fetched product. Failure keeps the product shown and stores the error text. |
| ProductDetails.Load | app/src/main/java/com/service/shopeasy/ui/viewmodel/ProductViewDetailsViewModel.kt:51-64 | A whole load of an id shows that id's product with no error, or keeps the old product and stores the error text. |
| ProductDetails.ShowsRequestedProduct | app/src/main/java/com/service/shopeasy/ui/viewmodel/ProductViewDetailsViewModel.kt:56-58 | Combined with the network repository, a load shows the API's record for exactly the requested id, mapped to the domain. |
| ProductDetails.FailureKeepsShownProduct | app/src/main/java/com/service/shopeasy/ui/viewmodel/ProductViewDetailsViewModel.kt:59-63 | A failed load after a good one keeps the good product on screen and adds an error. |
| ProductDetails.ProductViewDetailsViewModel.constructor | app/src/main/java/com/service/shopeasy/ui/viewmodel/ProductViewDetailsViewModel.kt:37-41 | The initial state is not loading, with no product and no error. No effects have been emitted. |
| ProductDetails.ProductViewDetailsViewModel.OnProductDetailsIntent | app/src/main/java/com/service/shopeasy/ui/viewmodel/ProductViewDetailsViewModel.kt:44-49 | Each intent is dispatched to its operation with its own argument. Neither operation touches what the other changes. |
| ProductDetails.ProductViewDetailsViewModel.LoadDetails | app/src/main/java/com/service/shopeasy/ui/viewmodel/ProductViewDetailsViewModel.kt:51-64 | The state flow takes exactly two values: the loading state, then the result of loading that id. |
| ProductDetails.ProductViewDetailsViewModel.AddToFavoritesFor | app/src/main/java/com/service/shopeasy/ui/viewmodel/ProductViewDetailsViewModel.kt:66-69 | Exactly one save of the product's row, with savedAt the clock reading `now`, is issued. If it commits, one toast follows; if it fails, no toast is emitted. |
| UserList.StartLoad | app/src/main/java/com/service/shopeasy/ui/viewmodel/UsersViewModel.kt:38 | Starting a load turns the spinner on and clears the error, keeping the users. |
| UserList.FinishLoad | app/src/main/java/com/service/shopeasy/ui/viewmodel/UsersViewModel.kt:39-43 | The spinner goes off. Success shows the fetched users. Failure keeps the users and stores the message or "Unknown error". |
| UserList.Load | app/src/main/java/com/service/shopeasy/ui/viewmodel/UsersViewModel.kt:37-44 | A whole load ends with the fetched users and no error, or with the old users and the error text. |
| UserList.ShowsMappedUsers | app/src/main/java/com/service/shopeasy/ui/viewmodel/UsersViewModel.kt:40 | Combined with the network repository, with either user mapper, a load shows the API's users mapped one by one, in order, or the API's message. |
| UserList.RefreshIdempotent | app/src/main/java/com/service/shopeasy/ui/viewmodel/UsersViewModel.kt:29-35 | Refreshing with the same answer changes nothing. A failed refresh keeps the users of a good load. |
| UserList.UsersViewModel.constructor | app/src/main/java/com/service/shopeasy/ui/viewmodel/UsersViewModel.kt:26 | The initial state is not loading, with no users and no error. |
| UserList.UsersViewModel.OnUserIntent | app/src/main/java/com/service/shopeasy/ui/viewmodel/UsersViewModel.kt:29-35 | LoadUsers and Refresh have the same effect: one load. |
| UserList.UsersViewModel.LoadUsersFrom | app/src/main/java/com/service/shopeasy/ui/viewmodel/UsersViewModel.kt:37-44 | The state takes exactly two values: the loading state, then the load's result. |
| FavoriteList.AllFavorites | app/src/main/java/com/service/shopeasy/ui/viewmodel/FavoritesViewModel.kt:18-20 | The screen shows one list per run of equal lists in the empty list followed by the mapped snapshots, in order. So no change is lost and only repeats are dropped. The screen first shows the empty list, and never the same list twice in a row. Every list shown is empty or some snapshot mapped to products. Once the table settles, the last list shown is the latest snapshot mapped. |
| FavoriteList.ProductsOf | app/src/main/java/com/service/shopeasy/ui/viewmodel/FavoritesViewModel.kt:18 | A displayed list has one product per snapshot row, in the snapshot's order. |
| FavoriteList.MappedSnapshots | app/src/main/java/com/service/shopeasy/ui/viewmodel/FavoritesViewModel.kt:18 | Every delivered snapshot, in order, becomes its list of products. |
| FavoriteList.DistinctBeforeStateInRedundant | app/src/main/java/com/service/shopeasy/ui/viewmodel/FavoritesViewModel.kt:19-20 | A state flow already drops repeats, so the distinctUntilChanged stage before stateIn changes nothing the screen sees. |
| FavoriteList.FavoritesChangesReachScreen | app/src/main/java/com/service/shopeasy/ui/viewmodel/FavoritesViewModel.kt:18-20 | When a delivered snapshot maps to a different list from the one before (the empty list before the first), the screen shows the earlier list and then the new one, one after the other. |
| FavoriteList.FavoritesCount | app/src/main/java/com/service/shopeasy/ui/viewmodel/FavoritesViewModel.kt:18-20 | The screen shows exactly one more list than the number of deliveries whose list differs from the one before. |
| FavoriteList.StartsEmpty | app/src/main/java/com/service/shopeasy/ui/viewmodel/FavoritesViewModel.kt:20 | Before the table delivers anything, the screen shows only the empty list. |
| FavoriteList.Snapshots | app/src/main/java/com/service/shopeasy/data/local/dao/FavoriteDao.kt:12-13 | As the table passes through a series of states, the query delivers one snapshot per state. |
| FavoriteList.ShowsCurrentTable | app/src/main/java/com/service/shopeasy/ui/viewmodel/FavoritesViewModel.kt:18-20 | The last list shown is the current table's ordered snapshot as products, one per row. |
| FavoriteList.FavoritesViewModel.constructor | app/src/main/java/com/service/shopeasy/ui/viewmodel/FavoritesViewModel.kt:16 | The view model holds exactly the given repository. |
| FavoriteList.FavoritesViewModel.DeleteFavorite | app/src/main/java/com/service/shopeasy/ui/viewmodel/FavoritesViewModel.kt:22-24 | Exactly one delete is issued, with the same id. If it commits, exactly that row goes. |

## Left out

- **Concurrency.** `viewModelScope.launch`, coroutine interleaving and `MutableStateFlow.update`'s compare-and-set retry are not modelled. Each launched block runs to completion, in call order, and an update's lambda runs once.
- **Lost effects.** `MutableSharedFlow.emit` hands each effect to the current collectors; an effect emitted with no collector is lost. The model records every emitted effect in order.
- **The Room `Flow`.** Its re-emission on table changes is modelled as the sequence of snapshots of successive table states (`FavoriteList.Snapshots`). Cancellation and timing are not modelled.
- **The clock.** The clock is an input: each save takes the reading `now`. `Product.toFavoriteEntity()` is assumed to leave `savedAt` at its default, the current time; its source is not shown. So `Entities.FavoriteRow` stamps the mapper's row with `now`. Rows given directly to the DAO and the repository carry the savedAt their caller gives them.
- **The unshown mappers.** `toFavoriteEntity` and `toProduct` are not part of this model; they are parameters, as described above.
- **Uncaught save failures.** The model reports a failed save as an outcome. In the app that failure is an uncaught exception in `viewModelScope`, and the model does not capture what that does to the app.
- **Failing snapshot queries.** The Room flow behind `allFavorites` ends when the snapshot query throws. `stateIn` then keeps the last list shown. The model covers this by passing `FavoriteList.AllFavorites` only the snapshots delivered before the fault. The uncaught exception in `viewModelScope` itself is not modelled.
- **Exception classes.** The user list catches `Throwable` and reads `message`. The product screens catch `Exception` and read `localizedMessage`. Both are modelled as one `Fault` with an optional message, so the model does not tell an `Error` apart from an `Exception`.
- Store.FavoriteDao.FavoriteExists: does not model a storage fault. Nothing in the core calls it.
- **Numbers.** `Double` prices are `real`, because they are only copied and compared, never computed on. The widths of `Int` ids and `Long` timestamps are not modelled, because they are only compared.
- **Ordering of ties.** The order among rows with equal savedAt is left unspecified, as in SQL. `Store.SnapshotUnique` pins the order down only when savedAt values are distinct.
- **Outside the core.** The Retrofit and Moshi decoding, the Hilt wiring, navigation and the Compose screens are not part of this model.

## Findings

`UserDto.toDomain()` builds the display name as `"${name.firstname} ${name.lastname}"`. `name` is nullable in `UserDto`, so as written the expression does not compile. The model reads it as the safe call `name?.firstname`: an absent part renders as "null", and an absent name object gives "null null". The tests instead expect an empty name and email for such a user.

| source | as written | input that shows it | evidently intended | confidence | as-written member | corrected member |
|---|---|---|---|---|---|---|
| app/src/main/java/com/service/shopeasy/domain/mapper/MapperExtenstion.kt:8-12 | A null name object renders as "null null", and a null email stays null. | `UserDto(3, "user 3", null, null)` | An empty name and an empty email, as UserRepositoryTest.kt:164-165 expects | not executed | Mapper.UserToDomainAsWritten, Mapper.AsWrittenRendersNullPlaceholder | Mapper.UserToDomain, Mapper.UserToDomainNullsAreEmpty |

The corrected mapper's output when the name object is present but a part is absent is a choice of this model, not evidenced by any test. A missing part counts as empty, so `NameDto("user", null)` gives "user " with a trailing space and `NameDto(null, null)` gives " ". UserRepositoryTest.kt:164-165 covers only a null name object.

`Network.GetUsers` takes the user mapper as a parameter, so the repository can be taken with either mapper. `Network.NullUserThroughRepository` shows the difference on that test's users. The view-model lemmas hold for either mapper.
