/** `UsersViewModel`: the user list screen's state holder. `LoadUsers` and
    `Refresh` both run the same load: spinner on and error cleared, then the
    fetched users, or the failure's message with the previous users kept.
    The user repository's answer is an input. */
module UserList {
  import opened Wrappers
  import opened Entities
  import opened Network

  datatype UserState = UserState(loading: bool, users: seq<User>, error: Option<string>)

  const InitialUserState: UserState := UserState(false, [], None)

  datatype UsersIntent = LoadUsers | Refresh

  /** The spinner and an error message are never shown together. */
  ghost predicate Consistent(s: UserState) {
    s.loading ==> s.error.None?
  }

  /** `_state.value = _state.value.copy(loading = true, error = null)` */
  function StartLoad(s: UserState): (t: UserState)
    ensures t.loading && t.error.None? && t.users == s.users
    ensures Consistent(t)
  {
    s.(loading := true, error := None)
  }

  /** The second assignment of a load; a throwing fetch aborts the success
      assignment before it happens, so only the error assignment follows. */
  function FinishLoad(s: UserState, fetched: Result<seq<User>, Fault>): (t: UserState)
    ensures !t.loading && Consistent(t)
    ensures fetched.Success? ==> t.users == fetched.value && t.error == s.error
    ensures fetched.Failure? ==> t.users == s.users && t.error == Some(ErrorText(fetched.error))
  {
    match fetched
    case Success(users) => s.(loading := false, users := users)
    case Failure(f) => s.(loading := false, error := Some(ErrorText(f)))
  }

  /** The state a whole load leaves behind. */
  function Load(s: UserState, fetched: Result<seq<User>, Fault>): (t: UserState)
    ensures fetched.Success? ==> t == UserState(false, fetched.value, None)
    ensures fetched.Failure? ==> t == UserState(false, s.users, Some(ErrorText(fetched.error)))
  {
    FinishLoad(StartLoad(s), fetched)
  }

  /** End to end, with the user repository of `NetworkRepositoryImpl` and either
      user mapper: a load shows the API's users mapped one by one, in order, or
      the API's message. */
  lemma ShowsMappedUsers(s: UserState, api: Result<seq<UserDto>, Fault>, toDomain: UserDto -> User)
    ensures api.Success? ==> var t := Load(s, GetUsers(api, toDomain));
      && |t.users| == |api.value|
      && (forall i :: 0 <= i < |api.value| ==> t.users[i] == toDomain(api.value[i]))
      && t.error == None
    ensures api.Failure? ==> Load(s, GetUsers(api, toDomain)) == UserState(false, s.users, Some(ErrorText(api.error)))
  {
  }

  /** Repeating a load with the same answer changes nothing: refreshing is
      idempotent, and a failed refresh keeps the list of a good one. */
  lemma RefreshIdempotent(s: UserState, fetched: Result<seq<User>, Fault>, f: Fault)
    ensures Load(Load(s, fetched), fetched) == Load(s, fetched)
    ensures fetched.Success? ==> Load(Load(s, fetched), Failure(f)).users == fetched.value
  {
  }

  class UsersViewModel {
    /** `_state.value` */
    var state: UserState
    /** Every value the state flow has taken, in order. */
    ghost var published: seq<UserState>

    ghost predicate Valid()
      reads this
    {
      && Consistent(state)
      && published != []
      && published[|published| - 1] == state
    }

    constructor ()
      ensures Valid() && state == InitialUserState && published == [InitialUserState]
    {
      state := InitialUserState;
      published := [InitialUserState];
    }

    /** `onUserIntent(intent)`: the contract does not mention the intent,
        so `LoadUsers` and `Refresh` have the same effect. */
    method OnUserIntent(intent: UsersIntent, fetched: Result<seq<User>, Fault>)
      requires Valid()
      modifies this
      ensures Valid()
      ensures state == Load(old(state), fetched)
      ensures published == old(published) + [StartLoad(old(state)), state]
    {
      match intent
      case LoadUsers =>
        LoadUsersFrom(fetched);
      case Refresh =>
        LoadUsersFrom(fetched);
    }

    /** `loadUsers()`: two successive assignments of the state. */
    method LoadUsersFrom(fetched: Result<seq<User>, Fault>)
      requires Valid()
      modifies this
      ensures Valid()
      ensures state == Load(old(state), fetched)
      ensures published == old(published) + [StartLoad(old(state)), state]
    {
      state := StartLoad(state);
      published := published + [state];
      state := FinishLoad(state, fetched);
      published := published + [state];
    }
  }
}
