/**
 * The credential store of js/auth.js as the source runs it: the two storage
 * keys are fields that the operations reassign. Each operation's new state
 * and reply are those of the matching function of module Auth.
 */
module Store {
  import opened Options
  import opened Text
  import opened Auth
  import opened AuthProperties

  class CredentialStore {
    /** The `sr_users` key. */
    var users: seq<User>
    /** The `sr_current` key; None when it is absent. */
    var current: Option<string>
    /** Whether `crypto.subtle` is present, and the digest it computes. */
    const digest: Digest

    function State(): Storage
      reads this
    {
      Storage(users, current)
    }

    /**
     * Opens the store over what storage holds. `stored` is None when
     * `sr_users` is absent or does not parse: `getUsers` reads that as [].
     */
    constructor (stored: Option<seq<User>>, storedCurrent: Option<string>, digest: Digest)
      ensures users == (if stored.Some? then stored.value else [])
      ensures current == storedCurrent
      ensures this.digest == digest
    {
      users := if stored.Some? then stored.value else [];
      current := storedCurrent;
      this.digest := digest;
    }

    /** `getCurrentUser` */
    function GetCurrentUser(): (r: Option<User>)
      reads this
      ensures current.None? || current == Some("") ==> r.None?
      ensures r.Some? ==> r.value in users && r.value.id == current.value
      ensures r.Some? ==> exists k :: FirstIdMatch(users, current.value, k) && r.value == users[k]
      ensures r.None? && current.Some? && current.value != "" ==>
        forall i :: 0 <= i < |users| ==> users[i].id != current.value
    {
      CurrentUserOf(State())
    }

    /** `registerUser` */
    method RegisterUser(name: string, email: string, password: string, now: nat) returns (r: Outcome)
      modifies this
      ensures Reply(State(), r) == RegisterSpec(old(State()), digest, name, email, password, now)
      ensures old(UniqueEmails(users)) ==> UniqueEmails(users)
    {
      if UniqueEmails(users) {
        RegisterPreservesUniqueEmails(State(), digest, name, email, password, now);
      }
      if email == [] || password == [] {
        return Failure(Validation);
      }
      if FindByEmail(users, email).Some? {
        return Failure(Duplicate);
      }
      var pwHash := HashPassword(digest, password);
      var id := UserId(now);
      users := users + [User(id, DisplayName(name, email), Lower(email), pwHash)];
      current := Some(id);
      r := Success(id);
    }

    /** `loginUser` */
    method LoginUser(email: string, password: string) returns (r: Outcome)
      modifies this
      ensures Reply(State(), r) == LoginSpec(old(State()), digest, email, password)
      ensures users == old(users)
    {
      if email == [] || password == [] {
        return Failure(Validation);
      }
      var found := FindByEmail(users, email);
      if found.None? {
        return Failure(NotFound);
      }
      var u := users[found.value];
      var pwHash := HashPassword(digest, password);
      if pwHash != u.passwordHash {
        return Failure(WrongPassword);
      }
      current := Some(u.id);
      r := Success(u.id);
    }

    /** `logout` */
    method Logout()
      modifies this
      ensures State() == LogoutSpec(old(State()))
      ensures users == old(users) && current == None
    {
      current := None;
    }
  }

  /** A client session: registering and then logging in again with the same credentials yields the same id. */
  method RegisterThenLoginSession(store: CredentialStore, name: string, email: string, password: string, now: nat)
      returns (registered: Outcome, loggedIn: Outcome)
    modifies store
    ensures registered.Success? <==>
      email != [] && password != [] &&
      forall i :: 0 <= i < |old(store.users)| ==> !EmailMatches(old(store.users)[i], email)
    ensures registered.Success? ==> loggedIn == registered && store.current == Some(registered.userId)
    ensures registered.Failure? ==> store.users == old(store.users)
  {
    registered := store.RegisterUser(name, email, password, now);
    if registered.Success? {
      RegisterThenLogin(old(store.State()), store.digest, name, email, password, now);
    }
    loggedIn := store.LoginUser(email, password);
  }
}
