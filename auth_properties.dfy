/**
 * Properties of the credential store that relate several operations or
 * whole sequences of records: the invariants registration keeps, and what
 * a login or a lookup right after a registration sees.
 */
module AuthProperties {
  import opened Options
  import opened Text
  import opened Auth

  /** A registration never lets two stored emails agree after lowering. */
  lemma RegisterPreservesUniqueEmails(st: Storage, digest: Digest, name: string, email: string, password: string, now: nat)
    requires UniqueEmails(st.users)
    ensures UniqueEmails(RegisterSpec(st, digest, name, email, password, now).next.users)
  {
    var out := RegisterSpec(st, digest, name, email, password, now);
    if out.outcome.Success? {
      var users, n := out.next.users, |st.users|;
      LowerIdempotent(email);
      forall i, j | 0 <= i < j < |users|
        ensures Lower(users[i].email) != Lower(users[j].email)
      {
        assert users[i] == users[..n][i];
        if j < n {
          assert users[j] == users[..n][j];
        } else {
          assert !EmailMatches(st.users[i], email);
        }
      }
    }
  }

  /** A registration whose clock reading gives an id not yet in the table keeps the ids distinct. */
  lemma RegisterPreservesUniqueIds(st: Storage, digest: Digest, name: string, email: string, password: string, now: nat)
    requires UniqueIds(st.users)
    requires forall i :: 0 <= i < |st.users| ==> st.users[i].id != UserId(now)
    ensures UniqueIds(RegisterSpec(st, digest, name, email, password, now).next.users)
  {
    var out := RegisterSpec(st, digest, name, email, password, now);
    if out.outcome.Success? {
      var users, n := out.next.users, |st.users|;
      forall i, j | 0 <= i < j < |users|
        ensures users[i].id != users[j].id
      {
        assert users[i] == users[..n][i];
        if j < n {
          assert users[j] == users[..n][j];
        }
      }
    }
  }

  /** Ids made from earlier clock readings never collide with the id of a later reading. */
  lemma LaterClockGivesFreshId(users: seq<User>, now: nat)
    requires forall i :: 0 <= i < |users| ==> exists t: nat :: t < now && users[i].id == UserId(t)
    ensures forall i :: 0 <= i < |users| ==> users[i].id != UserId(now)
  {
    forall i | 0 <= i < |users|
      ensures users[i].id != UserId(now)
    {
      var t: nat :| t < now && users[i].id == UserId(t);
      UserIdInjective(t, now);
    }
  }

  /** Registering and then logging in with the same credentials succeeds with the new id and changes nothing more. */
  lemma RegisterThenLogin(st: Storage, digest: Digest, name: string, email: string, password: string, now: nat)
    requires RegisterSpec(st, digest, name, email, password, now).outcome.Success?
    ensures var s1 := RegisterSpec(st, digest, name, email, password, now).next;
      LoginSpec(s1, digest, email, password) == Reply(s1, Success(UserId(now)))
  {
    var record := NewRecord(digest, name, email, password, now);
    RegisteredState(st, digest, name, email, password, now);
    LowerIdempotent(email);
    LoginLastRecord(st.users, record, Some(UserId(now)), digest, email, password);
  }

  /** Right after a registration with a fresh id, `getCurrentUser` gives the new record. */
  lemma RegisterThenCurrentUser(st: Storage, digest: Digest, name: string, email: string, password: string, now: nat)
    requires RegisterSpec(st, digest, name, email, password, now).outcome.Success?
    requires forall i :: 0 <= i < |st.users| ==> st.users[i].id != UserId(now)
    ensures CurrentUserOf(RegisterSpec(st, digest, name, email, password, now).next) ==
      Some(NewRecord(digest, name, email, password, now))
  {
    var record := NewRecord(digest, name, email, password, now);
    RegisteredState(st, digest, name, email, password, now);
    CurrentUserLastRecord(st.users, record);
  }

  /** Once an email is registered, registering it again in any letter case fails and keeps the table as it is. */
  lemma RegisterAgainIsDuplicate(st: Storage, digest: Digest, name: string, email: string, password: string, now: nat,
                                 name2: string, email2: string, password2: string, now2: nat)
    requires RegisterSpec(st, digest, name, email, password, now).outcome.Success?
    requires Lower(email2) == Lower(email) && password2 != []
    ensures var s1 := RegisterSpec(st, digest, name, email, password, now).next;
      RegisterSpec(s1, digest, name2, email2, password2, now2) == Reply(s1, Failure(Duplicate)) &&
      |s1.users| == |st.users| + 1
  {
    var s1 := RegisterSpec(st, digest, name, email, password, now).next;
    LowerIdempotent(email);
    assert EmailMatches(s1.users[|st.users|], email2);
  }

  /** After a registration, logging in under the same email in any case with a password of another digest fails. */
  lemma RegisterThenWrongPassword(st: Storage, digest: Digest, name: string, email: string, password: string, now: nat,
                                  email2: string, password2: string)
    requires RegisterSpec(st, digest, name, email, password, now).outcome.Success?
    requires Lower(email2) == Lower(email) && password2 != []
    requires PasswordDigest(digest, password2) != PasswordDigest(digest, password)
    ensures var s1 := RegisterSpec(st, digest, name, email, password, now).next;
      LoginSpec(s1, digest, email2, password2) == Reply(s1, Failure(WrongPassword))
  {
    var record := NewRecord(digest, name, email, password, now);
    RegisteredState(st, digest, name, email, password, now);
    LowerIdempotent(email);
    LoginLastRecord(st.users, record, Some(UserId(now)), digest, email2, password2);
  }

  /** After `logout`, `getCurrentUser` finds nobody, the table is untouched, and a second `logout` changes nothing. */
  lemma LogoutClearsCurrentUser(st: Storage)
    ensures CurrentUserOf(LogoutSpec(st)) == None
    ensures LogoutSpec(st).users == st.users
    ensures LogoutSpec(LogoutSpec(st)) == LogoutSpec(st)
  {
  }

  /** Example: "A@Test.com" with no name is stored as "a@test.com" under the name "A", and "a@test.com" is then taken. */
  lemma RegisterExample(digest: Digest, email: string, email2: string, now: nat, later: nat)
    requires email == "A@Test.com" && email2 == "a@test.com"
    ensures var out := RegisterSpec(Storage([], None), digest, "", email, "secret", now);
      && out.outcome == Success(UserId(now))
      && out.next.users == [User(UserId(now), "A", email2, PasswordDigest(digest, "secret"))]
      && RegisterSpec(out.next, digest, "", email2, "other", later).outcome == Failure(Duplicate)
  {
    EmailExample(email, email2);
    var record := User(UserId(now), "A", email2, PasswordDigest(digest, "secret"));
    assert NewRecord(digest, "", email, "secret", now) == record;
    RegisteredState(Storage([], None), digest, "", email, "secret", now);
    assert [] + [record] == [record];
    LowerIdempotent(email);
    assert EmailMatches(record, email2);
  }
}
