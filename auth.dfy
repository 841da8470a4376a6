/**
 * The credential store of js/auth.js as values: the user table kept under the
 * storage key `sr_users`, the current-user id kept under `sr_current`, and
 * one function per operation giving the reply and the state it leaves.
 * The class in module Store runs the same operations on mutable fields.
 */
module Auth {
  import opened Options
  import opened HexCodec
  import opened Text

  /** One record of the `sr_users` table. */
  datatype User = User(id: string, name: string, email: string, passwordHash: string)

  /** The four failure messages of `registerUser` and `loginUser`. */
  datatype Error = Validation | Duplicate | NotFound | WrongPassword

  /** `{success, message, userId}`, with the message reduced to its kind. */
  datatype Outcome = Success(userId: string) | Failure(error: Error)

  /** The two storage keys: `sr_users` and `sr_current` (None when the key is absent). */
  datatype Storage = Storage(users: seq<User>, current: Option<string>)

  /** The state an operation leaves behind and what it returns. */
  datatype Reply = Reply(next: Storage, outcome: Outcome)

  /**
   * What `window.crypto.subtle` offers: None when the environment has no
   * `crypto.subtle`; otherwise the SHA-256 digest of the UTF-8 encoding of a
   * password, as a byte sequence.
   */
  type Digest = Option<string -> seq<byte>>

  /** `Array.prototype.find`, reporting the index of the first element that satisfies `p`. */
  function Find<T>(s: seq<T>, p: T -> bool): (r: Option<nat>)
    ensures r.Some? ==> r.value < |s| && p(s[r.value])
    ensures r.Some? ==> forall j :: 0 <= j < r.value ==> !p(s[j])
    ensures r.None? <==> forall j :: 0 <= j < |s| ==> !p(s[j])
  {
    if s == [] then None
    else if p(s[0]) then Some(0)
    else
      match Find(s[1..], p)
      case None => None
      case Some(k) => Some(k + 1)
  }

  /** The record's email equals the given one once both are lowered. */
  predicate EmailMatches(u: User, email: string): (b: bool)
    ensures b <==>
      && |u.email| == |email|
      && forall i :: 0 <= i < |email| ==> LowerChar(u.email[i]) == LowerChar(email[i])
  {
    Lower(u.email) == Lower(email)
  }

  /** Record k is the first one whose email matches case-insensitively. */
  predicate FirstEmailMatch(users: seq<User>, email: string, k: int) {
    0 <= k < |users| && EmailMatches(users[k], email) &&
    forall j :: 0 <= j < k ==> !EmailMatches(users[j], email)
  }

  /** Record k is the first one with the given id. */
  predicate FirstIdMatch(users: seq<User>, id: string, k: int) {
    0 <= k < |users| && users[k].id == id &&
    forall j :: 0 <= j < k ==> users[j].id != id
  }

  /** The `find` of registration and login: the first record whose email matches case-insensitively. */
  function FindByEmail(users: seq<User>, email: string): (r: Option<nat>)
    ensures r.Some? ==> FirstEmailMatch(users, email, r.value)
    ensures r.None? <==> forall j :: 0 <= j < |users| ==> !EmailMatches(users[j], email)
  {
    Find(users, (u: User) => EmailMatches(u, email))
  }

  /** The `find` of `getCurrentUser`: the first record with the given id. */
  function FindById(users: seq<User>, id: string): (r: Option<nat>)
    ensures r.Some? ==> FirstIdMatch(users, id, r.value)
    ensures r.None? <==> forall j :: 0 <= j < |users| ==> users[j].id != id
  {
    Find(users, (u: User) => u.id == id)
  }

  /** Stored emails are pairwise distinct once lowered: what the duplicate check keeps. */
  ghost predicate UniqueEmails(users: seq<User>) {
    forall i, j :: 0 <= i < j < |users| ==> Lower(users[i].email) != Lower(users[j].email)
  }

  /** Stored ids are pairwise distinct. */
  ghost predicate UniqueIds(users: seq<User>) {
    forall i, j :: 0 <= i < j < |users| ==> users[i].id != users[j].id
  }

  /**
   * `hashPassword`: the password itself when `crypto.subtle` is missing,
   * otherwise the lowercase hexadecimal text of its SHA-256 digest.
   */
  function PasswordDigest(digest: Digest, password: string): (h: string)
    ensures digest.None? ==> h == password
    ensures digest.Some? ==> FromHex(h) == Some(digest.value(password))
  {
    match digest
    case None => password
    case Some(sha256) =>
      FromHexHex(sha256(password));
      Hex(sha256(password))
  }

  /** `hashPassword` as the source runs it, through the `toHex` loop. */
  method HashPassword(digest: Digest, password: string) returns (h: string)
    ensures h == PasswordDigest(digest, password)
  {
    if digest.None? {
      h := password;
    } else {
      h := ToHex(digest.value(password));
    }
  }

  /** The id registration makes: the letter 'u' followed by the millisecond clock reading, passed in. */
  function UserId(now: nat): (id: string)
    ensures |id| >= 2 && id[0] == 'u'
    ensures id[1..] == Decimal(now)
  {
    "u" + Decimal(now)
  }

  /** Two clock readings give the same id exactly when they are equal. */
  lemma UserIdInjective(a: nat, b: nat)
    ensures UserId(a) == UserId(b) <==> a == b
  {
    DecimalInjective(a, b);
  }

  /** The given name, or the local part of the typed email when the name is missing (written as ""). */
  function DisplayName(name: string, email: string): (r: string)
    ensures name != [] ==> r == name
    ensures name == [] ==> r <= email && '@' !in r
    ensures name == [] && |r| < |email| ==> email[|r|] == '@'
  {
    if name != [] then name else LocalPart(email)
  }

  /** `getCurrentUser` */
  function CurrentUserOf(st: Storage): (r: Option<User>)
    ensures st.current.None? || st.current == Some("") ==> r.None?
    ensures r.Some? <==>
      st.current.Some? && st.current.value != "" &&
      exists i :: 0 <= i < |st.users| && st.users[i].id == st.current.value
    ensures r.Some? ==>
      st.current.Some? && exists k :: FirstIdMatch(st.users, st.current.value, k) && r.value == st.users[k]
  {
    if st.current.None? || st.current.value == "" then None
    else
      match FindById(st.users, st.current.value)
      case None => None
      case Some(k) =>
        assert FirstIdMatch(st.users, st.current.value, k);
        Some(st.users[k])
  }

  /** `registerUser` */
  function RegisterSpec(st: Storage, digest: Digest, name: string, email: string, password: string, now: nat): (out: Reply)
    ensures out.outcome.Failure? ==> out.next == st
    ensures out.outcome == Failure(Validation) <==> email == [] || password == []
    ensures out.outcome == Failure(Duplicate) <==>
      email != [] && password != [] &&
      exists i :: 0 <= i < |st.users| && EmailMatches(st.users[i], email)
    ensures out.outcome.Success? <==>
      email != [] && password != [] &&
      forall i :: 0 <= i < |st.users| ==> !EmailMatches(st.users[i], email)
    ensures out.outcome.Success? ==>
      && out.outcome.userId == UserId(now)
      && |out.next.users| == |st.users| + 1
      && out.next.users[..|st.users|] == st.users
      && out.next.users[|st.users|] == NewRecord(digest, name, email, password, now)
      && out.next.current == Some(UserId(now))
  {
    if email == [] || password == [] then Reply(st, Failure(Validation))
    else if FindByEmail(st.users, email).Some? then Reply(st, Failure(Duplicate))
    else
      var record := NewRecord(digest, name, email, password, now);
      assert (st.users + [record])[..|st.users|] == st.users;
      Reply(Storage(st.users + [record], Some(record.id)), Success(record.id))
  }

  /**
   * The record a successful registration appends: its email is stored
   * lowered, so lowering it again changes nothing, and it matches the email
   * it was registered under.
   */
  function NewRecord(digest: Digest, name: string, email: string, password: string, now: nat): (r: User)
    ensures r.id == UserId(now) && r.passwordHash == PasswordDigest(digest, password)
    ensures r.name == DisplayName(name, email)
    ensures Lower(r.email) == r.email
    ensures EmailMatches(r, email)
  {
    LowerIdempotent(email);
    User(UserId(now), DisplayName(name, email), Lower(email), PasswordDigest(digest, password))
  }

  /** A successful registration leaves exactly the old table with the new record at its end, and points at it. */
  lemma RegisteredState(st: Storage, digest: Digest, name: string, email: string, password: string, now: nat)
    requires RegisterSpec(st, digest, name, email, password, now).outcome.Success?
    ensures RegisterSpec(st, digest, name, email, password, now).next ==
      Storage(st.users + [NewRecord(digest, name, email, password, now)], Some(UserId(now)))
  {
    var next := RegisterSpec(st, digest, name, email, password, now).next;
    assert next.users == next.users[..|st.users|] + [next.users[|st.users|]];
  }

  /** `loginUser` */
  function LoginSpec(st: Storage, digest: Digest, email: string, password: string): (out: Reply)
    ensures out.next.users == st.users
    ensures out.outcome.Failure? ==> out.next == st
    ensures out.outcome == Failure(Validation) <==> email == [] || password == []
    ensures out.outcome == Failure(NotFound) <==>
      email != [] && password != [] &&
      forall i :: 0 <= i < |st.users| ==> !EmailMatches(st.users[i], email)
    ensures out.outcome == Failure(WrongPassword) <==>
      email != [] && password != [] &&
      exists k :: FirstEmailMatch(st.users, email, k) &&
        st.users[k].passwordHash != PasswordDigest(digest, password)
    ensures out.outcome.Success? <==>
      email != [] && password != [] &&
      exists k :: FirstEmailMatch(st.users, email, k) &&
        st.users[k].passwordHash == PasswordDigest(digest, password)
    ensures out.outcome.Success? ==>
      exists k :: FirstEmailMatch(st.users, email, k) &&
        out.outcome.userId == st.users[k].id && out.next.current == Some(st.users[k].id)
  {
    if email == [] || password == [] then Reply(st, Failure(Validation))
    else
      match FindByEmail(st.users, email)
      case None => Reply(st, Failure(NotFound))
      case Some(k) =>
        assert FirstEmailMatch(st.users, email, k);
        FirstEmailMatchUnique(st.users, email, k);
        var u := st.users[k];
        if PasswordDigest(digest, password) != u.passwordHash then Reply(st, Failure(WrongPassword))
        else Reply(Storage(st.users, Some(u.id)), Success(u.id))
  }

  /** `logout`: removes the `sr_current` key and keeps the table. */
  function LogoutSpec(st: Storage): (out: Storage)
    ensures out.users == st.users && out.current.None?
  {
    Storage(st.users, None)
  }

  /** There is at most one first match. */
  lemma FirstEmailMatchUnique(users: seq<User>, email: string, k: int)
    requires FirstEmailMatch(users, email, k)
    ensures forall m :: FirstEmailMatch(users, email, m) ==> m == k
  {
  }

  /** There is at most one first record with a given id. */
  lemma FirstIdMatchUnique(users: seq<User>, id: string, k: int)
    requires FirstIdMatch(users, id, k)
    ensures forall m :: FirstIdMatch(users, id, m) ==> m == k
  {
  }

  /** `getCurrentUser` when record k is the first with the current id. */
  lemma CurrentUserAt(st: Storage, k: int)
    requires st.current.Some? && st.current.value != ""
    requires FirstIdMatch(st.users, st.current.value, k)
    ensures CurrentUserOf(st) == Some(st.users[k])
  {
    FirstIdMatchUnique(st.users, st.current.value, k);
  }

  /** `loginUser` when record k is the first whose email matches: success exactly when the digests agree. */
  lemma LoginAt(st: Storage, digest: Digest, email: string, password: string, k: int)
    requires email != [] && password != []
    requires FirstEmailMatch(st.users, email, k)
    ensures LoginSpec(st, digest, email, password) ==
      if st.users[k].passwordHash == PasswordDigest(digest, password)
      then Reply(Storage(st.users, Some(st.users[k].id)), Success(st.users[k].id))
      else Reply(st, Failure(WrongPassword))
  {
    FirstEmailMatchUnique(st.users, email, k);
  }

  /** `loginUser` on a table whose only record matching the email is the last one. */
  lemma LoginLastRecord(users: seq<User>, record: User, current: Option<string>, digest: Digest, email: string, password: string)
    requires email != [] && password != []
    requires forall j :: 0 <= j < |users| ==> !EmailMatches(users[j], email)
    requires EmailMatches(record, email)
    ensures var st := Storage(users + [record], current);
      LoginSpec(st, digest, email, password) ==
        if record.passwordHash == PasswordDigest(digest, password)
        then Reply(Storage(st.users, Some(record.id)), Success(record.id))
        else Reply(st, Failure(WrongPassword))
  {
    var st := Storage(users + [record], current);
    assert FirstEmailMatch(st.users, email, |users|) by {
      assert forall j :: 0 <= j < |users| ==> st.users[j] == users[j];
    }
    LoginAt(st, digest, email, password, |users|);
  }

  /** `getCurrentUser` right after appending a record whose id no earlier record has, and pointing at it. */
  lemma CurrentUserLastRecord(users: seq<User>, record: User)
    requires record.id != ""
    requires forall j :: 0 <= j < |users| ==> users[j].id != record.id
    ensures CurrentUserOf(Storage(users + [record], Some(record.id))) == Some(record)
  {
    var st := Storage(users + [record], Some(record.id));
    assert FirstIdMatch(st.users, record.id, |users|) by {
      assert forall j :: 0 <= j < |users| ==> st.users[j] == users[j];
    }
    CurrentUserAt(st, |users|);
  }
}
