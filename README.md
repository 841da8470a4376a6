# Credential store and hex encoder of js/auth.js, in Dafny

The repository is a static demo site with a client-side "authentication" layer,
js/auth.js. User records `{id, name, email, passwordHash}` live in browser local
storage under the key `sr_users`, and the id of the signed-in user lives under
`sr_current`. Four operations work on these two keys:

- `registerUser` checks the fields, rejects an email already taken (compared
  case-insensitively), appends a record and signs the new user in;
- `loginUser` finds the first record whose email matches case-insensitively,
  compares password digests and signs that user in;
- `logout` removes the pointer;
- `getCurrentUser` resolves the pointer against the table.

The password digest is the SHA-256 of the password rendered by `toHex` as
lowercase hexadecimal. When `crypto.subtle` is missing, it is the plaintext
password.

This project keeps the same structure:

- `hex.dfy` (module `HexCodec`): `toHex` as a loop (`ToHex`), proved equal to a
  recursive definition (`Hex`). Beside it are the per-byte rendering of
  `toString(16)` with zero padding, and a decoder `FromHex` that reads the text
  back two characters at a time.
- `text.dfy` (module `Text`): `toLowerCase` as ASCII lowering, the local part
  of an email (the text before its first '@'), and the decimal text of the clock reading in the `'u'`-plus-timestamp id.
- `auth.dfy` (module `Auth`): the records, the error kinds, and the two storage
  keys as a value (`Storage`). Each operation is a function of a storage state:
  `RegisterSpec` and `LoginSpec` return a `Reply` (the next state and the
  outcome), `LogoutSpec` returns the next `Storage`, and `CurrentUserOf`
  returns an `Option<User>`. This module also holds the lookups and
  `hashPassword`.
- `auth_properties.dfy` (module `AuthProperties`): lemmas that relate several
  operations. Registration keeps emails unique. Registering and then logging in
  yields the same id. An email in any letter case is taken once registered.
  A wrong password fails. `logout` clears the pointer and is idempotent.
- `store.dfy` (module `Store`): the class `CredentialStore`. Its fields `users`
  and `current` are the two storage keys, and `RegisterUser`, `LoginUser` and
  `Logout` reassign them. Each method's new state and reply are those of the
  matching function of `Auth`.

Environment inputs become parameters:

- `Date.now()` is the `now: nat` argument of registration.
- `crypto.subtle` is the constant `digest`. It is `None` when the environment
  lacks it, and otherwise the function taking a password to the SHA-256 bytes of
  its UTF-8 encoding.
- A missing or unparsable `sr_users` is the `None` argument of the constructor.
  The store then starts with an empty table, as `getUsers` does.

Details of the code that the model keeps:

- The default name is chosen by a falsy test, so an empty name gets the
  default too, not only a missing one.
- `getCurrentUser` also returns null when `sr_current` holds the empty string,
  because that string is falsy too.
- The default name is taken from the email as typed, before lowering.
- `loginUser` uses the first matching record.

## Model

| member | source | states |
|---|---|---|
| `HexCodec.ToHex` | js/auth.js:6-15 | the loop's result is the recursive `Hex` of the bytes, has length 2 per byte, and decodes back to the bytes |
| `HexCodec.Base16` | js/auth.js:10 | `toString(16)` of a byte has one digit exactly when the byte is below 16, and two digits with no leading zero otherwise; the last digit is the byte's low nibble and, in a two-digit result, the first is its high nibble |
| `HexCodec.ByteHex` | js/auth.js:10-11 | a padded byte is the two digits of its high and low nibble, and starts with '0' exactly when the byte is below 16 |
| `HexCodec.HexDigit` | js/auth.js:10 | each digit is lowercase hexadecimal and decodes to its value |
| `HexCodec.DigitValue` | js/auth.js:10 | only the sixteen lowercase hex digits have a value, which is below 16 |
| `HexCodec.Hex` | js/auth.js:6-15 | the reference definition of the loop's text has exactly two characters per byte |
| `HexCodec.HexAt` | js/auth.js:9-13 | characters 2k and 2k+1 are the two digits of byte k, the first being '0' exactly when byte k is below 16 |
| `HexCodec.HexLowercase` | js/auth.js:10-12 | every character of the text is a lowercase hex digit |
| `HexCodec.HexConcat` | js/auth.js:12 | the text of a concatenation of byte sequences is the concatenation of their texts |
| `HexCodec.HexSnoc` | js/auth.js:12 | one more byte appends exactly its two digits, which is the step of each iteration |
| `HexCodec.FromHex` | js/auth.js:6-15 | a decoded string has two characters per decoded byte |
| `HexCodec.FromHexHex` | js/auth.js:6-15 | decoding the text two characters at a time gives back the bytes |
| `HexCodec.HexFromHex` | js/auth.js:6-15 | every string the decoder accepts is the text of what it decodes to |
| `HexCodec.DigitPair` | js/auth.js:10-11 | two lowercase hex digits are the padded text of the byte they denote |
| `HexCodec.HexInjective` | js/auth.js:6-15 | two byte sequences have the same text exactly when they are equal |
| `Text.LowerChar` | js/auth.js:40 | a lowered character is never an ASCII capital, other characters are unchanged, and capitals move by 32 |
| `Text.Lower` | js/auth.js:40 | lowering keeps the length and lowers each character |
| `Text.LowerIdempotent` | js/auth.js:43 | lowering a lowered email changes nothing, so a stored email compares equal to the email it came from |
| `Text.LocalPart` | js/auth.js:43 | the local part is a prefix of the email with no '@', followed in the email by an '@' unless it is the whole email |
| `Text.EmailExample` | js/auth.js:43 | "A@Test.com" lowers to "a@test.com" and its local part is "A" |
| `HexCodec.HexPrefixStep` | js/auth.js:9-12 | the text of the first i+1 bytes is the text of the first i bytes followed by the two digits of byte i |
| `Text.Decimal` | js/auth.js:42 | the clock reading's text is a nonempty digit string with no leading zero |
| `Text.ParseDecimalDecimal` | js/auth.js:42 | the digit string reads back as the clock reading |
| `Text.DecimalInjective` | js/auth.js:42 | two readings have the same text exactly when they are equal |
| `Auth.Find` | js/auth.js:34 | `find` gives the first index whose element satisfies the test, and none exactly when no element does |
| `Auth.EmailMatches` | js/auth.js:40 | a record matches an email exactly when both have the same length and agree character by character after lowering; login uses the same test at line 52 |
| `Auth.FindByEmail` | js/auth.js:40 | the index found is the first email match, and none is found exactly when no record matches; login uses the same lookup at line 52 |
| `Auth.FindById` | js/auth.js:34 | the index found is the first record with the id, and none is found exactly when no record has it |
| `Auth.PasswordDigest` | js/auth.js:17-23 | without `crypto.subtle` the digest is the password itself; with it, the digest is hex text that decodes to the SHA-256 bytes |
| `Auth.HashPassword` | js/auth.js:17-23 | computing the digest through the `toHex` loop gives `PasswordDigest` |
| `Auth.UserId` | js/auth.js:42 | an id is 'u' followed by the decimal text of the clock reading |
| `Auth.UserIdInjective` | js/auth.js:42 | two registrations get the same id exactly when they read the same millisecond |
| `Auth.DisplayName` | js/auth.js:43 | a nonempty name is kept; an empty one becomes a prefix of the email with no '@', followed in the email by an '@' unless it is the whole email |
| `Auth.CurrentUserOf` | js/auth.js:30-35 | none when the pointer is absent or empty or no record has that id; otherwise the first record with that id |
| `Auth.CurrentUserAt` | js/auth.js:30-35 | when record k is the first with the current (nonempty) id, the result is record k |
| `Auth.RegisterSpec` | js/auth.js:37-47 | Validation exactly when email or password is empty. Duplicate exactly when some stored email matches case-insensitively. Every failure leaves both keys unchanged. Success appends one record and keeps the earlier ones; the new record has the id, the given name or else the local part of the typed email, the lowered email and the digest; the pointer is set to the id, which is also returned |
| `Auth.NewRecord` | js/auth.js:43 | the appended record has the new id, the display name and the digest; its stored email is already lowered and matches the email it was registered under |
| `Auth.RegisteredState` | js/auth.js:43-45 | a successful registration leaves exactly the old table plus the new record, with the pointer on it |
| `Auth.LoginSpec` | js/auth.js:49-58 | the table never changes and failures change nothing. Validation exactly when a field is empty. NotFound exactly when no email matches case-insensitively. WrongPassword exactly when the first match's digest differs. Otherwise the pointer is set to the first match's id, which is also returned |
| `Auth.LoginAt` | js/auth.js:52-57 | when record k is the first email match, login succeeds with record k's id exactly when the digests agree, else fails with WrongPassword and changes nothing |
| `Auth.LoginLastRecord` | js/auth.js:52-57 | on a table whose only email match is the appended last record, login succeeds with its id exactly when the digests agree, else fails with WrongPassword and changes nothing |
| `Auth.CurrentUserLastRecord` | js/auth.js:30-35 | a pointer on an appended record whose nonempty id is new resolves to that record |
| `Auth.LogoutSpec` | js/auth.js:60 | logout keeps the table and removes the pointer |
| `Auth.FirstEmailMatchUnique` | js/auth.js:52 | the first email match is unique |
| `Auth.FirstIdMatchUnique` | js/auth.js:34 | the first record with a given id is unique |
| `AuthProperties.RegisterPreservesUniqueEmails` | js/auth.js:40-43 | if stored emails are pairwise distinct after lowering, they stay so after any registration |
| `AuthProperties.RegisterPreservesUniqueIds` | js/auth.js:42-43 | ids stay pairwise distinct when the new clock reading gives an id not yet stored |
| `AuthProperties.LaterClockGivesFreshId` | js/auth.js:42 | ids made from earlier readings never equal the id of a later reading |
| `AuthProperties.RegisterThenLogin` | js/auth.js:37-58 | after a successful registration, logging in with the same email and password succeeds with the new id and leaves the state as registration left it |
| `AuthProperties.RegisterThenCurrentUser` | js/auth.js:30-46 | after a successful registration with a fresh id, `getCurrentUser` gives the new record |
| `AuthProperties.RegisterAgainIsDuplicate` | js/auth.js:40 | after a registration, registering any case variant of the email fails with Duplicate, changes nothing, and the table has grown by exactly one |
| `AuthProperties.RegisterThenWrongPassword` | js/auth.js:52-55 | after a registration, logging in with a case variant of the email and a password of another digest fails with WrongPassword and changes nothing |
| `AuthProperties.LogoutClearsCurrentUser` | js/auth.js:60 | after `logout`, `getCurrentUser` is none and the table is untouched; a second `logout` changes nothing |
| `AuthProperties.RegisterExample` | js/auth.js:37-47 | registering "A@Test.com" with no name on an empty store stores "a@test.com" under the name "A", and registering "a@test.com" afterwards fails with Duplicate |
| `Store.CredentialStore.constructor` | js/auth.js:25-26 | the table is the stored one, or empty when the key is absent or unparsable; the pointer is the stored one |
| `Store.CredentialStore.GetCurrentUser` | js/auth.js:30-35 | none when the pointer is absent or empty; a result is the first stored record with the pointer's id; none for a nonempty pointer means no record has that id |
| `Store.CredentialStore.RegisterUser` | js/auth.js:37-47 | the new fields and the reply are those of `RegisterSpec`, and unique emails stay unique |
| `Store.CredentialStore.LoginUser` | js/auth.js:49-58 | the new fields and the reply are those of `LoginSpec`; the table is unchanged |
| `Store.CredentialStore.Logout` | js/auth.js:60 | the pointer is removed and the table is unchanged |
| `Store.RegisterThenLoginSession` | js/auth.js:37-58 | on the object, registration succeeds exactly when the fields are nonempty and the email is new; after that success, the login reply equals the registration reply and the pointer holds the new id |

## Left out

- DOM and jQuery code is not modelled, because it has no stateable logic beyond one string comparison. This covers `showMessage`, `initNavbar`, the form handlers with their password-confirmation check, and the redirects (js/auth.js:63-118).
- SHA-256 through `crypto.subtle.digest` and the UTF-8 `TextEncoder` are foreign browser calls. They are the `digest` parameter, a function from passwords to bytes.
- `PasswordDigest`: nothing is assumed of the digest function beyond being a function, so the model does not state that a digest is 32 bytes long.
- `JSON.parse`, `JSON.stringify` and `localStorage` are library serialisation and storage. The two keys are fields, and "absent or unparsable" is the constructor's `None`. The serialisation round trip is not modelled.
- `Date.now()` is the `now` argument.
- `Text.Decimal`: covers integers in plain decimal notation only. JavaScript writes numbers from 10^21 up in exponent form; a millisecond clock never reaches that.
- `Text.Lower`: lowers the ASCII letters only. `toLowerCase` also maps other Unicode letters, and that mapping is not modelled.
- `async`/`await`: the model treats each call as atomic. In the source, overlapping calls can interleave at the `await`. `registerUser` reads the table (js/auth.js:39), waits for the digest (js/auth.js:41) and only then writes (js/auth.js:44-45). Two registrations started before either finishes both pass the duplicate check, even for the same email. The later write then drops the record of the earlier one. `loginUser` reads at js/auth.js:51, waits at js/auth.js:54 and writes the pointer at js/auth.js:56, so a `logout` made while it waits is undone. Neither the lost record, the skipped duplicate check nor the undone logout is modelled, and neither are races between browser tabs.
- The human-readable Vietnamese messages are reduced to the error kinds Validation, Duplicate, NotFound and WrongPassword.
- Non-string arguments (`null` or `undefined` name, email or password) are written as the empty string. JavaScript treats all three as falsy.
- A stored record without an `email` field would make `find` throw. So would a `sr_users` value that parses to something other than an array: "null" parses to null at js/auth.js:26, and `find` at js/auth.js:34, 40 and 52 then throws. Such a value is neither the constructor's `None` nor a table. Those throws are not modelled; records here always have every field, and the table is always a sequence.
- The `window.SRAuth` export (js/auth.js:121) is not modelled. Reading `getUsers` is reading the `users` field.
