# User accounts of the study-task tracker, modelled in Dafny

This project models the user-account domain of the tracker's API: the `User` entity
(`apps/api/src/users/user.entity.ts`) and the `UsersService`
(`apps/api/src/users/users.service.ts`). It covers:

- the password-strength rules, which report the broken rules in a fixed order;
- email normalisation (trim, then lower-case);
- registration, login, role assignment and profile update over a store of user rows;
- the entity's default role and its password set/verify pair.

Modules, one per source concern:

- `Wrappers` (`wrappers.dfy`): `Option` and `Result`.
- `Chars` (`chars.dfy`): the ASCII character classes `[A-Z]`, `[a-z]` and `[0-9]`, shared by both modules below.
  Also `Utf16Length`, JavaScript's `.length`: a Dafny `char` is a Unicode scalar value, so a character above
  U+FFFF is one `char` but two UTF-16 code units.
- `EmailNormalization` (`email.dfy`): `Trim`, `ToLowerCase` and `NormalizeEmail`, and the lemmas about them.
- `PasswordRules` (`password_rules.dfy`): the five rules, the ordered violation report `Violations`, an independent
  definition of a strong password (`IsStrong`), and the lemmas that connect them.
- `UserEntity` (`user_entity.dfy`): the `User` class (fields, default role, `SetPassword`, `VerifyPassword`) and
  the stored row `UserRecord`. The hash function is a parameter of type `Hasher = string -> string`.
  Two predicates state what some properties need of it. `NonEmptyDigest`: no digest is the empty string, as no
  64-character hex digest is. `Injective`: distinct passwords have distinct digests. Injectivity stands for
  SHA-256's collision resistance. That is a claim about what can be computed: SHA-256 has collisions as a
  mathematical function, but none is known. `AssumptionsSatisfiable` shows that some hash meets both predicates,
  so the lemmas that require them are not vacuous. A Dafny function is deterministic, so hashing the same
  password twice always gives the same digest.
- `Users` (`users_service.dfy`): the `UsersService` class. It holds the user table as a sequence of rows in
  insertion order, plus an id counter. Lookups (`IndexOfEmail`, `IndexOfId`) return the first matching row.
  Under `TableInvariant` at most one row matches (`EmailLookupIsExact`, `IdLookupIsExact`), so that row is the
  one `findOne` returns. `Register` creates a new `User` and inserts its row. `AssignRole` and `UpdateProfile`
  load a row into a fresh `User`, change it, and write it back. `Login` loads a row and only reads it.
  `FindOne` and `FindAll` read the table directly.
  Exceptions become `Failure` values carrying `Conflict`, `BadRequest` (with the broken rules), `Unauthorized`
  or `NotFound`. `Message` gives the text each exception carries; `ShortPasswordMessage` states it for the
  tests' weak password. `StripSensitive` gives the user without its hash.
  `TableInvariant` is the store invariant that `Register`, `Create`, `AssignRole` and `UpdateProfile` keep
  (the save helpers `Insert` and `Update` neither require nor ensure it):
  - ids are unique and below the counter;
  - emails are unique;
  - every stored email is in normal form.
- `UsersScenarios` (`users_scenarios.dfy`): call sequences from the service's tests, stated for all inputs of
  that shape and proved from the operations' contracts.

## Model

| member | source | states |
|---|---|---|
| `EmailNormalization.TrimStartSpec` | apps/api/src/users/users.service.ts:125 | the start of `trim` drops a prefix of trimmable characters only, and what remains does not start with one |
| `EmailNormalization.TrimEndSpec` | apps/api/src/users/users.service.ts:125 | the end of `trim` drops a suffix of trimmable characters only, and what remains does not end with one |
| `EmailNormalization.TrimSpec` | apps/api/src/users/users.service.ts:125 | `trim` keeps a contiguous slice of its input, drops only white space and line terminators, and returns a trimmed string |
| `EmailNormalization.TrimOfTrimmed` | apps/api/src/users/users.service.ts:125 | trimming a string with no white space at either end returns it unchanged |
| `EmailNormalization.NormalizeEmailSpec` | apps/api/src/users/users.service.ts:124-126 | a normalised email has no white space at either end and no upper-case letter |
| `EmailNormalization.NormalFormIsFixed` | apps/api/src/users/users.service.ts:124-126 | a string already in normal form is its own normalisation |
| `EmailNormalization.NormalizeEmailIdempotent` | apps/api/src/users/users.service.ts:124-126 | normalising twice gives the same result as normalising once |
| `EmailNormalization.TrimStartCommutesWithLower` | apps/api/src/users/users.service.ts:125 | lower-casing and then trimming the start gives the same result as the reverse order |
| `EmailNormalization.TrimEndCommutesWithLower` | apps/api/src/users/users.service.ts:125 | lower-casing and then trimming the end gives the same result as the reverse order |
| `EmailNormalization.ToLowerCaseIdempotent` | apps/api/src/users/users.service.ts:125 | lower-casing twice gives the same result as lower-casing once |
| `EmailNormalization.NormalizeIgnoresCase` | apps/api/src/users/users.service.ts:38-40 | an email and its lower-cased spelling normalise to the same address, so both spellings reach the same stored user |
| `EmailNormalization.MixedCaseLoginAddress` | apps/api/src/users/users.service.spec.ts:105-111 | `USER@example.com` normalises to `user@example.com` |
| `PasswordRules.ViolatedAmongMembers` | apps/api/src/users/users.service.ts:88-92 | filtering a list of rules keeps exactly the broken ones |
| `PasswordRules.ViolatedAmongOrdered` | apps/api/src/users/users.service.ts:88-92 | filtering a list of rules keeps their order |
| `PasswordRules.ViolatedAmongSnoc` | apps/api/src/users/users.service.ts:88-92 | checking one more rule at the end appends it to the report exactly when it is broken |
| `PasswordRules.ViolationsSpec` | apps/api/src/users/users.service.ts:85-92 | a rule is in the report iff the password breaks it: minLength iff fewer than 8 UTF-16 code units; uppercase, lowercase, digit or specialChar iff no character of that class; the report lists rules in that fixed order |
| `PasswordRules.NoViolationsIffStrong` | apps/api/src/users/users.service.ts:94-97 | the report is empty iff the password has at least 8 UTF-16 code units and one character of each of the four classes |
| `PasswordRules.SupplementaryCharactersCountTwice` | apps/api/src/users/users.service.ts:88 | length is counted as `.length` counts it: `Aa1!` followed by two emoji is six characters but eight code units, and its report is empty |
| `Chars.BmpLength` | apps/api/src/users/users.service.ts:88 | for a string with no character above U+FFFF, `.length` is its number of characters |
| `PasswordRules.LowerIsNotSpecial` | apps/api/src/users/users.service.ts:90-92 | no character of the special class `[!@#$%^&*(),.?":{}\|<>]` is a lower-case letter |
| `PasswordRules.OnlyLowerViolations` | apps/api/src/users/users.service.ts:85-92 | a non-empty all-lower-case password breaks uppercase, digit and specialChar, and also minLength when shorter than 8 |
| `PasswordRules.LowercaseOnlyExample` | apps/api/src/users/users.service.spec.ts:190-196 | the report for `lowercase` is exactly uppercase, digit, specialChar |
| `PasswordRules.ShortExample` | apps/api/src/users/users.service.spec.ts:82-92 | the report for `short` is exactly minLength, uppercase, digit, specialChar |
| `PasswordRules.StrongExample` | apps/api/src/users/users.service.spec.ts:45-49 | `StrongPass1!` is strong and has an empty report |
| `UserEntity.UnsetHashNeverMatches` | apps/api/src/users/user.entity.ts:45-46 | `verifyPassword` is false for every candidate when no hash is set |
| `UserEntity.AssumptionsSatisfiable` | apps/api/src/users/user.entity.ts:50-52 | some hash never returns the empty digest and has no collisions, so the assumptions made about `hashPassword` can hold together |
| `UserEntity.StoredDigestMatchesOnlyItsPassword` | apps/api/src/users/user.entity.ts:45-52 | for a hash whose digests are never empty and that has no collisions, the stored digest of a password verifies a candidate iff the candidate is that password |
| `UserEntity.User.constructor` | apps/api/src/users/user.entity.ts:24-25 | a new user has role STUDENT and no password hash |
| `UserEntity.User.Load` | apps/api/src/users/users.service.ts:58 | an entity loaded from a row holds exactly that row's fields |
| `UserEntity.User.SetPassword` | apps/api/src/users/user.entity.ts:41-52 | the stored hash becomes `hashPassword(plain)` and nothing else changes; afterwards `plain` verifies (for a hash whose digests are never empty), and no other password does (for one that also has no collisions) |
| `Users.JoinNames` | apps/api/src/users/users.service.ts:23 | `errors.join(', ')` is empty iff there are no errors |
| `Users.ShortPasswordMessage` | apps/api/src/users/users.service.ts:21-24 | the BadRequest text for the weak password `short` is `Password requirements not met: ` followed by minLength, uppercase, digit and specialChar, separated by comma and space |
| `Users.IndexOfEmail` | apps/api/src/users/users.service.ts:112-115 | the email lookup finds nothing iff no row has the email; otherwise it returns the first row with that email |
| `Users.IndexOfId` | apps/api/src/users/users.service.ts:58 | the id lookup finds nothing iff no row has the id; otherwise it returns the first row with that id |
| `Users.EmailLookupIsExact` | apps/api/src/users/users.service.ts:39-48 | in a store satisfying the invariant, the email lookup returns the one row with that email |
| `Users.IdLookupIsExact` | apps/api/src/users/users.service.ts:66-67 | in a store satisfying the invariant, the id lookup returns the one row with that id |
| `Users.AppendKeepsInvariant` | apps/api/src/users/users.service.ts:26-33 | appending a row with the next id and an unused normal-form email keeps the store invariant |
| `Users.ReplaceKeepsInvariant` | apps/api/src/users/users.service.ts:60-61 | writing back a row with the same id and email keeps the store invariant |
| `Users.RegisteredRowIsFound` | apps/api/src/users/users.service.ts:33-40 | after a new row is appended under an unused email, a lookup by that email finds the new row |
| `Users.Checked` | apps/api/src/users/users.service.ts:88-92 | each push of `validatePasswordRules` extends the report of the rules checked so far |
| `Users.UsersService.constructor` | apps/api/src/users/users.service.ts:15 | the service starts with an empty store that satisfies the invariant |
| `Users.UsersService.ValidatePasswordRules` | apps/api/src/users/users.service.ts:85-98 | the error list is the ordered violation report, `valid` holds iff the list is empty, and `valid` holds iff the password is strong |
| `Users.UsersService.EnsureEmailIsUnique` | apps/api/src/users/users.service.ts:112-115 | succeeds iff no stored user has the email; otherwise fails with Conflict |
| `Users.UsersService.Insert` | apps/api/src/users/users.service.ts:33 | saving a new entity gives it the next id and appends exactly its row |
| `Users.UsersService.Update` | apps/api/src/users/users.service.ts:61 | saving a loaded entity replaces exactly its row and changes no other row |
| `Users.UsersService.Register` | apps/api/src/users/users.service.ts:17-35 | normalised email already stored: Conflict, store unchanged (checked before the password); weak password: BadRequest with the ordered broken rules, store unchanged; otherwise appends exactly one row (next id, normalised email, trimmed display name, given role or STUDENT, digest of the password) and returns it without the hash; keeps the invariant |
| `Users.UsersService.Create` | apps/api/src/users/users.service.ts:100-102 | the same contract as `register` |
| `Users.UsersService.Login` | apps/api/src/users/users.service.ts:37-55 | no user with the normalised email: Unauthorized; otherwise that user without the hash if the password verifies against its stored hash, and Unauthorized if not; the store is only read |
| `Users.UsersService.AssignRole` | apps/api/src/users/users.service.ts:57-63 | unknown id: NotFound, store unchanged; otherwise only that user's role changes, and the result carries the new role |
| `Users.UsersService.UpdateProfile` | apps/api/src/users/users.service.ts:65-83 | unknown id: NotFound. A non-empty password that fails the rules gives BadRequest and leaves the store unchanged, display name included. Otherwise the user gets the trimmed display name if one is given and the password's digest if a non-empty one is given; nothing else changes |
| `Users.UsersService.FindOne` | apps/api/src/users/users.service.ts:108-110 | returns the user with the id, without the hash, or nothing iff no user has it |
| `Users.UsersService.FindAll` | apps/api/src/users/users.service.ts:104-106 | returns every stored user, without hashes, in the model's store order (the query sets no order) |
| `UsersScenarios.RegisterThenLogin` | apps/api/src/users/users.service.spec.ts:96-113 | after registering with a strong password, a login with any spelling of the email that normalises to the same address, and with the same password, returns the registered user (normalised email, trimmed name, STUDENT) |
| `UsersScenarios.RegisterTwice` | apps/api/src/users/users.service.spec.ts:64-80 | a second registration under the same normalised email fails with Conflict and stores nothing |
| `UsersScenarios.LoginWithWrongPassword` | apps/api/src/users/users.service.spec.ts:122-134 | with a collision-free hash, logging in with any password other than the registered one fails with Unauthorized |
| `UsersScenarios.AssignRoleThenLogin` | apps/api/src/users/users.service.spec.ts:137-153 | after a role assignment, the user carries the new role and still logs in with the same password |
| `UsersScenarios.RejectedProfileUpdate` | apps/api/src/users/users.service.spec.ts:176-187 | a profile update with a weak non-empty password fails with BadRequest and leaves the store as it was, even though a new display name was supplied |

`Trim`, `TrimStart`, `TrimEnd`, `ToLowerCase` and `NormalizeEmail` are specified by the lemmas in the
`EmailNormalization` rows above. `Violations` is specified by the `PasswordRules` rows. `PasswordMatches` and
`User.VerifyPassword` are specified by the `UserEntity` rows. `Utf16Length` is specified by `Chars.BmpLength`
and `PasswordRules.SupplementaryCharactersCountTwice`. `StripSensitive` is used in the operations' contracts.

## Left out

- The task lifecycle is outside this model. That covers the status state machine, `isOverdue`, task assignment
  and task deletion (`task.entity.ts`, `tasks.service.ts`, `task-assignment.entity.ts`). This model covers the
  user accounts only.
- SHA-256 itself is not modelled: the hash is the `Hasher` parameter. Only non-empty digests are assumed
  (`NonEmptyDigest`); the 64-character length and the lower-case hex alphabet are not modelled. Collision
  resistance is modelled as injectivity (`Injective`), which no real 64-character digest can have for all
  strings. The properties that require it are stated for such a collision-free hash.
- `apps/api/src/users/user.repository.ts` is not part of this model. It is a thin wrapper over the ORM. Its
  `createUser` and `findByEmail` normalise emails as the service does, but `updateUser` writes `updates.email`
  without normalising it. A store reached that way can hold an email that is not in normal form. Such a store
  breaks the normal-form part of `TableInvariant`. `Valid()` excludes such a store, and `Register`, `Create`, `Login`,
  `AssignRole`, `UpdateProfile` and `FindOne` require `Valid()`.
- `Users.UsersService.FindAll`: `repo.find()` sets no order, so `users.service.ts` promises none. The model returns
  the rows in insertion order, which is one of the orders the database may return.
- `UserEntity.UserRole` models the two roles that the entity and its tests name, STUDENT and ADMIN. Any other
  member of the enum is not modelled.
- Strings are sequences of Unicode scalar values. A JavaScript string holding an unpaired surrogate has no
  counterpart here.
- The ORM and `async` plumbing are replaced by an in-memory table. Three details change:
  - uuid primary keys become a counter;
  - a `select: false` hash column that is never loaded and left untouched by `save` becomes a full load and
    write-back with the same stored result;
  - the database's unique constraint on `email` becomes an invariant kept by `register`.
- Concurrent requests are not modelled. Two simultaneous registrations racing past `ensureEmailIsUnique`
  would rely on the database constraint.
- Null inputs are not modelled: `password ?? ''` in `validatePasswordRules` and `String(email ?? '')` in
  `normalizeEmail`. Inputs are typed strings here.
- `NormalizeEmail`: `toLowerCase` is modelled on the ASCII letters A-Z only. Full Unicode case mapping is out
  of scope.
- `Users.UsersService.ValidatePasswordRules`: the regular-expression tests are modelled as explicit
  character-class predicates (`HasUpper`, `HasLower`, `HasDigit`, `HasSpecial`), not as a regular-expression
  engine.
- Controllers, DTO validation decorators, module wiring, and the gamification entity test are outside the
  user-account core.
