# Account flow of the dating-app API, in Dafny

This project models the credential flow of `AccountController`: registration and login over a table of users. Each user row holds a name, a password hash and a salt. The salt is the HMAC-SHA512 key the hash was computed with.

- **Register** refuses a name whose lower-cased form is already stored ("Username is taken", HTTP 400). Otherwise it takes a freshly generated key and stores `{lower(name), HMAC(key, UTF8(password)), key}`. It then answers with the stored name and a token.
- **Login** looks the user up by the name exactly as given, without lower-casing it. A missing name gives "invalid user name" (401). Otherwise it recomputes the HMAC with the stored salt. It then walks the recomputed tag byte by byte against the stored hash and returns "invalid password" (401) at the first difference. On a full match it answers with the stored name and a token.
- **UserExists** asks whether the lower-cased name is stored.

Layout:

- `crypto.dfy` (`Crypto`): bytes, the 64-byte tag size, and `Primitives`. `Primitives` bundles HMAC-SHA512 (section 2 of RFC 2104 over the SHA-512 of section 6.4 of FIPS 180-4), UTF-8 encoding and `ToLower` as function-valued fields. `Primitives.Valid` is what the model assumes of them: every tag is 64 bytes and lower-casing is idempotent. Being functions, they are deterministic.
- `users.dfy` (`Users`): the `AppUser` row and the two queries the controller runs. `Any` is `AnyAsync`. `SingleOrDefault` is `SingleOrDefaultAsync`, with its three outcomes: nothing, the one match, or an exception on two matches. The file also holds the table invariant `WellFormed`: names lower-case and distinct, hashes 64 bytes.
- `hash_comparison.dfy` (`HashComparison`): `Compare`, the specification of the login loop.
- `account_spec.dfy` (`AccountSpec`): `RegisterStep` and `LoginResponse` as functions of the table, and the lemmas about them.
- `account.dfy` (`Account`): the class `AccountController`. It holds the table (`users`), the library calls (`env`) and the token service (`createToken`). Its methods `Register` and `Login` are proved equal to `RegisterStep` and `LoginResponse`. `Login` carries the source's `for` loop with its early returns.

Error paths are modelled, not excluded by preconditions. `SingleOrDefaultAsync` meeting two rows throws. So does the loop indexing past the end of a stored hash shorter than the recomputed tag. Both appear as `Thrown(...)` responses. `LoginNeverThrows` proves neither can happen on a table kept by `Register`. `LoginOutOfBounds` shows the second does happen on other tables.

Two behaviours of the code are easy to miss:

- Login matches the name exactly as given, not lower-cased (`API/Controllers/AccountController.cs:51-52`). `LoginCaseMismatch` and `RegisterThenLoginMixedCase` prove the consequence: after registering "Alice", which is stored as "alice", logging in as "Alice" fails.
- The loop runs over the length of the recomputed tag, not of the stored hash (`API/Controllers/AccountController.cs:60-61`). Only that many stored bytes are compared.

## Model

| member | source | states |
|---|---|---|
| `Users.Any` | API/Controllers/AccountController.cs:75 | true exactly when some row's name equals the given name |
| `Users.SingleOrDefault` | API/Controllers/AccountController.cs:51-52 | no match iff no row has the name; a found row is in the table with that name; two or more rows with the name give the exception outcome, and only then |
| `Users.SingleOrDefaultUnique` | API/Controllers/AccountController.cs:51-52 | when exactly one row has the name, the lookup returns that row |
| `HashComparison.Compare` | API/Controllers/AccountController.cs:60-64 | the loop ends normally iff the stored hash is at least as long and its first `|computed|` bytes equal the computed tag; it reads past the end iff the stored hash is shorter and a prefix of the tag; it returns at a difference iff some index below both lengths differs |
| `AccountSpec.RegisterStep` | API/Controllers/AccountController.cs:25-46 | earlier rows are kept as a prefix and at most one row is added; the answer is a success exactly when a row was added; the added row is built by `NewUser` as `{lower(name), HMAC(key, UTF8(password)), key}` (lines 31-37) |
| `AccountSpec.LoginResponse` | API/Controllers/AccountController.cs:49-72 | a successful login answers with exactly the name that was given |
| `AccountSpec.RegisterTakenName` | API/Controllers/AccountController.cs:27 | if a stored name equals the lower-cased input, registration answers "Username is taken" and leaves the table unchanged |
| `AccountSpec.RegisterAddsOneUser` | API/Controllers/AccountController.cs:29-45 | registration succeeds iff no stored name equals the lower-cased input; then it appends exactly one row named `lower(input)` with salt `key` and hash `HMAC(key, UTF8(password))`, keeps every other row, and answers with that name and its token; otherwise it answers "Username is taken" with the table unchanged |
| `AccountSpec.RegisterPreservesWellFormed` | API/Controllers/AccountController.cs:27-39 | registration keeps every stored name lower-case, all names distinct and every hash 64 bytes long |
| `AccountSpec.RegisterTwiceFails` | API/Controllers/AccountController.cs:27-33 | after one registration, a second one whose name lower-cases to the same string is refused and changes nothing |
| `AccountSpec.LoginUnknownName` | API/Controllers/AccountController.cs:51-53 | a name not stored verbatim gives "invalid user name" |
| `AccountSpec.LoginCaseMismatch` | API/Controllers/AccountController.cs:51-53 | on a table kept by registration, a name that is not already lower-case gives "invalid user name", whatever the password |
| `AccountSpec.RegisterThenLoginMixedCase` | API/Controllers/AccountController.cs:33-53 | a successful registration of "Alice" answers with "alice"; whatever it answered, logging in as "Alice" afterwards gives "invalid user name" |
| `AccountSpec.LoginStoredName` | API/Controllers/AccountController.cs:55-70 | on a table kept by registration, logging in with a stored name succeeds with that name and its token iff the tag recomputed with the stored salt equals the stored hash, and otherwise gives "invalid password" |
| `AccountSpec.LoginInBounds` | API/Controllers/AccountController.cs:60-64 | if every stored hash is at least as long as the tag recomputed for it, the loop never indexes past the stored hash |
| `AccountSpec.LoginOutOfBounds` | API/Controllers/AccountController.cs:60-64 | a stored hash that is a proper prefix of the recomputed tag makes login throw an index-out-of-range exception |
| `AccountSpec.LoginNeverThrows` | API/Controllers/AccountController.cs:51-64 | on a table kept by registration, login neither meets two matching rows nor indexes past a stored hash |
| `AccountSpec.RegisterThenLogin` | API/Controllers/AccountController.cs:29-69 | after a successful registration of an already lower-case name, logging in with that name and password succeeds and answers exactly as registration did |
| `Account.AccountController.constructor` | API/Controllers/AccountController.cs:17-22 | the controller holds the given library calls, token service and table; a table that already meets the invariant gives a valid controller |
| `Account.AccountController.UserExists` | API/Controllers/AccountController.cs:73-76 | true exactly when some stored name equals the lower-cased input |
| `Account.AccountController.Register` | API/Controllers/AccountController.cs:25-46 | the answer and the new table are those of `RegisterStep` on the old table; the table invariant is kept |
| `Account.AccountController.Login` | API/Controllers/AccountController.cs:49-72 | the byte loop with early returns gives exactly `LoginResponse`; on a valid controller it never throws; the method may modify nothing, so the table is unchanged whatever the outcome |

## Left out

- HMAC-SHA512, UTF-8 encoding and `ToLower` are library calls and are parameters here (`Primitives`). The model assumes only 64-byte tags and an idempotent `ToLower`. Culture-specific casing is not modelled.
- The random key that `new HMACSHA512()` generates is the `key` parameter of `Register`. Its 128-byte length and its randomness are not modelled.
- `ITokenService.CreateToken` is the `createToken` function of the user row. Its internals are not part of this model. `RegisterThenLogin` says login answers with the same token as registration; that holds only because `createToken` depends on the row alone. A service that stamps an issue or expiry time would hand out different tokens.
- The EF Core persistence, `SaveChangesAsync` and async/await are I/O. The table is an in-memory sequence of rows. Database failures and the generated `Id` column are not modelled.
- Concurrency: two registrations racing between `UserExists` and `SaveChangesAsync` are not modelled. Each request runs alone.
- Names are compared ordinally, as Dafny's string equality does. The query `x.UserName == loginDto.Username` runs in the database, and the database provider is not part of this model. `LoginCaseMismatch` and `RegisterThenLoginMixedCase` hold only under an ordinal collation, such as SQLite's default `BINARY`.
- A row cannot hold a null `PasswordHash` or `PasswordSalt`. In C# a null salt would throw at line 57 and a null hash at line 63.
- Timing of the byte comparison, including its early return, cannot be expressed here.
- HTTP routing, action-result types, model binding of the DTOs (a null name or password) and the `[Authorize]`/`[AllowAnonymous]` attributes are framework plumbing.
- `UsersController.GetUsers` and `UsersController.GetUser` are one-line pass-throughs to the database with no logic of their own.
- That a different password gives a different tag is a property of HMAC-SHA512 and cannot be proved here. `LoginStoredName` states login's outcome in terms of the tags.
