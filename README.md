# bibli-users: the User record, modelled in Dafny

The users service keeps one entity, `User`, in a relational store.
`api/models/User.go` gives `User` three methods that normalise, check and
hash a record:

- `Prepare` normalises a received record. It clears the primary key so that
  the store assigns one. It trims the e-mail address and HTML-escapes it. It
  stamps `CreatedAt` and `UpdatedAt`.
- `Validate(action)` checks the credentials in a fixed order: password
  present, then e-mail present, then e-mail well formed. It reports the
  first check that fails, as "Senha obrigatória", "Email obrigatório" or
  "Email inválido".
- `BeforeSave` replaces the password by its bcrypt hash. When hashing fails
  it returns the error and leaves the password as it was.

Of these, the code in these files calls only `BeforeSave`. gorm runs it as
the save hook, for example when the seeder creates its example users
(api/seed/seeder.go:60). `UpdateAUser` also calls it directly
(api/models/User.go:146). `Prepare` and `Validate` are left to callers
outside these files; `UpdateAUser` writes `Email` without calling
`Prepare`. So the properties proved about `Prepare` hold for a stored
address only when such a caller ran `Prepare` first.

The project has three modules:

- `Text` (`text.dfy`) holds Go's `unicode.IsSpace` and `strings.TrimSpace`,
  and the lower-casing that selects the validation arm.
- `Html` (`html.dfy`) holds Go's `html.EscapeString`. It also holds
  `Unescape`, a decoder of exactly the five entities the escaper produces,
  which serves as its inverse.
- `Models` (`user.dfy`) holds the `User` class. `Prepare` and `BeforeSave`
  are methods that update its fields in place. Their `modifies` clauses name
  only the fields the Go code assigns. `Validate` is a function that only
  reads the record.

Three things are outside the model and arrive as parameters:

- The hashing primitive is `hash: string -> HashOutcome`. It stands for the
  one call that `BeforeSave` makes, so the random salt is abstracted away.
- The e-mail format check (`checkmail.ValidateFormat`) is
  `isEmailFormat: string -> bool`, left uninterpreted.
- The clock is two `Instant` values. `Prepare` calls `time.Now()`
  separately for each timestamp, so the model does not claim that
  `CreatedAt == UpdatedAt`.

## Model

| member | source | states |
|---|---|---|
| `Models.User.constructor` | api/models/User.go:15-26 | A record holds exactly the ten field values it is built with. |
| `Models.User.BeforeSave` | api/models/User.go:39-46 | If hashing the current password succeeds, the password becomes the digest and nil is returned. If it fails, its error is returned and the password is unchanged. No other field changes in either case. |
| `Models.User.Prepare` | api/models/User.go:49-54 | Afterwards `ID` is 0. `Email` is the HTML escape of the trimmed old address. The two timestamps hold the two clock readings. `FirstName`, `LastName`, `Password`, `Role`, `Photo` and `Active` are unchanged. |
| `Models.User.Validate` | api/models/User.go:57-105 | The result is nil exactly when the password is non-empty, the e-mail is non-empty and the format check accepts it. An empty password gives "Senha obrigatória" whatever the e-mail holds. Otherwise an empty e-mail gives "Email obrigatório". Otherwise a rejected format gives "Email inválido". The record is only read. |
| `Models.ValidateIgnoresAction` | api/models/User.go:57-104 | Any two action strings give the same result, since all four arms apply the same checks. |
| `Models.PreparedEmail` | api/models/User.go:51 | The address `Prepare` stores has no white space at either end. It holds no raw `<`, `>`, `'` or `"`. Every `&` in it opens one of the five entities. Decoding it gives back the trimmed address. |
| `Models.NormalEmailIsKept` | api/models/User.go:51 | An address that is already trimmed and holds none of the five special characters is stored as it is. |
| `Models.BlankEmailIsRequiredAfterPrepare` | api/models/User.go:51-65 | If the received address is empty or all white space and a password is present, validation after `Prepare` fails with "Email obrigatório". This holds for every action and every format check. |
| `Models.PresentEmailStaysPresentAfterPrepare` | api/models/User.go:51-69 | If the received address holds a non-space character and a password is present, the result after `Prepare` depends on the format check alone. |
| `Text.TrimLeftSpec` | api/models/User.go:51 | Trimming the front yields the suffix that starts at the first non-space character. Only white space is dropped. |
| `Text.TrimRightSpec` | api/models/User.go:51 | Trimming the back yields the prefix that ends at the last non-space character. Only white space is dropped. |
| `Text.TrimSpace` | api/models/User.go:51 | The trimmed string is no longer than its input. It neither starts nor ends with white space. |
| `Text.TrimSpaceSlice` | api/models/User.go:51 | The trimmed string is a contiguous slice of the input, with only white space before and after it. |
| `Text.TrimSpaceUnique` | api/models/User.go:51 | For white space, then a middle with no surrounding white space, then white space, trimming returns exactly that middle. So the promises of `TrimSpace` determine its result. |
| `Text.TrimSpaceIdempotent` | api/models/User.go:51 | Trimming twice gives the same result as trimming once. |
| `Text.TrimSpaceEmpty` | api/models/User.go:51 | A string trims to "" exactly when it consists only of white space. |
| `Html.EscapeChar` | api/models/User.go:51 | Each of the five special characters is replaced by an entity that starts with `&` and ends with `;`. Every other character is kept as it is. |
| `Html.UnescapeEscape` | api/models/User.go:51 | Decoding an escaped string gives back the original string. |
| `Html.EscapeInjective` | api/models/User.go:51 | Two strings have the same escape exactly when they are equal. |
| `Html.EscapeLength` | api/models/User.go:51 | Escaping never shortens a string. It keeps the length exactly when no special character occurs. |
| `Html.EscapeFixedPoint` | api/models/User.go:51 | A string is its own escape exactly when it holds none of the five special characters. |
| `Html.EscapeEmpty` | api/models/User.go:51 | Only "" escapes to "". |
| `Html.EscapeIsEscaped` | api/models/User.go:51 | An escape holds no raw `<`, `>`, `'` or `"`. Every `&` in it opens one of the five entities. |
| `Html.EscapeUnescape` | api/models/User.go:51 | Every string of that shape is the escape of its decoding. So the shape describes exactly the strings the escaper can produce. |
| `Html.EscapeKeepsEnds` | api/models/User.go:51 | Escaping a string that has no white space at its ends adds none. |

## Left out

- `Hash` and `VerifyPassword` (api/models/User.go:29-36) call bcrypt. Their random salt and one-way property are outside the model. `BeforeSave` receives the hash outcome as a function parameter.
- `Models.User.BeforeSave`: the byte slice that bcrypt returns and its conversion with `string(...)` are folded into the `hash` parameter, which yields the digest as a string.
- `checkmail.ValidateFormat` (api/models/User.go:66, 77, 88, 100) is a foreign format check. It is the uninterpreted parameter `isEmailFormat`.
- `time.Now()` (api/models/User.go:52-53) reads the clock. It is replaced by two parameters, one per call.
- `Text.ToLower` maps only the ASCII letters, while Go's `strings.ToLower` maps each rune with `unicode.ToLower`, the Unicode simple case mapping (for example U+0130 lower-cases to `i`). This cannot change what `Validate` returns, because `Models.ValidateIgnoresAction` proves the result is the same for every action string.
- Strings are sequences of Unicode scalar values. A Go string may also hold bytes that are not valid UTF-8, and `strings.TrimSpace` treats those as non-space. The model cannot represent such strings.
- `SaveUser`, `FindAllUsers`, `FindUserByID`, `UpdateAUser` and `DeleteAUser` (api/models/User.go:108-181) are calls into the gorm ORM and the database. Their behaviour lives in the store. The `IsRecordNotFoundError` branch (api/models/User.go:136) is unreachable, since line 133 already returns on any error. The `log.Fatal` after a failed hash in `UpdateAUser` (api/models/User.go:148) ends the process.
- The gorm struct tags (api/models/User.go:16-25) give column sizes, defaults and the uniqueness of `Email`. They are the store's schema, not checks the code performs.
- A nil `*User` receiver is not modelled, since every method is called on a record.
- api/seed/seeder.go drops, migrates and fills the table through gorm. Its only non-I/O content is a fixed list of example users.
- api/server.go loads the environment, connects to the database and starts the HTTP server.
