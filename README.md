# User profile microservices: a verified model

This project models the logic of a small user-profile application. It has four
parts:

- **Registration form** (`Registration`): the form's field state, its ordered
  validator, and the submit handler that calls the authentication context's
  `register`.
- **Dashboard** (`DashboardRules`, `DashboardController`). The pure part holds the
  profile validator, the statistics (total users, users created today, profile
  completion), the completion colour and the avatar initials. The stateful part
  is a `Dashboard` class. It owns the user list, the profile form, the profile id,
  the loading flag and the message banner. Its handlers are fetch, field edit and
  submit.
- **Authentication service** (`AuthService`): a credential table with `register`
  and `login`. Usernames stay unique. A login succeeds exactly when a stored record
  holds the username and the hash of the password.
- **User service** (`UserService`, `ObjectIds`): a collection of profile documents
  with create, get, update (a `$set` merge), delete and list. Generated document ids
  are parsed and written as 24 hex digits; an `_id` supplied in a create body is
  kept as its text.

`Text` gives JavaScript's `trim`, `split` and `toUpperCase`, and the regex class
`\s`, over ASCII. `Wrappers` holds `Option`, `Outcome` (pass or fail with an
error) and `Remote` (a remote call's result or its failure).

Remote calls are parameters that carry their outcome:

- the dashboard's list, create and update calls;
- the registration form's `register`;
- the services' clocks.

The hash in the authentication service is a parameter of the credential table.
The user service issues ids from a counter.

Three behaviours of the code are easy to misread, and the model keeps each as
written:

- The registration form's length check reads the untrimmed username
  (`Register.js:30`), although `register` then receives the trimmed one.
- The registration checks run in the order all-fields-present, username length,
  password length, confirmation; the first failure decides the message.
- The dashboard reseeds the profile on every successful fetch, not only the first
  (`Dashboard.js:40-51`).

## Model

| member | source | states |
|---|---|---|
| Text.Trim | frontend/src/components/Register.js:25 | The result of `trim` neither starts nor ends with whitespace. It is empty exactly when the input is all whitespace, which is when `!s.trim()` holds (`Dashboard.js:92`). |
| Text.TrimIsSlice | frontend/src/components/Register.js:25 | `trim` yields a slice of its input with only whitespace before and after it. Together with `Trim`'s contract, this fixes the result. |
| Text.TrimPadded | frontend/src/components/Register.js:25 | Whitespace on either side of a string that neither starts nor ends with whitespace is exactly what `trim` removes. |
| Text.Split | frontend/src/components/Dashboard.js:165 | `split(' ')` gives at least one piece, and no piece holds the separator. |
| Text.JoinSplit | frontend/src/components/Dashboard.js:165 | Joining the pieces of `split(sep)` with `sep` gives back the string, so with `Split`'s contract the pieces are fixed. |
| Text.SplitSingle | frontend/src/components/Dashboard.js:165 | `split(' ')` gives more than one piece exactly when the string holds a space; a single piece is the whole string. |
| Text.SplitFirst | frontend/src/components/Dashboard.js:167 | The first piece is the prefix before the first separator and holds no separator. |
| Text.SplitLast | frontend/src/components/Dashboard.js:167 | The last piece is the suffix after the last separator and holds no separator. |
| Text.UpperChar | frontend/src/components/Dashboard.js:167-168 | `toUpperCase` maps `a`–`z` to `A`–`Z` and leaves every other character alone, so whitespace stays whitespace and nothing else becomes it. |
| Text.NumeralValue | frontend/src/components/Dashboard.js:100 | The decimal numeral of `n` denotes `n`. |
| DashboardRules.Profile.With | frontend/src/components/Dashboard.js:85-88 | The named field takes the new value; every other field keeps its value. |
| DashboardRules.SeedFrom | frontend/src/components/Dashboard.js:42-49 | Each profile field is the record's value, or `''` when the record lacks it. |
| DashboardRules.FindByUsername | frontend/src/components/Dashboard.js:40 | `find` returns the first record with the username, and nothing exactly when no record has it. |
| DashboardRules.EmailShapeIsPattern | frontend/src/components/Dashboard.js:96 | The decision procedure accepts exactly the strings with a substring matching `\S+@\S+\.\S+`. |
| DashboardRules.ValidateProfile | frontend/src/components/Dashboard.js:91-105 | Fails on a blank name whatever else holds. Otherwise fails on a non-empty email with no pattern match. Otherwise fails on a non-empty age outside 1..150. Otherwise passes. All four are stated as if-and-only-if. |
| DashboardRules.NotAnEmailRejected | frontend/src/components/Dashboard.js:96-98 | A named profile with email `not-an-email` fails with the email error. |
| DashboardRules.MatchesEmailPattern | frontend/src/components/Dashboard.js:96 | `/\S+@\S+\.\S+/.test(s)`: some substring of `s` is non-spaces, `@`, non-spaces, `.`, non-spaces. A matching string has at least five characters and holds both `@` and `.`, so a string without `@` never matches. |
| DashboardRules.AgeNumber | frontend/src/components/Dashboard.js:100 | `Number(age)` is a whole number exactly when the age is not blank and its trimmed form is all decimal digits. That number is the decimal value of the trimmed digits, leading zeros included. |
| DashboardRules.AgeNumberPadded | frontend/src/components/Dashboard.js:100 | A decimal numeral with whitespace around it reads as its number, and passes the age rule exactly when that number is in [1, 150]. |
| DashboardRules.AgeAcceptable | frontend/src/components/Dashboard.js:100 | An age passes exactly when it is empty, or when it is not blank and its trimmed form is a digit string whose value is in [1, 150]. So a blank non-empty age fails, and padding and leading zeros (` 042`) do not matter. |
| DashboardRules.ShortEmailAccepted | frontend/src/components/Dashboard.js:96 | `a@b.co` matches the email pattern. |
| DashboardRules.AgeNumeralRange | frontend/src/components/Dashboard.js:100 | The numeral of a whole number is an acceptable age exactly when the number is in [1, 150]. |
| DashboardRules.AgeRange | frontend/src/components/Dashboard.js:100 | A digit string is an acceptable age exactly when its value is in [1, 150]. |
| DashboardRules.AgeExamples | frontend/src/components/Dashboard.js:100-103 | `150` passes the age rule; `151` and `0` fail it. |
| DashboardRules.Filled | frontend/src/components/Dashboard.js:59 | A field counts exactly when it is non-empty after trimming. |
| DashboardRules.FilledCount | frontend/src/components/Dashboard.js:59 | At most six fields count. All six count exactly when none is blank, and none counts exactly when all are blank. |
| DashboardRules.FilledCountWith | frontend/src/components/Dashboard.js:85-88 | Editing one field changes the count by that field's change alone. |
| DashboardRules.CompletionPercent | frontend/src/components/Dashboard.js:60 | The result is the nearest whole percentage of k/6, with halves rounded up, and lies in [0, 100]. |
| DashboardRules.CompletionMonotone | frontend/src/components/Dashboard.js:60 | The completion never decreases as more fields are filled. |
| DashboardRules.CompletionEnds | frontend/src/components/Dashboard.js:60 | No filled field gives 0 and six filled fields give 100. |
| DashboardRules.CompletionExtremes | frontend/src/components/Dashboard.js:60 | Only no filled field gives 0, and only six filled fields give 100. |
| DashboardRules.CountCreatedOn | frontend/src/components/Dashboard.js:62-65 | The count of records created today is at most the list length. |
| DashboardRules.CountCreatedOnExtremes | frontend/src/components/Dashboard.js:63-65 | The count equals the list length exactly when every record is from today, and is 0 exactly when none is. |
| DashboardRules.CountCreatedOnAppend | frontend/src/components/Dashboard.js:63-65 | The count over a concatenation is the sum of the counts. |
| DashboardRules.ComputeStats | frontend/src/components/Dashboard.js:58-72 | Total users is the list length. New users today is the number of records created today (`CountCreatedOn`, pinned by its Append and Extremes lemmas), so at most the total. Completion is the rounded percentage of filled fields (`CompletionPercent` of `FilledCount`). It lies in [0, 100], is 0 exactly when all fields are blank, and is 100 exactly when none is. |
| DashboardRules.NameOnlyCount | frontend/src/components/Dashboard.js:59-60 | A profile with only a non-blank name has one filled field, which is 17 percent. |
| DashboardRules.AliceScenario | frontend/src/components/Dashboard.js:58-72 | A list holding only alice, created today, whose record sets only a non-blank name such as `Alice`, gives one user, one new today and 17 percent. |
| DashboardRules.CompletionColor | frontend/src/components/Dashboard.js:149-153 | The colour is green exactly from 80 percent, amber exactly from 50 to below 80, and red exactly below 50. |
| DashboardRules.ColorByFilledFields | frontend/src/components/Dashboard.js:149-153 | The colour is green for five or six filled fields, amber for three or four, and red below. |
| DashboardRules.UserInitials | frontend/src/components/Dashboard.js:163-171 | A trimmed name with a space gives the upper-cased first letters of its first word and its last word. A one-word name gives the upper-cased first character of the untrimmed name. A blank name gives the username's first character, or `U`. |
| DashboardRules.InitialsOfWords | frontend/src/components/Dashboard.js:165-167 | For a trimmed name with a space, the first and last pieces are non-empty. They start at the name's first character and just after its last space. |
| DashboardRules.PaddedNameInitial | frontend/src/components/Dashboard.js:168 | A one-word name after a leading space, such as ` bob`, gets the initial ` `, a space. |
| DashboardRules.UserInitialsIntended | frontend/src/components/Dashboard.js:163-171 | A one-word name gives the upper-cased first character of the trimmed name. Blank and multi-word names give what `UserInitials` gives. The result has one or two characters, and for a non-blank name it starts with a non-space. |
| DashboardController.Reseed | frontend/src/components/Dashboard.js:40-51 | With no matching record, the profile and id stay as they were. Otherwise both come from the first match. An id that was set stays set. |
| DashboardController.Dashboard.constructor | frontend/src/components/Dashboard.js:10-21 | The dashboard starts with an empty profile, an empty list, no id, loading off and no message. |
| DashboardController.Dashboard.CurrentStats | frontend/src/components/Dashboard.js:58-72 | Total users is the list length. New users today is the number of listed records created today, so at most that; the two are equal exactly when every record is from today. Completion is the rounded percentage of the profile's filled fields, at most 100, and 100 exactly when no field is blank. |
| DashboardController.Dashboard.HandleInputChange | frontend/src/components/Dashboard.js:83-89 | Only the named profile field changes. |
| DashboardController.Dashboard.FetchUsers | frontend/src/components/Dashboard.js:34-56 | On success, the list is replaced wholesale and the profile is reseeded. On failure, the list, profile and id are unchanged and the load error is shown. An id that was set stays set. |
| DashboardController.Dashboard.HandleProfileSubmit | frontend/src/components/Dashboard.js:107-137 | A failed validation issues no request and shows the error; nothing else changes, loading included. Otherwise it updates when an id is set and creates when none is, adopting a created id. It re-fetches after a successful save and shows the save error after a failed one. Loading ends off, and the id is never cleared. |
| DashboardController.CreateThenUpdate | frontend/src/components/Dashboard.js:121-128 | On a fresh dashboard, a submit with a valid name issues a create. When that create succeeds, a later submit is never a create, whatever the fetches return. |
| Registration.FormData.With | frontend/src/components/Register.js:17-22 | The named field takes the new value; every other field keeps its value. |
| Registration.ValidateForm | frontend/src/components/Register.js:24-46 | Fails on a blank username or an empty password or confirmation. Then on an untrimmed username shorter than 3. Then on a password shorter than 6. Then on a mismatch. Otherwise passes. Each is stated as if-and-only-if. |
| Registration.TwoCharacterUsernameRejected | frontend/src/components/Register.js:30-33 | `ab` is rejected as too short although it is not blank. |
| Registration.PaddedShortUsernameAccepted | frontend/src/components/Register.js:30 | ` ab` passes validation, yet its trimmed form `ab`, which is what gets registered, has two characters. |
| Registration.ValidateFormIntended | frontend/src/components/Register.js:24-46 | The same ordered chain with the length check on the trimmed name. It fails for missing fields, then for a trimmed username shorter than 3, then for a password shorter than 6, then for a mismatch, and otherwise passes. Each outcome is stated as if-and-only-if. |
| Registration.IntendedIsStricter | frontend/src/components/Register.js:24-46 | The corrected validator accepts exactly the forms the as-written one accepts whose trimmed username has at least 3 characters. |
| Registration.RegisterForm.constructor | frontend/src/components/Register.js:7-13 | The form starts with empty fields, no message and loading off. |
| Registration.RegisterForm.HandleChange | frontend/src/components/Register.js:17-22 | Only the named form field changes. |
| Registration.RegisterForm.HandleSubmit | frontend/src/components/Register.js:48-68 | A failed validation makes no call, shows its message and leaves loading alone. A passing one calls `register` with the trimmed username and the password. It shows the success text or the returned message, and loading ends off. |
| AuthService.Given | auth-service/app.py:34 | A request field is given exactly when it is present and not the empty string, as Python's `not` tests it. |
| AuthService.FindUser | auth-service/app.py:37 | Returns the first record with the username, and nothing exactly when none has it. |
| AuthService.FindCredential | auth-service/app.py:58 | Returns the first record with both the username and the hash, and nothing exactly when none has both. |
| AuthService.FindCredentialAppend | auth-service/app.py:41-45 | Appending a record adds exactly its own username and hash to the pairs that are found. |
| AuthService.UniqueLogin | auth-service/app.py:58 | With unique usernames, a user's credentials are found exactly for the hash stored with that user. |
| AuthService.CredentialStore.constructor | auth-service/app.py:24-26 | The table starts empty, and it carries the given hash function and token lifetime. |
| AuthService.CredentialStore.Register | auth-service/app.py:28-46 | A missing or empty field gives 400 and an existing username gives 400, both with the table unchanged. Otherwise it appends exactly (username, hash(password), now) and gives 201. Usernames stay unique. |
| AuthService.CredentialStore.Login | auth-service/app.py:48-68 | A missing or empty field gives 400. Otherwise the reply is 200 exactly when some record has the username and hash(password). A 200 carries a token for the username that expires `JWT_EXPIRATION_HOURS` hours after now; anything else is 401. The table is never modified. |
| AuthService.RegisterThenLogin | auth-service/app.py:28-68 | A new username with a non-empty password registers, and a successful registration is followed by a successful login. |
| ObjectIds.IdString | user-service/app.py:37 | `str` of an id is 24 lowercase hex digits. |
| ObjectIds.ParseObjectId | user-service/app.py:35 | `ObjectId(s)` accepts exactly the 24-character hex strings, and the id belongs to the 2^96 ids. |
| ObjectIds.ParseIdString | user-service/app.py:35-37 | Writing an id out and parsing it back gives the same id. |
| ObjectIds.IdStringOfParse | user-service/app.py:35-37 | A parsed string writes back as its lowercase form. |
| ObjectIds.ParseIgnoresCase | user-service/app.py:35 | A hex string parses to the same id as its lowercase form. |
| UserService.IdText | user-service/app.py:37 | `str` of a generated id is 24 lowercase hex digits that parse back to the id. A supplied id is its own text. |
| UserService.ShowValue | user-service/app.py:40 | `jsonify` writes a clock reading nobody converted as an HTTP-date, and a text as itself. |
| UserService.NewDoc | user-service/app.py:27-29 | The inserted document holds the body's fields as texts, except `_id`, and `created_at` set to the server clock. |
| UserService.SetFields | user-service/app.py:49-50 | `$set` gives every body field its new text and `updated_at` the server clock. Every other field keeps its value. |
| UserService.SetFieldsIdempotent | user-service/app.py:50-53 | Repeating the same update at the same instant changes nothing, so `modified_count` is 0. |
| UserService.FindId | user-service/app.py:35 | `find_one` by `_id` returns the first document with that id, and nothing exactly when none has it. |
| UserService.CreatedRowFound | user-service/app.py:29 | A document inserted under a new id is found under it. |
| UserService.DeletedRowGone | user-service/app.py:60 | With distinct ids, after the document is removed nothing is found under its id. |
| UserService.DeleteKeepsOthers | user-service/app.py:60 | Removing one document leaves every other id found, at the same or the previous position. |
| UserService.GetView | user-service/app.py:36-40 | The `get` reply holds the document's fields plus `_id` as text and `created_at` in ISO form. It fails exactly when `created_at` holds text. |
| UserService.ListView | user-service/app.py:71-76 | A `list` entry is like `get`, with `updated_at` in ISO form too. It fails exactly when either stamp holds text. |
| UserService.ListAll | user-service/app.py:67-77 | The `list` body succeeds exactly when every entry does. It then has one entry per document, in collection order. |
| UserService.CreateGetRoundTrip | user-service/app.py:27-40 | A created document reads back through `get` with its id, its body fields as texts, and `created_at` as the creation instant. |
| UserService.UpdateGetRoundTrip | user-service/app.py:45-55 | After an update that leaves `created_at` alone, `get` shows every updated field's new text and the update instant. |
| UserService.DashboardCreateBreaksList | user-service/app.py:74-75 | Once a document created with a text `updated_at` is stored, `list` fails whatever else the collection holds. |
| UserService.IsoIfStamp | user-service/app.py:74-75 | The corrected conversion: a clock reading becomes its ISO form, and a text is passed through as itself. |
| UserService.ListViewIntended | user-service/app.py:71-76 | The corrected entry never fails. It holds the document's keys plus `_id` written out. Each stamp goes through the corrected conversion, so a text stamp is listed as that text. Every other field is shown as `jsonify` writes it. It agrees with the as-written entry wherever that succeeds. |
| UserService.ListAllIntended | user-service/app.py:67-77 | The corrected body lists every document once, in collection order, each as its corrected entry with its id. It agrees with the as-written body wherever that succeeds. |
| UserService.ProfileTable.constructor | user-service/app.py:23 | The collection starts empty. |
| UserService.ProfileTable.Create | user-service/app.py:25-30 | Without `_id` in the body, it appends one document under a fresh generated id and replies 201 with that id. With `_id`, the body's text is the id, and a duplicate raises (500) with nothing changed. Other documents are unchanged. |
| UserService.ProfileTable.Get | user-service/app.py:32-43 | An invalid id gives 400 and an absent one 404. A present one gives 200 with its view, or 400 when `created_at` holds text. Nothing changes. |
| UserService.ProfileTable.Update | user-service/app.py:45-55 | An invalid id gives 400 and an absent one 404, both with no change. `_id` in the body gives 400 with no change. Otherwise the one document gets the `$set` merge, and the reply is 200 when that modified it and 404 when it did not. |
| UserService.ProfileTable.Delete | user-service/app.py:57-65 | An invalid id gives 400 and an absent one 404, both with no change. Otherwise exactly that document is removed and the reply is 200. |
| UserService.ProfileTable.List | user-service/app.py:67-77 | Replies 200 with the `list` body when every document converts, and 500 otherwise. Nothing changes. |
| UserService.CreateGetDelete | user-service/app.py:25-65 | A created document is readable under the returned id with its body fields. Deleting it succeeds, and afterwards it is not found. |

## Left out

- Rendering, tabs, `formatDate`, logout, `clearMessage` and the message timer. The banner is modelled as the last value set.
- The registration redirect timer.
- `useAuth`, axios and `async`: the current username is a constructor argument, and remote calls are outcome parameters. A call's outcome is fixed before the call, so interleavings of concurrent handlers are not modelled.
- `Date` parsing and `toDateString`: records carry an optional day number and "today" is a parameter. The user service's clock readings and the dashboard's day numbers are not linked.
- `Number` coercion of the age beyond whole decimal numbers. The model reads the trimmed string as a decimal when it is all digits and treats anything else as `NaN`. So `1.5`, `+7`, `0x10` and `1e2` are rejected here although JavaScript accepts all of them.
- Non-ASCII whitespace in `trim` and `\s`, and non-ASCII letters in `toUpperCase`.
- Registration.ValidateForm: lengths count Unicode scalar values, whereas JavaScript's `.length` counts UTF-16 units. A password of three characters outside the Basic Multilingual Plane has length 6 in JavaScript and passes there, but is rejected here.
- DashboardRules.UserInitials: `charAt(0)` and `[0]` are taken as the first Unicode scalar value, whereas JavaScript gives the first UTF-16 unit. A name starting with a character outside the Basic Multilingual Plane gets a lone surrogate as its initial in JavaScript, and the whole character here.
- Each service request is modelled as one atomic step. Flask serves requests on threads, and `register` runs `find_one` and then `insert_one` with no unique index (`auth-service/app.py:37-45`). So two concurrent registrations of the same new username can both pass the check and both insert. The model does not capture that race, and the uniqueness invariant holds only for requests handled one at a time.
- DashboardController.Dashboard.FetchUsers: record ids are taken to be non-empty. A `create` body can supply `_id` as `""` (`user-service/app.py:27-29`), which the list writes out as `""`; `setProfileId("")` would then make `if (profileId)` false, so every submit would create again. The model does not capture this. So "an id that was set stays set" (`Reseed`, `FetchUsers`), "the id is never cleared" (`HandleProfileSubmit`) and `CreateThenUpdate` hold only for non-empty ids. This frontend never sends `_id`.
- Record fields of the dashboard list that are not strings. The model types every field as a string.
- SHA-256: the hash is a parameter. JWT encoding and signing: the token is represented by its claims.
- The `/verify` and `/health` endpoints, CORS and environment configuration.
- The API gateway: it forwards requests and has no logic of its own.
- JSON request bodies that are not objects or whose values are not strings. Bodies are modelled as maps from strings to strings.
- UserService.ProfileTable.Create: it requires that fewer than 2^96 ids have been generated, because generated ids come from a counter rather than from the driver.
- Field names that MongoDB treats specially (dotted or `$`-prefixed keys) are not modelled.
- `bytes.fromhex` skipping spaces between hex pairs: a 24-character id with spaces is treated as invalid.
- The natural order of a MongoDB collection is modelled as insertion order.

## Findings

| source | as written | input that shows it | evidently intended | confidence | as-written member | corrected member |
|---|---|---|---|---|---|---|
| frontend/src/components/Register.js:30 | The length check reads the untrimmed username, but `register` receives the trimmed one | Username ` ab` with password `secret` twice: validation passes and `ab` is registered | Check the trimmed length, so every registered username has at least 3 characters | not executed | Registration.PaddedShortUsernameAccepted | Registration.ValidateFormIntended |
| user-service/app.py:74-75 | `list` calls `isoformat()` on `updated_at`. The dashboard's create body carries `updated_at` as the client's ISO text (frontend/src/components/Dashboard.js:118), and `create` stores it as given | Any dashboard create, followed by `GET /list`: the call raises, the reply is 500, and the dashboard shows the load error until the profile is updated | Convert only clock readings and pass text through, so every stored document is listed | not executed | UserService.DashboardCreateBreaksList | UserService.ListAllIntended |
| frontend/src/components/Dashboard.js:168 | The one-word case takes the first character of the untrimmed name | Name ` bob`: the initial is a space | Take the first character of the trimmed name | not executed | DashboardRules.PaddedNameInitial | DashboardRules.UserInitialsIntended |
