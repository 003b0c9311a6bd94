# Movie app authentication, admission and table logic in Dafny

This project models the decision logic of a Next.js movie catalogue with
user accounts and proves properties about it:

- **Route admission gate** (`middleware.ts`). Public paths and Next.js assets
  pass by prefix. A protected path needs a `session` cookie that verifies;
  otherwise the request is redirected to `/login`, with `from=<path>` only
  when the cookie is missing. The matcher keeps every path under
  `/api/movies` away from the gate.
- **Login** (`app/api/auth/login/route.ts`). The steps run in this order:
  - normalise the email (trim, lower-case);
  - reject empty fields, then a malformed email;
  - look the user up and compare the password with bcrypt;
  - sign a session token over the stored `{userId, email}`;
  - set it as an `httpOnly`, `lax`, seven-day `session` cookie.
- **Registration** (`app/api/auth/register/route.ts`). A read-then-write on
  the user table: an empty-field check, a duplicate pre-check, then one
  `create` with the bcrypt hash. The table is a class with a `map` field.
- **Registration page** (`app/register/page.tsx`). The five password rules,
  the `allOk`/`matchOk`/`canSubmit` combinators, and the submit handler that
  updates the form state.
- **Home page** (`app/page.tsx`). Four pieces:
  - poster URL normalisation;
  - the de-duplication of search results through a JavaScript `Map`;
  - the search handler with its blank-query guard;
  - the effect that fills the home rows from per-title lookups.
- **Favorites API** (`app/api/movies/api/favorites/route.ts`). Upsert, delete
  and a newest-first listing over a table keyed by `imdbID`.

Several things are modelled as values or parameters:

- The libraries the code calls are parameters:
  - token verification is a predicate on tokens;
  - token signing is a function from claims to an optional token (None when
    it throws);
  - bcrypt's compare is a function to an optional boolean;
  - bcrypt's hash is a function whose salt is already drawn.
- Prisma tables are maps. A Prisma call that throws is an explicit input:
  - `users: None` for the login lookup;
  - `lookupFailure` for the registration pre-check and `storeFailure` for
    its `create`;
  - `storeFailure` for the favorites `upsert` and `delete`.
  A route with a `catch` answers its 500; the favorites route has none, so
  its reply is `Crash`, the bare 500 of an uncaught exception.
- Network replies seen by the client pages are datatype parameters.
- The clock (`now`) and `NODE_ENV` (`isProduction`) are parameters.

The files are:

| file | module | contents |
|---|---|---|
| `wrappers.dfy` | `Wrappers` | `Option` |
| `js_strings.dfy` | `JsStrings` | JavaScript `trim`, `toLowerCase`, `startsWith`, `replace` with a string pattern and its `$` substitutions, `a \|\| fallback` on strings |
| `auth.dfy` | `Auth` | user record, token claims, token lifetime, oracle types |
| `http.dfy` | `Http` | JSON bodies, cookies, responses, status codes |
| `middleware.dfy` | `Middleware` | the admission gate and the matcher |
| `login_route.dfy` | `LoginRoute` | the login route |
| `register_route.dfy` | `RegisterRoute` | the registration route (`class UserTable`) |
| `register_page.dfy` | `RegisterPage` | password rules, `class RegisterForm` |
| `home_page.dfy` | `HomePage` | poster URLs, `Map` de-dup, `class Home` |
| `favorites_route.dfy` | `FavoritesRoute` | `class FavoritesTable` |

Where the code differs from what one would expect, the model follows the code:

- The registration route neither trims nor lower-cases the email, while
  login looks users up by the trimmed, lower-case email. One would expect
  both routes to use the same normal form. The page normalises before it
  posts, but a direct request does not.
  `RegisterRoute.InsertedUnnormalizedUnreachable` shows the consequence: a
  record stored under a non-normalised email can never be reached by login.
- The registration route has no server-side password policy. One would
  expect it to enforce the five rules the page checks;
  `RegisterRoute.NoServerPasswordPolicy` shows a one-letter password
  accepted.
- A registration that loses the uniqueness race after the pre-check answers
  500 "Register failed". One would expect the 409 "Email already
  registered" the pre-check gives (`RegisterRoute.InterleavedRegistrations`).
- The gate does not delete a stale `session` cookie when verification
  fails. One would expect the redirect to clear it. As it is, every later
  request is redirected again without `from`, until the cookie expires or
  the user logs in again.
- An unset `JWT_SECRET` makes `app/lib/auth.ts` sign and verify with the
  empty key. One would expect the server to refuse to run without a
  secret. Signing and verification are parameters here, so either outcome
  of that key is covered.

## Model

| member | source | states |
|---|---|---|
| JsStrings.IsSpace | app/api/auth/login/route.ts:10 | the characters `trim` removes and `\S` excludes: ECMAScript's WhiteSpace and LineTerminator characters |
| JsStrings.StartsWith | middleware.ts:12-14 | `s.startsWith(prefix)`: the prefix is no longer than `s` and equals its first characters |
| JsStrings.LowerChar | app/api/auth/login/route.ts:10 | `toLowerCase` on one character: A-Z map to a-z, every other character is kept; the result is never A-Z and is a space exactly when the input is |
| JsStrings.Trim | app/api/auth/login/route.ts:10 | the result has no leading or trailing JavaScript whitespace and is no longer than the input |
| JsStrings.TrimIsSlice | app/api/auth/login/route.ts:10 | the result is one contiguous slice of the input, and every character before and after that slice is whitespace |
| JsStrings.TrimOfTrimmed | app/page.tsx:159 | a string with no whitespace at either end is its own `trim()` |
| JsStrings.TrimIdempotent | app/page.tsx:159 | trimming twice equals trimming once |
| JsStrings.ToLower | app/api/auth/login/route.ts:10 | same length; each character is lowered; no A-Z remains |
| JsStrings.ToLowerIdempotent | app/api/auth/login/route.ts:10 | lowering twice equals lowering once |
| JsStrings.NormalizeEmail | app/api/auth/login/route.ts:10 | `trim().toLowerCase()` is trimmed, has no A-Z, and is empty exactly when the trimmed input is |
| JsStrings.NormalizeEmailIdempotent | app/register/page.tsx:40 | normalising a normalised email changes nothing, so the email the page sends is what login looks up |
| JsStrings.IndexOfFrom | app/api/auth/login/route.ts:21 | the first occurrence at or after `from`, or None when there is none |
| JsStrings.Substitution | app/page.tsx:35 | the text `replace` inserts for a match: `$$` is `$`, `$&` the match, `` $` `` the text before it, `$'` the text after it, any other character itself |
| JsStrings.SubstitutionOfPlain | app/page.tsx:35 | a replacement without `$` is inserted unchanged |
| JsStrings.ReplaceFirst | app/page.tsx:35 | `replace` with a string pattern: the first occurrence `IndexOfFrom` finds is swapped for the substituted replacement, or the string is returned unchanged |
| JsStrings.ReplaceFirstWithoutMatch | app/page.tsx:35 | with no occurrence of the pattern the string is unchanged |
| JsStrings.ReplaceFirstReplacesFirst | app/page.tsx:35 | the occurrence with none before it is swapped for the substituted replacement and the text on both sides is kept |
| JsStrings.ReplaceFirstOfPrefix | app/page.tsx:35 | `replace` on a string that starts with the pattern rewrites exactly that prefix |
| JsStrings.ReplaceExpandsDollarPatterns | app/page.tsx:35 | `"ab".replace("a", "$&$&")` is `"aab"`, with `"$$"` it is `"$b"`, with `"$'"` it is `"bb"` |
| JsStrings.ErrorText | app/register/page.tsx:55 | `data?.error` when it is a non-empty string, otherwise the fallback (also the home page's `data?.error \|\| "Search failed"`); non-empty whenever the fallback is |
| Auth.TokenLifetimeSeconds | app/lib/auth.ts:9 | "7d" is 604800 seconds |
| Middleware.Without | middleware.ts:24 | removes every pair with the name, keeps every other pair and adds none |
| Middleware.Get | middleware.ts:24 | `searchParams.get`: some value exactly when some pair has the name, and then the value of the first pair with that name |
| Middleware.Set | middleware.ts:24 | `searchParams.set`: `get` then returns the value, the name occurs once, and the pairs of every other name are unchanged |
| Middleware.IsPublic | middleware.ts:5-17 | a path is public when it starts with one of the four public routes, with `/_next` or with `/favicon` |
| Middleware.HasSession | middleware.ts:19-21 | the `session` cookie is present and non-empty |
| Middleware.Gate | middleware.ts:7-36 | passes exactly when the path is public or the `session` cookie is non-empty and verifies; every redirect targets `/login` |
| Middleware.Serve | middleware.ts:38-40 | paths under `/api/movies` are served without the gate; every other path gets the gate's decision |
| Middleware.PrefixMatchExamples | middleware.ts:5-17 | `/registered`, `/login/x`, `/_next/...` and `/favicon.ico` are public because matching is by prefix |
| Middleware.ProtectedExamples | middleware.ts:5-17 | `/`, `/profile` and `/favorites` are not public |
| Middleware.PublicPathPasses | middleware.ts:11-17 | a public path passes whatever the cookies and the verifier |
| Middleware.MissingSessionRedirectsWithFrom | middleware.ts:19-26 | no or empty cookie: redirect to `/login` with `from` set to the path and every other query pair kept |
| Middleware.VerifiedSessionPasses | middleware.ts:28-30 | a cookie that verifies passes |
| Middleware.FailedVerificationRedirectsPlain | middleware.ts:31-35 | a cookie that fails verification redirects to `/login` with the query unchanged, no `from` |
| Middleware.NoRedirectLoop | middleware.ts:22-34 | the target of any redirect passes the gate and the matcher: no loop |
| Middleware.MovieApiIsOpen | middleware.ts:39 | every path under `/api/movies` is served with no session |
| Middleware.FavoritesApiIsOpen | middleware.ts:39 | the favorites API path is served with no session |
| Middleware.DecisionDependsOnlyOnOutcome | middleware.ts:7-36 | requests agreeing on URL, `session` cookie and verification outcome get the same decision |
| LoginRoute.EmailFormatIsRegex | app/api/auth/login/route.ts:21 | the executable format test accepts exactly the strings `^\S+@\S+\.\S+$` matches |
| Http.FieldText | app/api/auth/login/route.ts:10-11 | `(field \|\| "").toString()` on a string field: an absent field reads as the empty string |
| LoginRoute.Credentials | app/api/auth/login/route.ts:8-11 | the normalised email and the verbatim password; an unparseable body gives two empty strings |
| LoginRoute.PassesValidation | app/api/auth/login/route.ts:13-23 | both fields are non-empty and the email passes the format test |
| LoginRoute.IsEmailFormat | app/api/auth/login/route.ts:21 | the executable format test: no whitespace, an `@` after the first character, then a `.` at least two characters later with a character after it |
| LoginRoute.Respond | app/api/auth/login/route.ts:13-51 | an empty field gives 400 "Email and password required"; otherwise a failed format test gives 400 "Invalid email"; otherwise the answer is the authentication's; a cookie exactly on 200 |
| LoginRoute.SessionCookieFor | app/api/auth/login/route.ts:43-49 | cookie `session` carries the token, httpOnly, `lax`, path `/`, secure exactly in production, Max-Age equal to the token lifetime |
| LoginRoute.Authenticate | app/api/auth/login/route.ts:25-51 | after validation: status 200, 401 or 500; cookie exactly on 200; 200 only for a stored email; 401 and 500 are the fixed error bodies |
| LoginRoute.Login | app/api/auth/login/route.ts:6-56 | status 200, 400, 401 or 500; cookie exactly on 200; 400 exactly when validation fails; otherwise the answer is the authentication's |
| LoginRoute.MissingBodyIsRequiredError | app/api/auth/login/route.ts:8-18 | an unparseable body behaves as two empty fields and gets 400 "Email and password required" |
| LoginRoute.LoginSeesNormalizedEmail | app/api/auth/login/route.ts:10 | emails with the same trimmed lower-case form get the same response |
| LoginRoute.EmptyFieldBeforeFormat | app/api/auth/login/route.ts:13-18 | an empty field gets "Email and password required" whatever the format |
| LoginRoute.BadFormatIsInvalidEmail | app/api/auth/login/route.ts:20-23 | non-empty fields with an email the regex rejects get 400 "Invalid email" |
| LoginRoute.NoStoreAccessBeforeValidation | app/api/auth/login/route.ts:13-28 | before validation passes the response is 400 and independent of store, bcrypt and signer |
| LoginRoute.UnknownUserLooksLikeWrongPassword | app/api/auth/login/route.ts:30-37 | unknown email and wrong password give the identical 401 "Invalid credentials" with no cookie |
| LoginRoute.SuccessfulLogin | app/api/auth/login/route.ts:39-51 | success means bcrypt accepted and signing succeeded; the body is `{ok: true}` and the cookie holds the token over the stored id and email |
| LoginRoute.CookieLifetimeMatchesToken | app/api/auth/login/route.ts:48 | the cookie's Max-Age equals the token's seven-day lifetime |
| LoginRoute.InternalFailuresAre500 | app/api/auth/login/route.ts:52-55 | a throwing lookup, compare or sign gives 500 "Login failed" with no cookie |
| LoginRoute.TokenNamesLoginEmail | app/api/auth/login/route.ts:39 | when every record sits under its own email, the token of a successful login is signed over the email that was looked up |
| LoginRoute.AuthenticatedOnlyWithRecord | app/api/auth/login/route.ts:25-51 | authentication gives 200 only for a stored email whose hash bcrypt accepts and whose claims were signed, and then sets exactly that token as the cookie |
| LoginRoute.AuthenticateReadsOneKey | app/api/auth/login/route.ts:25-28 | the store is read at the normalised email only: stores that agree at that key give the same answer |
| LoginRoute.NormalizedLookupIgnoresUnnormalized | app/api/auth/login/route.ts:25-28 | authenticating a normalised email gives the same answer for two stores that differ only at a non-normalised key |
| LoginRoute.ValidatedLoginIgnoresUnnormalized | app/api/auth/login/route.ts:10-28 | a body that passes validation gets the same response from two stores that differ only at a non-normalised key |
| LoginRoute.UnnormalizedRecordUnreachable | app/api/auth/login/route.ts:10-28 | two stores that differ only in a record whose email is not normalised give every login the same response |
| LoginRoute.ValidBodyAuthenticates | app/api/auth/login/route.ts:8-23 | a normalised email matching the regex and a non-empty password pass both validations and reach authentication |
| LoginRoute.AuthenticateSucceeds | app/api/auth/login/route.ts:25-51 | a stored email, a password bcrypt accepts and a token that could be signed give 200 `{ok: true}` with that token's session cookie |
| LoginRoute.StoredCredentialsLogIn | app/api/auth/login/route.ts:25-51 | a normalised well-formed email with a record bcrypt accepts logs in with the token over that record |
| RegisterRoute.Filled | app/api/auth/register/route.ts:10 | `!email \|\| !password` is false: both fields are present and non-empty |
| RegisterRoute.ReadPhase | app/api/auth/register/route.ts:8-17 | proceeds exactly when the body parses, both fields are non-empty, the pre-check does not throw and the raw email is absent; a throwing pre-check gives 500 "Register failed"; a 409 only for a present email |
| RegisterRoute.UserTable.FindUnique | app/api/auth/register/route.ts:14 | throws exactly when the store fails; otherwise finds the record exactly when the raw email is a key |
| RegisterRoute.UserTable.Create | app/api/auth/register/route.ts:21-23 | adds one record under the email exactly when the store works and the email is free; otherwise nothing changes |
| RegisterRoute.UserTable.Admit | app/api/auth/register/route.ts:8-17 | the read phase against the current table, with a pre-check that may throw, writing nothing |
| RegisterRoute.UserTable.Commit | app/api/auth/register/route.ts:19-29 | hash then create; 200 `{ok: true}` with one new record, or 500 "Register failed" with the table unchanged |
| RegisterRoute.UserTable.Register | app/api/auth/register/route.ts:6-30 | 500 for an unparseable body, 400 for an empty field, 500 for a throwing pre-check, 409 for a present email, 500 for a failed create (table unchanged in each); else exactly one record with the hash; never a cookie |
| RegisterRoute.NoServerPasswordPolicy | app/api/auth/register/route.ts:10-23 | a one-letter password is accepted |
| RegisterRoute.InterleavedRegistrations | app/api/auth/register/route.ts:14-29 | two registrations passing the pre-check before either writes: first 200, second 500 (not 409), one record |
| RegisterRoute.RegisterThenLogin | app/api/auth/register/route.ts:6-30 | registering a normalised well-formed email and logging in with the same password succeeds |
| RegisterRoute.RegisterUnnormalizedThenLogin | app/api/auth/register/route.ts:14-23 | registering a non-normalised email succeeds yet leaves every login response unchanged |
| RegisterRoute.InsertedUnnormalizedUnreachable | app/api/auth/register/route.ts:21-23 | adding a record under a non-normalised email leaves every login response unchanged |
| RegisterPage.InClass | app/register/page.tsx:10-13 | the classes `[A-Z]`, `[a-z]`, `[0-9]` and `[^A-Za-z0-9]` |
| RegisterPage.Test | app/register/page.tsx:10-13 | `/[class]/.test(pw)`: scans for a character of the class |
| RegisterPage.TestFinds | app/register/page.tsx:10-13 | `/[class]/.test(pw)` holds exactly when some character is in the class |
| RegisterPage.ValidatePassword | app/register/page.tsx:7-15 | the five rules of `validatePassword`, each one test of the password |
| RegisterPage.ValidatePasswordRules | app/register/page.tsx:7-15 | each rule holds exactly when its condition does: length at least 8, an A-Z, an a-z, a 0-9, a character outside A-Za-z0-9 |
| RegisterPage.AllOk | app/register/page.tsx:30 | `Object.values(rules).every(Boolean)`: all five rules hold |
| RegisterPage.MatchOk | app/register/page.tsx:31 | the password is non-empty and equals the confirmation |
| RegisterPage.CanSubmit | app/register/page.tsx:33 | the button is enabled when the trimmed email is non-empty, all rules and the match hold, and no request is in flight |
| RegisterPage.SubmitAllowed | app/register/page.tsx:40-41 | the handler's guard: the trimmed lower-case email is non-empty and all rules and the match hold |
| RegisterPage.AllOkMeansEveryRule | app/register/page.tsx:30 | `allOk` holds exactly when all five conditions hold |
| RegisterPage.MixedPasswordPasses | app/register/page.tsx:7-15 | "Passw0rd!" passes every rule |
| RegisterPage.SpaceIsSpecial | app/register/page.tsx:13 | a space counts as a special character |
| RegisterPage.CanSubmitPassesGuard | app/register/page.tsx:33-41 | an enabled button implies the submit guard passes |
| RegisterPage.RegisterForm.constructor | app/register/page.tsx:20-27 | the form starts with empty fields and messages and `loading` false |
| RegisterPage.RegisterForm.OnSubmit | app/register/page.tsx:35-71 | sends exactly when the normalised email is non-empty and the rules and match hold, with the normalised email and raw password, and then the form settles as `Settle` states; otherwise clears the messages and changes nothing else |
| RegisterPage.RegisterForm.Settle | app/register/page.tsx:44-70 | ok reply clears the three fields and shows success; failed reply or thrown error keeps them and sets `err`; `loading` ends false |
| HomePage.IsMissingPoster | app/page.tsx:34 | `!poster \|\| poster === "N/A"`: undefined, empty or "N/A" |
| HomePage.NormalizePosterUrl | app/page.tsx:33-37 | placeholder for undefined, "" or "N/A"; `https://` plus the remainder for `http://`; otherwise unchanged; the result is never missing and never starts with `http://` |
| HomePage.NormalizePosterUrlIdempotent | app/page.tsx:33-37 | normalising a normalised poster URL changes nothing |
| HomePage.FirstIndex | app/page.tsx:179 | the first index carrying the id |
| HomePage.LastIndex | app/page.tsx:179 | the last index carrying the id |
| HomePage.MapSet | app/page.tsx:179 | `Map.set`: an existing key keeps its place and takes the new value; a new key is appended; keys stay distinct |
| HomePage.MapSetHasKey | app/page.tsx:179 | after `set` the keys are the old ones and the new key |
| HomePage.MapOfItems | app/page.tsx:179 | the map built from the items has distinct keys, each the id of its value |
| HomePage.MapOfItemsKeys | app/page.tsx:179 | the map's keys are exactly the items' ids |
| HomePage.MapOfItemsFirstOrder | app/page.tsx:179 | keys are in order of first occurrence among the items |
| HomePage.MapOfItemsLastWins | app/page.tsx:179 | each key's value is the last item with that id |
| HomePage.Dedup | app/page.tsx:179 | `Array.from(new Map(items.map(m => [m.imdbID, m])).values())`: the values of the map the items build, in key order |
| HomePage.DedupIds | app/page.tsx:179 | the results have pairwise-distinct ids and exactly the input's ids |
| HomePage.DedupOrder | app/page.tsx:179 | results follow first-occurrence order of ids and each is the last input item with its id |
| HomePage.FetchMovieById | app/page.tsx:62-80 | a card exactly when the reply is ok with a body; the card is the requested id with the reply's title, year, poster, genre and rating |
| HomePage.Present | app/page.tsx:208 | `filter(Boolean)` keeps exactly the present values |
| HomePage.PresentAppend | app/page.tsx:208 | filtering distributes over concatenation, keeping order |
| HomePage.Lookups | app/page.tsx:207 | one lookup per id, in the order of the ids |
| HomePage.HomeRow | app/page.tsx:207-208 | one row: the cards of the lookups that succeeded, in id order |
| HomePage.HomeRowAppend | app/page.tsx:206-208 | a row is built id by id: successful lookups in id order, failed ones dropped |
| HomePage.RowTitlesDistinct | app/page.tsx:39-60 | the five row titles differ, so no row overwrites another |
| HomePage.UrlQuery | app/page.tsx:135 | the `q` parameter, or the empty string when it is missing, trimmed; the result has no whitespace at either end |
| HomePage.FillRows | app/page.tsx:205-209 | the row map's keys are exactly the row titles, and each title maps to its row's filtered lookups |
| HomePage.Home.constructor | app/page.tsx:137-143 | the input starts as the URL query; no results, no error, nothing loading, no home rows |
| HomePage.Home.Search | app/page.tsx:158-188 | a blank query after trimming changes nothing; otherwise one navigation to the trimmed query, then the de-duplicated results or the error text, and `loading` false; the input and the home rows are untouched |
| HomePage.Home.RunSearch | app/page.tsx:162-187 | past the guard: one navigation, then the de-duplicated results of an ok reply, or no results and the reply's error or the fixed message of a thrown error; `loading` false |
| HomePage.Home.OnUrlChange | app/page.tsx:191-195 | the input takes the trimmed URL query, which is searched exactly when non-empty; the home rows are untouched |
| HomePage.Home.LoadHomeRows | app/page.tsx:198-219 | with a URL query nothing changes; otherwise each row title maps to its filtered lookups and nothing else is stored |
| FavoritesRoute.Truthy | app/api/movies/api/favorites/route.ts:13 | a field is truthy when it is a non-empty string |
| FavoritesRoute.HasKeyFields | app/api/movies/api/favorites/route.ts:13 | the guard `!imdbID \|\| !Title` is false: both key fields are non-empty strings |
| FavoritesRoute.OnCreate | app/api/movies/api/favorites/route.ts:18 | a created column holds the body's string when the field is a string, and is null for `undefined` or `null` |
| FavoritesRoute.OnUpdate | app/api/movies/api/favorites/route.ts:19 | an update leaves a column for `undefined`, clears it for `null`, sets it for a string |
| FavoritesRoute.Upsert | app/api/movies/api/favorites/route.ts:16-20 | the key set gains the id; other rows are unchanged; the row has the id and title; `createdAt` is kept on update and is `now` on create; keying by id is preserved |
| FavoritesRoute.UpsertIdempotent | app/api/movies/api/favorites/route.ts:16-20 | posting the same body twice equals posting it once, at any later time |
| FavoritesRoute.UpsertCreates | app/api/movies/api/favorites/route.ts:16-18 | a new id gets exactly the posted id, title, poster, year and type, stamped `now` |
| FavoritesRoute.UpsertUpdates | app/api/movies/api/favorites/route.ts:16-19 | an existing row takes the posted title, and the poster, year and type as the update rules give them; its id and `createdAt` stay |
| FavoritesRoute.UpsertThenRemove | app/api/movies/api/favorites/route.ts:16-30 | creating then deleting an id leaves the other rows as before |
| FavoritesRoute.InsertNewestFirst | app/api/movies/api/favorites/route.ts:5 | inserting adds exactly the one row to the listing's multiset of rows |
| FavoritesRoute.InsertKeepsNewestFirst | app/api/movies/api/favorites/route.ts:5 | inserting into a listing ordered by `createdAt` descending keeps it so ordered |
| FavoritesRoute.InsertMembers | app/api/movies/api/favorites/route.ts:5 | the listing grows by one and holds the old rows and the new one |
| FavoritesRoute.InsertKeepsIdsDistinct | app/api/movies/api/favorites/route.ts:5 | inserting a row with a new id keeps ids distinct |
| FavoritesRoute.FavoritesTable.Get | app/api/movies/api/favorites/route.ts:4-7 | every row exactly once, ordered by `createdAt` descending |
| FavoritesRoute.FavoritesTable.Post | app/api/movies/api/favorites/route.ts:9-23 | unparseable body throws; missing `imdbID` or `Title` gives 400 "Missing imdbID/Title" with no change; a failing upsert throws with no change; otherwise the table is the upsert and the saved row is returned |
| FavoritesRoute.FavoritesTable.Delete | app/api/movies/api/favorites/route.ts:25-32 | missing id gives 400 "Missing imdbID" with no change; an absent row or a failing store throws with no change; otherwise exactly that row goes and the reply is `{ok: true}` |

## Left out

- Strings are sequences of Unicode scalar values, not UTF-16 code units. A
  character outside the Basic Multilingual Plane counts once here and twice
  in JavaScript, which matters only for the `length >= 8` rule.
- `toLowerCase` maps only A-Z. Non-ASCII case mappings are not modelled.
- JSON fields that are numbers, booleans or objects are not modelled (a truthy
  non-string `email` becomes text through `toString()`). Every body field is
  a string, absent or null.
- `fetchMovieById`'s `!data` test is modelled for an empty reply. JSON
  literals `false`, `0` and `""` as a whole body are not.
- HS256 signing, JWT encoding, `jwtVerify`, expiry checking against the
  clock, and bcrypt's hashing are abstract parameters. That a token expires
  seven days after issue is stated only as the lifetime constant.
- The OMDb proxy routes, `fetch`, `encodeURIComponent` of navigation URLs and
  JSON parsing of remote bodies are not modelled. A navigation is recorded as
  the query it carries.
- Rendering, styles, the menu, logout, `router.refresh`, the 900 ms
  `setTimeout` before the redirect to `/login`, and the other pages (login,
  favorites, profile, movie detail) are not modelled.
- The cancellation flag of the home-rows effect and the interleaving of
  concurrent awaits are not modelled. The effect runs to completion.
- HomePage.Home.LoadHomeRows: each id's lookup reply is a function of the id.
  Two rows listing the same id therefore see the same reply, while the page
  fetches it twice.
- FavoritesRoute.FavoritesTable.Get: the order of rows with equal `createdAt`
  is not fixed. Prisma's order for ties is unspecified as well.
- FavoritesRoute.FavoritesTable.Get: a failing `findMany` is not modelled.
  It would be a bare 500 that changes nothing.
- RegisterRoute.UserTable.Commit: a throwing `bcrypt.hash` is not a separate
  input. It would end like a failed create (`storeFailure`): 500 "Register
  failed" with the table unchanged.
- FavoritesRoute.Upsert: the `createdAt` default (the time of creation) and
  the row's other schema columns come from the Prisma schema, which is not
  part of this model.
- FavoritesRoute.Upsert: an `undefined` field in the update leaves its column
  as it was. This follows Prisma's rule for `undefined` in update data. A
  `null` field clears the column.
- The favorites page calls `/api/favorites`, which is not where this route is
  mounted. The page is not part of this model.
