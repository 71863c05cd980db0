# Pick16-API users router, modelled in Dafny

This project models the user routes of the Pick16-API server, `users/router.js`:

- the signup validation pipeline. It runs four checks over the JSON request body, in order: presence, string type, surrounding whitespace and size. It stops at the first failure and reports at most one `ValidationError` (HTTP 422, a message and the offending field as its location).
- the registration chain that follows validation. It checks that the username is free, hashes the password, creates the user, and maps any rejection that is not a `ValidationError` to a generic 500.
- `sortByKey(users, 'points')`, which ranks users for `GET /users/all`.
- `GET /users/:username`. When no user has that username, it answers 500.

Every handler is a pure function over the user store (a `seq<User>`). Signup maps the store and a request body to a new store and a response. The two read handlers return a response and leave the store alone. The signup collaborators are parameters of type `Env`: the `count` and `create` queries, which may reject, bcrypt's `User.hashPassword`, which resolves to an abstract `Digest` or rejects, and the schema's default points. A failure of a read query (`findOne` or `find({})`) is the handler's `findFails` flag.

Files:

- `wrappers.dfy`: `Option` and `Result`.
- `strings.dfy`: `trim` over `seq<char>`, the whitespace set, and decimal rendering for messages.
- `signup.dfy`: the body model, the four validation stages and `Validate`.
- `signup_properties.dfy`: which error a body gets, boundary values, and the message texts.
- `users.dfy`: the `User` record, the store, and the `count` and `findOne` queries.
- `ranking.dfy`: the comparator and `sortByKey`.
- `router.dfy`: responses, the signup `.catch`, and the signup, lookup and list handlers.
- `router_properties.dfy`: properties that span several requests, such as uniqueness, lookup after signup, and repeated signup.

Validation hands on the three fields exactly as sent. `name` is trimmed only when the user is created (users/router.js:109), so `Signup.Validate` returns the raw name and `Router.Register` stores it trimmed.

## Model

| member | source | states |
|---|---|---|
| `Signup.FindIndex` | users/router.js:39 | `Array.prototype.find` by position: the index returned satisfies the predicate and no earlier element does; `None` exactly when no element does |
| `Signup.Find` | users/router.js:86-95 | over the field lists (`username`, `password`, `name` in that order), the field found satisfies the predicate and every field of lower rank does not; `None` exactly when no listed field satisfies it |
| `Signup.EveryFieldListed` | users/router.js:38 | the required-field list holds all three fields, each at its rank |
| `Signup.CheckPresence` | users/router.js:38-47 | no error exactly when all three fields are present; otherwise `'Missing field'` at an absent field with every earlier field present |
| `Signup.CheckTypes` | users/router.js:48-59 | no error exactly when every present field is a string; otherwise `'Incorrect field type: expected string'` at a present non-string field, with every earlier present field a string |
| `Signup.CheckWhitespace` | users/router.js:60-71 | no error exactly when `username` and `password` equal their trimmed forms; otherwise `'Cannot start or end with whitespace'`, never at `name`, at `password` only when `username` is trimmed |
| `Signup.CheckSizes` | users/router.js:72-107 | no error exactly when no field is too small or too large; if any field is too small, the error is `Must be at least <min> characters long` at a too-small field no later than any other too-small field; with nothing too small, it is `Must be at most <max> characters long` at the first too-large field |
| `Signup.PresenceAndTypes` | users/router.js:38-59 | the first two stages pass exactly when all three fields are strings |
| `Signup.WhitespaceStage` | users/router.js:60-71 | the whitespace stage passes exactly when `username` and `password` are tight, and then their trimmed lengths equal their raw lengths |
| `Signup.SizeStage` | users/router.js:72-107 | the size stage passes exactly when the trimmed lengths satisfy username 1..17, password 5..72, name at most 17 |
| `Signup.MinLength` | users/router.js:72-85 | `username` and `password` have a minimum length of at least 1 and `name` has none, as in `sizedFields` |
| `Signup.MaxLength` | users/router.js:72-85 | every field has a maximum length, above its minimum where it has one; the password maximum is 72, the bcrypt limit noted at line 79 |
| `Signup.Validate` | users/router.js:37-108 | the body is accepted exactly when it meets the registration rules: three string fields, `username` and `password` without surrounding whitespace, username 1..17, password 5..72, trimmed name at most 17; an accepted body yields its three fields unchanged |
| `SignupProperties.MissingFieldWins` | users/router.js:38-47 | a body with an absent field is rejected with `'Missing field'` at the first absent field in the order username, password, name |
| `SignupProperties.FirstNonStringWins` | users/router.js:48-59 | with all fields present, the first non-string field is reported with `'Incorrect field type: expected string'` |
| `SignupProperties.UsernameWhitespaceRejected` | users/router.js:60-71 | a `username` with surrounding whitespace is rejected at `username`, whatever the password |
| `SignupProperties.PasswordWhitespaceRejected` | users/router.js:60-71 | a tight username with a padded password is rejected at `password` |
| `SignupProperties.NameWhitespaceAccepted` | users/router.js:60-71 | padding an accepted `name` with whitespace keeps the body accepted, and the padded name passes through validation unchanged |
| `SignupProperties.TooSmallWins` | users/router.js:86-106 | once stages 1-3 pass, the first too-small field is reported with its minimum, even when an earlier field is too large |
| `SignupProperties.TooLargeReported` | users/router.js:91-106 | with nothing too small, the first too-large field is reported with its maximum |
| `SignupProperties.UsernameBounds` | users/router.js:72-76 | with the other fields acceptable, the body is accepted exactly for usernames of 1 to 17 characters; length 0 gives `Must be at least 1…` and length 18 gives `Must be at most 17…` at `username` |
| `SignupProperties.PasswordBounds` | users/router.js:77-81 | with the other fields acceptable, the body is accepted exactly for passwords of 5 to 72 characters; length 4 gives `Must be at least 5…` and length 73 gives `Must be at most 72…` at `password` |
| `SignupProperties.AtLeastOneMessage` | users/router.js:100-102 | the too-small message for `username` reads `Must be at least 1 characters long` |
| `SignupProperties.AtLeastFiveMessage` | users/router.js:100-102 | the too-small message for `password` reads `Must be at least 5 characters long` |
| `SignupProperties.AtMostSeventeenMessage` | users/router.js:103-104 | the too-large message for `username` and `name` reads `Must be at most 17 characters long` |
| `SignupProperties.AtMostSeventyTwoMessage` | users/router.js:103-104 | the too-large message for `password` reads `Must be at most 72 characters long` |
| `SignupProperties.BoundDecimals` | users/router.js:101-104 | the template literals render the bounds 1, 5, 17 and 72 as those digits |
| `SignupProperties.TooSmallBeatsEarlierTooLarge` | users/router.js:86-106 | an 18-character username with a 4-character password is reported at `password` with `Must be at least 5 characters long` |
| `Strings.SkipStart` | users/router.js:62 | the start of the trimmed text: everything before it is whitespace, and the character there is not |
| `Strings.SkipEnd` | users/router.js:62 | the end of the trimmed text: everything after it is whitespace, and the character before it is not |
| `Strings.Trim` | users/router.js:62 | `trim` returns a contiguous slice of its input that neither starts nor ends with whitespace, and only whitespace is removed on either side |
| `Strings.TrimFixedIffTight` | users/router.js:61-63 | `s.trim() === s` exactly when `s` has no leading or trailing whitespace |
| `Strings.TrimIdempotent` | users/router.js:109 | trimming twice gives the same string as trimming once |
| `Strings.TrimAllWhitespace` | users/router.js:89 | a whitespace-only string trims to the empty string, so its trimmed length is 0 |
| `Strings.TrimFindsCore` | users/router.js:109 | whitespace around a non-empty tight core is exactly what `trim` removes |
| `Strings.TrimIgnoresPadding` | users/router.js:109 | adding whitespace on either side of a string does not change its trimmed form |
| `Strings.BlankConcat` | users/router.js:62 | a concatenation is all whitespace exactly when both parts are |
| `Strings.Decimal` | users/router.js:101-104 | the rendering of a bound is a non-empty string of decimal digits with no leading zero, whose value read most significant digit first is the bound |
| `Users.CountUsername` | users/router.js:110-113 | `User.find({username}).count()` is zero exactly when no stored user has that username |
| `Users.FindOne` | users/router.js:27 | `findOne` yields a stored user with the requested username, and nothing exactly when there is none |
| `Users.FindOneUnique` | users/router.js:27-29 | in a store with unique usernames, `findOne` by a stored user's username yields that user |
| `Ranking.Compare` | users/router.js:12-15 | the comparator is negative exactly when `a` has more points than `b`, positive exactly when it has fewer, and zero on a tie |
| `Ranking.DescendingAgreesWithCompare` | users/router.js:12-15 | non-increasing points is the order the comparator accepts between every pair of positions |
| `Ranking.Insert` | users/router.js:11-17 | inserting into a descending sequence keeps it descending and adds exactly that user |
| `Ranking.SortByKey` | users/router.js:11-17 | the result is a permutation of the input, ordered by non-increasing `points` |
| `Ranking.SortedIsFixpoint` | users/router.js:11-17 | a sequence already in descending order is returned unchanged, as the stable `Array.prototype.sort` of ECMAScript 2019 does |
| `Ranking.SortIdempotent` | users/router.js:11-17 | under the stable sort, sorting the sorted list again changes nothing |
| `Router.CatchSignup` | users/router.js:133-138 | a rejection tagged `ValidationError` becomes a 422 carrying that error; any other rejection becomes a 500 |
| `Router.NewUser` | users/router.js:108-109 | the record passed to `User.create` at lines 124-128: the username as given, the digest in place of the password, the default points, and the name trimmed: the slice of the raw name left once the whitespace before and after it is removed, with no surrounding whitespace of its own, and equal to the raw name when that was already tight |
| `Router.Register` | users/router.js:37-138 | a validation failure is answered with that error and the store unchanged; the status is 201, 422 or 500; the store changes only on 201, which happens exactly for an acceptable body with a free username and collaborators that succeed; a 201 appends exactly one user with the username as given, the name trimmed, the password replaced by its digest and the schema's default points; a taken username gives 422 `'Username already taken'` at `username`; after validation passes, a rejected count, or a rejected hash or create for a free username, gives a 500 with the store unchanged |
| `Router.Lookup` | users/router.js:26-35 | 200 exactly when the query succeeds and some user has that username, with a stored user of that username; otherwise 500, including when no user matches |
| `Router.ListAll` | users/router.js:19-24 | a successful query always answers with a listing, which is a permutation of the store ordered by non-increasing points; a failed query answers 500 |
| `RouterProperties.MissingFieldLeavesStore` | users/router.js:38-47 | a signup missing a field is answered 422 `'Missing field'` at the first missing field, and the store is unchanged |
| `RouterProperties.RegisterPreservesUnique` | users/router.js:108-131 | if usernames are unique before a signup, they are unique after it |
| `RouterProperties.FindOneAfterAppend` | users/router.js:27 | after a user with a previously free username is appended, `findOne` by that username yields that user |
| `RouterProperties.RegisterThenLookup` | users/router.js:26-35 | after a successful signup, the lookup-by-username handler called with that username answers `Found` with the new user |
| `RouterProperties.RegisterTwiceRejected` | users/router.js:110-120 | repeating a successful signup gets 422 `'Username already taken'` at `username`, and the store does not grow |
| `RouterProperties.LookupFindsStoredUser` | users/router.js:26-35 | in a store with unique usernames, looking up any stored user's username answers 200 with that user |
| `RouterProperties.AliceScenario` | users/router.js:37-138 | `alice`/`abcde`/`Alice` signs up on an empty store with 201, and repeating the request gets 422 at `username` |

## Left out

- Express and body-parser wiring (users/router.js:1-9, 141): routing and JSON parsing are framework I/O. The body is a map from key to JSON value, and responses are the `Response` datatype.
- Non-object JSON bodies (arrays) are not modelled. `field in req.body` is modelled as key membership, and `Object.prototype` holds no property named `username`, `password` or `name`.
- Passport/JWT authentication in front of `/all` and `/:username` (users/router.js:19, 26): the strategy and token verification live in code outside this file. The read handlers are modelled as reached by an authenticated request.
- bcrypt's `User.hashPassword`: a foreign asynchronous call. It is the `hash` parameter of `Env`, returning an abstract `Digest` or `None` when it rejects.
- The `User` schema in users/models.js is not part of this model. That covers `apiRepr` field selection (a response carries the record it projects), the default `points` (the `defaultPoints` parameter of `Env`) and picks.
- Promise sequencing and the count-then-create race between concurrent signups: requests are modelled one at a time. Database failures are the `countFails`, `createFails` and `findFails` inputs.
- `Strings.IsWhitespace`: it covers ASCII whitespace, NBSP, the line and paragraph separators and the BOM. JavaScript's `trim` also strips the other Unicode space separators. Lengths are `|s|` over `seq<char>`, not UTF-16 code units.
- `Ranking.SortByKey`: the model follows the stable `Array.prototype.sort` that ECMAScript 2019 requires, so users with equal points keep their store order. Engines older than that standard may order ties differently. The contract of `SortByKey` itself holds for any tie order.
- Routing between handlers: Express matches paths case-insensitively, and `GET /users/all` is registered before `GET /users/:username` (users/router.js:19, 26). A user whose username is `all` in any letter case can sign up, but `GET /users/all` answers the listing, not that user. `RouterProperties.RegisterThenLookup` is about the lookup handler, not the HTTP path.
- `console.error` logging (users/router.js:32).
- test/test-scores.js: it exercises `/scores`, whose handler is not part of this model.
