# classbum backend, modelled in Dafny

This project models the server side of classbum, an app in which children
practise multiplication and parents follow their progress. It covers four
areas of the Node/Express backend:

- **Child accounts.** Registration, login and profile lookup by id or by
  public id (`backend/routes/children.js`, `backend/index.js`,
  `backend/utils/auth.js`).
- **Parent accounts.** The service and the controller behind registering,
  logging in and `me` (`backend/services/parentAuthService.js`,
  `backend/controllers/parentAuthController.js`).
- **The session ledger.** `session_stats` is written in two ways: with a
  child token, or by the older name-keyed `/save-session`. It is read back
  as a child's newest sessions, or as the latest session for a name.
- **The gates and the model-output handling.** These are the two token
  middlewares and the text clean-up of `/generate-task` and `/explain`.

PostgreSQL is modelled by one `Db.Database` object. The `children`, `parents`
and `session_stats` tables are sequences of rows in insertion order. Each
table has its own id sequence, and `created_at` comes from a shared clock.

`Database.Valid()` holds whenever a handler returns. It states that:

- ids and `created_at` increase in table order;
- logins are distinct, and so are parent emails;
- every child's `public_id` is `"id"` followed by its row id.

Because the tables are kept in `created_at` order, `ORDER BY created_at DESC`
is the table read backwards (`Sql.NewestFirst`), and `LIMIT 1` is its head.

The external collaborators are modelled as follows:

- **bcrypt** is idealised as exact. A digest accepts exactly the password it
  was made from, and the random salt is a parameter. Statements below that a
  password is accepted "and no other" are properties of this idealised hash.
- **`jwt.verify`** is a parameter `string -> Option<Claims>`.
- **`signParentToken`** is a parameter `Parent -> Token`, because it is not
  defined in `backend/utils/auth.js`.
- **The OpenAI call** is an `Upstream` outcome: either it threw, or it
  returned optional content.
- **`JSON.parse`** is a partial function parameter.
- **Environment variables.** `JWT_EXPIRES` is a parameter. `JWT_SECRET` is
  part of the verifier.

The state-changing handlers are methods over `db` or the `Request` object:

- child register;
- both session saves;
- `createParent` and parent register;
- both middlewares.

Their `ensures` give the whole new state: the new contents of every table,
and how each id sequence and the clock move. The read-only handlers are
functions over the tables.

Three points of the code's behaviour are easy to mistake:

- The child token carries only `child_id`, with no role claim
  (`backend/utils/auth.js:4-10`).
- The child middleware checks no role (`backend/middleware/auth.js:12-15`).
  So any verifiable token passes it, and the request carries whatever
  `child_id` the token holds. For a token without a `child_id` (a parent
  token, if it carries none), `/me` answers 404 and `/save-session` writes
  a row with a null `child_id`. `AuthMiddleware.AnyVerifiedTokenPasses`
  states this.
- A taken email is answered with 400, not 409
  (`backend/controllers/parentAuthController.js:34-36`).

## Model

| member | source | states |
|---|---|---|
| `JsString.Trim` | backend/routes/tasks.js:67 | `trim` removes white space from both ends and nothing else: the result is a slice of the input, flanked on both sides by white space only, and has no white space at either end |
| `JsString.TrimEmpty` | backend/routes/tasks.js:125-127 | `trim` gives the empty string exactly when the input is all white space (the case in which `/explain` falls back to its placeholder) |
| `JsString.TrimIdempotent` | backend/routes/tasks.js:67-69 | trimming twice is trimming once |
| `JsString.TrimPadded` | backend/routes/children.js:216 | white space added around a text does not change what `trim` returns |
| `JsString.LeadingSpace` | backend/routes/tasks.js:67 | the white-space run at the front: all white space, and followed by a non-space when shorter than the text |
| `JsString.TrailingSpace` | backend/routes/tasks.js:67 | the white-space run at the back, likewise |
| `JsString.Split` | backend/middleware/auth.js:6 | `split(" ")` gives at least one field and no field contains a blank |
| `JsString.JoinSplit` | backend/middleware/auth.js:6 | joining the fields of `split(" ")` with blanks gives the text back |
| `JsString.SplitJoin` | backend/middleware/auth.js:6 | splitting a blank-join of blank-free fields gives the fields back |
| `JsString.SecondField` | backend/middleware/auth.js:6 | `const [, token] = s.split(" ")` is absent exactly when `s` has no blank, and never contains a blank |
| `JsString.SecondFieldOfSpan` | backend/middleware/auth.js:6 | the second field is exactly the text between the first blank and the next blank or the end; two blanks in a row give the empty field |
| `JsString.SecondFieldOfPair` | backend/middleware/parentAuth.js:8 | the second field of `<scheme> <token>` is the token |
| `JsString.RemoveAll` | backend/routes/tasks.js:69 | `replace(/pat/g, "")` never makes the text longer; what it keeps and removes is stated by `JsString.RemoveAllKeepsOutside`, `JsString.RemoveAllUnchanged` and `JsString.NoFenceLeft` |
| `JsString.RemoveAllKeepsOutside` | backend/routes/tasks.js:68-69 | text outside the matches is kept in order: text none of whose characters can open a match is kept as it is, the match after it is dropped, and removal goes on after that; text before a match that holds a character able to open one (a stray backtick, as in "`x```") is not covered |
| `JsString.RemoveAllUnchanged` | backend/routes/tasks.js:69 | the replacement returns its input exactly when the pattern does not occur in it |
| `JsString.NoFenceLeft` | backend/routes/tasks.js:69 | after `replace(/```/g, "")` no three backticks remain, even where a removal joined backticks from both sides |
| `JsString.DecimalText` | backend/utils/auth.js:14 | `String(id)` is a non-empty run of digits with no leading zero unless the id is 0 |
| `JsString.DecimalRoundTrip` | backend/utils/auth.js:14 | reading `String(n)` back as a number gives `n` |
| `JsString.DecimalInjective` | backend/utils/auth.js:14 | distinct numbers have distinct decimal texts |
| `Bcrypt.Hash` | backend/routes/children.js:45 | `bcrypt.hash(password, 10)`, idealised: the digest accepts that password and no other, at cost factor 10 |
| `AuthUtils.SignChildToken` | backend/utils/auth.js:4-10 | the child token's payload is `child_id` = the row id and nothing else (no role, no parent id); its lifetime is `JWT_EXPIRES` when that is set and non-empty, `"7d"` otherwise |
| `AuthUtils.GeneratePublicId` | backend/utils/auth.js:13-15 | `"id"` followed by exactly `String(id)`, the decimal text of the id with no leading zero (`JsString.DecimalText`), never the placeholder `"temp"` |
| `AuthUtils.PublicIdRoundTrip` | backend/utils/auth.js:13-15 | the row id can be read back from its public id |
| `AuthUtils.PublicIdInjective` | backend/utils/auth.js:13-15 | distinct row ids give distinct public ids |
| `Sql.FirstWhere` | backend/routes/children.js:118-131 | `result.rows[0]` of a `WHERE`: a matching row from the table, and none exactly when no row matches |
| `Sql.FirstWhereAppend` | backend/routes/children.js:36-64 | appending a row changes a lookup only when no older row matched |
| `Sql.NewestFirst` | backend/routes/children.js:261-277 | `WHERE … ORDER BY created_at DESC` returns every matching row and only matching rows |
| `Sql.NewestFirstDescending` | backend/routes/children.js:273 | on a table kept in `created_at` order, the result is in strictly descending `created_at` order |
| `Sql.NewestFirstAppend` | backend/routes/children.js:237 | a newly appended matching row comes first, and the older rows follow as before |
| `Sql.LatestWhere` | backend/index.js:145-162 | `ORDER BY created_at DESC LIMIT 1`: a matching row, and none exactly when no row matches |
| `Sql.LatestWhereIsNewest` | backend/index.js:157-158 | on a table in `created_at` order, that row is the newest of all matching rows |
| `Db.Database.InsertChild` | backend/routes/children.js:48-64 | the INSERT appends one row holding `"temp"`, the next id and the current time; the other tables are untouched |
| `Db.Database.SetChildPublicId` | backend/routes/children.js:72-75 | the UPDATE sets `public_id` on the rows with that id and leaves every other row unchanged |
| `Db.Database.InsertSession` | backend/routes/children.js:219-237 | the INSERT appends exactly one session row and keeps the store invariant |
| `Db.Database.InsertParent` | backend/services/parentAuthService.js:57-64 | the INSERT appends one parent row with its column defaults; `created_at` and `updated_at` are both taken to be the clock (an assumed column default, see "## Left out") |
| `Http.HeaderToken` | backend/middleware/auth.js:5-6 | the token of `(authorization || "").split(" ")` is missing exactly when the header has no blank, and never contains one |
| `Http.HeaderTokenOfSpan` | backend/middleware/auth.js:5-6 | the token is the text after the first blank up to the next blank or the end, and empty when two blanks meet or the header ends in its blank |
| `Http.HeaderTokenOfBearer` | backend/middleware/parentAuth.js:7-8 | a header `<scheme> <token>` yields the token, whatever the scheme word |
| `ChildrenRoutes.Register` | backend/routes/children.js:17-100 | missing fields → 400 `fill_required_fields`, a taken login → 409 `login_taken`, in both cases with nothing written; otherwise exactly one row is appended: public id `"id"+id` (no longer `"temp"`), hash of the password, falsy class/age/gender stored as null. The reply is that row's profile, with no hash, and a token for its id. The store invariant is kept |
| `ChildrenRoutes.Login` | backend/routes/children.js:108-150 | 400 `empty_login_or_password` exactly when a field is empty; 401 `user_not_found` exactly when no row has the login; 401 `wrong_password` only when a row has the login but another password; on success the profile (no hash) and token of a row with that login and password |
| `ChildrenRoutes.LoginOfRow` | backend/routes/children.js:127-145 | with unique logins, a row's login succeeds exactly when the password matches that row's hash, and otherwise fails with `wrong_password` |
| `ChildrenRoutes.LoginAfterRegister` | backend/routes/children.js:48-145 | after a registration, logging in with the same login and password returns the registered profile and its token |
| `ChildrenRoutes.RegisterTwiceConflicts` | backend/routes/children.js:36-42 | once a login is registered, registering it again finds it taken |
| `ChildrenRoutes.Me` | backend/routes/children.js:159-181 | the profile of a row with the token's child id; 404 `not_found` exactly when there is none |
| `ChildrenRoutes.MeOfRow` | backend/routes/children.js:163-176 | with unique ids, the id of a row finds that very row |
| `ChildrenRoutes.ChildNameSnapshot` | backend/routes/children.js:210-217 | null exactly when the child has no row; otherwise the trimmed `first_name + " " + last_name` of a row with that id |
| `ChildrenRoutes.SnapshotOfRow` | backend/routes/children.js:210-217 | a registered child's snapshot is its own trimmed full name |
| `ChildrenRoutes.SaveSession` | backend/routes/children.js:190-248 | a non-array `tasks` → 400 `tasks_must_be_array` with nothing written; otherwise exactly one row is appended with the token's child id, the snapshot name, `mode` or `"multiplication"`, each total `?? 0`, and the tasks as given; the reply is its id and `created_at` |
| `ChildrenRoutes.MySessionRows` | backend/routes/children.js:257-287 | at most 20 rows, each from the ledger and with the caller's child id; none without a child id |
| `ChildrenRoutes.MySessionsNewest` | backend/routes/children.js:272-274 | the page is newest first, and a session of the caller's is missing from it only when the page is full and the session is older than every session shown |
| `ChildrenRoutes.MySessions` | backend/routes/children.js:257-282 | one entry per selected row, in page order, with the row's selected columns; every entry is one of the caller's own sessions; at most 20 |
| `ChildrenRoutes.MySessionsListsNewest` | backend/routes/children.js:261-281 | the entries come newest first, and a session of the caller's is listed unless the page holds 20 newer ones |
| `ChildrenRoutes.SaveThenMySessions` | backend/routes/children.js:227-277 | a session just saved for a child heads that child's page |
| `ChildrenRoutes.OtherSaveKeepsMySessions` | backend/routes/children.js:272 | a session saved for anyone else leaves a child's page unchanged |
| `IndexRoutes.ChildByPublicId` | backend/index.js:49-73 | the profile, with no hash, of a row with that public id; 404 exactly when there is none |
| `IndexRoutes.ChildByPublicIdOfRow` | backend/index.js:53-66 | a child's public id finds that child's own row |
| `IndexRoutes.PublicIdAgreesWithToken` | backend/index.js:49-73 | lookup by public id and lookup by token id find the same profile, or both fail |
| `IndexRoutes.SaveSessionLegacy` | backend/index.js:82-128 | 400 with nothing written unless `child_name` and `mode` are truthy and `tasks` is an array; otherwise exactly one row is appended with no child id, each total `?? 0`, and the tasks as given |
| `IndexRoutes.LastSessionStats` | backend/index.js:137-173 | 400 exactly when `child_name` is missing; 404 exactly when no session has that name (and that mode, if a truthy mode was given); otherwise such a session, never one with another name |
| `IndexRoutes.LastSessionStatsNewest` | backend/index.js:155-158 | the session returned is the newest wanted one |
| `IndexRoutes.LegacySaveThenStats` | backend/index.js:108-168 | a legacy save is what the stats query returns next for that name, asked with the same mode or with none |
| `Tasks.Normalise` | backend/routes/tasks.js:64-70 | a missing reply counts as empty; the result is trimmed; an unfenced reply is only trimmed; a fenced one keeps no three backticks (what a fenced block becomes is stated by `Tasks.NormaliseFencedBlock` and `Tasks.NormaliseBareBlock`) |
| `Tasks.NormaliseFencedBlock` | backend/routes/tasks.js:64-70 | a ```json … ``` block with a backtick-free body, its tag in any letter case (```JSON, ```Json, …) and padded with white space, becomes the trimmed body |
| `Tasks.KeepBareBlock` | backend/routes/tasks.js:68 | the case-insensitive "```json" pass leaves a bare ``` … ``` block whose body does not begin with "json" as it is |
| `Tasks.NormaliseBareBlock` | backend/routes/tasks.js:64-70 | a bare ``` … ``` block, with no tag, around a backtick-free body and padded with white space also becomes the trimmed body |
| `Tasks.GenerateTask` | backend/routes/tasks.js:52-87 | a failed call → 500 `Ошибка генерации задачи`; unparsable text → 500 `Модель вернула неверный JSON` carrying the cleaned text, never a task; cleaned text that parses → `TaskOk` of exactly the parsed value, with no check of its shape |
| `Tasks.Explain` | backend/routes/tasks.js:94-134 | 400 exactly when `question` is falsy or an answer is `undefined`; 500 `Ошибка подсказки` exactly when the call fails; an accepted request whose call returned is always answered Ok, with a non-empty trimmed text: the trimmed explanation, or `Подсказка недоступна.` when it is missing or blank |
| `Tasks.ExplainChecksFirst` | backend/routes/tasks.js:97-101 | a refused request gets the same answer whatever the model would have said |
| `Tasks.ExplainAcceptsZero` | backend/routes/tasks.js:97 | 0 is accepted as an answer |
| `ParentAuthService.MapParent` | backend/services/parentAuthService.js:6-18 | null exactly for no row; otherwise the row without its hash, so that adding the hash back rebuilds the row |
| `ParentAuthService.MapParentDropsOnlyHash` | backend/services/parentAuthService.js:6-18 | two rows map to the same record exactly when they differ at most in their hash |
| `ParentAuthService.GetParentById` | backend/services/parentAuthService.js:20-27 | null exactly when no row has that id; otherwise the record of such a row |
| `ParentAuthService.GetParentByIdOfRow` | backend/services/parentAuthService.js:20-27 | with unique ids, a row's id finds that row |
| `ParentAuthService.GetParentByEmail` | backend/services/parentAuthService.js:29-42 | null exactly when no row has that email; otherwise the record and the hash of such a row |
| `ParentAuthService.CreateParent` | backend/services/parentAuthService.js:44-67 | a taken email throws `email_in_use` with nothing written; otherwise exactly one row is appended, with falsy name and phone stored as null, and its record, without the hash, is returned; the store invariant is kept |
| `ParentAuthService.VerifyParentCredentials` | backend/services/parentAuthService.js:69-81 | a result is the record of a row with that email whose hash accepts the password; an unknown email gives null |
| `ParentAuthService.VerifyOfRow` | backend/services/parentAuthService.js:69-81 | with unique emails, a row's email verifies exactly when that row has a hash accepting the password; a missing hash and a wrong password give the same null |
| `ParentAuthService.CreateThenVerify` | backend/services/parentAuthService.js:44-81 | a parent just created is verified with the password given at creation, and, with the idealised hash, with no other |
| `ParentAuthService.ChildrenOfParent` | backend/services/parentAuthService.js:83-95 | exactly the children whose `parent_id` is the argument, with no limit |
| `ParentAuthService.ChildrenOfParentNewestFirst` | backend/services/parentAuthService.js:89 | newest first |
| `ParentAuthController.BuildAuthResponse` | backend/controllers/parentAuthController.js:9-21 | the parent's id, email, name, phone and notify channel, and a token signed for that same parent |
| `ParentAuthController.ViewHidesPrivateFields` | backend/controllers/parentAuthController.js:11-19 | the Telegram chat id and the timestamps do not reach the response |
| `ParentAuthController.RegisterOutcomeReply` | backend/controllers/parentAuthController.js:32-43 | `email_in_use` → 400 `email_in_use`, any other thrown code → 500 `server_error`, a created parent → its auth response |
| `ParentAuthController.RegisterParent` | backend/controllers/parentAuthController.js:23-44 | missing email or password → 400 `missing_email_or_password` before the service is called, with nothing written; a taken email → 400 `email_in_use` with nothing written; otherwise one row is appended and the reply is built from its record |
| `ParentAuthController.LoginParent` | backend/controllers/parentAuthController.js:46-65 | 400 exactly when a credential is missing; any other refusal is 401 `invalid_credentials`; success is the response for a row whose email and hash match; with credentials given, Ok exactly when `verifyParentCredentials` returns a parent, and then the response is built for that parent |
| `ParentAuthController.LoginParentOfRow` | backend/controllers/parentAuthController.js:46-65 | with unique emails, a row's own email logs in exactly when its hash accepts the password, and the response is built for that row; otherwise 401 `invalid_credentials` |
| `ParentAuthController.LoginHidesWhichFailed` | backend/controllers/parentAuthController.js:54-58 | an unknown email and a wrong password get the same 401 |
| `ParentAuthController.LoginAfterRegisterParent` | backend/controllers/parentAuthController.js:23-65 | a parent who registered logs in with the same credentials and gets the same response |
| `ParentAuthService.GetChildrenForParent` | backend/services/parentAuthService.js:83-95 | one summary per selected row, in the same order; the summaries are exactly those of the children linked to the parent |
| `ParentAuthController.GetMe` | backend/controllers/parentAuthController.js:67-86 | the parent's five public fields, and exactly the list `getChildrenForParent` returns: the summaries of that parent's children and no others |
| `ParentAuthController.GetMeNewestFirst` | backend/services/parentAuthService.js:86-89 | on a table in insertion order the listed children come newest first, each once: ids strictly decrease along the list |
| `AuthMiddleware.ChildGate` | backend/middleware/auth.js:4-20 | 401 `no_token` exactly when the header yields no token; 401 `invalid_token` exactly when the token does not verify; otherwise the payload's `child_id` |
| `AuthMiddleware.Authenticate` | backend/middleware/auth.js:4-20 | it decides as `ChildGate` does; on success it sets `req.childId` and calls `next()` once; on refusal it leaves the request untouched |
| `AuthMiddleware.AnyVerifiedTokenPasses` | backend/middleware/auth.js:12-15 | no scheme and no role is checked: any verified token passes with its own `child_id` |
| `AuthMiddleware.EmptyTokenIsMissing` | backend/middleware/auth.js:5-10 | a header whose first blank is followed by another blank or by nothing has an empty token, refused as 401 `no_token` |
| `AuthMiddleware.ChildTokenGivesItsChild` | backend/middleware/auth.js:13-14 | a child token yields the id it was signed with |
| `ParentAuthMiddleware.ParentGate` | backend/middleware/parentAuth.js:6-34 | 401 `no_token` exactly when there is no token; 401 `invalid_token` exactly when the token does not verify or its parent id finds no row; 403 `forbidden` exactly when a verified payload lacks role `"parent"` or a truthy `parent_id`; success exactly when a verified parent payload's id finds a row, with that row's record |
| `ParentAuthMiddleware.AuthenticateParent` | backend/middleware/parentAuth.js:6-34 | it decides as `ParentGate` does; only on success does it set `req.parent` and `req.parentId` to the parent found and its id, and call `next()` once |
| `ParentAuthMiddleware.ForbiddenBeforeLookup` | backend/middleware/parentAuth.js:17-21 | the role check comes before the lookup: a 403 does not depend on the parents table |
| `ParentAuthMiddleware.ChildTokenForbidden` | backend/middleware/parentAuth.js:17-19 | a child token is refused by the parent gate with 403 |
| `ParentAuthMiddleware.ParentTokenAdmits` | backend/middleware/parentAuth.js:14-29 | a verified parent token for an existing parent lets that parent in |

## Left out

- **Store failures.** Database errors, and the 500 replies the handlers send
  on any exception, are not modelled. The one exception is the controller's
  mapping of a thrown code other than `email_in_use`
  (`ParentAuthController.RegisterOutcomeReply`).
- **A failure between statements.** In child registration, a failure
  between the INSERT and the UPDATE would leave a `"temp"` row. It is not
  modelled: the two statements always run together.
- **Concurrency.** Two registrations with the same login or email can race
  between their check and their insert. No uniqueness constraint is visible
  in the code, and handlers are modelled as running one at a time.
- **Numbers.** They are integers. NaN, fractions and the truthiness of
  `-0` are not modelled.
- **Body field types.** Text fields (login, password, names, email, mode,
  `child_name`) are strings or absent. Non-string values in those fields,
  and repeated query parameters that Express turns into arrays, are not
  modelled.
- **Column coercion.** PostgreSQL's casting of bound parameters is not
  modelled. A `child_id` or `parent_id` claim selects a row only when it is
  a number (`Schema.AsRowId`), so a numeric string selects nothing here. A
  non-numeric value throws in PostgreSQL; here it selects nothing. In the
  parent middleware both cases end in the same 401 `invalid_token`. In
  `/save-session` (`ChildrenRoutes.SaveSession`), a `child_id` claim that is
  not a number is stored as a null `child_id` here, where PostgreSQL would
  reject a non-numeric value and the route would answer 500.
- **Stored values.** Values are kept as given: class, age and gender keep
  their JSON value rather than the column type. The `tasks` array is kept as
  given, with no `JSON.stringify`/jsonb round trip and no key reordering.
- **bcrypt.** One-wayness, timing and cost are not modelled. A digest keeps
  its password so that `compare` is exact. bcryptjs reads only the first 72
  UTF-8 bytes of a password, so for a longer password the program also
  accepts any other password with the same first 72 bytes. The model does
  not capture this, and the "no other password" halves of
  `ParentAuthService.CreateThenVerify`, `ChildrenRoutes.LoginOfRow` and
  `ParentAuthService.VerifyOfRow` hold only for the idealised hash.
- **JSON Web Tokens.** Signing, the secret and expiry against the clock
  belong to `jsonwebtoken`. `jwt.verify` is a parameter. `signParentToken`
  is not part of this model (it is not in `backend/utils/auth.js`) and is a
  parameter too.
- **OpenAI and JSON parsing.** The OpenAI client, the prompts, the model
  parameters and `JSON.parse` are parameters: `Upstream` and `parse`.
- **Express.** Routing, CORS, body parsing, `app.listen`, the start-up
  database ping, `/debug-db` and `/` are not modelled. The `ok: true/false`
  envelope of the JSON bodies is reduced to `Http.Reply`.
- **Logging.** `console.error` is not modelled.
- **`backend/routes/parents.js`.** It only wires the controller to paths,
  and `backend/index.js` does not mount it. It is not part of this model.
- **`frontend/js/auth.js`.** It is markup only and is not part of this
  model.
- **`grade`, `is_active` and `parent_id` on children.** This code never
  writes them. New children get the column defaults and no parent, so
  `ParentAuthService.ChildrenOfParent` lists only rows written elsewhere.
- `Db.Database.InsertParent`, `ParentAuthService.CreateParent`: the INSERT
  sets neither `created_at` nor `updated_at`, and no table definition is
  part of this model. Both columns are assumed to default to the current
  time, so a new parent's `updated_at` equals its `created_at`. The real
  defaults may differ.
- `ChildrenRoutes.Login`: the `wrong_password` case is stated one way in
  the function's own contract, because without unique logins the first
  matching row decides. The converse holds for a table that keeps its
  invariant (`ChildrenRoutes.LoginOfRow`).
- `ParentAuthService.VerifyParentCredentials`: the function's own contract
  states the null result only for an unknown email. A missing hash and a
  wrong password are covered for a table with unique emails
  (`ParentAuthService.VerifyOfRow`).
