# User module of a NestJS member directory, modelled in Dafny

This project models the user module of a small NestJS service. Students
register with a name, a student number and a password. They log in with
their student number and password to receive a JWT. Users can be listed
page by page, searched by exact name (also paged), looked up by student
number, deleted and updated.

The model has two layers:

- `UserService` models `src/user/user.service.ts`. Each operation is a pure
  function of the store, a `seq<User>` in insertion order. Operations that
  write return the new store next to their result. The TypeORM repository
  behind the service is modelled in `Repository`:
  - `findOne` returns the first matching row.
  - `find` with `skip`/`take` is an offset/limit window. A zero `take` sets no
    limit, and a negative skip or take is refused.
  - `save` writes by the record key: it overwrites a row that already has the
    key and otherwise appends.
  - `delete` and `update` act on every row with a given student number and
    report how many rows they matched. An update that sets no column is
    refused. So is an update that would move rows onto a student number
    another row already holds, since the key column is unique.
- `UserController` models `src/user/user.controller.ts`. Its handlers are pure
  functions from query parameters and service results to a response envelope,
  `Ok(data, msg) | Fail(msg, code)`.

The bcrypt comparison and the JWT signer are function-typed parameters
(`compare`, `sign`). Corrected registration also takes a `hash` parameter.
A lemma assumes only what its `requires` states about these functions.

Files:

- `users.dfy`: the `User` record, the update patch, store predicates
  (`HasKey`, `HasName`, `UniqueKeys`) and the literal messages.
- `paging.dfy`: 1-based offset/limit pages and the lemmas about them.
- `repository.dfy`: the in-memory repository.
- `user_service.dfy`: the service, plus `Register`, the corrected
  registration (see Findings).
- `findings.dfy`: the registration defects, shown on the model of the code as
  written.
- `user_controller.dfy`: the controller handlers and end-to-end lemmas.

The model follows the code as written:

- Registration checks for an existing username before it compares the
  password with its confirmation (src/user/user.service.ts:47-53).
- Registration stores the password unhashed, although line 55 announces
  encryption (src/user/user.service.ts:55, :64).
- Login reports "user not found" and "wrong password" with different
  messages (src/user/user.service.ts:28, :34).
- The service's paging returns a plain array with no total count
  (src/user/user.service.ts:73-80).
- The paging parameters keep the code's names: `pageNum` is the page size and
  `pageCount` is the page number (src/user/user.controller.ts:37-46).

## Model

| member | source | states |
|---|---|---|
| Paging.Page | src/user/user.service.ts:74-79 | page `p` of size `n` holds `min(n, max(0, len - (p-1)*n))` rows; its `i`-th row is the store's row `(p-1)*n + i`; it is empty once the skip reaches the end |
| Paging.PagesDisjoint | src/user/user.service.ts:74-75 | for `p < q`, every position in page `p` lies before every position in page `q`, so distinct pages never share a row |
| Paging.PagesAdjacent | src/user/user.service.ts:74-79 | for size ≥ 1 and page ≥ 1, page `p` followed by page `p+1` is the single contiguous run of store rows from the start of page `p` to the end of page `p+1`, so no row falls between consecutive pages |
| Paging.PagesArePrefix | src/user/user.service.ts:74-79 | pages 1..k laid end to end equal the store prefix of length `min(k*n, len)`: paging neither skips nor repeats a row |
| Repository.FindOne | src/user/user.service.ts:23-25 | the lookup finds nothing iff no row matches; otherwise it returns a matching row of the store with no matching row before it |
| Repository.FilterAppend | src/user/user.service.ts:106-112 | filtering by a condition distributes over concatenation, so the matches keep store order |
| Repository.Window | src/user/user.service.ts:76-79 | a skip/take read is refused iff skip or take is negative; otherwise row `i` of the result is store row `skip+i`, and it has `min(take, max(0, len-skip))` rows, or every remaining row when take is 0 |
| Repository.WindowIsPage | src/user/user.service.ts:74-79 | for size ≥ 1 and page ≥ 1, the window at skip `(page-1)*size` and take `size` is exactly that page |
| Repository.Save | src/user/user.service.ts:65 | a row with a stored key overwrites every row with that key in place; a new key is appended at the end; afterwards a lookup by the key returns the saved row |
| Repository.Delete | src/user/user.service.ts:123 | the affected count is the number of rows with the key, so it is positive iff some row had it; no row with the key remains; exactly the other rows are kept; the count plus the remaining rows equals the old size |
| Repository.FilterCount | src/user/user.service.ts:123 | the rows a delete keeps and the rows with the key together account for every row of the store |
| Repository.DeleteRowByRow | src/user/user.service.ts:123 | a delete keeps a single row iff its key differs, and deleting from a concatenation is deleting from each part, both for the kept rows and the count; so the kept rows stay in store order with their multiplicity |
| Repository.Update | src/user/user.service.ts:136 | refused with "values missing" iff the patch sets no column; refused with "duplicate key" iff the patch is non-empty and would move the rows with the key onto a different key another row holds; resolved iff neither; then the count is positive iff some row had the key, rows with the key get the patch, and all others keep value and position |
| UserService.Login | src/user/user.service.ts:22-38 | "user not found" iff no row has the student number; "wrong password" iff one does and `compare` rejects the password against that row's stored password; otherwise the token is `sign` of that row's username |
| UserService.KeyHolderIsUnique | src/user/user.service.ts:23-25 | under unique keys, the looked-up row is the only row with that student number |
| UserService.CreateUser | src/user/user.service.ts:46-67 | "user exists" iff the username is taken; otherwise "password mismatch" iff password and confirmation differ; on either failure the store is unchanged; on success the row (stuName, email, stuNum, sex, grade, the password unchanged) is appended when the number is new or written over the rows holding it, and a lookup by the number then returns that row |
| UserService.CreateUserRejectsRepeat | src/user/user.service.ts:47-51 | after a successful registration, the same request is refused with "user exists" and leaves the store alone |
| UserService.Register | src/user/user.service.ts:47-66 | corrected registration: "user exists" iff the student number is taken; otherwise "password mismatch" iff the confirmation differs; success appends exactly one row holding `hash(password)` after the unchanged old store; key uniqueness is preserved |
| UserService.RegisterRejectsRepeatedNumber | src/user/user.service.ts:47-51 | after a corrected registration, any second request with the same student number is refused and leaves the store alone |
| UserService.RegisterThenLogin | src/user/user.service.ts:22-37 | if `compare(p, hash(p))` holds for every `p`, a member just registered logs in with the same password and receives `sign` of their name |
| UserService.SkipSign | src/user/user.service.ts:74 | the skip `(pageCount-1)*pageNum` is 0 when pageNum is 0, non-negative for pageNum > 0 and pageCount ≥ 1, and negative for pageNum > 0 and pageCount < 1 |
| UserService.FindAll | src/user/user.service.ts:73-80 | refused iff pageNum < 0, or pageNum > 0 with pageCount < 1; for pageNum, pageCount ≥ 1 it is exactly page `pageCount` of size `pageNum`; pageNum 0 returns the whole store |
| UserService.FindByName | src/user/user.service.ts:102-115 | every returned user is in the store with exactly that username; at most pageNum rows are returned; for positive arguments it is that page of the name-filtered store; for pageNum 0 (no limit) it is every row with that username, in store order |
| UserService.NamePagesCoverMatches | src/user/user.service.ts:102-114 | reading enough pages of a name search in order yields every user with that name once, in store order |
| UserService.FindByStuNum | src/user/user.service.ts:87-95 | returns nothing iff no row has the student number; otherwise a store row with that number, and under unique keys the row holding it |
| UserService.DelUser | src/user/user.service.ts:122-128 | true iff some row had the student number; no such row remains; every other row is kept and none is added; the store shrinks by exactly the number of rows that held the number |
| UserService.DelUserKeepsOrder | src/user/user.service.ts:122-127 | deleting keeps a single row iff its number differs, and deleting from a concatenation deletes from each part, so the surviving rows keep their store order and multiplicity |
| UserService.DelUserRemovesOne | src/user/user.service.ts:122-127 | under unique keys a successful delete removes exactly one row, a failed one changes nothing, and keys stay unique |
| UserService.DelUserIdempotent | src/user/user.service.ts:122-127 | deleting the same number again reports false and changes nothing |
| UserService.UpdateUser | src/user/user.service.ts:135-141 | refused with "values missing" iff the patch is empty; refused with "duplicate key" iff it would move the rows onto a number another row holds; otherwise true iff some row had the student number, rows with other numbers are untouched and rows with the number get the patch |
| UserService.UpdateUserIdempotent | src/user/user.service.ts:135-136 | when an update is accepted, the same update is accepted again on its result and leaves the store as applying it once |
| UserService.UpdateUserKeepsKeysUnique | src/user/user.service.ts:135-136 | every accepted update, including one that changes the student number, keeps keys unique |
| Findings.CreateUserOverwritesMember | src/user/user.service.ts:47-65 | a new name with a taken student number and matching passwords is reported as registered, and the existing member's row is replaced by the newcomer's |
| Findings.OverwriteExample | src/user/user.service.ts:47-65 | with Alice holding 1001, Bob registering 1001 is told "注册成功" and the store becomes just Bob; corrected registration refuses Bob and keeps Alice |
| Findings.RegisteredUserCannotLogIn | src/user/user.service.ts:31-64 | if `compare` rejects every stored value not 60 characters long (as bcrypt does), a user registered with a password of any other length always gets "wrong password" |
| UserController.RegisterUser | src/user/user.controller.ts:17-23 | success iff the service message is exactly "注册成功", with no data; any other message becomes a failure carrying that message and code 40001 |
| UserController.LoginUser | src/user/user.controller.ts:28-34 | a failure iff the message is one of the three failure strings, passed through unchanged with code 40001; otherwise success with `{token: res}` and "登陆成功" |
| UserController.InfosRoundTrip | src/user/user.controller.ts:87-96 | the DTO copy loses only the password: the user is rebuilt from the DTO plus their password, and users differing only in password give the same DTO |
| UserController.FindByStuNum | src/user/user.controller.ts:81-98 | a falsy number gives `Ok(null, "参数传递错误")`; otherwise always a success: an empty DTO with "查询结果为空" iff nobody has the number, else a fully set DTO for the found user, carrying the queried number, with "查询成功" |
| UserController.PagingMessage | src/user/user.controller.ts:57-59 | "查询结果为空" iff totalCount is 0, "查询成功" iff it is not |
| UserController.FindAllPaging | src/user/user.controller.ts:49-62 | a falsy pageNum or pageCount gives `Ok(null, "参数传递错误")` whatever the fetch would return; otherwise the fetched page, with the message decided by its totalCount |
| UserController.FindByStuName | src/user/user.controller.ts:118-132 | as FindAllPaging, with a falsy name also refused before fetching |
| UserController.RegisterUserEndToEnd | src/user/user.controller.ts:18-22 | composed with the service, the reply succeeds iff the user was registered; "user exists" and "password mismatch" come back as failures with code 40001 |
| UserController.LoginUserEndToEnd | src/user/user.controller.ts:29-33 | composed with the service, and provided no token equals a failure string: an unknown number fails with "用户不存在", a rejected password with "密码不正确", and otherwise the reply carries the token signed over the found username |

## Left out

- bcrypt hashing and comparison are not modelled. The comparison is the
  parameter `compare`, and the corrected registration's digest is the
  parameter `hash`.
- JWT signing, expiry and token verification are not modelled. Signing is the
  parameter `sign`, applied to the username, which is the only claim the
  service puts in the token.
- `UserService.Login` has no store in its result. It only reads the store, so
  "login never changes the store" holds by its type.
- TypeORM, the database and async/await are replaced by pure functions over
  `seq<User>`. Two database behaviours are not modelled:
  - MySQL refuses an OFFSET without a LIMIT. The model's zero-take window
    follows the drivers that accept it.
  - Storage order is taken to be insertion order.
- `UserService.CreateUser`: the `where` on the username is taken to be an
  exact string match. Under a case- or accent-insensitive collation (MySQL
  8.0's default `utf8mb4_0900_ai_ci` is one), `findOne` can return a row
  whose name differs from the requested one; the strict re-check at
  src/user/user.service.ts:50 then lets the registration through. The model does not cover that case.
- `UserService.FindByName`: the `where` on the username is taken to be an
  exact string match, so a case- or accent-insensitive collation would
  return more rows than the model does.
- `UserService.Login`: the DTO's student number is taken to be present.
  TypeORM drops a `where` condition whose value is `undefined`, so a request
  without a number would look up the first row of the store. The model
  always filters on the number. `UserService.CreateUser` and
  `UserService.FindByName` make the same assumption for the name.
- The user entity file is not part of this model. The field types are
  assumed, and `student_number` is assumed to be the primary column that
  `save`, `delete` and `update` key on.
- Query parameters are modelled as integers and strings that may be absent.
  Falsy means absent, 0 or "". NaN, fractions and string-typed numbers are not
  modelled.
- The controller's `findAll` handler (src/user/user.controller.ts:65-71) is
  not modelled. It calls the service's `findAll` with no arguments, and the
  service requires two.
- The paging handlers' service calls are not modelled:
  - `findAllPaging` calls a service method that does not exist
    (src/user/user.controller.ts:56).
  - `findByStuName` reads `.totalCount` from a plain array
    (src/user/user.controller.ts:127).
  - Both handlers are modelled over a `fetch` parameter that returns an
    abstract `PagingData` with a `totalCount`.
- `ResponseData`, `APIResponse` and the DTO classes are not part of this
  model. They are plain datatypes here.
- The check-then-insert race in registration is not modelled, because it
  needs concurrency.
- NestJS and Swagger decorators, dependency injection and HTTP routing are
  not modelled.

## Findings

| source | as written | input that shows it | evidently intended | confidence | as-written member | corrected member |
|---|---|---|---|---|---|---|
| src/user/user.service.ts:47-65 | the duplicate check compares only the username, then `save` writes the row by its key | the store holds Alice with number 1001; Bob registers with number 1001 and matching passwords | refuse with "用户已存在" and keep Alice; the controller itself says student numbers never repeat (line 80) and names may repeat (line 117) | medium, not executed; depends on `student_number` being the primary column (if it is a unique non-primary column, `save` rejects instead, which is still not the refusal) | Findings.CreateUserOverwritesMember | UserService.Register |
| src/user/user.service.ts:55-64 | the password is stored unhashed, although line 55 announces encryption, while login checks it with `bcrypt.compareSync` (line 31) | register number 1001 with password "pw", then log in with 1001 and "pw" | the login succeeds | high, not executed; relies on bcryptjs's `compareSync` returning false for a stored value that is not 60 characters long | Findings.RegisteredUserCannotLogIn | UserService.Register |

The corrected `UserService.Register` checks the student number instead of
the username. It stores `hash(password)`. It appends through the same
`Repository.Save`, which cannot overwrite anything because the key is new.
`UserService.RegisterThenLogin` proves the intended round trip, and
`UserService.RegisterRejectsRepeatedNumber` proves that a taken number is
refused.
