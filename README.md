# Contact book API: authentication and owner-scoped contacts

This project models the core of a Laravel contact-book REST API. It covers
three parts:

- The token middleware that admits or rejects each request.
- The `users` record accessors that the middleware relies on.
- The contact controller. It does owner-scoped get, create, update and
  delete, plus a filtered, paginated search.

In-memory tables replace the database. The `users` table is a sequence of
`User` objects. `User` is a class because `setRememberToken` assigns its
token in place. The `contacts` table is a `ContactTable` object. It holds a
sequence of `Contact` rows and the next auto-increment key. `create`,
`update` and `delete` are methods that change that table. The single-row
lookup (`getContact`) and `search` are queries, so they are pure functions
over the rows.

Modules:

- `Common` (common.dfy) holds the shared pieces:
  - nullable values (`Option`);
  - keys that may be missing from validated data (`Field`);
  - PHP truthiness of a string input;
  - the substring test behind `LIKE '%x%'`.
- `Http` (http.dfy) holds the failure answers `401 Unauthorized` and
  `404 Contact not found`.
- `Users` (users.dfy) holds the `User` record, its mass-assignable keys and
  its authentication accessors.
- `ApiAuth` (auth.dfy) holds the request's auth guard, the
  `where(column, value)->first()` lookup and `Handle`. `Handle` keeps the
  source's flag variable.
- `Contacts` (contacts.dfy) holds contact rows, the conjoined
  `userId AND id` lookup, `fill`, the table class and tenant-isolation
  lemmas.
- `ContactSearch` (search.dfy) holds the filter closure, the owner-scoped
  match list, the page arithmetic and the properties of the served page.

## Model

| member | source | states |
|---|---|---|
| Common.ContainsIff | app/Http/Controllers/ContactController.php:92-104 | The scan used for `LIKE '%x%'` holds exactly when the pattern occurs at some position of the column value, in both directions |
| Common.Truthy | app/Http/Middleware/ApiAuthMiddleware.php:23-25 | PHP truthiness of a header or query input: missing, empty and "0" are falsy, every other string is truthy. It decides both the middleware's header test and which search filters apply |
| Common.Like | app/Http/Controllers/ContactController.php:92-104 | `column LIKE '%p%'` holds exactly when the column is not NULL and the pattern occurs at some position of its value |
| Users.MassAssignable | app/Models/User.php:18-22 | Mass assignment lets through exactly the request keys that are among username, password and name, with their values |
| Users.MassAssignmentGuardsTokenAndId | app/Models/User.php:18-22 | Request data can never set `token` or `id` |
| Users.User.Fill | app/Models/User.php:18-22 | Each fillable key in the data overwrites its column. Every other column, the key and the token keep their values |
| Users.User.GetAuthIdentifierName | app/Models/User.php:29-32 | The identifying column is `username` |
| Users.User.GetAuthIdentifier | app/Models/User.php:29-37 | The identifier is the value of the column named by the identifier name, `username` |
| Users.User.GetAuthPassword | app/Models/User.php:39-42 | Returns the stored password hash column unchanged |
| Users.User.GetRememberToken | app/Models/User.php:44-48 | Returns the value of the column named by the remember-token name, which is the `token` column the middleware queries |
| Users.User.GetRememberTokenName | app/Models/User.php:56-60 | The remember-token column is `token` |
| Users.User.SetRememberToken | app/Models/User.php:50-60 | Reading the token back gives the value set. No other column and not the key change |
| ApiAuth.Guard.Login | app/Http/Middleware/ApiAuthMiddleware.php:31 | After login the guard's user is the given user |
| ApiAuth.FirstWhere | app/Http/Middleware/ApiAuthMiddleware.php:27 | For a string column of `users`, finds the first user in table order whose column equals the value, where NULL matches NULL. Finds none exactly when no user's column equals it |
| ApiAuth.Admits | app/Http/Middleware/ApiAuthMiddleware.php:20-35 | The flag survives both tests exactly when the header is truthy and the token lookup finds a user |
| ApiAuth.AdmitsIff | app/Http/Middleware/ApiAuthMiddleware.php:20-35 | A request is admitted exactly when the header is truthy and some user's session token equals it |
| ApiAuth.FalsyHeaderRejected | app/Http/Middleware/ApiAuthMiddleware.php:23-25 | A missing, empty or "0" header is never admitted, whatever the table holds |
| ApiAuth.NullTokenUserFoundButRejected | app/Http/Middleware/ApiAuthMiddleware.php:20-35 | With a missing header, a user whose token is NULL is found by the lookup, yet the request is still rejected |
| ApiAuth.Handle | app/Http/Middleware/ApiAuthMiddleware.php:18-45 | Passes to the next handler exactly when the admission rule holds, and otherwise answers 401 "Unauthorized". A found user is logged in; when no user is found the guard is unchanged. On passing, the guard holds a table user whose token is the header. The user table is unchanged |
| Contacts.FindOwned | app/Http/Controllers/ContactController.php:21 | Gives the position of the first row whose owner and id both match, and none exactly when no row matches both |
| Contacts.GetContact | app/Http/Controllers/ContactController.php:19-32 | Succeeds only with a row of the table owned by the caller with the requested id. Otherwise fails with 404 "Contact not found", exactly when no such row exists |
| Contacts.OwnedBy | app/Http/Controllers/ContactController.php:86 | `where('userId', user)`: every row kept is owned by the caller, and there are never more than the table has |
| Contacts.OwnedByMembers | app/Http/Controllers/ContactController.php:21 | The caller's part of the table holds exactly the table rows the caller owns |
| Contacts.OwnedByConcat | app/Http/Controllers/ContactController.php:21 | Taking the caller's rows of two joined tables gives the caller's rows of each, joined |
| Contacts.GetContactSeesOnlyOwnRows | app/Http/Controllers/ContactController.php:19-31 | The lookup has the same outcome, success or failure, on the whole table as on the caller's own rows |
| Contacts.ForeignRowInvisible | app/Http/Controllers/ContactController.php:21-29 | Inserting another user's row anywhere, whatever its id, leaves the lookup's outcome unchanged. So someone else's contact and an absent one both give "Contact not found" |
| Contacts.Fill | app/Http/Controllers/ContactController.php:61-62 | Update data overwrites firstName and every key the request sent. Absent keys, the key and the owner are kept |
| Contacts.FillIdempotent | app/Http/Controllers/ContactController.php:61-62 | Filling twice with the same data is the same as filling once |
| Contacts.NewContact | app/Http/Controllers/ContactController.php:39-40 | A new row carries the next key and the authenticated user as owner, the request's firstName, and the sent value in each nullable column the request sent |
| Contacts.NewContactOwner | app/Http/Controllers/ContactController.php:39-40 | The owner of a created row is the caller. It holds the request's firstName, the sent value in each nullable column the request sent, and NULL in each one it did not send |
| Contacts.OthersUnaffectedByReplace | app/Http/Controllers/ContactController.php:59-63 | Replacing one row of the caller leaves every other user's rows exactly as they were |
| Contacts.OthersUnaffectedByRemove | app/Http/Controllers/ContactController.php:71-73 | Removing one row of the caller leaves every other user's rows exactly as they were |
| Contacts.OthersUnaffectedByAppend | app/Http/Controllers/ContactController.php:39-41 | Appending a row owned by the caller leaves every other user's rows exactly as they were |
| Contacts.ContactTable.constructor | database/migrations/2023_08_14_070609_create_contacts_table.php:14-24 | An empty table whose auto-increment key starts at 1 |
| Contacts.ContactTable.Create | app/Http/Controllers/ContactController.php:34-46 | Appends one new row owned by the caller and answers 201 with it. Keys stay unique. The caller can then read the row back by its id. Other users' rows are unchanged |
| Contacts.ContactTable.Update | app/Http/Controllers/ContactController.php:56-66 | When the owner-scoped lookup fails: 404 and the table is unchanged. Otherwise exactly the found row is replaced by its filled version and returned. A later lookup returns that row, and other users' rows are unchanged |
| Contacts.ContactTable.Delete | app/Http/Controllers/ContactController.php:68-78 | When the owner-scoped lookup fails: 404 and the table is unchanged. Otherwise exactly the found row is removed, every other row stays in order, and the answer is `data: true`. The id is then not found, and other users' rows are unchanged |
| ContactSearch.MatchesFilters | app/Http/Controllers/ContactController.php:88-106 | The filter closure: a truthy name must occur in the first or the last name, a truthy email in the email, a truthy phone in the phone. Its properties are stated by the lemmas below |
| ContactSearch.FalsyFiltersIgnored | app/Http/Controllers/ContactController.php:89-105 | A missing, empty or "0" name, email or phone input filters exactly as if the key were missing |
| ContactSearch.TruthyNameConstrains | app/Http/Controllers/ContactController.php:89-95 | A truthy name input rejects some contact |
| ContactSearch.TruthyEmailConstrains | app/Http/Controllers/ContactController.php:97-100 | A truthy email input rejects some contact |
| ContactSearch.TruthyPhoneConstrains | app/Http/Controllers/ContactController.php:102-105 | A truthy phone input rejects some contact |
| ContactSearch.Matching | app/Http/Controllers/ContactController.php:86-106 | Every match is owned by the caller and passes every applicable filter. There are never more matches than the caller has rows |
| ContactSearch.MatchingConcat | app/Http/Controllers/ContactController.php:86-106 | The matches of two joined stretches of the table are the matches of each, joined. Table order is kept |
| ContactSearch.MatchingSingle | app/Http/Controllers/ContactController.php:86-106 | A single row is matched once exactly when the caller owns it and it passes the filters, and otherwise not at all |
| ContactSearch.MatchingMembers | app/Http/Controllers/ContactController.php:86-106 | A row is a match exactly when it is in the table, owned by the caller and passes the name (first or last), email and phone filters that apply |
| ContactSearch.NoFilterListsAllOwned | app/Http/Controllers/ContactController.php:88-106 | With no truthy filter, the matches are all of the caller's rows, in table order |
| ContactSearch.MatchingWithinOwned | app/Http/Controllers/ContactController.php:86-88 | Filtering the whole table gives the same matches as filtering the caller's own rows |
| ContactSearch.MatchingSameFilters | app/Http/Controllers/ContactController.php:88-106 | `page` and `limit` take no part in which rows match |
| ContactSearch.CurrentPage | app/Http/Controllers/ContactController.php:83 | The page served is at least 1. It is 1 when no page is given, the requested page when that is at least 1, and 1 when the requested page is below 1 |
| ContactSearch.PerPage | app/Http/Controllers/ContactController.php:84 | The page size is at least 1. It is 10 when no limit is given, the requested limit when that is at least 1, and the model's per-page size of 15 when the limit is 0 |
| ContactSearch.Search | app/Http/Controllers/ContactController.php:80-111 | Reports the number of matches before slicing, the page served and the page size. Serves at most one page of rows, each owned by the caller and passing the filters |
| ContactSearch.SearchServesOnlyOwnRows | app/Http/Controllers/ContactController.php:86 | Every row served is a row of the table owned by the caller |
| ContactSearch.PageIsSlice | app/Http/Controllers/ContactController.php:108 | The page is the matches from `(page - 1) * limit` onward. It is full unless the matches run out, and empty past the end |
| ContactSearch.MatchAtPagePosition | app/Http/Controllers/ContactController.php:108 | Position r of page p holds match `(p - 1) * limit + r` whenever that match exists |
| ContactSearch.EveryMatchOnItsPage | app/Http/Controllers/ContactController.php:108 | Every match is served, at its position within the one page whose range contains it |
| ContactSearch.PositionOnPage | app/Http/Controllers/ContactController.php:108 | Page and offset arithmetic: for a page size of at least 1, index `k / size + 1` is a page number and `k % size` an offset within a page, and `(page - 1) * size + offset` gives back `k` |
| ContactSearch.DefaultsServeFirstTen | app/Http/Controllers/ContactController.php:83-84 | With no page and no limit, the search serves page 1 with page size 10, which is the first ten matches |
| ContactSearch.NoMatchEmptyPage | app/Http/Controllers/ContactController.php:108 | When none of the caller's rows matches, the answer is an empty page with total 0, not a failure |

## Left out

- The address controller and the contact→address ownership hop are not part of this model. The address controller is not among the modelled files.
- Deleting a contact does not cascade to its addresses. The addresses foreign key declares no `onDelete` action, so the model has no cascade.
- Contacts.ContactTable.Delete: always removes the found row and answers `data: true`. In the database the addresses foreign key has no `onDelete` action, so deleting a contact that still has addresses is refused: the request fails with a server error and the row stays. The model has no addresses table, so this case cannot arise in it.
- Request validation is not modelled: required `firstName`, email format and length limits. The model starts from validated data, so `ContactInput.firstName` is always present.
- `UserController.register` is not modelled. Its only logic is `Hash::make`, a foreign hashing primitive, and an ORM save. Mass assignment is modelled by `Users.User.Fill`.
- Login, token issuance and the self-service user update are not part of this model.
- `LIKE` is modelled as a plain substring test. Collation-dependent case folding is not modelled. Neither is the wildcard meaning of `%` and `_` inside a search term.
- ApiAuth.FirstWhere: the token lookup `where('token', $token)` is an `=` comparison under the database collation, which may ignore case or trailing spaces. The model compares tokens by exact string equality.
- Search rows come in table order, because the query has no `orderBy`.
- The JSON envelope, resources and collections, routing, and the `Auth` facade's session internals are left out. So are HTTP status plumbing beyond the status values and logging.
- ContactSearch.Search: a negative `limit` is excluded by its precondition. Laravel's query builder then drops the `LIMIT` clause, which is framework behaviour outside this model. Page values below 1 are served as page 1. A `limit` of 0 falls back to the model's per-page size of 15. Both follow from how Laravel's paginator treats falsy and out-of-range values.
- ContactSearch.PerPage: the same precondition on a negative `limit`.
- ContactSearch.Search: `page` and `limit` are modelled as optional integers, where a missing value means the key is absent from the query string. A key that is present but empty, such as `?limit=`, cannot be expressed. The source does not apply the default to it: the value is null or "", which is falsy, so the paginator serves its per-page size of 15. Non-integer values such as `page=1.5` or `limit=abc` are outside the model too.
- ApiAuth.FirstWhere: only the string columns `username`, `password`, `name` and `token` may be looked up, and the middleware only uses `token`. A lookup on the integer key `id` is not modelled.
- Contacts.ContactTable.Create: the row id comes from an in-memory auto-increment counter. Database-assigned ids, timestamps and the foreign key to `users` are not modelled.
- Concurrent requests are not modelled. Each action is one atomic step on the table.
