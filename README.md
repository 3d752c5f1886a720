# Rate dashboard core: in-memory repository, rate routes and data table

This project models the logic core of a small business dashboard. The dashboard is a
login-gated single-page app with a filterable, paginated "rate matrix" backed by an
in-memory REST store. Three parts are modelled and proved:

- **`MemStorage`** (`server/storage.ts`) is a class over two insertion-ordered maps,
  `users` and `rates`. Each map has its own auto-increment counter. The class offers
  create, read, update and delete on rates, user creation and lookup, a credential
  check, and filters by category and by status.
- **The rate routes** (`server/routes.ts`) are the `GET /api/rates` filter pipeline and
  the status dispatch of the login and single-rate handlers. They are written as
  sequential procedures over one store.
- **The `DataTable` component** (`client/src/components/DataTable.jsx`) supplies the
  page arithmetic, the page-button rule, the empty-row span, the "Showing a-b of n"
  summary and the selection state machine.

The record shapes and the login rule come from `shared/schema.ts`.

Modules:

| file | module | models |
|---|---|---|
| `schema.dfy` | `Schema` | record shapes, insert shapes, `RatePatch` (a typed `Partial<InsertRate>`), `loginSchema` |
| `storage.dfy` | `Storage` | `MemStorage` as a class; the record building, merge and user lookup it uses |
| `routes.dfy` | `Routes` | the handlers of `/api/login` and `/api/rates[/:id]` |
| `data_table.dfy` | `DataTable` | the component's state as a class `Table`, plus pure functions of that state |
| `ordered_map.dfy` | `OrderedMaps` | a JavaScript `Map` with number keys: `get`, `set`, `delete`, `values()` |
| `sequences.dfy` | `Sequences` | `Array.prototype.filter`; a JavaScript `Set` as a duplicate-free sequence in insertion order |
| `text.dfy` | `Text` | ASCII `toLowerCase` and `String.prototype.includes` |
| `wrappers.dfy` | `Wrappers` | `Option` (for `undefined`/`null`) and `Result` |

Modelling decisions:

- The store's maps are `OrderedMap` values: a key sequence plus a Dafny `map`. The class
  fields are reassigned where the source calls `set` or `delete`. Insertion order is
  kept because `Array.from(map.values())` returns records in that order.
  `MemStorage.Valid` states the invariants:
  - user ids are exactly 1..n, in order;
  - every rate is stored under its own id;
  - rate keys increase, so insertion order is id order;
  - a ghost set `issuedRateIds` holds every id ever handed out, and all of them are
    below the counter. This is what makes "never reused, even after a delete" provable.
- `new Date()` becomes a `now` parameter.
- `selectedRows` is a `Set` in the source. Here it is a duplicate-free `seq<int>` in
  insertion order, because `Array.from(newSelected)` is what `onRowSelect` receives.
  The callback itself is a foreign call. `HandleSelectRow` returns the list the
  callback would receive.
- Behaviours of the code that are easy to misread:
  - "Select all" *replaces* the selection with the visible ids. It drops ids selected
    on other pages (`SelectAllEffect`). It does not merely toggle the visible rows.
  - Only `handleSelectRow` notifies `onRowSelect`. `handleSelectAll` does not.
  - A typed `RatePatch` never overwrites `id` or `createdAt` (`MergeFields`). The raw
    request body that `updateRate` receives can (see "Left out").
  - `code` and `username` are declared unique by the schema. Neither create path
    checks this. The model keeps duplicates, as the code does:
    - `DuplicateCodeAccepted` shows two stored rates with the same code.
    - `DuplicateUsernameShadowed` shows that a second `admin` can never log in.

## Model

| member | source | states |
|---|---|---|
| `Schema.FieldValid` | shared/schema.ts:33-34 | the test of `z.string().min(1)`: the field is present with at least one character; `FieldIssues` raises no issue exactly when it holds |
| `Schema.ValidLogin` | shared/schema.ts:32-35 | the `loginSchema` test: both fields pass `FieldValid`; `ParseLogin` succeeds exactly when it holds |
| `Schema.FieldIssues` | shared/schema.ts:32-35 | a field raises no issue iff it is present and at least one character long; every issue names that field |
| `Schema.ParseLogin` | shared/schema.ts:32-35 | parsing succeeds iff both username and password are present and non-empty; on success it returns them unchanged; on failure the issue list is non-empty, each issue names a field that failed, and every failed field has an issue |
| `Schema.LoginNotTrimmed` | shared/schema.ts:32-35 | whitespace-only values are accepted (no trimming); an empty username is rejected; a missing password yields the issue "Required" |
| `Storage.StatusOrDefault` | server/storage.ts:119 | the stored status is never empty; it is the given status when that is present and non-empty, and "active" otherwise (so `""` also becomes "active") |
| `Storage.UserRoundTrip` | server/storage.ts:92-96 | a created user carries exactly the insert fields plus the id; reading the insert fields back gives the input, and rebuilding a user from its fields gives the user |
| `Storage.RateRoundTrip` | server/storage.ts:117-122 | a created rate carries the given id and time and every insert field, except that a missing or empty status reads back as "active"; a stored rate with a non-empty status is rebuilt exactly from its insert fields |
| `Storage.MergeFields` | server/storage.ts:131 | the shallow merge keeps `id` and `createdAt`; each other field takes the patch value when present, even an empty string, and keeps its old value otherwise |
| `Storage.MergeIdempotent` | server/storage.ts:131 | merging a patch twice equals merging it once; the empty patch changes nothing |
| `Storage.MergeStatusOnly` | server/storage.ts:131 | a patch holding only `status` changes the status and no other field |
| `Storage.FindUser` | server/storage.ts:86-90 | the index found is that of the first user with the username; none is found iff no user has it |
| `Storage.Authenticate` | server/storage.ts:99-105 | a result is a stored user with that username and exactly that password; a result exists iff the first user with the username has that password, and it is that first user |
| `Storage.UsernamesUnique` | shared/schema.ts:7 | the declared `.unique()` on `username`, which the store does not enforce; used only as the assumption of `AuthenticateStored` |
| `Storage.AuthenticateStored` | server/storage.ts:99-105 | when usernames are unique, a stored user authenticates with its own password, and every other password yields nothing |
| `Storage.AuthenticateUnknown` | server/storage.ts:99-105 | an unknown username never authenticates; no match and wrong password look the same to the caller |
| `Storage.NewUser` | server/storage.ts:94 | the stored user carries the given id, and its insert fields are exactly the input |
| `Storage.NewRate` | server/storage.ts:117-122 | the stored rate carries the given id and time and a non-empty status; every other field is the input's, with the status filled in |
| `Storage.Merge` | server/storage.ts:131 | the merged record keeps the stored `id` and `createdAt`; the empty patch leaves the record as it was |
| `Storage.SampleRates` | server/storage.ts:44-75 | the three seeded records RT001, RT002 and RT003 with ids 1-3; the constructor and `SeedRates` prove the store lists exactly these |
| `Storage.MemStorage.Users` | server/storage.ts:87 | `Array.from(this.users.values())`: the users in insertion order; the state the user methods are specified against |
| `Storage.MemStorage.Rates` | server/storage.ts:108 | `Array.from(this.rates.values())`: the rates in insertion order; `GetAllRates` proves it is increasing id order |
| `OrderedMaps.Empty` | server/storage.ts:25-26 | `new Map()`: no keys, no entries, and the map invariant holds |
| `Storage.MemStorage.constructor` | server/storage.ts:24-32 | a fresh store holds the single user 1 `admin`/`admin123` and the three sample rates with ids 1, 2, 3 in that order; the counters stand at 2 and 4 |
| `Storage.MemStorage.InitializeData` | server/storage.ts:34-80 | seeding from empty maps and counters at 1 takes every id from the counters and yields the seed data above with the store invariant established |
| `Storage.MemStorage.SeedUser` | server/storage.ts:35-41 | the default user `admin`/`admin123` is stored under user id 1 and the user counter moves to 2 |
| `Storage.MemStorage.SeedRates` | server/storage.ts:43-79 | the three sample rates take ids 1, 2, 3 from the rate counter, which moves to 4, and are listed in that order |
| `Storage.MemStorage.SetEach` | server/storage.ts:77-79 | setting rates numbered 1..n one by one into an empty map lists them in that order under their own ids |
| `Storage.MemStorage.GetUser` | server/storage.ts:82-84 | a user is returned iff 1 <= id < the user counter, and it is the user with that id |
| `Storage.MemStorage.GetUserByUsername` | server/storage.ts:86-90 | nothing is returned iff no stored user has the username; otherwise the first such user in insertion order is returned |
| `Storage.MemStorage.CreateUser` | server/storage.ts:92-97 | the new user has the pre-call counter as id; the counter is incremented; the user is appended to the user list; rates are untouched; duplicate usernames are not refused |
| `Storage.MemStorage.AuthenticateUser` | server/storage.ts:99-105 | the result is `Authenticate` over the users in insertion order |
| `Storage.MemStorage.GetAllRates` | server/storage.ts:107-109 | all stored rates in insertion order, which is strictly increasing id order; a record is listed iff it is stored under its own id |
| `Storage.MemStorage.GetRateById` | server/storage.ts:111-113 | nothing is returned iff no stored rate has the id; otherwise a stored rate with that id |
| `Storage.MemStorage.CreateRate` | server/storage.ts:115-125 | the new record takes the pre-call counter as id, the given time, and the defaulted status; the id was never issued before and exceeds every id issued; the counter is incremented; the record is appended to the order; get-by-id of that id returns it; no other record changes |
| `Storage.MemStorage.UpdateRate` | server/storage.ts:127-134 | for an unknown id: nothing is returned and the map is unchanged; otherwise the result is the merge of the patch over the stored record; only that entry changes; the key order is unchanged; counters and users are untouched |
| `Storage.MemStorage.DeleteRate` | server/storage.ts:136-138 | returns true iff the id was stored; afterwards that id is absent, every other key looks up as before, the remaining rates keep their order, and the counter and issued ids are unchanged |
| `Storage.MemStorage.GetRatesByCategory` | server/storage.ts:140-142 | exactly the rates whose category equals the argument, as an order-preserving subsequence of all rates |
| `Storage.MemStorage.GetRatesByStatus` | server/storage.ts:144-146 | exactly the rates whose status equals the argument, as an order-preserving subsequence of all rates |
| `Storage.DuplicateCodeAccepted` | server/storage.ts:115-125 | creating a rate with the existing code "RT001" stores a second rate with that code (id 4 beside id 1) |
| `Storage.DuplicateUsernameShadowed` | server/storage.ts:92-105 | after a second user named "admin" is created, its password never authenticates, while the original admin's still does |
| `OrderedMaps.SetNewValues` | server/storage.ts:123 | setting a new key appends its value to the iteration order |
| `OrderedMaps.SetExistingValues` | server/storage.ts:132 | setting an existing key replaces its value in place and moves no other value |
| `OrderedMaps.DeleteFiltersValues` | server/storage.ts:137 | deleting a key from a map whose values record their own keys removes exactly the values with that key and keeps the others in order |
| `Routes.Given` | server/routes.ts:83-91 | the truthiness tests `if (category)`, `if (status)`, `if (search)`: present and not the empty string; `UnfilteredListing` shows no truthy parameter filters nothing |
| `Routes.WithoutPassword` | server/routes.ts:19 | the public view keeps `id` and `username`; its type has no password field |
| `Routes.MatchesSearch` | server/routes.ts:92-96 | the search test: the lower-cased term is included in the lower-cased name, code or category; its content is stated by `SearchIff` and `SearchIgnoresCase` |
| `Routes.Matches` | server/routes.ts:83-97 | a rate passes the query iff each truthy parameter holds: category and status by exact equality, search by `MatchesSearch`; `ListRates` proves the listing is this filter |
| `Sequences.Filter` | server/storage.ts:141 | `Array.prototype.filter`: never longer than the input; an element is kept iff it is in the input and passes the test; the order is kept (`FilterIsSubsequence`) |
| `Text.Lower` | server/routes.ts:92 | `toLowerCase` keeps the length and maps each ASCII capital to its lower-case letter, leaving other characters as they are |
| `Text.Includes` | server/routes.ts:94-96 | `String.prototype.includes`; characterised by `IncludesIff` |
| `Routes.ListRates` | server/routes.ts:78-104 | status 200; the list is all rates filtered by the conjunction of the three tests, as an order-preserving subsequence; a rate is listed iff each given parameter matches |
| `Routes.UnfilteredListing` | server/routes.ts:83-98 | with no non-empty category, status or search the listing equals all rates |
| `Routes.SearchIff` | server/routes.ts:91-97 | a rate matches a search iff the lower-cased term occurs at some position of the lower-cased name, code or category |
| `Routes.SearchIgnoresCase` | server/routes.ts:92-96 | a term and its lower-cased form match the same rates |
| `Text.IncludesIff` | server/routes.ts:94-96 | `includes` holds iff the term occurs at some position of the string |
| `OrderedMaps.OrderedMap.Get` | server/storage.ts:112 | `Map.get`: a value is found iff the key is present, and it is the stored value |
| `OrderedMaps.OrderedMap.Set` | server/storage.ts:123 | `Map.set`: the entry for the key becomes the value; a new key is appended to the key order, an existing one keeps its place; the map invariant is kept |
| `OrderedMaps.OrderedMap.Values` | server/storage.ts:108 | `Array.from(map.values())`: one value per key, in key order, each the value stored under that key |
| `OrderedMaps.OrderedMap.Delete` | server/storage.ts:137 | the result is true iff the key was present; the key is removed from the entries; the other keys keep their order; the map invariant is kept |
| `Text.LowerIdempotent` | server/routes.ts:92-96 | lower-casing twice equals lower-casing once, and leaves no ASCII capital |
| `Routes.Login` | server/routes.ts:9-27 | 400 with the schema issues iff the body fails the login rule; 401 with "Invalid credentials" iff the body is valid but authentication fails; otherwise 200 with the user `authenticateUser` returns (the first user with that username, whose password matched), without its password |
| `Routes.GetRate` | server/routes.ts:106-119 | 404 "Rate not found" iff no rate has the id; otherwise 200 with the stored rate of that id |
| `Routes.PostRate` | server/routes.ts:121-128 | 201 with the created record, built from the pre-call counter; the record is appended to the store under an id never issued before; the rate counter moves on by one, so successive posts get distinct ids; users are untouched |
| `Routes.PutRate` | server/routes.ts:130-143 | 404 with the store unchanged iff the id is unknown; otherwise 200 with the merged record, which replaces that entry in place; key order, counters and users are unchanged |
| `Routes.DeleteRate` | server/routes.ts:145-158 | 204 with no body iff a rate was removed, otherwise 404; afterwards the id looks up as absent, every other id as before; the remaining rates keep their order; counters and users are unchanged |
| `Routes.PostThenGet` | server/routes.ts:106-128 | posting a rate without status gives 201 with status "active"; a get by the returned id then gives 200 with the same record |
| `DataTable.StartIndex` | client/src/components/DataTable.jsx:31 | `(currentPage - 1) * pageSize`; `CurrentData` and `RowOnItsPage` state where each page starts |
| `DataTable.EndIndex` | client/src/components/DataTable.jsx:32 | `startIndex + pageSize`; `CurrentData` states the page is cut at the lesser of it and the data length |
| `DataTable.Slice` | client/src/components/DataTable.jsx:33 | `data.slice(start, end)` for non-negative bounds: empty when start is at or past the end or end <= start, otherwise `min(end, len) - start` elements, element i being `s[start + i]` |
| `DataTable.TotalPages` | client/src/components/DataTable.jsx:30 | the result is the ceiling of len/size: the fewest pages of `size` rows holding `len` rows; 0 iff there is no data |
| `DataTable.CurrentData` | client/src/components/DataTable.jsx:31-33 | the visible rows are at most `size` consecutive rows starting at `(page-1)*size`, cut at the end of the data, so a non-empty page holds exactly `min(endIndex, len) - startIndex` rows; they are empty iff that start is at or past the end |
| `DataTable.PageNonEmptyIff` | client/src/components/DataTable.jsx:30-33 | a page shows rows iff it lies in 1..totalPages; a current page past the end shows nothing |
| `DataTable.PageSizes` | client/src/components/DataTable.jsx:30-33 | every page before the last is full; the last page holds the remaining `len - (p-1)*size` rows |
| `DataTable.RowOnItsPage` | client/src/components/DataTable.jsx:30-33 | row j is shown on page `j/size + 1` at position `j%size`, and that page is in range |
| `DataTable.TwelveRows` | client/src/components/DataTable.jsx:30-33 | with 12 rows and pages of 10: page 1 shows rows 0-9, page 2 shows rows 10-11, page 3 is empty |
| `DataTable.ShowingRange` | client/src/components/DataTable.jsx:76 | the three numbers of the summary: `startIndex + 1`, `min(endIndex, len)` and `len`; their meaning is stated by `ShowingMatchesRows` |
| `DataTable.ShowingMatchesRows` | client/src/components/DataTable.jsx:76 | on a page in range, the "Showing a-b of n" summary gives the 1-based positions of exactly the visible rows; with no data the upper bound and the total are 0 (on page 1, "1-0 of 0") |
| `DataTable.ShowPageButton` | client/src/components/DataTable.jsx:191-192 | the page-button rule as written; `PageButtonsShape` proves which buttons it draws |
| `DataTable.PageButtons` | client/src/components/DataTable.jsx:187-209 | the page numbers 1..totalPages that pass the rule, in order; stated by `PageButtonsShape` and `PageButtonsAtMostFive` |
| `DataTable.PageButtonsShape` | client/src/components/DataTable.jsx:187-192 | a page button k is drawn iff 1 <= k <= totalPages and (totalPages <= 5, or k is first or last, or k is within one of the current page); the buttons increase; first, last and current page always appear; up to five pages all appear |
| `DataTable.PageButtonsAtMostFive` | client/src/components/DataTable.jsx:187-192 | with more than five pages at most five buttons are drawn |
| `DataTable.PrevPage` | client/src/components/DataTable.jsx:181 | `Math.max(1, page - 1)`; its range is stated by `PrevNextInRange` |
| `DataTable.NextPage` | client/src/components/DataTable.jsx:214 | `Math.min(totalPages, page + 1)`; its range is stated by `PrevNextInRange` |
| `DataTable.PrevNextInRange` | client/src/components/DataTable.jsx:181-214 | from a page in range, prev and next stay in range and move by at most one; from a page past the end, next returns to the last page |
| `DataTable.ShowPagination` | client/src/components/DataTable.jsx:158 | `pagination && data.length > 0`; `PaginationBarHasPages` proves at least one page exists whenever it holds |
| `DataTable.PaginationBarHasPages` | client/src/components/DataTable.jsx:158 | while the pagination bar is shown there is at least one page |
| `DataTable.HeaderCells` | client/src/components/DataTable.jsx:86-102 | the header row: the select-all box when selection is on, one title per column, then the Actions title |
| `DataTable.EmptyRowColSpan` | client/src/components/DataTable.jsx:108 | `columns.length + (selection ? 1 : 0) + 1`; `EmptyRowSpansHeader` proves it equals the header's cell count |
| `DataTable.EmptyRowSpansHeader` | client/src/components/DataTable.jsx:86-112 | the "No data available" cell spans exactly as many columns as the header row has cells |
| `DataTable.Ids` | client/src/components/DataTable.jsx:37 | `rows.map(row => row.id)`: one id per row, in row order |
| `DataTable.AllSelected` | client/src/components/DataTable.jsx:54 | some row is visible and every visible row's id is selected |
| `DataTable.SomeSelected` | client/src/components/DataTable.jsx:55 | some visible row's id is selected |
| `DataTable.AllImpliesSome` | client/src/components/DataTable.jsx:54-55 | `allSelected` implies `someSelected` |
| `Sequences.SetOf` | client/src/components/DataTable.jsx:37 | `new Set(xs)` as its iteration order: no duplicates; an element is in it iff it is in `xs`; a duplicate-free `xs` comes back unchanged |
| `Sequences.SetAdd` | client/src/components/DataTable.jsx:46 | `set.add(x)`: no duplicates; the members are the old ones plus `x`; the old order is kept as a subsequence |
| `Sequences.SetDelete` | client/src/components/DataTable.jsx:48 | `set.delete(x)`: no duplicates; the members are the old ones except `x`; the rest keep their order |
| `DataTable.SelectAllIds` | client/src/components/DataTable.jsx:35-41 | checking installs exactly the visible ids, without duplicates, and in row order when the visible ids are distinct; unchecking installs the empty selection |
| `DataTable.SelectRowIds` | client/src/components/DataTable.jsx:43-50 | the selection after one box changes stays free of duplicates; its content is stated by `SelectRowEffect` |
| `DataTable.SelectAllEffect` | client/src/components/DataTable.jsx:35-41 | checking "select all" makes the selection exactly the visible ids, so all visible rows are selected (when there are any) and ids from other pages are dropped; unchecking empties the selection and nothing visible is selected |
| `DataTable.SelectRowEffect` | client/src/components/DataTable.jsx:43-50 | checking a row adds only its id, at the end unless it is already present; unchecking removes only it; the other ids keep their order |
| `DataTable.SelectAllOnSecondPage` | client/src/components/DataTable.jsx:35-41 | with 12 rows, "select all" on page 2 selects ids 10 and 11 only |
| `DataTable.Table.constructor` | client/src/components/DataTable.jsx:26-28 | the initial state is page 1, page size 10, nothing selected |
| `DataTable.Table.Visible` | client/src/components/DataTable.jsx:33 | `currentData` of the table's state: at most `pageSize` rows, row i being `data[startIndex + i]` |
| `DataTable.Table.HandleSelectAll` | client/src/components/DataTable.jsx:35-41 | the new selection is the ids of the rows visible before the call, or empty; nothing is reported to `onRowSelect` |
| `DataTable.Table.HandleSelectRow` | client/src/components/DataTable.jsx:43-52 | the new selection is the old one with that id added or removed; the returned list, which `onRowSelect` receives, is the new selection in insertion order |
| `DataTable.Table.ClickPrev` | client/src/components/DataTable.jsx:181 | the page becomes `max(1, page-1)` |
| `DataTable.Table.ClickNext` | client/src/components/DataTable.jsx:214 | the page becomes `min(totalPages, page+1)`; only reachable while there is data, so the page stays >= 1 |
| `DataTable.Table.ClickPage` | client/src/components/DataTable.jsx:198 | a page button sets the current page to its number |
| `DataTable.Table.ChangePageSize` | client/src/components/DataTable.jsx:165-168 | choosing a size from 10, 25 and 50 sets it and resets the page to 1 |

## Left out

- The Express server, HTTP transport, `async`/Promise wrappers and the `try`/500
  catch-alls. Handlers are sequential procedures with the store passed in explicitly,
  replacing the module-level `storage` singleton. No handler can reach 500 in the model.
- The dashboard stats and activity routes (`server/routes.ts:30-75`). They return
  constant data.
- The `IStorage` interface. It only declares the signatures that `MemStorage` implements.
- `parseInt` on path ids. Ids are taken as integers, so a non-numeric id is not
  represented. In the source it parses to `NaN`, which matches no key and leads to 404.
- Request bodies are typed. `RatePatch` has no `id` or `createdAt` field.
  - The source passes the unvalidated `req.body` to `updateRate`. Its shallow merge
    `{ ...rate, ...rateData }` lets such a body overwrite `id` or `createdAt`.
  - `createRate` writes `status`, `id` and `createdAt` after spreading the body, so
    the body cannot override them there.
  - For both calls, an unvalidated body can add extra fields or omit required
    insert fields.
  - None of this is modelled.
- JSON `null` in a patch, and a patch key present with value `undefined`.
- Query parameters given more than once, which become arrays (`search.toString()`).
  Each parameter is modelled as absent or one string. The client never sends empty
  filter values, which matches the truthiness tests modelled by `Given`.
- `toLowerCase` is modelled for ASCII only. Unicode case mapping is not modelled.
- `baseRate` and `multiplier` are opaque strings with no decimal meaning.
- `createdAt` is the `now` argument. The clock is not modelled.
- CreateRate, CreateUser: the id counters are JavaScript numbers. Past 2^53, `++` no
  longer increases them and ids repeat, so `rates.set` would overwrite a stored record.
  The model's counters are unbounded integers, so "never reused" holds for every call.
- SeedRates: the source calls `new Date()` once per sample rate. The model stamps all three with one `now`.
- zod internals: type errors for non-string fields, the stripping of unknown keys, and
  the exact shape of error objects. Only missing and empty fields are modelled, as issues.
- Rendering and markup are not modelled:
  - the loading spinner;
  - column `render` functions and cell contents;
  - the Edit/menu row buttons and `onRowAction` (a pure dispatcher);
  - the checkbox's indeterminate display;
  - the disabled state of the prev/next buttons.
- React state semantics: batched updates and handlers from stale renders. Each handler
  is applied to the current state, taking the props of its render as arguments.
- The UI pages, routing, form components and the `api.js` fetch layer.
