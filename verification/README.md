# Bookmarks API — a Dafny model of the request handler

The service keeps "bookmark" records (title, url, rating, description) in one
table and serves them over HTTP. This project models two parts of it.

- **The store facade** (`src/bookmarks-service.js`). It offers four
  operations: list all, get by id, insert, and delete.
- **The router** (`src/bookmarksRouter.js`). It has two routes:
  - the collection route: `GET /bookmarks` lists, `POST /bookmarks`
    validates and creates;
  - the item route: `GET` and `DELETE` on `/bookmarks/:id`, both behind a
    shared existence gate.

The model is functional. A table is an immutable `Store`: a
`map<nat, Bookmark>` plus the next value of the table's id sequence. The
whole handler is one pure function, `BookmarksRouter.Handle(xss, store,
request)`. It returns a `Reply`: the response (status, optional Location,
body) and the next store.

Modules, one per file:

- `Wrappers` (`wrappers.dfy`): `Option` and `Result`.
- `Decimal` (`decimal.dfy`): the decimal text of a number, as JavaScript
  renders an id in the Location header. The routes hand the rating to the
  sanitiser as a number; the model hands over its decimal text instead,
  standing in for the sanitiser's own conversion. The inverse is here too,
  so a path can be read back.
- `BookmarksService` (`bookmarks_service.dfy`): the table, its invariant
  `Valid`, and the four store operations. Lemmas relate the operations to
  each other.
- `BookmarksRouter` (`bookmarks_router.dfy`): the payload, request and
  response types, the validator, the routes, `Handle`, and the router
  properties.
- `EndpointScenarios` (`endpoint_scenarios.dfy`): the requests the endpoint
  tests make, each with the answer the code gives. They are stated for the
  three fixture rows, or for any three rows seeded the same way. Where a
  test expects a different answer, the model follows the code; the
  differences are listed below.

Behaviour kept exactly as the code has it:

- The create route tests `value == null`, so a null field and an absent
  field both count as missing. This includes `description`, so a
  `description: null` payload is rejected with `missing description`, even
  though the table stores null descriptions (the fixtures have them).
  `EndpointScenarios.FixtureNotPostable` states this.
- The checks run in a fixed order: missing field (first one in the order
  title, url, rating, description), then rating outside 1..5, then the title
  being exactly `""`. There is no trimming, so `" "` is accepted.
- The list route returns stored rows as they are. The item and create
  routes pass every column except the id through the sanitiser; the id is
  echoed as stored.

Where the endpoint tests expect something other than what the code does:

- The test at test/bookmarks-endpoints.spec.js:69-76 expects GET
  /bookmarks/2 to answer the raw fixture, with rating `2` and description
  `null`. The item route at src/bookmarksRouter.js:77-83 passes rating and
  description through `xss` instead, so the answer holds the sanitiser's
  text for each. A null description becomes text too; it is never echoed
  as `null`. `EndpointScenarios.GetSecondFixture` states the answer the
  code gives. The test does not run, because the `describe.only` at
  test/bookmarks-endpoints.spec.js:81 limits the run to the POST tests.
- The follow-up GET at test/bookmarks-endpoints.spec.js:101-105 is not
  returned from its `.then`, so the test never waits for it.
  `BookmarksRouter.CreateThenGet` proves the property that GET checks.
- The item route's gate answers 404 `bookmark not found` before GET or
  DELETE runs. DELETE then answers 204 and ignores the delete count.

The sanitiser `xss` is a foreign library. It is a parameter of type
`Option<string> -> string`. `None` stands for a null column, which GET
passes to it for a fixture row. Beyond being a function, one thing is
assumed about it: that it gives the same result for the rating number as
for the rating's decimal text (see "## Left out").

## Model

| member | source | states |
|---|---|---|
| `BookmarksService.GetAll` | src/bookmarks-service.js:2-4 | every stored row appears, unchanged and once, in ascending id order; only stored rows appear; the list is empty exactly when the table is |
| `BookmarksService.RowsBetween` | src/bookmarks-service.js:3 | the rows with ids in a range, each as stored, all of them, in strictly ascending id order |
| `BookmarksService.GetById` | src/bookmarks-service.js:5-7 | a single row or absent, never a list; present exactly when the id is stored, and then it is the row filed under that id, with that id |
| `BookmarksService.Insert` | src/bookmarks-service.js:8-10 | adds exactly one row; its id was not in use; the returned row carries the id and the supplied columns; the table invariant is kept |
| `BookmarksService.WithId` | src/bookmarks-service.js:9 | the stored row carries the assigned id, and taking off the id gives back exactly the supplied columns |
| `BookmarksService.Delete` | src/bookmarks-service.js:11-13 | removes the row with that id; every other row stays as it was; no row is added; the count is 1 if the id was stored and 0 if not; the invariant is kept |
| `BookmarksService.Without` | test/bookmarks-endpoints.spec.js:172 | keeps exactly the rows whose id differs from the given one |
| `BookmarksService.GetAllAfterDelete` | test/bookmarks-endpoints.spec.js:170-181 | after a delete, the listing equals the earlier listing with that id filtered out |
| `BookmarksService.GetAllAfterInsert` | src/bookmarks-service.js:2-10 | after an insert, the listing equals the earlier listing with the new row appended |
| `BookmarksService.GetByIdAfterDelete` | src/bookmarks-service.js:5-13 | after deleting an id, looking it up is absent; lookups of other ids are unchanged |
| `BookmarksService.GetByIdAfterInsert` | src/bookmarks-service.js:5-10 | after an insert, looking up the new id gives the returned row; lookups of other ids are unchanged |
| `Decimal.NatToString` | src/bookmarksRouter.js:47 | the text of an id is non-empty, all digits, and has no leading zero unless the id is 0 |
| `Decimal.IntToString` | src/bookmarksRouter.js:52 | the text of a rating is non-empty, starts with '-' exactly when the rating is negative, and is otherwise decimal digits |
| `Decimal.ParseNatToString` | src/bookmarksRouter.js:47 | reading the digits of a rendered id gives back the id |
| `Decimal.ParseIntToString` | src/bookmarksRouter.js:52 | reading a rendered rating gives back the rating |
| `Decimal.NatToStringInjective` | src/bookmarksRouter.js:47 | distinct ids render to distinct texts |
| `BookmarksRouter.FirstNull` | src/bookmarksRouter.js:23-29 | the field-by-field scan returns the position of the first null or absent field, with every earlier field present; or none, when no field is null |
| `BookmarksRouter.Validate` | src/bookmarksRouter.js:20-41 | succeeds exactly when all fields are present, the rating is in 1..5 and the title is non-empty, and then yields the payload's values with the description non-null; otherwise the error is `missing K` for the first null field K, else the rating message, else the blank-title message |
| `BookmarksRouter.ItemPath` | src/bookmarksRouter.js:47 | the Location of a created row is `/bookmarks/` followed by nothing but decimal digits |
| `BookmarksRouter.Sanitized` | src/bookmarksRouter.js:77-83 | the answered row carries the id exactly as stored, not passed through the sanitiser |
| `BookmarksRouter.SanitizedReadsBack` | src/bookmarksRouter.js:48-54 | for each column the sanitiser leaves unchanged, the answered value gives back the stored one: title and url as stored, a rating text that reads back as the stored rating, a present description echoed |
| `BookmarksRouter.ListRoute` | src/bookmarksRouter.js:11-18 | answers 200 with exactly the stored rows, unsanitised |
| `BookmarksRouter.CreateRoute` | src/bookmarksRouter.js:19-57 | a rejected payload gets 400 with the validator's message and the table is unchanged; an accepted one is stored under the next sequence id, and the answer is 201 with Location `/bookmarks/<id>` and the sanitised stored row |
| `BookmarksRouter.Gate` | src/bookmarksRouter.js:61-75 | lets the request through exactly when the id is stored, handing over that row; otherwise it ends the request with 404 `bookmark not found` |
| `BookmarksRouter.Handle` | src/bookmarksRouter.js:9-91 | keeps the table invariant; answers only 200/201/204/400/404; a 200, 400 or 404 leaves the table unchanged; 201 exactly for an accepted create; 204 exactly for a DELETE of a stored id; 404 exactly for an item request on an unstored id |
| `BookmarksRouter.FirstMissingReported` | src/bookmarksRouter.js:20-29 | create answers 400 `missing K` if and only if K is the first null or absent field in the order title, url, rating, description; the table is unchanged |
| `BookmarksRouter.RatingRange` | src/bookmarksRouter.js:31-35 | create answers the rating message if and only if all fields are present and the rating is outside 1..5 |
| `BookmarksRouter.BlankTitle` | src/bookmarksRouter.js:37-41 | create answers the blank-title message if and only if all fields are present, the rating is in range, and the title is `""`; any other title is created |
| `BookmarksRouter.CheckPrecedence` | src/bookmarksRouter.js:23-41 | a payload with a missing field gets 400 but never the rating or title message; one with a bad rating never gets the title message; every rejection leaves the table unchanged |
| `BookmarksRouter.SuccessfulCreate` | src/bookmarksRouter.js:43-54 | an accepted create answers 201; the body's id was unused before and is the id of the one new row; the location is `/bookmarks/` plus that id; the row holds the payload's values; no other row changes |
| `BookmarksRouter.LocationNamesId` | src/bookmarksRouter.js:47 | the location is `/bookmarks/` followed by digits that read back as the id, so distinct ids get distinct locations |
| `BookmarksRouter.CreateThenGet` | test/bookmarks-endpoints.spec.js:101-105 | a GET of the id a create returned answers 200 with the same body the create answered |
| `BookmarksRouter.UnknownId` | src/bookmarksRouter.js:61-75 | for an unstored id, both GET and DELETE answer 404 `bookmark not found` and leave the table unchanged |
| `BookmarksRouter.ReadExisting` | src/bookmarksRouter.js:76-84 | GET of a stored id answers 200 with that row sanitised, changes nothing, and gives the same answer when repeated |
| `BookmarksRouter.DeleteThenList` | src/bookmarksRouter.js:85-91 | DELETE of a stored id answers 204 with no body; a following list holds exactly the other rows; a second DELETE of that id answers 404 |
| `BookmarksRouter.ListUnsanitised` | src/bookmarksRouter.js:11-18 | the list route answers 200 with the store's own listing and changes nothing |
| `EndpointScenarios.SeedStore` | test/bookmarks.fixtures.js:1-25 | inserting three rows one by one into an empty table files them under ids 1, 2 and 3 and leaves the sequence at 4 |
| `EndpointScenarios.SeededHoldsFixtures` | test/bookmarks.fixtures.js:3-23 | seeding the three fixtures gives exactly the fixture rows, under the ids the fixtures name |
| `EndpointScenarios.GetAllSeeded` | test/bookmarks-endpoints.spec.js:34-46 | a table seeded with any three rows lists them in id order |
| `EndpointScenarios.ListSeeded` | test/bookmarks-endpoints.spec.js:41-45 | GET /bookmarks on a seeded table answers 200 with the three rows as stored, null descriptions included |
| `EndpointScenarios.ListEmpty` | test/bookmarks-endpoints.spec.js:26-31 | GET /bookmarks on an empty table answers 200 with an empty list |
| `EndpointScenarios.GetSecondFixture` | src/bookmarksRouter.js:76-83 | GET /bookmarks/2 on the seeded table answers 200 with the second fixture sanitised: raw id 2, the rating as the sanitiser's text of "2", and the null description sent to the sanitiser, so it never comes back as null (the test at test/bookmarks-endpoints.spec.js:69-76 expects the raw row) |
| `EndpointScenarios.UnknownIdOnEmpty` | test/bookmarks-endpoints.spec.js:51-60 | GET and DELETE of id 123456 on an empty table answer 404 `bookmark not found` |
| `EndpointScenarios.DeleteSecondSeeded` | test/bookmarks-endpoints.spec.js:164-183 | DELETE /bookmarks/2 on a table seeded with any three rows answers 204, and the following list holds rows 1 and 3 |
| `EndpointScenarios.CreateNewTest` | test/bookmarks-endpoints.spec.js:82-100 | posting the valid payload with an empty description answers 201 at `/bookmarks/1`; the body's title is the posted title whenever the sanitiser leaves it alone |
| `EndpointScenarios.MissingFieldTest` | test/bookmarks-endpoints.spec.js:108-128 | deleting any one field from the tests' base payload, whose description is null, gets 400 `missing` plus that field's name and leaves the table unchanged |
| `EndpointScenarios.RangeAndBlankTests` | test/bookmarks-endpoints.spec.js:130-160 | rating 6 gets the rating message; title `""` with rating 5 gets the blank-title message; title `" "` is created |
| `EndpointScenarios.FixtureNotPostable` | test/bookmarks.fixtures.js:3-9 | posting a fixture's own columns, whose description is null, gets 400 `missing description` |

## Left out

- Express plumbing is not modelled. This covers the `req`/`res` objects,
  JSON body parsing, `next(err)` error forwarding and the 5xx responses
  that follow. Store failures are not modelled either; every store call
  succeeds.
- knex and PostgreSQL are not modelled: SQL, connections and truncation.
  The table is a map, and the serial id column is a counter that only
  moves forward.
- The tests seed fixtures with a direct insert that gives explicit ids.
  That kind of insert does not advance the id sequence. After it the real
  table holds ids 1 to 3 while its sequence is still at 1, so the next
  insert through the API would collide on id 1. `Valid` excludes that
  state. The model seeds the fixtures through `Insert` instead, which gives
  the same ids 1, 2 and 3 and leaves the sequence at 4.
- `xss` is a foreign library, so it stays uninterpreted. The model does
  not say what it returns for null, for numbers, or for text that is
  already safe. So `CreateNewTest` assumes, rather than proves, that the
  echoed title equals the posted one.
- BookmarksRouter.Sanitized: the routes pass the rating to `xss` as a
  number, and the model passes `xss` the rating's decimal text. This
  assumes `xss` turns a number into the same text it returns for that
  number's decimal string; the model does not type `xss` over numbers.
- JavaScript's loose typing is not modelled. The rating is an integer and
  title, url and description are strings. Left out are: string ratings
  compared by coercion; non-integer ratings; `NaN`, which passes the
  range test because both comparisons are false; and non-string titles,
  which never equal `""`.
- Path ids are natural numbers. A non-numeric `:id` makes the database
  call fail, which goes to `next(err)`; that is not modelled.
- HTTP verbs other than GET and DELETE on `/bookmarks/:id` are not
  modelled. Express answers those itself, after the gate.
- Promise and async sequencing, `app.js`, and the test runner setup are not
  modelled.
- BookmarksService.GetAll: the table gives no row order. The model picks
  ascending id order, so that order is a modelling choice, not a promise
  of the source.
- Ids and ratings are unbounded integers. PostgreSQL's integer column
  width is not modelled.
