# Paste store of a minimal pastebin service

The service keeps every submitted paste in one process-wide table from paste id to
paste record (`index.js:7`). Two request handlers use it:

- **create** (POST `/`): a missing or empty `text` field is refused with status 400;
  otherwise a record is stored under the new id with `createdAt = now`,
  `expiresAt = now + 24 h`, `deleted = false`, `lastRead = null` and the client address,
  replacing any record already under that id, and the client is redirected to the id.
- **view** (GET `/:id`): an absent id, a deleted record or a time past `expiresAt`
  gives the not-found page (status 404); otherwise `lastRead` is set to the current
  time and the text is shown.

`paste_store.dfy` (module `PasteStore`) holds the records, the two handlers as pure
step functions over the table (`CreateStep`, `ViewStep`), and the class `Store` whose
field `pastes` is updated in place by the methods `Create` and `View`, each proved to
do exactly what its step function says while keeping every record well formed.
`paste_properties.dfy` (module `PasteProperties`) states the service's promises over
single requests and over any sequence of requests.

The clock is an integer number of milliseconds passed to each handler; the new id is
passed to `Create` as well. The form field is an `Option<string>`: `None` for a
missing field. Whitespace-only text is accepted: the handler's test at index.js:27
refuses only a missing field and the empty string, and the model follows it.

## Model

| member | source | states |
|---|---|---|
| `PasteStore.CreateStep` | index.js:25-42 | rejected exactly when `text` is missing or `""` (whitespace passes), and then the table is unchanged; otherwise the answer redirects to `id`, the key set grows by `id` alone, every other entry is unchanged, and the new record holds the submitted text and address, `createdAt = now`, `expiresAt = createdAt + 86400000`, `deleted = false`, `lastRead = null` |
| `PasteStore.ViewStep` | index.js:48-57 | not found if and only if the id is absent, the record is deleted or `now > expiresAt`, and then the table is unchanged; otherwise the stored text is returned, the record's `lastRead` becomes `now`, its other fields and all other entries are unchanged |
| `PasteStore.Store.constructor` | index.js:7 | the table starts empty (and so well formed) |
| `PasteStore.Store.Create` | index.js:25-45 | the in-place insertion leaves the answer and table that `CreateStep` gives, and keeps every record well formed |
| `PasteStore.Store.View` | index.js:48-58 | the in-place `lastRead` update leaves the answer and table that `ViewStep` gives, keeps every record well formed, and a shown text is never empty |
| `PasteStore.ViewAsWritten` | index.js:50-57 | the view handler as written, given the names objects currently inherit: own keys behave as in `ViewStep`; an id that is not an own key is not found unless it is an inherited name, which renders the paste page with an undefined text and leaves the table unchanged; the inherited names only grow, and only by `lastRead` after a view of `__proto__` |
| `PasteProperties.CreateThenView` | index.js:33-57 | a paste viewed at its creation time shows exactly the submitted text and records that time as `lastRead` |
| `PasteProperties.ExpiryBoundary` | index.js:33-52 | a new paste is shown at `createdAt + 24 h - 1 ms` and at `createdAt + 24 h`, and not found at `createdAt + 24 h + 1 ms` |
| `PasteProperties.ExpiredStaysNotFound` | index.js:35-56 | a stored paste that is not found at some time (expired or deleted) stays not found at every later time, after any requests that store nothing under its id; its `expiresAt` and `deleted` never change |
| `PasteProperties.RepeatedViews` | index.js:52-57 | two views of a live paste both show its text, and `lastRead` holds the later time |
| `PasteProperties.RunPreservesWellFormed` | index.js:35-42 | after any sequence of requests every record has non-empty text, `expiresAt = createdAt + 24 h` and `deleted = false`: no request ever sets `deleted` |
| `PasteProperties.RunNeverRemoves` | index.js:35 | after any sequence of requests the ids in the table are the initial ones plus those of the accepted submissions: nothing is ever removed, expired records included |
| `PasteProperties.UncreatedIdNotFound` | index.js:50-53 | an id under which no submission stored a paste is absent from the table and its view is not found |
| `PasteProperties.InheritedNameShowsPastePage` | index.js:50-57 | on an empty table, the view as written of `constructor` renders a paste page, where the model answers not found |
| `PasteProperties.PrototypeStampShowsLastRead` | index.js:50-57 | on a fresh service, the view as written of `__proto__` and then of `lastRead` (a name no fresh object inherits) both render a paste page, where the model answers not found |
| `PasteProperties.AsWrittenAgreesOffPrototype` | index.js:50-57 | for own keys and for ids that are not inherited names, the view as written gives the same answer and table as `ViewStep` |

## Left out

- Express wiring: app setup, template engine, body parsing, static files, the form
  route GET `/`, the listening port, and rendering; only each handler's outcome
  (`Rejected`, `Created(id)`, `NotFound`, `Shown(text)`) is modelled.
- `generateId` (index.js:62-64): it draws on `Math.random()` and the floating-point
  base-36 conversion, so the id is a parameter of `Create`. Id collisions are modelled
  faithfully: the new record replaces the old.
- The wall clock: each request gets one integer `now` in milliseconds. The view handler
  reads the clock twice (index.js:52 and 56); the model uses the same `now` for the
  expiry test and for `lastRead`.
- JavaScript `Date` range: a time past the largest valid `Date` makes `expiresAt` an
  invalid date that never compares as past; integers here are unbounded.
- Non-string form fields (an array or object produced by the extended body parser) are
  not modelled; the field is absent or a string.
- PasteStore.Store.Create: an id of `__proto__` would not make an own entry of the
  JavaScript object; ids come from `generateId`, whose base-36 digits never include `_`,
  so the model stores every id as an ordinary key.
- PasteStore.CreateStep: stores `__proto__` as an ordinary key too, for the same reason.
- PasteStore.ViewAsWritten: treats an own `__proto__` key as a record, which the
  JavaScript object can never hold; it tracks only which names are inherited, not the
  values stamped onto inherited objects.
- Own records are values in the table; the JavaScript record object is updated in
  place, but no other reference to it exists, so nothing observable is lost. This does
  not hold of the inherited objects the handler as written stamps (see Findings).
- Concurrency: each handler runs to completion on Node's event loop, so requests are
  modelled as a sequence.

## Findings

| source | as written | input that shows it | evidently intended | confidence | as-written member | corrected member |
|---|---|---|---|---|---|---|
| index.js:7, 50-57 | `pastes` is a plain object, so `pastes[id]` also finds members inherited from Object.prototype; for such a value none of the 404 tests holds (`deleted` is undefined, and `now > undefined` is false), so the handler writes `lastRead` onto a shared built-in object and renders the paste page with an undefined text | GET `/constructor` on a freshly started service; or GET `/__proto__`, which makes every object inherit `lastRead`, then GET `/lastRead` | not found for every id that no submission created | high; not executed | `PasteStore.ViewAsWritten`, `PasteProperties.InheritedNameShowsPastePage`, `PasteProperties.PrototypeStampShowsLastRead` | `PasteStore.ViewStep` (with `PasteProperties.UncreatedIdNotFound`) |
