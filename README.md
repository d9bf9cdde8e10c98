# Announcements service, modelled in Dafny

This project models the announcement endpoints of a high-school management API
(`src/backend/routers/announcements.py`). The MongoDB announcement collection
is modelled as a map from document id to record. The teacher collection is
modelled as a set of usernames. Both are fields of a `Service` object. Its
create, update and delete methods change the store in place; no method
writes the teacher set, which is read-only here as in the source. The five
request handlers are modelled:

- the public listing of the announcements active today;
- the teacher-only listing of all announcements;
- create, update and delete, all teacher-only.

All date rules compare strings by code point. The create check at line 82 is
Python's `<`. The query's `$lte` and `$gte` at lines 28-30 are evaluated by
MongoDB, whose default binary comparison of UTF-8 bytes gives the same
code-point order; a collection collation is not modelled. Dafny's `<` on strings means
"proper prefix", so module `StringOrder` (`string_order.dfy`) defines Python's
code-point lexicographic order. It proves that order is a strict total order,
that `<=` is a total order, and that the recursive definition equals the
textbook one: a proper prefix, or a first difference in `a`'s favour. Nothing
assumes the strings are well-formed `YYYY-MM-DD` dates.

Module `Announcements` (`announcements.dfy`) holds:

- the record type (`Announcement`, where `startDate: Option<string>` is `None`
  when the field is absent);
- the outcome type `Outcome` (`Unauthorized` | `InvalidInput` | `NotFound` |
  `Ok`, standing for HTTP 401, 400, 404 and success);
- the two queries the handlers send to the collection (`Query`);
- the active-window predicate `IsActive` (lines 25-31);
- `NewAnnouncement`, the document create builds (lines 86-92), with the
  `start_date or today` default of line 88;
- `Patched`, the `$set` update applies (lines 121-132), with the
  `if start_date:` rule of line 126;
- the `Service` class with one method per handler, plus `Find` for the
  collection's `find`.

Each listing is proved to return exactly the selected documents, each once.
Each write states what it returns in every case and what the whole store is
afterwards. The methods that read never modify the object. `ExamFridayScenario`
is a client method whose verified assertions follow the end-to-end story
through the contracts alone: create, list, update, delete, list again.

Inputs that replace I/O:

- `today` is the `%Y-%m-%d` string of the current date, passed as a parameter.
- `now` is the creation timestamp string, passed as a parameter.
- document ids are opaque naturals, handed out by the store from a counter
  (`nextId`); `Valid()` keeps every stored id below it, so a new id is fresh.

Python truthiness of the optional `start_date` argument is `Supplied`: the
argument is given and is not the empty string. That one predicate covers both
`start_date or today` in create and `if start_date:` in update.

Facts of the source the model keeps:

- `message: str` (line 69) is never checked for being non-empty, so any
  string is accepted.
- A record can lack `start_date` only if it was written by something other
  than these handlers, since create always sets it. `IsActive` still handles
  the absent case, as the query does.

## Model

| member | source | states |
|---|---|---|
| `StringOrder.LessIsLexicographic` | src/backend/routers/announcements.py:82 | Python's `<` on strings, as defined recursively, holds exactly when `a` is a proper prefix of `b` or the first differing character of `a` is the smaller |
| `StringOrder.ProperPrefixIsLess` | src/backend/routers/announcements.py:82 | a proper prefix compares below the longer string |
| `StringOrder.LessIrreflexive` | src/backend/routers/announcements.py:82 | no string is less than itself |
| `StringOrder.LessAsymmetric` | src/backend/routers/announcements.py:82 | `a < b` excludes `b < a` |
| `StringOrder.LessTransitive` | src/backend/routers/announcements.py:82 | `a < b` and `b < c` give `a < c` |
| `StringOrder.LessConnected` | src/backend/routers/announcements.py:82 | two different strings are ordered one way or the other |
| `StringOrder.Trichotomy` | src/backend/routers/announcements.py:82 | exactly one of `a < b`, `a == b`, `b < a` holds |
| `StringOrder.NotLessIsGreaterEq` | src/backend/routers/announcements.py:82 | `not (end_date < today)`, the create check, is the same as `end_date >= today`, the query's condition |
| `StringOrder.LessEqTotalOrder` | src/backend/routers/announcements.py:28-30 | the `$lte`/`$gte` comparisons form a total order: reflexive, antisymmetric, transitive, total |
| `Announcements.Service.Find` | src/backend/routers/announcements.py:25-31 | the collection's `find` returns every stored document the query selects, with its id, each exactly once, and nothing else; the store is not modified |
| `Announcements.Service.ListActive` | src/backend/routers/announcements.py:18-37 | a record is listed iff it is stored and (its start date is absent or `<= today`) and its end date is `>= today`; each record once; no identity check; the store is not modified |
| `Announcements.Service.ListAll` | src/backend/routers/announcements.py:43-59 | an unknown username gives `Unauthorized`, and only then; a teacher gets every stored record, unfiltered, each once, as many entries as the store holds; the store is not modified |
| `Announcements.Service.Create` | src/backend/routers/announcements.py:67-97 | an unknown username gives `Unauthorized` with the store unchanged; for a teacher, an end date `< today` gives `InvalidInput` with the store unchanged, and an end date `== today` or later succeeds; success adds exactly one record under an id not in the store, with the given message and end date, `created_by` the username, `created_at` the timestamp, and start date the supplied one or `today` when it is omitted or empty; every other record is unchanged |
| `Announcements.Service.Update` | src/backend/routers/announcements.py:105-137 | an unknown username gives `Unauthorized`, then an absent id gives `NotFound`, both with the store unchanged; otherwise the result is the confirmation message, the record's message and end date are replaced, its start date is replaced only by a supplied non-empty value, `created_by` and `created_at` are kept, the set of ids and every other record are unchanged, and the end date is not checked against today |
| `Announcements.Service.Delete` | src/backend/routers/announcements.py:145-160 | an unknown username gives `Unauthorized`, then an absent id gives `NotFound`, both with the store unchanged; otherwise the result is the confirmation message, exactly that id is removed, the store shrinks by one and every other record is unchanged |
| `Announcements.CreatedActiveIffStarted` | src/backend/routers/announcements.py:82-88 | a record that create accepts is active on its creation day iff no start date was supplied or the supplied one is `<= today` |
| `Announcements.PastEndDateDeactivates` | src/backend/routers/announcements.py:121-132 | since update does not re-check the end date, an update whose end date is `< today` makes the record inactive today |
| `Announcements.PatchedIdempotent` | src/backend/routers/announcements.py:121-132 | applying the same `$set` twice gives the same record as applying it once |
| `Announcements.ActiveWindowIsInterval` | src/backend/routers/announcements.py:25-31 | a record active on two dates is active on every date between them, in string order |
| `Announcements.ActiveExamples` | src/backend/routers/announcements.py:25-31 | with no start date and end `2099-01-01` a record is active on `2024-06-01`; with start `2030-01-01` it is not |

## Left out

- HTTP routing, decorators and the status-code plumbing: each `HTTPException` is modelled only as the `Outcome` variant it stands for.
- MongoDB driver internals and the collection's natural order: the listings are proved to hold the right set of records, each once, in an unspecified order.
- `ObjectId` parsing of the path id, and its failure on a malformed id (a 500): ids are opaque values of type `Id`. The `str(_id)` conversion loops in both listings are left out with it.
- Store failures: the listings' fail-open `[]` on any exception and the writes' 500 `Failed to ...` responses. An arbitrary driver failure has no meaningful model; `InternalError` is therefore not an `Outcome`.
- The clock: `datetime.now()` and the `isoformat() + "Z"` formatting of `created_at`. `today` and `now` are parameters. Create reads the clock three times in the source. The model uses one `today` for both the check and the default start date, so a request that straddles midnight is not modelled.
- Logging with `print`, concurrent requests and their last-writer-wins races.
- Documents written by other code (the collection comes from a database module that is not part of this model, line 10) are not modelled when they lack `end_date` or hold non-string dates. Create always writes string dates including `end_date` (lines 86-92), and update writes only strings (lines 121-127).
