# goshorty URL store, modelled in Dafny

This project models the storage core of goshorty, a URL shortener written in Go.

The URL store (`URLDataModel`) keeps a cache that maps each short code to its
record. The cache is seeded from the `urls` table when the store is built.
`CreateShortURL` draws random six-character codes until it finds one that is
not a key of the cache. It then writes the new record to the database and,
only once that write has succeeded, adds it to the cache. `GetRedirectData`
resolves a code from the cache and refuses expired records without evicting
them. `All` lists the active records, newest first.

The project also models the helper routines of the endpoints. These are a
short-key generator, the package-level `ShortUrls` table filled by `BuildMap`,
and the domain-name check `IsValidDomainName`. That check is a stricter,
lower-case-only form of the letter-digit-hyphen label syntax of section
2.3.1 of RFC 1035, with the leading-digit allowance of section 2.1 of RFC 1123.

Files:

- `models.dfy`: the `URLData` record. Times and durations are integers, in
  nanoseconds. `Option` stands in for Go's nil pointer.
- `alphabet.dfy`: the 62-character alphabet and `Intn`, the model of
  `rand.Intn`.
- `store.dfy`: the database, the store class, cache seeding, creation,
  lookup, and the filter and order rule of `All`.
- `helpers.dfy`: `GenerateShortUrlKey`, `BuildMap` and `IsValidDomainName`.

How the outside world is modelled:

- The database is the sequence of rows it holds. Each driver call (the
  query, each row scan, `rows.Err()`, the insert) may fail, and which one
  fails is a nondeterministic choice.
- The clock is the parameter `now`.
- Random draws are nondeterministic choices in `[0, 62)`.

The query that seeds the cache has no `ORDER BY`, so `Database.Query`
yields the table's rows in an order the model leaves open. The store keeps
that order in the ghost field `loaded`, extended by each created row. The
store's invariant (`URLDataModel.Valid`) says that the cache is exactly what
writing the rows into an empty map in that order gives. Building the store
establishes it and every creation keeps it. So no cache entry ever exists
without its database row, and a failed write leaves both the cache and the
table as they were. When the table's codes are distinct (`short_code` is its
primary key), the order does not matter: the cache is then the table loaded
in any order (`LoadOrderIrrelevant`, `CacheIsTableWhenCodesDistinct`).

Expiry is tested two ways in the code. `GetRedirectData` refuses a record only
when `now` is strictly after its `ExpiresOn` (store.go:146). `All` keeps a
record only when `expires_on > now` (store.go:71). So at `now == ExpiresOn` a
record still resolves but is no longer listed, and
`ExpiryTestsDisagreeOnlyAtExpiry` proves that this instant is the only point
where the two tests disagree.

## Model

| member | source | states |
|---|---|---|
| `Alphabet.CharsetIsAlphanumeric` | internal/models/store/store.go:154 | a character occurs in the code alphabet exactly when it is an ASCII letter (either case) or digit |
| `Alphabet.CharsetAt` | helpers/helpers.go:13-15 | the alphabet has 62 positions, each an alphanumeric character, all distinct (each is recovered by its index) |
| `Alphabet.Intn` | internal/models/store/store.go:157 | `rand.Intn(n)` yields some index in `[0, n)` |
| `Store.GenerateRandomString` | internal/models/store/store.go:153-160 | the result has exactly `length` characters, each alphanumeric |
| `Store.Expired` | internal/models/store/store.go:146 | the redirect path's expiry test: a record without an expiry is never expired, and an expired record's expiry lies strictly before `now` |
| `Store.IsActive` | internal/models/store/store.go:70-71 | the listing filter `expires_on IS NULL OR expires_on > now`: a record without an expiry is always active, and an active record is never expired by the redirect test |
| `Store.ExpiryIsPermanent` | internal/models/store/store.go:70-71 | once expired a record stays expired, and once it drops out of the listing it stays out |
| `Store.ExpiryOf` | internal/models/store/store.go:114-117 | an expiry is set exactly when the duration is positive, and then it lies exactly `expiry` after the creation time (so strictly after it) |
| `Store.NewRecord` | internal/models/store/store.go:107-117 | the record carries the given code, URL, title and creation time, and has an expiry exactly when the duration is positive, equal to the creation time plus the duration |
| `Store.ExpiryTestsDisagreeOnlyAtExpiry` | internal/models/store/store.go:146 | the redirect test (`now` strictly after the expiry) and the listing filter (expiry after `now`) are never both true, and are both false only when the expiry equals `now` |
| `Store.LoadRows` | internal/models/store/store.go:49-60 | writing rows into a cache one after another, each under its own code; no key of the starting cache is lost |
| `Store.LoadRowsKeys` | internal/models/store/store.go:49-60 | loading rows into a cache adds exactly the rows' codes as keys |
| `Store.LoadRowsKeeps` | internal/models/store/store.go:49-60 | loading keeps the entry of every code the rows do not mention |
| `Store.LoadRowsLastWins` | internal/models/store/store.go:49-60 | a row whose code no later row carries is the entry for that code: the last row with a code wins, overwriting earlier ones |
| `Store.LoadedEntriesAreRows` | internal/models/store/store.go:59 | every entry of a cache loaded from the table is a row of the table stored under its own code |
| `Store.LoadedCacheHoldsEveryRow` | internal/models/store/store.go:49-60 | when codes are distinct, every row of the table is in the loaded cache under its code |
| `Store.CodesOfPermutation` | internal/models/store/store.go:43 | the same rows in any order carry the same set of codes |
| `Store.DistinctCodesOfPermutation` | internal/models/store/store.go:43 | distinct codes stay distinct when the rows are reordered |
| `Store.LoadOrderIrrelevant` | internal/models/store/store.go:43-60 | with distinct codes, loading the same rows in any two orders into an empty cache gives the same cache |
| `Store.AppendNewCode` | internal/models/store/store.go:127-133 | appending a row whose code is not yet loaded adds exactly that entry to the loaded cache and keeps the table's codes distinct |
| `Store.Database.Query` | internal/models/store/store.go:43-47 | the unordered `SELECT` either fails or yields every row of the table exactly once, in some order |
| `Store.Database.RowsOk` | internal/models/store/store.go:62 | `rows.Err()` after iteration: either outcome is possible, so it carries no contract |
| `Store.Database.Insert` | internal/models/store/store.go:127-130 | the insert either appends the row to the table or fails and leaves the table unchanged |
| `Store.Database.ScanRow` | internal/models/store/store.go:52-55 | a successful scan yields exactly the row at that position of the query's result |
| `Store.URLDataModel.constructor` | internal/models/store/store.go:28-32 | a new store has an empty cache, nothing loaded, and a code length of 6 |
| `Store.URLDataModel.LoadCache` | internal/models/store/store.go:42-63 | on success `loaded` is a reordering of the table and the cache is the old cache with those rows written in that order (later rows overwrite earlier ones); on any failure it reports a database error and the cache holds exactly a prefix of the query's rows written in order |
| `Store.NewStore` | internal/models/store/store.go:22-40 | on success the new store is valid, and when the table's codes are distinct its cache is exactly the table loaded into an empty map; otherwise the load's error is returned |
| `Store.URLDataModel.CreateShortURL` | internal/models/store/store.go:96-136 | on success the code was not a key before, is six alphanumeric characters, the table gains exactly that record (appended to `loaded` too) and the cache gains exactly that key, mapped to the record with the given URL, title, creation time and expiry; on failure the code is `""` and both the cache and the table are unchanged; validity and distinct table codes are preserved |
| `Store.URLDataModel.GetRedirectData` | internal/models/store/store.go:139-151 | "does not exist" exactly when the code is not a key; "expired" exactly when it is a key and `now` is strictly after the record's expiry; otherwise the stored record itself; the cache is only read |
| `Store.CacheIsTableWhenCodesDistinct` | internal/models/store/store.go:43-60 | in a valid store whose table has distinct codes the cache is the table loaded in its own order, whatever order the query gave |
| `Store.CacheMirrorsTable` | internal/models/store/store.go:127-133 | in a valid store the cache's keys are exactly the table's codes and every cache entry is a table row under its own code |
| `Store.IssuedCodesAreDistinct` | internal/models/store/store.go:97-103 | along any run of successful creations, each returning a code absent from its cache and adding it, no two returned codes are equal |
| `Store.CreatedRecordResolves` | internal/models/store/store.go:105-117 | a freshly created code resolves to a record with the given URL and title (and no expiry when `expiry <= 0`) exactly until `now` passes `createdOn + expiry`; after that the answer is "expired", never "does not exist" |
| `Store.ActiveRows` | internal/models/store/store.go:70-71 | each record occurs in the result as often as in the rows if it is active at `now`, and not at all otherwise |
| `Store.InsertByAge` | internal/models/store/store.go:72 | inserting adds exactly the one record to the multiset of records |
| `Store.InsertKeepsNewestFirst` | internal/models/store/store.go:72 | inserting into a newest-first sequence keeps it newest first |
| `Store.SortNewestFirst` | internal/models/store/store.go:72 | the result is newest first and a permutation of the input |
| `Store.All` | internal/models/store/store.go:66-93 | the listing is newest first, a permutation of the active rows, and contains a record exactly when it is a row active at `now` |
| `Store.ListedInReverseCreationOrder` | internal/models/store/store.go:72 | rows created at strictly increasing times are listed in reverse creation order, expired ones left out |
| `Store.ListingMatchesCache` | internal/models/store/store.go:65-72 | for a valid store whose table has distinct codes, a record is listed exactly when it is an active value of the cache |
| `Helpers.GenerateShortUrlKey` | helpers/helpers.go:12-22 | the key has exactly `n` characters, each alphanumeric |
| `Helpers.UrlEntry` | helpers/helpers.go:30-35 | the entry has exactly the four keys `url`, `customAlias`, `creationDate` and `expiryDate`, holding the given values |
| `Helpers.Globals.constructor` | helpers/helpers.go:25 | the `ShortUrls` table starts empty |
| `Helpers.Globals.BuildMap` | helpers/helpers.go:29-36 | the table's keys become the old keys plus `key`; `key` maps to the new four-field entry, replacing any old one; every other key keeps its entry |
| `Helpers.IsValidDomainName` | helpers/helpers.go:38-41 | the name, split at its dots, is one or more labels followed by a final label (defined label by label; `ValidDomainNameIsPattern` ties it to the pattern) |
| `Helpers.MatchesPattern` | helpers/helpers.go:39 | the anchored pattern read as written: a label, a dot, then either the final label or the pattern again |
| `Helpers.LabelShape` | helpers/helpers.go:39 | a label has 1 to 63 characters from `[a-z0-9-]` and does not start or end with `-`; the final label also needs at least 2 characters |
| `Helpers.ValidDomainNameIsPattern` | helpers/helpers.go:38-41 | the label-by-label check accepts exactly the strings that the anchored pattern `^(?:LABEL\.)+FINAL$`, read as written, matches |
| `Helpers.ValidDomainNameMatches` | helpers/helpers.go:39 | every name the label-by-label check accepts is matched by the pattern |
| `Helpers.MatchesAreValidDomainNames` | helpers/helpers.go:39 | every string the pattern matches is accepted by the label-by-label check |
| `Helpers.AcceptedShape` | helpers/helpers.go:39 | an accepted name contains a dot, uses only `[a-z0-9.-]`, starts and ends with a letter or digit, and has a letter or digit on both sides of every dot |
| `Helpers.ForeignCharacterRejected` | helpers/helpers.go:39 | any character outside `[a-z0-9.-]`, for example an upper-case letter, anywhere in the string makes it invalid |
| `Helpers.SingleLabelRejected` | helpers/helpers.go:39 | a name without a dot is invalid |
| `Helpers.EdgeRejected` | helpers/helpers.go:39 | the empty string, or a name starting or ending with a dot or hyphen, is invalid |
| `Helpers.EmptyLabelRejected` | helpers/helpers.go:39 | two adjacent dots make a name invalid |
| `Helpers.FinalLabelNeedsTwoCharacters` | helpers/helpers.go:39 | `a.bc` is accepted and `ab.c` is refused: earlier labels may have one character, the final label needs two |
| `Helpers.ExampleAccepted` | helpers/helpers.go:39 | `example.com` is accepted |
| `Helpers.ExamplesRefused` | helpers/helpers.go:39 | `Example.com`, `localhost`, `a..com` and `-a.com` are refused |

## Left out

- `Store.URLDataModel.CreateShortURL`: the source redraws without bound. Here at most `fuel` redraws are made, and running out returns `ErrRetriesExhausted`, an error the source does not have. The model does not claim that the loop terminates.
- `Store.ExpiryOf`: `time.Time.Add` is modelled as exact integer addition, without Go's saturation at the ends of the representable range.
- `Store.URLDataModel.LoadCache`: the query's row order is left open and recorded in the ghost `loaded`; "later rows overwrite earlier ones" refers to that order. With distinct codes, which the table's primary key guarantees, a successful load does not depend on it.
- `Store.Database.RowsOk`: `rows.Err()` is a nondeterministic outcome, so its model has no contract.
- `Helpers.IsValidDomainName` and `Helpers.MatchesPattern` are definitions without contracts of their own; their agreement is stated by `Helpers.ValidDomainNameIsPattern`.
- `Store.All`: the SQL query and its row scanning are not modelled, only the rule it applies (active rows, newest first). The comparison of `expires_on` with SQLite's `datetime('now')` is taken to be a comparison of times, not of the stored text. The `log.Fatal` on a failed scan and the query error are not modelled. Rows with equal creation times may come in any order, as `ORDER BY` leaves them.
- `Store.URLDataModel.GetRedirectData`: on an error the source also returns a zero `URLData`. The model returns only the error.
- `Store.NewStore`: `sql.Open` is not modelled. The store is built over a given database.
- Database I/O (the SQL text, drivers, connection handling) is reduced to a sequence of rows and nondeterministic failures.
- Concurrency: the source has no lock, and the model has no thread interleavings.
- Delete: no delete operation exists in the core.
- `NewPostgres` (helpers/helpers.go:43-50) is a call into an external driver and is not part of this model.
- internal/models/sqlite/urls.go, main.go and cmd/web/ (HTTP handlers, configuration, URL validation, timestamp formatting) are not part of this model.
- `IsValidDomainName` puts no limit on the total length of a name; neither does the model.
