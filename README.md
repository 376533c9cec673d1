# Movie API access control, CSV import and paging, in Dafny

This project models the parts of the movie database service that decide who may call it and how request data is read:

- **The API-key gate** (`validateAPIKeyAndRateLimit` in `worker.js`). It runs in this order:
  1. look up an active key;
  2. check the HMAC signature, when the request carries one;
  3. enforce the daily quota of 100 requests per key and UTC day;
  4. count and log the admitted request;
  5. at most once a day per key, purge usage logs older than 90 days.

  Any storage call may throw. The gate is a pure function `Gate.Admit` from the old store to the decision and the new store. `Gate.Store` is a class whose `Authorize` method makes the same calls one at a time on its fields, and it is proved to agree with `Admit`.
- **The request signature** (`verifyHMACSignature`):
  - a five-minute window around the server clock;
  - the signed text is timestamp, method, path and, unless the method is GET, the body;
  - the digest is compared as lower-case hexadecimal.
- **Admin access** (`validateAdminKey`): the admin key, or a live session token, in `X-Admin-Key` or `Authorization`.
- **Admin login** (`handleAdminAuth`): it issues 24-hour session tokens into the `admin_sessions` table. `Admin.SessionTable` is a class whose `Login` method is proved against the pure `Admin.LoginOutcome`.
- **The CSV line scanner** (`parseCSVLine`): a loop, modelled as the method `Csv.ParseCsvLine`. It is proved equal to a character-by-character specification `Csv.Scan`, which has the same branch order.
- **The `|`-separated genre and cast lists** of the CSV import and of the movie create and update routes, and the `INSERT OR IGNORE` loop that stores them.
- **Paging of the movie lists**: `page` and `limit` with their caps of 50 and 100, the offset, and the `pagination` object of the reply. Also the filter conditions and bind values that `getMovies` pushes.
- **The sign-up form's checks** (`client/src/pages/Signup.tsx`): the e-mail domain must be on a fixed list, compared without regard to case, and the two passwords must match. The domain check comes first.

The environment is passed in as parameters:
- **Clock:** `now`, in milliseconds since the epoch. The UTC day of a time is `now / 86400000`.
- **HMAC-SHA256:** a function parameter `mac(key, text)` returning bytes.
- **Storage failures:** a `fault` parameter naming the storage call that throws.

`JsText` holds the JavaScript string operations the code relies on: `trim`, `split`, `join`, `toLowerCase`, `parseInt` and `String.replace` with a string pattern.

Three behaviours of the code worth knowing:
- A failure of the log cleanup makes the request fail with 500. The cleanup is inside the same `try` as everything else.
- There is no replay cache. An accepted signed request is accepted again while its timestamp stays in the window (`Signature.AcceptedRequestReplays`).
- The quota is the constant 100. The `daily_limit` column of the key row is read but not used.

## Model

| member | source | states |
|---|---|---|
| Signature.SignedString | worker.js:1438-1447 | the signed text is the timestamp header, the method, the path and, unless the method is GET, the body; `GetBodyNotSigned` shows the GET body plays no part |
| Signature.VerifySignature | worker.js:1423-1471 | the verdict of the signature check, in the order missing header, expired timestamp, digest mismatch; `AcceptedMeansSigned` states when it is valid |
| Signature.Hex | worker.js:1462-1465 | the digest is written as exactly two lower-case hexadecimal digits per byte |
| Signature.UnhexHex | worker.js:1462-1465 | the hexadecimal text reads back to the digest bytes, so the encoding loses nothing |
| Signature.HexInjective | worker.js:1462-1465 | two digests with the same hexadecimal text are the same digest |
| Signature.SignedRequestAccepted | worker.js:1423-1471 | a request signed over timestamp, method, path and body, with its decimal timestamp at most 300000 ms from the clock in either direction, is valid |
| Signature.StaleTimestampRejected | worker.js:1431-1436 | a numeric timestamp more than 300000 ms away is refused as expired, before any digest is computed |
| Signature.AcceptedMeansSigned | worker.js:1423-1471 | a verdict is valid exactly when both headers are non-empty, the timestamp is in the window or not a number, and the signature equals the hex digest of the signed text |
| Signature.AcceptedRequestReplays | worker.js:1431-1436 | an accepted request is accepted again at any later time still in its window, because nothing remembers it |
| Signature.NonNumericTimestampNeverExpires | worker.js:1431-1433 | a timestamp `parseInt` reads as `NaN` is never reported as expired |
| Signature.WordTimestampIsNaN | worker.js:1433 | a timestamp that is a word, such as "soon", parses to `NaN` |
| Signature.GetBodyNotSigned | worker.js:1440-1446 | the body of a GET request does not affect the verdict |
| Signature.NonLowerHexSignatureRejected | worker.js:1462-1468 | a signature with any character that is not a lower-case hex digit is never valid |
| JsText.ParseInt | worker.js:1433 | `parseInt` without a radix: leading space skipped, an optional sign, hexadecimal after `0x` and decimal otherwise up to the first non-digit, `NaN` without digits; `ParseIntDecimal` reads numerals back |
| JsText.Trim | worker.js:1335 | `trim`: the result starts and ends with no space and is no longer than the input |
| TrimSlices.TrimRemovesOnlySpaces | worker.js:1335 | `trim` removes only the surrounding spaces: its result is the slice of the input that starts where the leading spaces end, with nothing but spaces before and after it |
| JsText.Split | worker.js:1055 | `split` at one character: at least one piece, no piece contains the separator, and one piece exactly when the separator is absent |
| JsText.ReplaceFirst | worker.js:1611 | `String.replace` with a string pattern; `BearerRemovedAnywhere` states it removes the first occurrence wherever it is |
| JsText.Lower | client/src/pages/Signup.tsx:32 | `toLowerCase` on `A`-`Z` and the Kelvin sign, other characters kept; `CaseInsensitive` uses that it keeps `@` and is idempotent |
| JsText.ParseIntDecimal | worker.js:1433 | `parseInt` reads a decimal numeral, with or without a minus sign, back to its value |
| Gate.CheckSignature | worker.js:1494-1506 | the signature layer of the gate: skipped without a signature header, otherwise 401 with the verifier's reason or 500 when the digest fails; `SignatureFault` and `RefusedSignatureCostsNothing` state its effects |
| Gate.Admit | worker.js:1475-1596 | the gate as a function from the old store to the decision and the new store; its properties are the `GateProperties` lemmas |
| Gate.Record | worker.js:1537-1548 | the counter upsert and the log insert of an admitted request, then the cleanup; `RecordFault` and `AdmittedRequestEffects` state its effects |
| Gate.Tidy | worker.js:1550-1572 | the once-a-day cleanup: the marker query, the 90-day purge and the marker insert; `TidyFault` and `CleanupAtMostOncePerDay` state its effects |
| Gate.NextMidnight | worker.js:1574-1576 | the reset time is the first UTC midnight strictly after the request, at most one day later |
| Gate.Increment | worker.js:1537-1543 | the upsert adds one to exactly one day counter and creates it when missing |
| Gate.LastCleanup | worker.js:1551-1553 | the last cleanup is the greatest time of the key's cleanup rows, and is absent exactly when there are none |
| Gate.Purge | worker.js:1559-1566 | the deletion keeps a row exactly when it is dated on or after the cutoff day, and never adds rows |
| GateProperties.PurgeKeepsMultiplicity | worker.js:1564-1566 | a row dated on or after the cutoff day is kept as often as it occurred |
| Gate.Store.UpsertUsage | worker.js:1538-1543 | the counter table becomes the incremented table |
| Gate.Store.AppendLog | worker.js:1546-1548 | the log gains exactly the new row at its end |
| Gate.Store.DeleteLogsBefore | worker.js:1564-1566 | the log becomes its purge at the cutoff day |
| Gate.Store.RecordAdmitted | worker.js:1537-1548 | the counter upsert, the log insert and the cleanup, one call at a time, give the decision and store of `Record` |
| Gate.Store.Cleanup | worker.js:1550-1572 | the cleanup query, the purge and the marker insert, one call at a time, give the decision and store of `Tidy` |
| Gate.Store.Authorize | worker.js:1475-1596 | the decision and the new store are those of `Admit` on the old store: lookup, optional signature, quota, upsert, log, then cleanup, with any failing call ending in 500 |
| Gate.Store.HandleRoute | worker.js:106-129 | with no `X-API-Key` the answer is 401 and the store is unchanged; otherwise the gate decides |
| GateProperties.UnknownKeyTouchesNothing | worker.js:1478-1491 | an unknown or inactive key is refused with 401 and changes nothing |
| GateProperties.UnsignedRequestSkipsSignature | worker.js:1494 | without an `X-Signature` the request is treated as if no request object were passed |
| GateProperties.RefusedSignatureCostsNothing | worker.js:1494-1506 | a refused signature gives 401 and uses no quota, writes no log row and changes nothing |
| GateProperties.ExhaustedQuotaRefused | worker.js:1514-1535 | with 100 or more requests counted today the answer is 429, with 0 remaining and reset at the next UTC midnight, and nothing is written |
| GateProperties.AdmittedRequestEffects | worker.js:1537-1583 | an admission adds one to today's counter of the key and to no other counter, and appends one log row (key, endpoint, 200). Then the log is purged and marked when a cleanup is due. It reports 99 minus the count read as remaining, which lies between 0 and 99, and the next UTC midnight as reset |
| GateProperties.SignatureFault | worker.js:1494-1506 | in the signature check only the digest can fail, and its failure ends the request with 500 |
| GateProperties.RecordFault | worker.js:1537-1548 | a failure while counting or logging an admitted request ends it with 500 or is never reached; the upsert, the log insert and the cleanup query always run |
| GateProperties.TidyFault | worker.js:1550-1572 | a failure during the cleanup ends the request with 500 or is never reached; the cleanup query always runs |
| GateProperties.NoFaultNoOutage | worker.js:1585-1595 | without a storage failure the gate never answers 500 |
| GateProperties.FaultEndsWithOutageOrIsUnreached | worker.js:1477-1595 | a failing call either ends the request with 500 or is never reached, in which case nothing differs |
| GateProperties.AdmissionNeedsEveryCall | worker.js:1477-1556 | if the lookup, the counter read, the upsert, the log insert or the cleanup query fails, the request is not admitted |
| GateProperties.PurgeKeepsRecent | worker.js:1564-1566 | a log with no row older than the cutoff is left as it is |
| GateProperties.PurgeIdempotent | worker.js:1564-1566 | purging twice with one cutoff is purging once |
| GateProperties.MarkerBoundsLastCleanup | worker.js:1551-1553 | every cleanup row of the key bounds the last cleanup from below |
| GateProperties.CleanupAtMostOncePerDay | worker.js:1550-1572 | after an admission that ran the cleanup, another admission for the same key within 24 hours deletes nothing and only appends its own row |
| GateProperties.ActiveUnderQuotaAdmitted | worker.js:1477-1583 | an active key whose signature check passes and whose count for today is under 100 is admitted when no storage call fails |
| GateProperties.DailyQuotaCountsDown | worker.js:1514-1583 | starting a day at zero, the n-th unsigned request of that day (n from 1 to 100), at any time of the day and for any route, is admitted with 100 - n remaining and leaves the counter at n |
| GateProperties.HundredAndFirstCallRefused | worker.js:1515-1535 | the 101st unsigned request of a day, whenever in that day it comes, is refused with 429 and the reset at the midnight that ends the day |
| GateProperties.NextMidnightIsTomorrow | worker.js:1574-1576 | the reset time is the only midnight in the following day, and it falls on the next day number |
| GateProperties.ResetTimeExample | worker.js:1574-1576 | a request at 2025-03-01 15:30 UTC resets at 2025-03-02 00:00 UTC |
| Admin.ValidateAdminKey | worker.js:1599-1633 | the admin access decision; `AdminAccessIff` states exactly when it grants access |
| Admin.BearerToken | worker.js:1611 | the token of an `Authorization` header; `BearerTokenOfHeader` and `BearerRemovedAnywhere` state what it yields |
| Admin.LoginOutcome | worker.js:1864-1945 | the reply and the session table after a login; `LoginSucceedsExactly`, `LoginKeepsLiveSessions` and `SessionLastsOneDay` state its properties |
| Admin.RouteAdminKey | worker.js:1600 | the admin key of the routes is never empty: `ADMIN_API_KEY` or the built-in key |
| Admin.SweepExpired | worker.js:1913-1916 | exactly the sessions that expired before the current second are deleted, and the others keep their expiry |
| Admin.AdminAccessIff | worker.js:1599-1633 | access is granted exactly for the route key in `X-Admin-Key`, or in `Authorization` the route key or a live session token when the session query works |
| Admin.NoCredentialsNoAccess | worker.js:1599-1633 | without either header there is no access |
| Admin.BearerTokenOfHeader | worker.js:1611 | `Bearer <t>` yields `t` for any `t` without surrounding spaces |
| Admin.BearerRemovedAnywhere | worker.js:1611 | the first `Bearer ` is removed wherever it occurs, not only at the front |
| Admin.BearerKeyAccepted | worker.js:1609-1629 | the admin key sent as a bearer token is accepted even when the session table cannot be read |
| Admin.BuiltInKeyOpensRoutesButNotLogin | worker.js:1884-1898 | with `ADMIN_API_KEY` unset the built-in key of line 1600 opens the admin routes, but every login is refused |
| Admin.SessionTable.Insert | worker.js:1909-1911 | the table gains the token with its expiry |
| Admin.SessionTable.DeleteExpired | worker.js:1913-1916 | the table becomes its sweep at the current time |
| Admin.SessionTable.Login | worker.js:1864-1945 | the reply and the table are those of `LoginOutcome`: 500 for a body that is not JSON, 400 without a key, 401 for a wrong or unconfigured key, 500 when a storage call throws, otherwise a 24-hour session and the configured or default identity |
| Admin.LoginSucceedsExactly | worker.js:1872-1930 | a login succeeds exactly when the key given equals a configured `ADMIN_API_KEY` and no storage call fails; a refusal before the insert leaves the table unchanged |
| Admin.LoginKeepsLiveSessions | worker.js:1909-1916 | a login keeps every other live session, with its expiry |
| Admin.SessionLastsOneDay | worker.js:1903-1916 | the issued token opens the admin routes as `Bearer <token>` up to 23:59:59 after the login, and is no longer live from 24 hours on |
| Csv.Step | worker.js:1328-1339 | one turn of the scanner loop, with the loop's four branches in order; `StepQuotes`, `StepAppends` and `StepSeparates` state what each kind of character does |
| Csv.Scan | worker.js:1327-1340 | the scanner's fields, current field and quote state after a prefix of the line; `InQuotesIff` and `ScanFieldCount` characterise it |
| Csv.ParseCsvLine | worker.js:1322-1344 | the loop returns the fields of the character-by-character scan: at least one, each trimmed |
| Csv.TrimAllSnoc | worker.js:1334-1342 | trimming a list of fields with one more field at its end adds that field trimmed |
| Csv.CsvFieldsTrimmed | worker.js:1334-1342 | no field of a line starts or ends with a space |
| Csv.InQuotesIff | worker.js:1330-1333 | the scanner is inside quotes after `n` characters exactly when a quote after a comma (or at the start) opened and no quote before a comma (or at the end) has closed since |
| Csv.QuoteOpensOnlyAfterComma | worker.js:1330-1331 | quoting starts only at a `"` that begins the line or follows a comma |
| Csv.QuoteClosesOnlyBeforeComma | worker.js:1332-1333 | quoting ends only at a `"` that ends the line or precedes a comma |
| Csv.FieldCount | worker.js:1334-1343 | the number of fields is one more than the number of commas outside quotes |
| Csv.QuoteFreeLineSplitsOnCommas | worker.js:1322-1344 | a line without `"` gives the trimmed pieces of `split(',')` |
| Csv.QuotedFieldKeepsCommas | worker.js:1322-1344 | a whole line `"f"`, where `f` has no `"`, gives the single trimmed field `f`, commas included |
| NameLists.NamesOf | worker.js:1363-1365 | the names of `genre` or else `genres`, parsed, and none when both are empty; `ParseNames` states what every name is like |
| NameLists.KeepNames | worker.js:1055-1058 | no more names are kept than there are pieces |
| NameLists.KeptNamesTrimmed | worker.js:1055-1058 | every kept name is non-empty and has no surrounding spaces |
| NameLists.KeepNamesMembers | worker.js:1055-1058 | a name is kept exactly when it is non-empty and some piece trims to it |
| NameLists.ParseNames | worker.js:1055 | every name read from a pipe-separated list (here and at lines 1064, 1113 and 1365) is non-empty, trimmed and contains no pipe |
| NameLists.KeepTrimmedNames | worker.js:1055-1058 | a list of non-empty trimmed names is kept whole |
| NameLists.ParseJoinedNames | worker.js:1055 | joining non-empty trimmed names that contain no pipe with pipes, and parsing the result, gives the names back |
| NameLists.InsertOrIgnoreNames | worker.js:1056-1059 | the stored rows of a movie are exactly the distinct names, each once |
| Pagination.PageParam | worker.js:144 | the page number read from the query, 1 when absent; `Defaults` states the default |
| Pagination.Pages | worker.js:227 | the page count; `PagesCoverTotal`, `PagesNegativeLimit` and `ZeroLimit` state what it is |
| Pagination.HasNext | worker.js:228 | whether a later page exists; `HasNextIffNotLast` states it is exactly "before the last page" |
| Pagination.PaginationOf | worker.js:222-230 | the `pagination` object of the reply, with `NaN` making both comparisons false |
| Pagination.LimitParam | worker.js:145 | the limit never exceeds its cap (50 here, 100 at line 919) |
| Pagination.Defaults | worker.js:144-145 | without parameters the first page and 20 rows are asked for |
| Pagination.LimitClamped | worker.js:145 | a written limit is kept up to the cap and cut to the cap above it |
| Pagination.PagesCoverTotal | worker.js:227 | with a positive limit the page count is the least number of pages that holds every row |
| Pagination.PagesNegativeLimit | worker.js:227 | with a negative limit the page count is still the ceiling of the quotient |
| Pagination.HasNextIffNotLast | worker.js:228 | `has_next` holds exactly when the page is before the last one |
| Pagination.RowOnExactlyOnePage | worker.js:198-207 | each row of the ordered result falls on exactly one page of `LIMIT limit OFFSET (page - 1) * limit` |
| Pagination.ZeroLimit | worker.js:227-228 | with limit 0 there is no page count, and `has_next` holds whenever there is a row |
| Pagination.BuildFilters | worker.js:172-188 | the pushes build exactly the conditions of the given filters, in the order genre, year, search, with their bind values in the same order |
| Pagination.ConditionsPresent | worker.js:172-188 | each filter's condition is in the `WHERE` clause exactly when its parameter is non-empty |
| Pagination.ConditionsOrdered | worker.js:172-188 | the conditions keep the order genre, year, search, each at most once |
| Pagination.ParamsPlaced | worker.js:173-188 | the genre is the first bind value and the search pattern fills the last three |
| Pagination.PlaceholdersMatchParams | worker.js:172-188 | the `?` placeholders of the conditions and the bind values match one for one |
| Signup.DomainOf | client/src/pages/Signup.tsx:32 | the second piece of the address split at `@`, with `toLowerCase` on `A`-`Z` and the Kelvin sign and other characters kept; `DomainIsTextBetweenAts` relates it to the reference definition |
| Signup.IsValidEmailDomain | client/src/pages/Signup.tsx:31-34 | the domain check; `ValidIffListed`, `NoAtRefused` and `CaseInsensitive` state when it holds |
| Signup.SignupCheck | client/src/pages/Signup.tsx:47-69 | the outcome of the two checks in their order; `AccountOnlyWhenBothChecksPass` states it |
| Signup.DomainOfParts | client/src/pages/Signup.tsx:31-33 | the domain of `local@domain` followed by nothing or by another `@` is the lower-cased `domain` |
| Signup.TextBetweenAtsParts | client/src/pages/Signup.tsx:32 | the text between the first and second `@` of `local@domain`, followed by nothing or by another `@`, is `domain` lower-cased |
| Signup.DomainIsTextBetweenAts | client/src/pages/Signup.tsx:32 | the domain read with `split('@')[1]` is the lower-cased text between the first and the second `@`, and is absent without `@` |
| Signup.ValidIffListed | client/src/pages/Signup.tsx:14-34 | an address passes exactly when its lower-cased domain is one of the thirteen listed domains, whatever follows a second `@` |
| Signup.NoAtRefused | client/src/pages/Signup.tsx:31-34 | an address without `@` is refused |
| Signup.CaseInsensitive | client/src/pages/Signup.tsx:32-33 | an address and its lower-cased form are accepted or refused together |
| Signup.AccountOnlyWhenBothChecksPass | client/src/pages/Signup.tsx:47-69 | an account is requested exactly when the domain passes and the passwords match, and a refused domain is reported whatever the passwords are |

## Left out

- Cryptography: HMAC-SHA256 and the UTF-8 encoding of key and text before it are the parameter `mac`. HMAC-SHA256 always returns 32 bytes. The model assumes only that `mac` is a function and, in `Signature.SignedRequestAccepted`, that its digest is not empty.
- Concurrency: two requests racing on the same counter are not modelled. Each gate call is one atomic step over the store.
- Gate.Admit: one instant `now` stands for every clock reading of a request. The code reads the clock separately for the signature window, for `today`, for the cleanup test, for the cleanup cutoff and for the reset time, so a request that straddles midnight can count on one day and report the reset of the next. That is not captured.
- Gate.Record: the time of a log row is the request's `now`. In the database it is the column's default timestamp, set by the database's own clock when the row is inserted.
- Admin.LoginOutcome: the session token is taken to be fresh, as `crypto.randomUUID()` makes it. If it were already in the table, the model would overwrite its expiry, whereas the plain `INSERT` would throw or add a second row depending on a schema that is not available.
- Random values: the session token from `crypto.randomUUID()` is a parameter of the login. The generation of API keys and their format are not part of this model.
- Dates as text: the model keeps times as milliseconds and days as day numbers, which is what the ISO date strings and SQLite's date functions encode. Session expiries are kept as whole seconds, as the stored `YYYY-MM-DD HH:MM:SS` text is. The log rows' `timestamp` is kept in milliseconds, although SQLite stores whole seconds. So the 24-hour cleanup interval is compared at millisecond precision.
- JavaScript numbers: `parseInt` is modelled with unbounded integers. Precision loss above 2^53, `parseFloat` and the `|| default` fallbacks of the CSV import's numeric columns are not modelled.
- SQL text and schema: conditions are the datatype `Pagination.Filter`, with the number of `?` placeholders each one's text carries. The rows of `movies`, the join of the conditions with `AND`, and the `COUNT` and `SELECT` queries themselves are not modelled. The `total` they return is a parameter.
- The update route's plain `INSERT` of genres (no `OR IGNORE`) is not modelled; its outcome depends on the unique constraints of a schema that is not available.
- NameLists.InsertOrIgnoreNames: the model assumes that (movie, genre) is a unique key of `movie_genres`, so that `INSERT OR IGNORE` skips a name already stored. The schema is not available to confirm it.
- CSV import: reading the file, the header row, the mapping of fields to columns and the database writes for each row are not modelled. Only the scanning of a line and the name lists are.
- HTTP plumbing: routing, CORS headers, JSON bodies and the response headers carrying `remaining` and the reset time are not modelled. `Gate.Decision.Status` gives the status code of each refusal.
- The one-second delay after a refused login and the three-second redirect after sign-up are timers. They do not change any outcome and are left out.
- Firebase: account creation and the verification e-mail after a passing sign-up check are outside the model, which stops at the decision to create the account.
- Admin.LoginOutcome: an `adminKey` in the login body that is not a string is not modelled. The body is either unparsable or carries an optional string key.
- Admin.Live: `datetime("now")` is written in double quotes. SQLite reads it as the string `now` only because no column of that name exists. The model takes it as the current time.
- JsText.Lower: only `A`-`Z` and the Kelvin sign are lower-cased. Other cased letters, such as `É`, are kept as they are, where `toLowerCase` would change them.
- Signup.DomainOf: the domain is lower-cased by `JsText.Lower`, so only `A`-`Z` and the Kelvin sign change. Other cased letters are kept.
- Characters: a string is a sequence of Unicode scalar values. A character outside the Basic Multilingual Plane is one `char` here and two UTF-16 code units in JavaScript, so lengths and positions can differ for such text.
- Local time: `setDate` (worker.js:1561) and `setHours` (worker.js:1905) work in the runtime's local time zone. The model takes that zone to be UTC, so the 90-day cutoff and the 24-hour session expiry are exact multiples of a day and of an hour.
- Signup.IsValidEmailDomain: lower-casing is modelled for the characters that JavaScript turns into ASCII letters: `A`-`Z` and the Kelvin sign. Other characters are kept as they are. Every listed domain is ASCII, so membership comes out the same. The length of the lower-cased text can differ from the original for a few characters, such as U+0130.
