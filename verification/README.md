# Deal currency conversion service — a Dafny model of its core

This project models the core of a PHP service that receives CRM deal webhooks, authenticates them, converts a rouble amount to dollars at a live exchange rate, and records the result. It also models the small infrastructure pieces around that pipeline: the `.env` loader and the schema migrator. The project proves properties of the model. It is organised by source file:

- `money.dfy` (`Money`, with worked examples in `MoneyExamples`) covers `App\Support\Money`. That class does fixed-point money arithmetic on decimal strings through bcmath:
  - half-up rounding;
  - conversion to and from integer minor units;
  - multiplication of an amount by a rate.
- `bcmath.dfy` (`BcMath`) models the bcmath functions that `Money` and the rate service call, as exact arithmetic on `Fixed(mantissa, scale)` followed by truncation toward zero. `Format` is bcmath's canonical output.
- `decimal_syntax.dfy` (`DecimalSyntax`) covers the decimal pattern `^-?\d+(\.\d+)?$`. It parses into a sign and digit strings, renders back, and proves the two are inverse.
- `digits.dfy` (`Digits`) and `text.dfy` (`Text`) hold digit strings and powers of ten, and PHP's `trim`, `strtolower`, `explode(…, 2)` and `implode`.
- `webhook_security.dfy` (`WebhookSecurity`) covers `WebhookSecurityService`. It is an ordered sequence of header checks in which the first failing check decides the rejection code.
- `currency_api.dfy` (`CurrencyApi`) covers `CurrencyApiService`:
  - rate validation;
  - the two-level cache;
  - the bounded retry loop with exponential backoff under one shared time budget;
  - the fallback from open.er-api to the CBR feed, whose roubles-per-dollar value is inverted;
  - error aggregation.
- `deal_currency.dfy` (`DealCurrency`) covers `DealCurrencyService` as transitions on an abstract `public.deals` table: upsert to `received`, then `converted` or `failed`.
- `migration_runner.dfy` (`MigrationRunner`) covers `MigrationRunner`:
  - globbing and sorting the `*.sql` files;
  - skipping recorded versions;
  - one transaction per file;
  - stopping at the first failure.
- `env.dfy` (`Env`) covers `Env::load` and `Env::get`.

Every input from outside the program is a parameter of the model:

- the clock;
- HMAC-SHA256;
- the HTTP responses;
- the file system;
- the outcome of each database statement;
- configuration values.

Integers are unbounded.

Three facts about the code shape the model:

- `handle` upserts every delivery unconditionally, and its outcome writes are `WHERE id = :id`.
- An attempt is started whenever some budget is left, and its cURL timeout is at least 200 ms. A lookup can therefore end after the deadline, but by at most those 200 ms when every request ends within its cURL timeout.
- A malformed amount raises `InvalidArgumentException` in `Money::toDecimalString`.

## Model

| member | source | states |
|---|---|---|
| Money.RoundHalfUp | app/Support/Money.php:68-83 | A negative scale raises "Scale must be >= 0". An operand outside the decimal pattern is rejected by bcmath. Otherwise the result is well formed, has exactly `scale` fractional digits, and equals the multiple of 10^-scale nearest the input, with ties going away from zero |
| Money.RoundHalfUpIsHalfAwayFromZero | app/Support/Money.php:74-82 | The algorithm is exact half-away-from-zero rounding for every number and scale: the sign test at only scale+3 digits, adding or subtracting the half unit at scale+1 digits, then cutting to scale digits. A negative number that the sign test reads as zero rounds to zero either way |
| Money.RoundHalfUpWithinHalfUnit | app/Support/Money.php:74-82 | The rounded value lies within half a unit of the last kept place of the input. On an exact tie it is the neighbour further from zero |
| Money.RoundHalfUpIdempotent | app/Support/Money.php:68-83 | Rounding the output of `roundHalfUp` again at the same scale returns the same string |
| Money.HalfUnitValue | app/Support/Money.php:75 | The half-unit text `0.<scale zeros>5` is well formed and reads as 5·10^-(scale+1) |
| Money.ToDecimalString | app/Support/Money.php:49-66 | An integer prints as its exact value with `scale` fractional digits. A string whose trimmed text is not in the pattern raises "Invalid decimal value: " followed by that text. A valid string is rounded half-up, and fails only for a negative scale |
| Money.NumberFormat | app/Support/Money.php:51-53 | `number_format` of an integer reads back as that integer at the requested number of decimals, with a negative count read as zero |
| Money.Multiplier | app/Support/Money.php:85-88 | Fails exactly for a negative scale (`str_repeat`). Otherwise the text reads as the integer 10^scale |
| Money.DecimalToMinorUnits | app/Support/Money.php:9-16 | A negative scale fails. An integer becomes i·10^scale. A string succeeds exactly when its trimmed text is in the pattern, and then gives the mantissa of its half-up rounding to `scale` digits |
| Money.MinorUnitsOf | app/Support/Money.php:13 | `bcmul` of a `scale`-digit decimal by the multiplier at scale 0 is that decimal's digits read as an integer |
| Money.MinorUnitsIsCanonical | app/Support/Money.php:18-36 | For every integer and non-negative scale, the serialiser prints exactly what bcmath prints for minor/10^scale. That is a sign only for negatives, integer digits without leading zeros ("0" if none), and exactly `scale` zero-padded fractional digits after a point (no point at scale 0) |
| Money.SmallMagnitude | app/Support/Money.php:27-33 | A magnitude with at most `scale` digits is left-padded and printed as "0." followed by its `scale`-digit zero-padded form |
| Money.LargeMagnitude | app/Support/Money.php:31-33 | A longer magnitude is split `scale` digits from its right end, giving the integer and fractional parts of minor/10^scale |
| Money.MinorUnitsReadBack | app/Support/Money.php:18-36 | The printed text is well formed, reads back as minor/10^scale, has exactly `scale` fractional digits, and carries a minus sign exactly when minor < 0 |
| Money.MinorUnitsRoundTrip | app/Support/Money.php:9-36 | For every integer and scale >= 0, converting the printed text back to minor units gives the original integer |
| Money.FormatRoundTrip | app/Support/Money.php:9-16 | Any number bcmath prints converts back to its own mantissa at its own scale |
| Money.MinorUnitsOfRounded | app/Support/Money.php:9-66 | The other direction of the round trip: printing the minor units of a valid decimal gives `roundHalfUp` of its trimmed text |
| Money.RateAt8IsNormalized | app/Support/Money.php:40 | `toDecimalString($rate, 8)` succeeds on every valid rate and prints exactly the 8-digit half-up rounding that the multiplication uses |
| Money.MultiplyMinorByRate | app/Support/Money.php:38-47 | An invalid rate raises "Invalid decimal value: …" before anything else. With a valid rate, a negative scale raises the scale error, and every other scale gives a result |
| Money.MultiplyMinorByRateValue | app/Support/Money.php:38-47 | With a valid rate and a non-negative scale, the result is the 12-digit product of amount and 8-digit rate, rounded half-up to `scale` digits, in minor units |
| Money.MultiplyTexts | app/Support/Money.php:42-46 | Multiplying at 12 digits, rounding and scaling back gives the mantissa of the rounded 12-digit product |
| Money.MultiplyIsRoundedProduct | app/Support/Money.php:38-47 | For scales below 12 the truncated 12-digit intermediate loses nothing. The result is the exact product of the amount and the 8-digit rate, rounded half-up once |
| MoneyExamples.RoundTieUp | tests/MoneyTest.php:19 | `roundHalfUp("1.005", 2) == "1.01"` |
| MoneyExamples.RoundBelowTieDown | tests/MoneyTest.php:20 | `roundHalfUp("1.004", 2) == "1.00"` |
| MoneyExamples.DecimalToMinorExample | tests/MoneyTest.php:14 | `decimalToMinorUnits("123.45") == 12345` |
| MoneyExamples.MultiplyExample | tests/MoneyTest.php:25-28 | 150000 minor roubles at 0.01234567 give 1852 minor dollars |
| MoneyExamples.PrintExample | tests/MoneyTest.php:29 | 1852 at scale 2 prints as "18.52" |
| MoneyExamples.PrintPaddedExample | app/Support/Money.php:27-33 | 5 at scale 2 prints as "0.05" |
| DecimalSyntax.ParseExact | app/Support/Money.php:61 | A string passes the money pattern exactly when it is the rendering of some well-formed sign-and-digits numeral |
| DecimalSyntax.ParseRender | app/Support/Money.php:61 | Every well-formed numeral renders to text that parses back to it |
| DecimalSyntax.RenderParse | app/Support/Money.php:61 | Every text that parses renders back to itself |
| BcMath.ReadFormat | app/Support/Money.php:82 | bcmath's printed result is in the pattern and reads back as the same number |
| BcMath.TruncateTwice | app/Support/Money.php:79-82 | Cutting toward zero to t1 digits and then to t2 <= t1 digits is one cut to t2 digits |
| WebhookSecurity.Authorize | app/Services/WebhookSecurityService.php:9-63 | The first failing check decides. A missing or wrong token gives AUTH_TOKEN_INVALID; then either header missing gives AUTH_HEADERS_MISSING. The request is accepted iff the timestamp is all digits, within the tolerance, and the normalised signature is non-empty and equals HMAC(secret, timestamp "." payload). It is accepted with that timestamp, and only an expired timestamp is reported as context |
| WebhookSecurity.NonDigitTimestampRejected | app/Services/WebhookSecurityService.php:31-36 | With the token and both headers present, a timestamp containing any non-digit gives AUTH_TIMESTAMP_INVALID |
| WebhookSecurity.ExpiryBoundary | app/Services/WebhookSecurityService.php:38-46 | Past the format check, AUTH_TIMESTAMP_EXPIRED (with the timestamp) happens iff the distance from now exceeds the tolerance. Equality passes |
| WebhookSecurity.NormalizeSignature | app/Services/WebhookSecurityService.php:70-78 | The result is no longer than the header and has no upper-case letter. Without '=' it is the trimmed, lower-cased header. With '=' it is the trimmed, lower-cased text after the first '=' |
| WebhookSecurity.NormalizeAfterFirst | app/Services/WebhookSecurityService.php:72-77 | For any header `prefix=rest` with no '=' in the prefix, the normal form is `rest` trimmed and lower-cased, later '=' signs included |
| WebhookSecurity.NormalizeHex | app/Services/WebhookSecurityService.php:70-78 | Lower-case hex is its own normal form, both bare and after a `name=` prefix |
| WebhookSecurity.SignedRequestAccepted | app/Services/WebhookSecurityService.php:9-68 | A request with the token, a fresh timestamp and the `signPayload` digest is accepted with that timestamp. The digest may be bare or prefixed `sha256=` |
| WebhookSecurity.AcceptedWhen | app/Services/WebhookSecurityService.php:48-62 | All checks passing with a matching non-empty signature gives acceptance with the parsed timestamp |
| WebhookSecurity.RejectedWhen | app/Services/WebhookSecurityService.php:48-57 | With every earlier check passed, a signature whose normal form differs from the HMAC gives AUTH_SIGNATURE_INVALID |
| WebhookSecurity.TamperedPayloadRejected | app/Services/WebhookSecurityService.php:48-57 | A payload whose digest differs from the signed payload's is rejected with AUTH_SIGNATURE_INVALID |
| CurrencyApi.NormalizeRate | app/Services/CurrencyApiService.php:135-151 | Non-scalars give "Rate is missing or invalid." Trimmed text outside `^\d+(\.\d+)?$` gives "Rate is not numeric.". Zero at 8 digits gives "Rate must be greater than zero.". Success happens exactly otherwise, and yields the value cut to 8 digits in bcmath's canonical form |
| CurrencyApi.NormalizedRateShape | app/Services/CurrencyApiService.php:146-150 | An accepted rate is positive and has exactly 8 fractional digits |
| CurrencyApi.NormalizeRateIdempotent | app/Services/CurrencyApiService.php:135-151 | Normalising a normalised rate returns it unchanged |
| CurrencyApi.NormalizeCanonical | app/Services/CurrencyApiService.php:135-151 | Every positive 8-digit value bcmath prints is accepted unchanged |
| CurrencyApi.TinyRateRejected | app/Services/CurrencyApiService.php:146-148 | A positive rate below 10^-8 is rejected as not greater than zero |
| CurrencyApi.TotalTimeout | app/Services/CurrencyApiService.php:96 | The total timeout lies in [200, 10000]. It is the remaining budget when that lies in the range, 200 below it and 10000 above it |
| CurrencyApi.ConnectTimeout | app/Services/CurrencyApiService.php:97 | The connect timeout lies in [200, 5000]. It is the remaining budget when that lies in the range, 200 below it and 5000 above it |
| CurrencyApi.TimeoutsOrdered | app/Services/CurrencyApiService.php:96-97 | The connect timeout never exceeds the total timeout, and neither timeout shrinks when more budget is left |
| CurrencyApi.RequestJson | app/Services/CurrencyApiService.php:92-133 | The rate field is returned exactly for a 2xx response whose body decodes to a PHP array (a JSON object or list). A non-2xx status gives "HTTP <status> for <url>" |
| CurrencyApi.PrimaryRate | app/Services/CurrencyApiService.php:29-32 | open.er-api succeeds exactly when the request and the rate validation do, and then returns the validated `rates.USD` |
| CurrencyApi.SecondaryRate | app/Services/CurrencyApiService.php:40-44 | CBR succeeds exactly when the request and the validation do. It returns 1 divided by the positive roubles-per-dollar value, cut to 8 digits |
| CurrencyApi.Backoff | app/Services/CurrencyApiService.php:81 | The pause is at most base·2^(attempt-1). It is zero when 50 ms or less of budget is left. Otherwise it is the doubled base when the budget allows, and else everything but the last 50 ms |
| CurrencyApi.Retry | app/Services/CurrencyApiService.php:59-90 | The clock never goes back. At most `maxAttempts` calls are made, numbered consecutively, each started only with positive budget |
| CurrencyApi.RetryStopped | app/Services/CurrencyApiService.php:64-69 | Past the last attempt, or with no budget, no call is made. An attempt refused for budget logs "processing budget exceeded before attempt k" |
| CurrencyApi.RetrySucceeded | app/Services/CurrencyApiService.php:71-72 | A successful attempt returns its rate at once, with no error entry |
| CurrencyApi.RetryGaveUp | app/Services/CurrencyApiService.php:73-79 | A failure on the last attempt, or with the budget gone, logs one entry and returns null without pausing |
| CurrencyApi.RetryContinued | app/Services/CurrencyApiService.php:73-85 | A failure with attempts and budget left logs its entry, pauses by the backoff and continues with the next attempt |
| CurrencyApi.RetryFirstSuccess | app/Services/CurrencyApiService.php:59-90 | The loop returns the first success. Every call before the last failed, and a rate is returned iff the last call succeeded, and then it is that call's value |
| CurrencyApi.RetryErrors | app/Services/CurrencyApiService.php:64-74 | The entries appended are one "provider attempt k/max: message" per failed call, in order, then one budget entry iff the loop stopped on the budget check |
| CurrencyApi.RetryExhausted | app/Services/CurrencyApiService.php:65-69 | The budget entry is written only once the deadline has been reached |
| CurrencyApi.RetryPaced | app/Services/CurrencyApiService.php:64-85 | Each call gets the budget left when it starts. Each pause is at most the doubled base and leaves 50 ms, and the final attempt is never followed by a pause |
| CurrencyApi.RetryOvershootBounded | app/Services/CurrencyApiService.php:64-85 | When each call ends within the cURL total timeout of its budget, the loop returns no later than 200 ms after the deadline, or at its start if that is later |
| CurrencyApi.RetryAnswered | app/Services/CurrencyApiService.php:71-72 | Each recorded call's outcome and duration are the operation's answer for that attempt and budget |
| CurrencyApi.ReadCache | app/Services/CurrencyApiService.php:153-192 | A memory entry is served while `expires_at > now`. Otherwise a file entry is served while `fetched_at + ttl > now`, after validation, and is copied into memory with expiry `fetched_at + ttl`. A file rate failing validation raises its message and changes nothing. Otherwise null is returned |
| CurrencyApi.WriteCache | app/Services/CurrencyApiService.php:194-235 | When the temp file is written and renamed, file and memory hold the rate with `fetched_at = now` and `expires_at = now + ttl`. On any failed step nothing changes |
| CurrencyApi.CacheExpiresAtBoundary | app/Services/CurrencyApiService.php:158-183 | Memory and file entries are no longer served at exactly their expiry second |
| CurrencyApi.WrittenRateIsServed | app/Services/CurrencyApiService.php:153-235 | A written normalised rate is served unchanged for `ttl` seconds, from memory and equally from the file alone |
| CurrencyApi.GetRubToUsdRate | app/Services/CurrencyApiService.php:16-57 | A cache hit (or a cache error) returns with zero upstream calls. A primary rate prevents any CBR call. The rate returned is the first provider's that found one. With no rate the failure message joins all entries with a spaced vertical bar, and the cache is untouched. A fetched rate is written to the cache |
| CurrencyApi.LookupRuns | app/Services/CurrencyApiService.php:18-27 | On a cache miss the lookup's runs are the two upstream loops. On a hit nothing is requested |
| CurrencyApi.UpstreamPaced | app/Services/CurrencyApiService.php:24-48 | Each provider gets at most `maxAttempts` requests, each with positive budget. Both loops are paced against one deadline, the second starting from where the first left the clock |
| CurrencyApi.UpstreamOvershootBounded | app/Services/CurrencyApiService.php:24-48 | When both endpoints answer within the `CURLOPT_TIMEOUT_MS` they are given (lines 96 and 104), both loops together end no later than 200 ms after the budget's end |
| CurrencyApi.FallbackIsLastAnswer | app/Services/CurrencyApiService.php:37-48 | CBR runs only when open.er-api gave no rate. A CBR rate is what its closure returned on the last call |
| CurrencyApi.FallbackRateIsInverse | app/Services/CurrencyApiService.php:40-44 | A CBR result is the inverse of the validated positive roubles-per-dollar value in the answer, cut to 8 digits |
| CurrencyApi.FailureListsEveryError | app/Services/CurrencyApiService.php:50-52 | The aggregated list is every failed open.er-api request and its budget entry if any, then the same for CBR |
| CurrencyApi.FetchedRateIsCached | app/Services/CurrencyApiService.php:54 | A fetched and stored rate is served from the cache for the next `ttl` seconds |
| DealCurrency.Upsert | app/Services/DealCurrencyService.php:49-75 | The upsert is all or nothing. On a raise or a missing RETURNING row the table is unchanged and the message (or "Upsert failed.") propagates. On success the deal's row is `received` with the payload amount and null dollar amount and rate, keeping an existing id or taking a fresh one, and no other row changes. Well-formedness is preserved |
| DealCurrency.MarkConverted | app/Services/DealCurrencyService.php:77-86 | A raising statement writes nothing. Otherwise exactly the rows with that id become `converted` with the amount and rate |
| DealCurrency.MarkFailed | app/Services/DealCurrencyService.php:88-96 | The method never raises. A failing statement leaves the table unchanged, and otherwise the rows with that id become `failed` |
| DealCurrency.SetConverted | app/Services/DealCurrencyService.php:79-84 | `WHERE id = :id` changes only the rows with that id, setting status, dollar amount and rate |
| DealCurrency.SetFailed | app/Services/DealCurrencyService.php:91-92 | `WHERE id = :id` changes only the status of rows with that id |
| DealCurrency.Handle | app/Services/DealCurrencyService.php:12-47 | A failed upsert returns its error with the table untouched. The response is a conversion iff the upsert, the rate and `markConverted` all succeed, and it holds the payload id and amount, the dollar amount and the rate. A rate or `markConverted` error is re-raised unchanged |
| DealCurrency.HandleConverts | app/Services/DealCurrencyService.php:17-41 | A successful handle leaves the deal's row `converted` with the submitted amount, dollar amount and rate, and no other row changed |
| DealCurrency.HandleFails | app/Services/DealCurrencyService.php:42-46 | When the rate or `markConverted` raises, the original message comes out. The deal's row is `failed` (or still `received` if marking it failed raised) with null dollar amount and rate, and no other row changed |
| DealCurrency.UpsertAllOrNothing | app/Services/DealCurrencyService.php:17 | A failed upsert stops `handle` before anything is written |
| DealCurrency.RedeliveryResets | app/Services/DealCurrencyService.php:54 | Redelivering a known deal resets its row to `received` with the new amount and null dollar amount and rate, under the same id |
| MigrationRunner.RTrimSlashes | app/Infrastructure/MigrationRunner.php:16 | The result is a prefix of the path, with everything removed being '/' or '\\', and does not end in either |
| MigrationRunner.RTrimSlashesAppended | app/Infrastructure/MigrationRunner.php:16 | A path not ending in a separator, followed by any run of separators, trims back to exactly itself |
| MigrationRunner.NewRunner | app/Infrastructure/MigrationRunner.php:13-17 | The stored path is the trimmed one, and trimming it again changes nothing |
| MigrationRunner.Glob | app/Infrastructure/MigrationRunner.php:23 | The listing holds exactly `dir/name` for the directory's names that `*.sql` matches |
| MigrationRunner.VersionOfGlobbed | app/Infrastructure/MigrationRunner.php:34 | A globbed file's version is its name without `.sql` |
| MigrationRunner.Sort | app/Infrastructure/MigrationRunner.php:28 | The result is sorted in `strcmp` order and is a permutation of the input |
| MigrationRunner.SortedUnique | app/Infrastructure/MigrationRunner.php:28 | Two sorted permutations of the same files are equal, so the order is fully determined |
| MigrationRunner.LexLeTotal | app/Infrastructure/MigrationRunner.php:28 | Any two strings are comparable in `strcmp` order |
| MigrationRunner.Pending | app/Infrastructure/MigrationRunner.php:33-37 | No version already recorded is pending |
| MigrationRunner.FirstFailure | app/Infrastructure/MigrationRunner.php:33-66 | Finds the first unapplied file that does not commit, or reports that every unapplied file commits |
| MigrationRunner.ApplyPending | app/Infrastructure/MigrationRunner.php:33-69 | The loop never removes a recorded version |
| MigrationRunner.ApplyPendingOutcome | app/Infrastructure/MigrationRunner.php:33-69 | The loop stops at the first unapplied file that does not commit, raising "Unable to read migration file: …" or "Migration "v" failed: …". The versions before it stay recorded and nothing after it is attempted. Without such a file it records and returns exactly the pending versions in file order |
| MigrationRunner.ApplyPendingSkips | app/Infrastructure/MigrationRunner.php:35-37 | A file whose version is recorded is skipped without effect |
| MigrationRunner.Migrate | app/Infrastructure/MigrationRunner.php:19-97 | A failure creating the table, or a raising SELECT of the recorded versions after the listing, propagates with nothing applied. An unreadable directory raises "Unable to read migrations directory: <path>". No run removes a recorded version |
| MigrationRunner.MigrateApplies | app/Infrastructure/MigrationRunner.php:19-69 | When every pending file commits, `migrate` returns exactly the versions not recorded before, in ascending order of their files, and records them. The files are every `*.sql` of the directory, sorted |
| MigrationRunner.PendingCovers | app/Infrastructure/MigrationRunner.php:33-55 | After all pending versions are recorded, every file's version is recorded |
| MigrationRunner.NothingPending | app/Infrastructure/MigrationRunner.php:33-37 | When every version is recorded, nothing is applied or recorded, whatever the files would do |
| MigrationRunner.MigrateTwice | app/Infrastructure/MigrationRunner.php:19-70 | After a successful run, a second run over the same directory returns an empty list and records nothing new |
| Env.StripQuotes | app/Infrastructure/Env.php:40-45 | Unquoted values are unchanged. A quoted value loses exactly its first and last character |
| Env.StripQuotesInverse | app/Infrastructure/Env.php:40-45 | Wrapping text in a pair of double or single quotes and stripping gives the text back |
| Env.ParseLine | app/Infrastructure/Env.php:22-38 | Blank lines, `#` comments and lines without '=' assign nothing. A line assigns exactly when its trimmed text is not a comment and the part before the first '=' is not blank. The assignment is that part trimmed, and the rest trimmed and unquoted |
| Env.ParseLineAt | app/Infrastructure/Env.php:22-45 | For any line trimmed to `before=after` with no '=' in `before`: a comment assigns nothing, a blank key is skipped, and otherwise the key is `before` trimmed and the value `after` trimmed and unquoted |
| Env.ParseLineAssignment | app/Infrastructure/Env.php:28-38 | `key=value` assigns exactly that key and value, even when the value contains '=' |
| Env.ApplyLine | app/Infrastructure/Env.php:47-52 | Existing variables are never overwritten, and a new variable comes only from this line's assignment |
| Env.LoadLinesResult | app/Infrastructure/Env.php:22-53 | After the loop, a variable is set iff it was set before or some line assigns it. Old values win, and otherwise the first assignment in the file wins |
| Env.Load | app/Infrastructure/Env.php:9-56 | After `load` the flag is set, an already loaded state is unchanged, and existing variables keep their values |
| Env.LoadOnce | app/Infrastructure/Env.php:11-14 | A second `load`, with any file, changes nothing |
| Env.GetAfterLoad | app/Infrastructure/Env.php:47-66 | A variable set only by the file reads back as its first assignment, or the default when that is empty |

## Left out

- Floating point:
  - the float branch of `toDecimalString` (app/Support/Money.php:55-57);
  - `round((float) $amountRub * $rate, 2)` in `handle`, which is the parameter `usd`;
  - the `(float)` casts of the amount and rate in `handle`'s response and in `markConverted`. The model keeps the strings.
- Int and float rates reaching `normalizeRate` are modelled through the text `(string)` gives them. Their float formatting is not modelled.
- bcmath accepts a wider syntax than the money pattern, such as a leading `+` or `.5`. The model treats every text outside the pattern as bcmath's `ValueError`. This arises only for `roundHalfUp` called directly.
- `WebhookSecurity.Authorize`: reads the timestamp digits as an unbounded number. PHP's `(int)` cast saturates at PHP_INT_MAX, so for a digit string past that value the timestamp in the expiry context differs (app/Services/WebhookSecurityService.php:37).
- `DealCurrency.Upsert`: a row keeps the payload's amount text verbatim. The database's NUMERIC columns would read it back reformatted to the column's scale ('100' as '100.00').
- `Money.NumberFormat`: formats the integer exactly. PHP's `number_format` takes a float, so an integer above 2^53 in magnitude is first rounded to the nearest double, which the model does not reproduce. A negative decimal count is read as zero, as PHP before 8.3 does; from PHP 8.3 on it rounds left of the decimal point instead.
- `Money.ToDecimalString`: the integer branch goes through `Money.NumberFormat` and shares its two limits: exact above 2^53, and a negative count read as zero.
- `Money.DecimalToMinorUnits`: the integer branch gives i·10^scale exactly, inheriting the same two limits of `Money.NumberFormat`.
- `Money.MultiplyMinorByRate`: for a negative scale the model reports the scale error from `roundHalfUp`. It does not model whether bcmath first rejects the amount text that `minorUnitsToDecimalString` prints for a negative scale.
- PHP's 64-bit integers are unbounded here. That covers `abs(PHP_INT_MIN)`, the `(int)` cast of `bcmul` results, and overflow of `fetched_at + ttl`.
- HMAC-SHA256 is a function parameter. The constant-time property of `hash_equals` cannot be stated and is plain equality.
- Network, file and database I/O are oracle inputs:
  - cURL calls;
  - JSON decoding, with the rate field given directly;
  - cache file reads;
  - `glob`;
  - `file_get_contents`;
  - PDO statements.
- The temp-file name, `mkdir` and `unlink` of `writeCache` are reduced to one success flag.
- `time()`, `microtime()` and `usleep` are integer inputs. The millisecond clock advances by each call's duration and exactly the pause; the float deadline and `floor` are not modelled.
- `Env::getPositiveInt` and `Env::require` are not part of this model. Configuration values (tolerance, budget, retries, backoff, TTL) are positive parameters.
- `Env::load` reads the environment as a map. The separate `$_ENV` copy is not modelled.
- Logger calls are assumed not to raise.
- The `[]` branch of `getAppliedVersions` for a failed `fetchAll` is not modelled. The connection is in `PDO::ERRMODE_EXCEPTION`, so a failing SELECT raises first; `Migrate`'s `schema` parameter covers that raise. The recorded set is an input.
- A migration file's outcome is an oracle keyed by its path. The model does not check for duplicate versions across files.
- `basename` is modelled for paths not ending in '/'. Backslash separators are not modelled.
- Sequence values drawn by a rolled-back upsert are not counted in the deals table's id sequence.
- Concurrency between requests sharing the cache and the database is not modelled.
- The HTTP controllers, routing, the health check, the database connection and the scripts are not part of this model.
