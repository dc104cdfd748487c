# A public diary, modelled in Dafny

The diary is a Cloudflare Worker with one page per day. Until midnight in
Japan, anyone may overwrite today's entry; after that the entry is
read-only. This project models the rules behind that in Dafny and proves
them.

The modules follow the Rust files:

- `Templates` (`src/templates.rs`): XML and HTML escaping, the RSS feed
  items, the RFC 2822 rewriting of stored timestamps, and Zeller's weekday
  formula.
- `Time` (`src/time.rs`): the clock split into seconds and nanoseconds,
  today's date in Japan (UTC+09:00, no daylight saving), and strict
  `YYYY-MM-DD` date parsing.
- `Calendar`: the proleptic Gregorian calendar that chrono supplies.
  - Day numbers count from 1970-01-01; `CivilFromDays` and `DaysFromCivil`
    are proved inverse.
  - `Weekday` is the reference day of the week.
- `Db` (`src/db.rs`): the `diary_entries` table.
  - `EntryTable` is a class whose `rows` map goes from the `date` key to
    the row.
  - The upsert is a method on that class.
  - The three SELECTs are functions of the map: `WHERE`, then
    `ORDER BY date DESC`, then `LIMIT`, where a negative `LIMIT` means no
    limit, as in SQLite.
- `Models` (`src/models.rs`): the response records, the error
  constructors, and the 100-character preview.
- `RateLimit` (`src/rate_limit.rs`): the save counter.
  - The KV namespace is a `map<string, string>`, held by the class
    `RateLimitStore`.
  - The increment is a read-modify-write of the key `rate:<ip>`.
  - `count + 1` wraps past `u32::MAX`, as in a release build.
- `Auth` (`src/auth.rs`): the admin check.
  - The Bearer header decides when present; otherwise the query pairs are
    searched.
  - `GetTokenFromQuery` returns the first `token` pair.
  - Both searches are loops with invariants.
- `Handlers` (`src/handlers.rs`): the JSON API.
  - `get_today`, `get_entries` and `get_entry_by_date` are functions of the
    table and of today's date.
  - `post_today` is a method. It runs the guard chain in source order (rate
    limit, JSON body, Turnstile token, Turnstile verdict, length after
    `\r` removal). It then saves the row and, unless the KV write fails,
    bumps the counter.
- Support modules:
  - `Wrappers`: `Option` and `Result`.
  - `Strings`: decimal numerals, `u32`/`i32` parsing, `replace`, `split`,
    byte lengths, string order.
  - `RustInt`: Rust's truncating `/` and `%`.
  - `Http`: the handlers' replies.

Collaborators are inputs:

- the host clock, as integer milliseconds;
- the decoded JSON body, as `Option<PostTodayRequest>`;
- Turnstile's verdict, as `Result<bool>`;
- whether a D1 or KV write fails, as booleans;
- a failing D1 read, as `Fault`.

## Model

| member | source | states |
|---|---|---|
| Templates.EscapeCommon | src/templates.rs:4-9 | the result holds no `<`, `>` or `"` |
| Templates.EscapeXml | src/templates.rs:11-13 | the result holds no `<`, `>`, `"` or `'` |
| Templates.EscapeHtml | src/templates.rs:15-17 | the result holds no `<`, `>`, `"` or `'` |
| Templates.ChainIsEach | src/templates.rs:4-17 | the four chained replaces, `&` first, then the apostrophe, equal one per-character entity map |
| Templates.EscapeXmlPerCharacter | src/templates.rs:11-13 | `escape_xml` is the per-character map with `'` to `&apos;`, so no entity is escaped twice |
| Templates.EscapeHtmlPerCharacter | src/templates.rs:15-17 | `escape_html` is the per-character map with `'` to `&#x27;` |
| Templates.XmlHtmlAgree | src/templates.rs:11-17 | on text without an apostrophe the two escapers agree |
| Templates.EscapeRoundTrip | src/templates.rs:4-17 | decoding the entities of either escaper's output gives back the input |
| Templates.EscapeXmlPlain | src/templates.rs:4-13 | text without `&<>"'` is left as it is |
| Templates.EscapeXmlAppend | src/templates.rs:4-13 | escaping distributes over concatenation |
| Templates.EscapeTagExample | src/templates.rs:635 | `<test>` becomes `&lt;test&gt;` |
| Templates.EscapeAmpersandExample | src/templates.rs:636 | `a & b` becomes `a &amp; b` |
| Templates.EscapeQuoteExample | src/templates.rs:637 | `"quote"` becomes `&quot;quote&quot;` |
| Templates.FeedItemOf | src/templates.rs:351-371 | the item title is the escaped date plus `の日記`. Link and guid are both the unescaped base URL + `/entries/` + the escaped date. The publication date is the as-written `datetime_to_rfc2822` of `updated_at`. The description is the escaped 200-character preview and holds no `<` or `>` |
| Templates.FeedPubDateOfSavedEntry | src/templates.rs:369 | an entry saved up to year 9999 is published with its UTC date and clock under `+0900`, after the name of the following day |
| Templates.FeedItems | src/templates.rs:348-373 | one item per entry, in the entries' order |
| Templates.ItemsXml | src/templates.rs:359-373 | one `<item>` block per item, in order |
| Templates.Enclose | src/templates.rs:375-388 | the text starts with the head, ends with the tail, and between them holds exactly the body |
| Templates.RssDocument | src/templates.rs:375-388 | the document starts with the channel header and ends with the closing tags, and is exactly the header, the item blocks joined by newlines, and the closing tags |
| Templates.RenderRss | src/templates.rs:348-388 | the feed starts with the channel header, which carries the base URL, and ends with the channel and rss closing tags |
| Templates.RenderRssItems | src/templates.rs:348-388 | the feed is the channel header, the newline-joined `<item>` blocks of the entries, one per entry in order, and the closing tags |
| Templates.FeedDescription | src/templates.rs:352-357 | the unescaped description is the content when it has at most 200 characters, else its first 200 characters and `...` |
| Templates.FeedTruncatesLongContent | src/templates.rs:602-616 | 300 characters of `あ` become 200 of them and `...` |
| Templates.CalculateWeekday | src/templates.rs:436-446 | for a year, month and day each below 10^8 in size (all that its one caller can pass), the result is in 0..6 |
| Templates.CalculateWeekdayIsZellerSum | src/templates.rs:436-446 | from year 0 on, the truncating `%` and the `+ 7` normalisation equal Zeller's sum mod 7 |
| Templates.ZellerIsNextWeekday | src/templates.rs:436-446 | for every real date from year 1, the result is (true Sunday-based weekday + 1) mod 7, i.e. Zeller's Saturday = 0 |
| Templates.CalculateWeekdayNext | src/templates.rs:436-446 | the result rises by exactly 1 mod 7 from one day to the next |
| Templates.DayOfWeek | src/templates.rs:396-428 | the corrected index is in 0..6 |
| Templates.DayOfWeekIsWeekday | src/templates.rs:396-428 | the corrected index is the true day of the week, Sunday = 0 |
| Templates.ReadStamp | src/templates.rs:398-409 | a timestamp shorter than 19 bytes yields no fields; fields that are read are within `calculate_weekday`'s range |
| Templates.UnsplitDateKeptAsIs | src/templates.rs:398-409 | a timestamp of at least 19 bytes yields fields exactly when its first ten bytes split on `-` into three pieces; otherwise both rewriters return it unchanged |
| Templates.ReadFields | src/templates.rs:406-424 | fields are read exactly when the date splits on `-` into three pieces. Each date piece is its parsed number, or 2025, 1, 1 when it does not parse. The clock pieces are their parsed numbers or 0, and all three are 0 unless the clock splits on `:` into three pieces. The read fields stay inside the `i32`-safe range |
| Templates.MonthName | src/templates.rs:426 | months 1..12 give their name; month 0 wraps past the table, and it and every month above 12 give `Jan` |
| Templates.DatetimeToRfc2822 | src/templates.rs:398-434 | an unreadable timestamp comes back unchanged; otherwise the stamp is rendered with Zeller's index, and for fields that form a real date from year 1 that is the name of the day after the date |
| Templates.DatetimeToRfc2822Corrected | src/templates.rs:398-434 | the same fallback; for fields that form a real date from year 1 the name is the date's own weekday |
| Templates.ReadShapedStamp | src/templates.rs:403-424 | a `YYYY-MM-DDTHH:MM:SS...` ASCII timestamp is sliceable, and its fields read back exactly |
| Templates.RewriteShaped | src/templates.rs:398-434 | such a timestamp is printed as `<Wkd>, DD Mon YYYY HH:MM:SS +0900`. The clock is copied with no shift. The as-written weekday name is the day after the real one; the corrected name is the real one |
| Templates.PubDateOfStoredTimestamp | src/templates.rs:398-434 | the same holds for every `updated_at` that `now_iso8601` writes up to year 9999 |
| Templates.Rfc2822Example | src/templates.rs:627-631 | `2025-01-15T10:30:45Z` gives `Thu, 15 Jan 2025 10:30:45 +0900` as written and `Wed, ...` corrected |
| Time.NowUtc | src/time.rs:10-15 | the clock splits into truncating `millis / 1000` seconds and `(millis % 1000) * 10^6` nanoseconds below 10^9 that recombine to the input |
| Time.TodayJstIsJstDate | src/time.rs:18-22 | `today_jst` is the zero-padded civil date of the day number of `millis + 9h` |
| Time.TodayJstIsValidDate | src/time.rs:18-22 | every `today_jst` up to year 9999 passes `is_valid_date` and parses back to that civil date |
| Time.SameTodayIffSameJstDay | src/time.rs:18-22 | two instants give the same `today_jst` exactly when they fall on the same JST day |
| Time.TodayJstChangesAtJstMidnight | src/time.rs:18-22 | `today_jst` changes between one millisecond and the next exactly when UTC reaches 15:00:00.000 |
| Time.TodayJstMonotone | src/time.rs:18-22 | `today_jst` never goes backwards in string order |
| Time.IsTodayMeansJstDate | src/time.rs:30-32 | `is_today(d)` implies `d` is valid, and for a valid `d` it holds exactly when `d` names the current JST date |
| Time.ParseDate | src/time.rs:35-37 | a parsed date is a real Gregorian date with a four-digit year |
| Time.ParseDateCanonical | src/time.rs:35-37 | a string that parses is the zero-padded form of its date |
| Time.FormatParseRoundTrip | src/time.rs:35-42 | formatting a date with year 0..9999 and parsing it gives the date back |
| Time.DateStringOrder | src/time.rs:35-42 | for valid dates, string order is calendar order |
| Time.LeapDayExamples | src/time.rs:40-42 | `2024-02-29` and `2000-02-29` are valid |
| Time.NoLeapDayExamples | src/time.rs:40-42 | `2025-02-29` and `1900-02-29` are not |
| Time.OutOfRangeExamples | src/time.rs:40-42 | `2025-13-01` and `2025-00-15` are not |
| Time.ShortMonthExample | src/time.rs:40-42 | `2025-04-31` is not |
| Time.StoredStampShape | src/time.rs:25-27 | `now_iso8601` is `YYYY-MM-DDTHH:MM:SS`, then the fraction and `+00:00`, in ASCII, with a year in 1..9999 |
| Calendar.CivilFromDays | src/time.rs:18-22 | every day number names a real date |
| Calendar.DaysFromCivilInverse | src/time.rs:18-22 | day number to date and back is the identity |
| Calendar.CivilFromDaysOfDays | src/time.rs:18-22 | date to day number and back is the identity |
| Calendar.CivilFromDaysMonotone | src/time.rs:18-22 | a later day number gives a later date |
| Calendar.NextPrev | src/time.rs:18-22 | the next and previous day undo each other |
| Calendar.WeekdayNext | src/templates.rs:396 | the reference weekday rises by one mod 7 from day to day |
| Calendar.Weekday20250115 | src/templates.rs:630 | 2025-01-15 is day 20103 and a Wednesday |
| RustInt.TruncDiv | src/time.rs:12 | Rust's truncating `/` agrees with floor division on non-negative operands |
| RustInt.TruncRem | src/templates.rs:444 | Rust's `%`: quotient times divisor plus remainder is the dividend, and the remainder has the dividend's sign |
| RustInt.TruncRemNormalised7 | src/templates.rs:444-445 | `(h % 7 + 7) % 7` is the Euclidean remainder |
| Strings.TruncateChars | src/models.rs:88-93 | text of at most `n` characters is kept; longer text becomes its first `n` characters and `...` |
| Strings.TruncateFixpoint | src/models.rs:88-93 | truncation leaves a text unchanged exactly when it is short, or already `n` characters and `...` |
| Strings.ParseU32 | src/rate_limit.rs:17 | a parsed `u32` is at most `u32::MAX` |
| Strings.DecimalRoundTrip | src/rate_limit.rs:31 | the decimal text of a `u32` parses back to it |
| Strings.ReplaceChar | src/handlers.rs:94 | a character not in the replacement is gone from the result |
| Strings.Split | src/templates.rs:406 | one more piece than separators, none holding the separator |
| Strings.SplitJoin | src/templates.rs:406 | joining the pieces with the separator gives the text back |
| Strings.StripPrefix | src/auth.rs:14 | `Some` exactly when the prefix is there, and the text is the prefix plus the value |
| Strings.ByteLen | src/templates.rs:399 | the UTF-8 length is at least the character count |
| Strings.CharsForBytes | src/templates.rs:403-404 | a byte offset on a character boundary names the prefix of exactly that many bytes |
| Models.DiaryEntryResponse.FromEntry | src/models.rs:21-27 | date and content copied, `can_edit` passed through |
| Models.ErrorResponse.NotFound | src/models.rs:59-61 | code `NOT_FOUND` |
| Models.ErrorResponse.BadRequest | src/models.rs:63-65 | code `BAD_REQUEST`, the message as the error |
| Models.ErrorResponse.InternalError | src/models.rs:67-69 | code `INTERNAL_ERROR` |
| Models.DiaryEntrySummary.FromEntry | src/models.rs:86-98 | date copied. Content of at most 100 characters is the preview unchanged; longer content gives its first 100 characters and `...`, exactly 103 characters. A preview never exceeds 103 |
| Models.VersionSummary.FromVersion | src/models.rs:128-140 | the same 100-character rule; version number and creation time copied |
| Models.PreviewExamples | src/models.rs:156-180 | `短い日記` is kept; 150 characters give a 103-character preview ending in `...` |
| Db.GetEntry | src/db.rs:8-12 | the row whose date is the given one, and `None` only when no row has it |
| Db.Upserted | src/db.rs:15-35 | only today's key is written and every other row is kept. A first save inserts `(today, content, now, now)`. A later save replaces content and `updated_at` and keeps `created_at`. One row per date is preserved |
| Db.EntryTable.UpsertTodayEntry | src/db.rs:15-35 | the table becomes the upsert of `today_jst()` with the content and `now_iso8601()`; the table invariant is kept |
| Db.EntryTable.RunUpsert | src/db.rs:19-33 | the statement with its bound parameters performs exactly that upsert |
| Db.UpsertTwice | src/db.rs:19-24 | a second save the same day keeps the first creation time and takes the second text and time |
| Db.UpsertSameContent | src/db.rs:22-24 | re-saving the stored text changes only `updated_at` |
| Db.DatesDescending | src/db.rs:45 | a set of keys in strictly descending string order, each exactly once |
| Db.Cap | src/db.rs:46 | how many rows `LIMIT` lets through, with a negative limit meaning all |
| Db.Listing | src/db.rs:41-55 | the selected rows, newest first, as many as the limit allows |
| Db.ListPastEntries | src/db.rs:38-56 | at most `limit` rows, all dated before today and never today, rows of the table, newest first |
| Db.PastEntriesAreLatest | src/db.rs:38-56 | a past row left out means the limit was reached and the row is older than every row returned |
| Db.ListAllEntries | src/db.rs:59-71 | `min(limit, rows)` rows of the table, newest first |
| Db.AllEntriesAreLatest | src/db.rs:59-71 | a row left out means the limit was reached and the row is older than every row returned |
| Db.NewestFirstIsChronological | src/db.rs:45 | with valid date keys, newest first in string order is newest first in calendar order |
| RateLimit.RateLimitedExamples | src/rate_limit.rs:51-76 | the limit is 60 per 3600 seconds: 0 and 59 pass; 60, 61, 100 and `u32::MAX` are limited |
| RateLimit.KeyInjective | src/rate_limit.rs:23 | distinct clients have distinct keys |
| RateLimit.GetCount | src/rate_limit.rs:12-20 | a missing key counts 0 and every count fits a `u32`; unparsable text counts 0 |
| RateLimit.GetCountOfStored | src/rate_limit.rs:28-31 | a count the increment wrote reads back as that count |
| RateLimit.NextCount | src/rate_limit.rs:31 | `count + 1` below `u32::MAX`, wrapping to 0 at it |
| RateLimit.Incremented | src/rate_limit.rs:28-36 | the client's count becomes the next count; every other key is kept |
| RateLimit.RateLimitStore.IncrementRateLimit | src/rate_limit.rs:28-36 | the store becomes that increment of the old store |
| RateLimit.CountAfterIncrements | src/rate_limit.rs:28-36 | below `u32::MAX`, `n` increments raise the count by `n` |
| RateLimit.SixtySavesPerWindow | src/rate_limit.rs:8-36 | from an empty counter the check passes after 59 increments and refuses after 60 |
| RateLimit.IncrementKeepsOtherKey | src/rate_limit.rs:28-36 | an increment keeps every other key's count |
| RateLimit.IncrementsKeepOtherKey | src/rate_limit.rs:28-36 | so do any number of them |
| RateLimit.OtherClientsUnaffected | src/rate_limit.rs:22-36 | increments for one client never change another client's count or check |
| RateLimit.IncrementWrapsAtMax | src/rate_limit.rs:31 | a stored `u32::MAX` is limited and wraps to 0, which is not |
| RateLimit.GetClientIp | src/rate_limit.rs:38-44 | the `CF-Connecting-IP` header, or `unknown` |
| RateLimit.HeaderlessClientsShareCounter | src/rate_limit.rs:38-44 | every client without the header uses the counter `rate:unknown` |
| Auth.VerifyAdminToken | src/auth.rs:6-28 | the result is `Admitted`. No secret means false. A `Bearer ` header decides by comparing its remainder. Otherwise the result is true iff some `token` pair equals the secret |
| Auth.FirstToken | src/auth.rs:31-39 | `None` exactly when no pair has key `token`, else the value of the first such pair |
| Auth.GetTokenFromQuery | src/auth.rs:31-39 | the loop returns the first `token` value |
| Auth.UnauthorizedResponse | src/auth.rs:42-45 | status 401, code `UNAUTHORIZED` |
| Auth.NoSecretNoAdmin | src/auth.rs:7-10 | without `ADMIN_TOKEN` nobody is admitted |
| Auth.BearerIsDecisive | src/auth.rs:13-17 | with a Bearer header the remainder alone decides, whatever the query holds |
| Auth.QueryDecidesOtherwise | src/auth.rs:13-27 | without a Bearer header the query decides: some `token` pair equal to the secret |
| Auth.FirstTokenMayDiffer | src/auth.rs:21-38 | a query can admit through its second `token` pair while the first token is a different value |
| Handlers.GetToday | src/handlers.rs:24-47 | 200 or 500, 500 exactly on a D1 failure. The entry when today's row exists, otherwise an empty body with today's date. Always editable |
| Handlers.TodayShowsSavedText | src/handlers.rs:24-47 | read on the same JST day, `/api/today` after a save shows the saved text under the save's date |
| Handlers.GetEntries | src/handlers.rs:127-145 | 500 exactly on a D1 failure, else at most 100 previews, newest first, of rows dated before today, each the preview of its row |
| Handlers.GetEntriesAreLatest | src/handlers.rs:127-145 | a row dated before today that has no preview means 100 previews were returned and the row is older than each of them |
| Handlers.GetEntryByDate | src/handlers.rs:148-181 | no date or an invalid date gives 400 with its message. 500, 404 and 200 each hold exactly on a failed read, an absent row and a present row. A found entry is editable exactly when its date is today |
| Handlers.InvalidDateIgnoresTable | src/handlers.rs:159-163 | an invalid date is answered without consulting the table |
| Handlers.EditableExactlyToday | src/handlers.rs:165-169 | a found entry is editable exactly when its date is the JST calendar day of the request |
| Handlers.StripCarriageReturns | src/handlers.rs:94 | no `\r` is left, and the length drops by the number removed |
| Handlers.PostDecision | src/handlers.rs:50-102 | with the guards in source order, a rate-limited client gets 429. The text is accepted exactly when every guard passes. The accepted text is the `\r`-free text of at most 10 000 characters. 500 comes exactly from a failed Turnstile call; every other refusal is `BAD_REQUEST` |
| Handlers.GuardsInOrder | src/handlers.rs:61-91 | bad JSON, a missing token and a failed verdict each give their own 400, whatever comes later |
| Handlers.LengthLimit | src/handlers.rs:96-102 | with the earlier guards passed, text is accepted exactly when it has at most 10 000 characters |
| Handlers.CarriageReturnsNotCounted | src/handlers.rs:93-102 | 10 000 characters sent with a CRLF ending are accepted, and saved with LF |
| Handlers.PostToday | src/handlers.rs:50-124 | a refusal answers its status and changes nothing. A failed save answers 500 and changes nothing. Otherwise the reply is 201 with the normalised text. The table gets today's upsert, and the counter is incremented unless the KV write fails |
| Handlers.Commit | src/handlers.rs:104-109 | the row is saved first, then the counter bumped unless its write fails |
| Handlers.ResponseDateIsKey | src/handlers.rs:110-115 | the echoed date is the saved key when both clock readings fall on one JST day |

## Left out

- HTML pages are not modelled, beyond the escaping they use: `html_head`,
  the page renders, the admin pages, and `src/pages.rs` and `src/lib.rs`
  (routing).
- `unauthorized_html_response` builds an HTML page; only the JSON reply is
  modelled.
- `src/turnstile.rs` is not part of this model. It is an outbound HTTP
  call, and its verdict is an input.
- Version history is left out. The version handlers and `VersionListResponse`
  rely on database calls that are not in `src/db.rs`. `VersionSummary` and
  its preview are modelled.
- D1, KV and network errors appear only where the handler turns them into
  a reply: a failed table read, a failed save, a failed counter write.
  These are left out:
  - a failed counter read in `check_rate_limit`, which the `?` propagates
    as a worker error;
  - a missing binding or secret behind `ctx.env`;
  - header and URL read errors in `verify_admin_token`.
- The counter's one-hour expiry (`expiration_ttl`) is left out; the map
  never forgets a key.
- Concurrency is left out: the check-then-increment race, concurrent
  upserts, and async suspension.
- chrono's lenient `%Y-%m-%d` is not modelled. It takes one-digit months
  and days, signed or long years, and surrounding spaces. `ParseDate` is
  the strict ten-character form, so `Time.FieldRangeExamples` rejects
  `2025-1-15`, which chrono accepts.
- `Time.NowIso8601` renders `to_rfc3339` as chrono does for years
  0..9999. What chrono prints for years outside that range is not
  claimed.
- The host clock is an integer parameter. `ClockReadable` excludes a
  negative reading that is not a whole second; `now_utc` panics on it.
- The handlers take today's date as a string. The Rust code reads it off
  the clock inside `get_today`, `get_entry_by_date` (through `is_today`)
  and `list_past_entries`. `TodayShowsSavedText` and
  `EditableExactlyToday` supply `today_jst` of a clock reading.
- `Handlers.GetEntries`, `Db.ListPastEntries`, `Db.ListAllEntries` and
  `Db.DatesDescending` are ghost: `ORDER BY` is specified by choosing the
  largest key, not computed.
- `Templates.CalculateWeekday` requires arguments below 10^8 in size. Its
  only caller passes pieces of a ten-byte string, which are that small;
  larger values would overflow `i32`.
- `Templates.DatetimeToRfc2822` requires that bytes 10, 11 and 19 of a long
  timestamp fall on character boundaries; Rust panics otherwise.
- `RateLimit.NextCount` models the release-build wrap of `u32`; a debug
  build would panic at `u32::MAX`.
- Month 0 in a timestamp is modelled with the release-build wrap of
  `month - 1`.
- Comparisons in `src/auth.rs` are not timing-safe; timing is not modelled.
- The query pairs are given already percent-decoded.
- The `:date` route parameter is an `Option`, standing for the router's
  lookup.
- The XSS test in `src/templates.rs` is covered by the per-character
  escaping lemmas, not stated as its own example.

## Findings

| source | as written | input that shows it | evidently intended | confidence | as-written member | corrected member |
|---|---|---|---|---|---|---|
| src/templates.rs:427-428 | Zeller's index, in which Saturday is 0, looks up a Sunday-first name table, so every date prints as the day after | `2025-01-15T10:30:45Z`, a Wednesday, gives `Thu, 15 Jan 2025 10:30:45 +0900` | `Wed, 15 Jan 2025 10:30:45 +0900`: section 3.3 of RFC 2822 requires the day name to be the one the date implies | high; not executed | Templates.DatetimeToRfc2822 | Templates.DatetimeToRfc2822Corrected |

Evidence for the as-written half:

- `Templates.ZellerIsNextWeekday` proves that `calculate_weekday` is always
  the true weekday plus one.
- `Templates.Rfc2822Example` evaluates the input above.

Evidence for the corrected half:

- `Templates.DayOfWeekIsWeekday` proves the corrected index is the true
  weekday.
- `Templates.RewriteShaped` shows that only the corrected rewriter names
  the real day.

The feed (`Templates.FeedItemOf`, `Templates.FeedPubDateOfSavedEntry`)
models `render_rss` as written, so its items carry the as-written weekday,
as the source's own unit test pins; `Templates.DatetimeToRfc2822Corrected`
is the rewriter a corrected feed would call.

The clock fields of `pubDate` are the stored UTC time under a `+0900`
label, which `Templates.RewriteShaped` states. This is not listed as a
finding: the unit test that pins it is named for preserving the time.
