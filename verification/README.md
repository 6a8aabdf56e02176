# Eye-stress recommendations: analytics core in Dafny

This project models the recommendations controller of an eye-stress tracking
backend. Users submit analyses (a boolean "stress detected" result with a
timestamp and an optional image URL). The controller derives statistics from a
user's analyses and uses a text generator to produce advice. It has three
request handlers:

- **getRecommendations** checks that the user exists and has an analysis. It
  counts the analyses of the last seven days and asks the generator for advice.
  It pulls a JSON payload out of the free-form reply, falling back to a fixed
  payload, and appends exactly one recommendation document to the store.
- **getEyeHealthSummary** computes whole-history counts and the newest
  analysis's status. It also builds a weekly trend: one bucket per Sunday-based
  week, each with its total, stress count and rounded percentage, listed
  oldest week first.
- **getUserRecommendationHistory** returns one page of saved recommendations,
  newest first, with the total and a `hasMore` flag.

Modules:

| file | module | models |
|---|---|---|
| wrappers.dfy | Wrappers | `Option`, `Result` |
| calendar.dfy | Calendar | instants in ms, days, weekdays, week start |
| sequences.dfy | Sequences | order-preserving filter, stable insertion sort by key, sums over sequences |
| analytics.dfy | Analytics | `Analysis`, `Stats`, rounding, window statistics, newest analysis |
| weekly.dfy | Weekly | weekly bucketing, percentages and ordering |
| extraction.dfy | Extraction | fenced-block search, trimming, decode-or-fallback |
| recommendations.dfy | Recommendations | the store, the three handlers |

Modelling choices:

- **Instants** are integers: milliseconds since 1970-01-01 UTC.
- **The window** starts at `now - 7 * 86 400 000`. Analyses at or after that
  instant count.
- **A week** is identified by the day number of its Sunday: the analysis's day
  minus its weekday. The source renders this day as a `Y-M-D` string and sorts
  by parsing the string back; ordering by the day number is the same order.
- **`Math.round(stress / total * 100)`** is the integer
  `(200 * stress + total) / (2 * total)`. `RoundPercent` states that this is
  the nearest integer to `100 * stress / total`, with halves rounded up.
- **The store** is a value holding three sequences (users, analyses,
  recommendations). `GetRecommendations` returns the new store; its contract
  counts the appended records.
- **The generator** is a parameter `PromptInput -> Option<string>`. `None`
  stands for a call that throws. The prompt is a fixed template, so the model
  passes only the values the template interpolates.
- **`JSON.parse`** is a parameter `string -> Option<Json>`. Any JSON value it
  accepts is used, because the source checks no fields.
- **The reply patterns** are ``/```json\s*([\s\S]*?)\s*```/`` and
  ``/```\s*([\s\S]*?)\s*```/``, each followed by `trim()`. Together they give
  the trimmed text between two points. The start is the first occurrence of
  the opening fence. The end is the first bare fence after that opening fence.
  The lazy group stops at the first closing fence, and `\s` and `trim` use the
  same white-space set. `Candidate` states this directly. A later opening fence
  cannot rescue an unclosed first one, because any fence after the later one
  also follows the first.
- **The decoded payload** is stored as it is; no field of it is checked.
- **The week key** is the date of the week's Sunday.
- **A "username is required" check** runs in each handler before the user
  lookup.
- **An empty history page** is a not-found error.

## Model

| member | source | states |
|---|---|---|
| Analytics.RoundPercent | controllers/recommendations.controller.js:58 | the result is zero for an empty whole; otherwise it is the integer nearest to 100·part/whole, with halves rounded up. It is at most 100 when part ≤ whole, and zero exactly when the whole is empty or 200·part < whole |
| Analytics.StatsOf | controllers/recommendations.controller.js:195-197 | the total is the number of analyses and the stress count is the number with stress. The stress count is at most the total, and the percentage is their rounded ratio, within [0,100] |
| Analytics.WindowStats | controllers/recommendations.controller.js:45-58 | the window statistics keep the invariant: stress count ≤ total, percentage rounded and in [0,100]. The total never exceeds the history |
| Analytics.WindowIgnoresOld | controllers/recommendations.controller.js:46-57 | analyses created before now − 7 days, inserted anywhere in the history, change neither window count |
| Analytics.WindowCountsRecent | controllers/recommendations.controller.js:49-57 | an analysis inside the window adds one to the total, and adds one to the stress count exactly when it shows stress |
| Analytics.ThreeAnalysesScenario | controllers/recommendations.controller.js:45-58 | analyses 1, 3 and 10 days old (stress, none, stress) give window stats (2, 1, 50%) and whole-history stats (3, 2, 67%) |
| Analytics.LatestIndex | controllers/recommendations.controller.js:30-34 | the chosen analysis is the newest: no analysis has a later createdAt. On a tie, the first stored one is chosen |
| Calendar.WeekStart | controllers/recommendations.controller.js:202-204 | a day's week start is a Sunday, on or before the day, less than seven days earlier |
| Calendar.WeekStartUnique | controllers/recommendations.controller.js:202-205 | any Sunday within the six days before a day, or on it, is that day's week start, so the week key is unique |
| Calendar.WeekStartMonotone | controllers/recommendations.controller.js:229-231 | a later day never has an earlier week start, so week order follows time order |
| Sequences.Filter | controllers/recommendations.controller.js:182-185 | the result holds exactly the elements that meet the condition and is no longer than the input. It is the one filter behind the user's analyses (lines 182-185), the user's saved records (lines 289 and 296), the seven-day window (lines 49-54) and the analyses of one week |
| Sequences.FilterConcat | controllers/recommendations.controller.js:182-185 | filtering a concatenation gives the concatenation of the filtered parts. So each kept element appears once, in stored order, and every count taken over a filter counts each document once |
| Sequences.SortBy | controllers/recommendations.controller.js:229-231 | the sorted sequence is ascending by the key and is a permutation of the input |
| Sequences.SortByStrict | controllers/recommendations.controller.js:229-231 | sorting buckets with distinct keys gives a strictly ascending sequence |
| Sequences.SumOfPermutation | controllers/recommendations.controller.js:223-231 | reordering buckets leaves the sums of their counts unchanged |
| Weekly.GroupCorrect | controllers/recommendations.controller.js:199-220 | after grouping, the weeks are distinct and non-empty. Each bucket counts exactly the analyses of its week and their stress. Every analysis's week has a bucket. The totals sum to the history size and the stress counts sum to the stress count |
| Weekly.AddKeepsCounts | controllers/recommendations.controller.js:207-219 | adding an analysis increments only its own week's bucket, or opens that bucket with count 1. Every other bucket still counts exactly its week |
| Weekly.AddKeepsSums | controllers/recommendations.controller.js:216-219 | adding an analysis raises the total sum by one and the stress sum by its stress flag |
| Weekly.WithPercentagesCorrect | controllers/recommendations.controller.js:222-226 | after percentages are set, every bucket is a Sunday-keyed week. Its total is ≥ 1 and equals its analysis count, stress ≤ total, and percentage = rounded ratio ≤ 100. Coverage and sums are kept |
| Weekly.WeeklyTrendsCorrect | controllers/recommendations.controller.js:199-231 | the weekly trend partitions the history. Each week counts exactly its analyses and is valid and non-empty. Weeks are strictly ascending, so none repeats. Every analysis's week is listed. Totals sum to the history size and stress counts to the stress count |
| Weekly.ExactlyOneWeek | controllers/recommendations.controller.js:201-219 | every analysis falls in exactly one emitted bucket: the one whose week is its own day minus its weekday |
| Extraction.Trim | controllers/recommendations.controller.js:92 | the result has no leading or trailing white space. It is a slice of the input with only white space cut on both sides |
| Extraction.TrimPadded | controllers/recommendations.controller.js:92 | trimming white-space padding around an already trimmed text gives back exactly that text |
| Extraction.FindFrom | controllers/recommendations.controller.js:88-89 | the result is the first occurrence of the pattern at or after the start position, or none exists |
| Extraction.Extract | controllers/recommendations.controller.js:86-102 | never fails and goes by stages over the fence positions. If the first json fence is followed by a bare fence, the trimmed text between them is decoded. Otherwise, if the first bare fence is followed by another, the trimmed text between those is decoded. Otherwise the whole trimmed reply is decoded. In every stage the fixed fallback payload is used whenever the decoder rejects the text |
| Extraction.JsonBlockIsBlock | controllers/recommendations.controller.js:88-90 | a reply the json pattern matches is also matched by the untagged pattern, so "no fence pair" alone leads to the whole reply |
| Extraction.JsonBlockWins | controllers/recommendations.controller.js:88-92 | with a closed json-tagged block, its trimmed body is decoded, even when untagged blocks come before or after it |
| Extraction.UntaggedBlockSecond | controllers/recommendations.controller.js:88-92 | whenever the json pattern finds no closed block, the trimmed body of the first untagged block is decoded. This holds even with an unclosed json fence after that block |
| Extraction.UnclosedJsonFenceFallsThrough | controllers/recommendations.controller.js:88-92 | in the reply "```a``````json x" the json fence is never closed, so the untagged block "a" is decoded |
| Extraction.NoFenceWholeText | controllers/recommendations.controller.js:88-102 | a reply in which no fence is followed by another is decoded whole, after trimming, with the fallback whenever the decoder rejects it. This includes a reply with a single stray or unclosed fence |
| Extraction.StrayFenceDecodedWhole | controllers/recommendations.controller.js:88-92 | the reply " x```y " has one stray fence, so the decoder gets "x```y" |
| Extraction.JsonBlockRoundTrip | controllers/recommendations.controller.js:86-102 | a trimmed payload written in a json block with any padding reaches the decoder unchanged. The result is its decoding, or the fallback if it does not decode |
| Recommendations.FindUser | controllers/recommendations.controller.js:21-27 | a found user has the requested name; none found means no user has that name |
| Recommendations.GetRecommendations | controllers/recommendations.controller.js:5-154 | checks run in order: missing name, unknown user, no analysis, generator failure. Each failure writes nothing. A success appends exactly one record, keeps the earlier ones, and stores the same analysis view, window stats and extracted payload it returns, from the newest analysis. The stored image URL is null exactly when the newest analysis has none or an empty one, and otherwise is that URL |
| Recommendations.GetEyeHealthSummary | controllers/recommendations.controller.js:157-246 | reports missing name, unknown user or no history. On success the totals, stress count and percentage (≤ 100) cover the whole history. The latest status and time come from an analysis no other is newer than, and the trend is the weekly trend |
| Recommendations.SummaryConsistent | controllers/recommendations.controller.js:194-231 | weekly totals sum to totalAnalyses and weekly stress counts to stressDetectedCount. Every week is non-empty, with stress ≤ total and percentage ≤ 100 |
| Recommendations.NewestFirst | controllers/recommendations.controller.js:288-290 | the records are a permutation of the user's records, ordered by createdAt descending |
| Recommendations.Page | controllers/recommendations.controller.js:291-292 | the page is the records from position skip on, at most limit of them, with 0 meaning unlimited. It is empty when skip reaches past the end |
| Recommendations.GetUserRecommendationHistory | controllers/recommendations.controller.js:258-317 | a missing limit is 10 and a missing skip is 0. It reports missing name, unknown user or an empty page, and succeeds exactly when the name is given, the user exists and the page is non-empty. On success it returns the page, the user's total, the limit and skip used, and hasMore = skip + page length < total |
| Recommendations.HasMoreMeansRecordsRemain | controllers/recommendations.controller.js:298-314 | the page is empty exactly when skip ≥ total. hasMore holds exactly when a limit is set and skip + limit < total |
| Recommendations.TwelveRecordsInPagesOfTen | controllers/recommendations.controller.js:288-314 | with 12 records: a request without parameters gives 10 records with hasMore; limit 10 and skip 10 gives 2 without; skip 12 is not found |

## Left out

- Database access and its failures: the handle, connection errors, and an `insertOne` that throws. The store is a value and its operations always succeed. In the source every such error reaches the generic error response.
- The generator client and the prompt template text. The generator is an opaque parameter. The template is a constant filled with the newest result and the window counts.
- A generator reply whose text is undefined. In the source the pattern match then throws inside the parsing block and the fallback is used. The model's generator returns a string or fails.
- `JSON.parse`: it is an abstract decoder parameter. The `Json` datatype only names the shapes a decoded value can have.
- Analytics.RoundPercent: rounds the exact quotient. The source's floating-point division and multiplication could round a value lying exactly at a half differently.
- Local time zones and daylight saving. `setDate(getDate() - 7)` and the week start are local-calendar operations in the source; the model uses UTC days of 86 400 000 ms.
- The week key string `Y-M-D` and the `Date` parsing in the sort comparator. The model keys and orders weeks by the Sunday's day number.
- The two `new Date()` calls (window start and record time): a single `now` parameter stands for both.
- Ties on `createdAt` in the database's sort order. The model takes the first stored analysis, and orders records stably.
- HTTP status codes and response envelopes.
- `parseInt` of the query strings (NaN, negative values, trailing text). The model takes `limit` and `skip` as optional naturals. A missing one takes its default, 10 or 0, and limit 0 means no limit.
- Logging, concurrency between requests, the other controllers (authentication, uploads, analysis CRUD), routing and server setup.
