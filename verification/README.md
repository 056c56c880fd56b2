# News ingest and trending: a Dafny model

This project models the ingestion and ranking core of a small news service,
`server.js`. The service accepts raw news items, deduplicates them by a
canonical form of their title, counts repetitions, and ranks topics for a
trending feed by a score built from repetition, recency and category.

The model is pure and sequential:

- `Chars` holds the character classes the regular expressions use. `\s` is the
  ECMAScript whitespace set, `\w` is `[A-Za-z0-9_]`, and `toLowerCase` is
  lower-casing of ASCII letters.
- `Canonicalizer` models `clean`. It runs seven rewrites in the source's order:
  lower-case, tags, URLs, digits, punctuation, whitespace runs, trim. Each
  rewrite is a left-to-right scan, with a predicate saying its pattern no
  longer occurs. The result of `clean` is characterised exactly, as the
  strings `clean` leaves alone, so `clean` is idempotent.
- `Scorer` models `calculateScore`. `Date.now()` becomes the parameter `now`.
  The age test on real hours is shown to equal a test on integer
  milliseconds.
- `Store` models the `news` table and the `POST /api/news/raw` handler.
  - The table is a `map` from topic hash to row; the `UNIQUE` constraint on
    `topic_hash` is what makes it a map.
  - `makeTopicHash` (SHA-1) is the parameter `hash`, any function from
    canonical titles to keys.
  - The handler is `Upsert`: skip, merge or insert. `IngestAll` runs it over a
    sequence of requests.
- `Trending` models `GET /api/trending`, `ORDER BY score DESC LIMIT 20`, as a
  top-20 selection over the table's rows.
- `Scenarios` holds worked examples:
  - a new topic and its repeat;
  - a request without category and one without summary;
  - two titles that differ in one digit but clean differently.

Facts about `server.js` that the model makes explicit:

- URLs are removed before digits (server.js:38-39), so a digit can decide
  whether a URL matches. Two titles that differ in one digit can therefore
  clean to different keys. `Scenarios.DigitDecidesUrl` shows this.
- The only routes are the ingest handler (server.js:65-104) and the trending
  query (server.js:108-113). There is no retention sweep and no per-category
  query.
- The handler reads the table (server.js:75-78) and then updates or inserts
  (server.js:85-88, 96-101) as separate statements. The model runs one
  request at a time.
- The insert scores the raw request category (server.js:94) but stores
  `category || "State"` (server.js:100). `Store.InitialScoreCategory` proves
  the two give the same score.

## Model

| member | source | states |
|---|---|---|
| `Chars.Lower` | server.js:36 | an ASCII capital becomes the lower-case letter 32 code points above it, and every other character is returned unchanged |
| `Canonicalizer.LowerAll` | server.js:36 | position by position, an ASCII capital becomes the letter 32 code points above it and every other character is kept; so the length is kept, no capital is left, and a string without capitals comes back unchanged |
| `Canonicalizer.StripTags` | server.js:37 | the result is no longer than the input and uses only characters of the input |
| `Canonicalizer.StripTagsIdentity` | server.js:37 | a string in which no `<[^>]+>` match occurs is returned unchanged |
| `Canonicalizer.StripTagsKeepsPlain` | server.js:37 | text in which no `<[^>]+>` match starts is kept, in order, ahead of what removal makes of the rest; so a `<` that opens no tag stays even when a tag follows |
| `Canonicalizer.StripTagsKeepsUnmatched` | server.js:37 | on one string: when no match starts in the first n positions, they are kept in front of the result for the rest |
| `Canonicalizer.StripTagsDropsTag` | server.js:37 | a whole tag, `<` then a non-empty run without `>` then `>`, is removed and nothing else with it |
| `Canonicalizer.StripTagsLeavesNoTag` | server.js:37 | after tag removal no position starts a `<[^>]+>` match, so a second pass changes nothing |
| `Canonicalizer.NoAngleNoTag` | server.js:37 | a string without `<` holds no tag |
| `Canonicalizer.StripUrls` | server.js:38 | the result is no longer than the input and uses only characters of the input |
| `Canonicalizer.StripUrlsIdentity` | server.js:38 | a string in which no `https?://\S+` match occurs is returned unchanged |
| `Canonicalizer.StripUrlsKeepsPlain` | server.js:38 | text in which no `https?://\S+` match starts is kept, in order, ahead of what removal makes of the rest; so an `h` that opens no URL stays even when a URL follows |
| `Canonicalizer.StripUrlsKeepsUnmatched` | server.js:38 | on one string: when no match starts in the first n positions, they are kept in front of the result for the rest |
| `Canonicalizer.StripUrlsDropsUrl` | server.js:38 | a whole URL, `http://` or `https://` then a non-empty run of non-whitespace up to whitespace or the end, is removed and nothing else with it |
| `Canonicalizer.StripUrlsLeavesNoUrl` | server.js:38 | after URL removal no position starts an `https?://\S+` match, although removal joins the text on both sides of each URL |
| `Canonicalizer.StripUrlsKeepsPrefix` | server.js:38 | an output that begins with m non-whitespace characters begins with the same m characters as the input |
| `Canonicalizer.ShortHasNoUrl` | server.js:38 | a string shorter than eight characters holds no URL |
| `Canonicalizer.NoColonNoUrl` | server.js:38 | a string without `:` holds no URL |
| `Canonicalizer.SchemeLength` | server.js:38 | the result is 7 exactly when the string starts with `http://`, 8 exactly when it starts with `https://`, and 0 otherwise |
| `Canonicalizer.UrlEnd` | server.js:38 | there is no match at the front exactly when the string does not start with `http://` or `https://`, or the scheme is followed by whitespace or by nothing; a match covers the scheme and a non-empty run of non-whitespace, and ends at whitespace or the end of the string |
| `Canonicalizer.TagEnd` | server.js:37 | a tag match at the front runs from `<` to the first later `>`, with at least one character between them; no match means no such `>` |
| `Canonicalizer.Filter` | server.js:39-40 | the kept characters are exactly the input's characters that pass the test, and nothing is dropped when all pass |
| `Canonicalizer.FilterAppend` | server.js:39-40 | filtering a concatenation is concatenating the filtered parts |
| `Canonicalizer.StripDigits` | server.js:39 | a character survives exactly when it occurs in the input and is no ASCII digit |
| `Canonicalizer.StripPunctuation` | server.js:40 | a character survives exactly when it occurs in the input and is a word or whitespace character |
| `Canonicalizer.Collapse` | server.js:41 | the result is single-spaced, keeps exactly the input's non-whitespace characters, turns every whitespace into a plain space, and starts with the input's first character when that is not whitespace |
| `Canonicalizer.CollapseIdentity` | server.js:41 | a single-spaced string is returned unchanged |
| `Canonicalizer.CollapseKeepsWord` | server.js:41 | text without whitespace in front of the rest is kept, in order, ahead of what collapsing makes of the rest |
| `Canonicalizer.CollapseRun` | server.js:41 | a whole whitespace run of any length and any whitespace characters, followed by non-whitespace or the end, becomes one plain space |
| `Canonicalizer.Trim` | server.js:42 | the result is no longer than the input and neither starts nor ends with whitespace |
| `Canonicalizer.TrimShape` | server.js:42 | trimming keeps exactly the input's non-whitespace characters, keeps single spacing, and changes nothing when neither end is whitespace |
| `Canonicalizer.TrimIsSlice` | server.js:42 | the trimmed string is one contiguous piece of the input with only whitespace outside it |
| `Canonicalizer.TrimPadded` | server.js:42 | whitespace on either side of a piece that neither starts nor ends with whitespace is exactly what trimming removes |
| `Canonicalizer.Clean` | server.js:34-43 | every result is canonical: only `a`-`z`, `_` and plain spaces, no two spaces in a row, and no space at either end |
| `Canonicalizer.CleanOrEmpty` | server.js:34 | an absent title is cleaned as the empty string, which gives `""` |
| `Canonicalizer.CanonicalIsFixed` | server.js:34-43 | each of the seven rewrites leaves a canonical string unchanged, so `clean` does |
| `Canonicalizer.CleanThrough` | server.js:41-42 | when the first five rewrites already give a canonical string, that string is the result |
| `Canonicalizer.FixedPointsAreCanonical` | server.js:34-43 | `clean(t) == t` holds exactly when `t` is canonical |
| `Canonicalizer.CleanIdempotent` | server.js:34-43 | `clean(clean(s)) == clean(s)` |
| `Canonicalizer.CleanIgnoresCase` | server.js:36 | lower-casing a title first does not change its canonical form |
| `Scorer.AgeBonus` | server.js:54-55 | the recency bonus is 10, 5 or 0 |
| `Scorer.CategoryBonus` | server.js:57-58 | the bonus is 3 exactly for "Cricket", 2 exactly for "Politics", and 0 otherwise, an absent category included |
| `Scorer.Score` | server.js:49-61 | the score lies between 6 times the count and 6 times the count plus 13 |
| `Scorer.AgeBonusInMillis` | server.js:52-55 | the test on `Scorer.HoursOld`, the age in real hours, equals the test on integer milliseconds: under 3,600,000 gives 10, under 10,800,000 gives 5, else 0 |
| `Scorer.ScoreFormula` | server.js:49-61 | the score is 6 times the count, plus the age bonus in milliseconds, plus the category bonus |
| `Scorer.ScoreCountStep` | server.js:50 | one more repetition adds exactly 6 |
| `Scorer.ScoreDecaysWithTime` | server.js:52-55 | a later clock reading never raises the score |
| `Scorer.ScoreDependsOnAge` | server.js:52 | shifting the creation time and the clock reading by the same amount leaves the score unchanged |
| `Scorer.ScoreOfUnknownAge` | server.js:52-58 | with an unreadable creation time both age tests fail; the score lies between 6 times the count and 6 times the count plus 3 |
| `Scorer.UnknownAgeScoresAsStale` | server.js:52-55 | losing the creation time costs exactly the age bonus: 10, 5 or 0 |
| `Store.StoredCategory` | server.js:100 | a present, non-empty category is stored as given; otherwise the row gets "State" |
| `Store.FirstSighting` | server.js:93-100 | a new row has the request's title and summary verbatim, one repetition, `createdAt = now` and the topic hash as key |
| `Store.Merge` | server.js:80-90 | only the topic's row changes; its count rises by one; its score is rescored from the stored category and stored creation time; every other field is kept |
| `Store.MergeAsDeployed` | server.js:81-88 | as `Merge`, but the score carries no age bonus because the creation time reads as undefined |
| `Store.MergeAsDeployedLosesRecency` | server.js:83 | the deployed merge scores 10, 5 or 0 below the intended merge, by age, and agrees with it on everything else |
| `Store.Insert` | server.js:93-101 | exactly one row is added, under the new key, and it is the first-sighting row; every other row is unchanged |
| `Store.Upsert` | server.js:65-104 | with the key `Store.TopicKey`, the hash of the cleaned title (server.js:72-73), the outcome is Skipped exactly when title or summary is missing or empty, and the table is then unchanged; otherwise Saved with an insert exactly when the key is new, and Updated with a merge exactly when it is not |
| `Store.InitialScoreCategory` | server.js:94-100 | scoring the raw category or the stored `category \|\| "State"` gives the same initial score |
| `Store.InitialScoreValues` | server.js:93-94 | a new topic scores 19 for Cricket, 18 for Politics, and 16 otherwise |
| `Store.UpsertPreservesValid` | server.js:25 | every row stays under its own topic hash with count at least 1, a non-empty category, and a score in range |
| `Store.UpsertKeepsRows` | server.js:80-101 | a request never removes a row, never changes a creation time, and never lowers a count |
| `Store.IngestAll` | server.js:65-104 | a run of requests keeps the table valid, keeps every row and its creation time, and never lowers a count |
| `Store.RepeatsMerge` | server.js:80-91 | requests for a topic that already has a row change only that row: its count rises by the number of requests and its other fields stay |
| `Store.NewTopicCount` | server.js:72-103 | for a new topic the first request adds the row and the rest merge into it, leaving count N and the first request's fields |
| `Store.DeduplicatedCount` | server.js:72-91 | N accepted requests whose titles clean alike leave exactly one new row, with count N and the first request's title, summary, category and creation time |
| `Trending.InsertByScore` | server.js:110 | insertion into a descending list keeps it descending, and the result is the old rows plus the new one as a multiset |
| `Trending.InsertByScoreMembers` | server.js:110 | after insertion the rows are the old rows and the new one, and the keys are the old keys plus the new key |
| `Trending.InsertByScoreDistinct` | server.js:110 | inserting a row with a new key keeps the keys distinct |
| `Trending.InsertByScoreRaises` | server.js:110 | position by position, the list after insertion scores at least as much as before |
| `Trending.Admit` | server.js:110 | the list stays sorted and grows by one up to the limit of 20 |
| `Trending.AdmitKeeps` | server.js:110 | admitting one more row keeps the list sorted, drawn from the table without repeats, complete while short, and no lower than any row left out |
| `Trending.AdmittedAll` | server.js:110 | once every row is admitted, the list has min(20, rows) entries, and no row left out scores above any listed row |
| `Trending.TopTrending` | server.js:108-113 | the answer has min(20, rows) entries in descending score, each the table's row for its key, no key twice, and no row left out scoring above any listed row |
| `Trending.ValidIsKeyed` | server.js:25 | every valid table keeps each row under its own topic hash, as the trending query requires |
| `Scenarios.BigWinTitles` | server.js:34-43 | "Big Win!" and "big win" both clean to "big win" |
| `Scenarios.FirstReportSaved` | server.js:93-103 | the first Cricket report of a topic is saved with count 1 and score 6 + 10 + 3 = 19 |
| `Scenarios.SecondReportMerged` | server.js:80-91 | a second report within the hour is an update to count 2 and score 12 + 10 + 3 = 25, with the first summary kept |
| `Scenarios.MissingCategoryIsState` | server.js:94-100 | a report without category is stored under "State" with score 16 |
| `Scenarios.MissingSummarySkipped` | server.js:68-70 | a report without summary is skipped and the table is unchanged |
| `Scenarios.SecondReportAsDeployed` | server.js:81-83 | against PostgreSQL the second report scores 12 + 3 = 15, below the first report's 19 |
| `Scenarios.LoneHKept` | server.js:38 | "watch http://x" loses only the URL and becomes "watch " |
| `Scenarios.HttpXDropped` | server.js:38 | "http://x" is one whole URL and is removed |
| `Scenarios.EmptyAnglesKept` | server.js:37 | "<><b>" loses only the tag and becomes "<>" |
| `Scenarios.BoldDropped` | server.js:37 | "<b>" is one whole tag and is removed |
| `Scenarios.UrlWithDigit` | server.js:38 | "http://1" is one URL and cleans to "" |
| `Scenarios.UrlWithoutDigit` | server.js:38-40 | "http://" is no URL and cleans to "http" |
| `Scenarios.DigitDecidesUrl` | server.js:38-39 | two titles that differ in one digit can clean to different keys |

## Left out

- Express routing, CORS, JSON body parsing, the connection pool and
  `app.listen` (server.js:1-17, 117-120) are I/O. The `CREATE TABLE` statement
  (server.js:19-30) appears only as the map structure and the `Valid`
  invariant. The `id SERIAL` column is not modelled.
- SHA-1 (server.js:46) is a foreign call. It is the parameter `hash`, and no
  claim is made about collisions.
- `Date.now()` (server.js:52, 93) is the parameter `now`. An insert reads the
  clock twice, at line 93 for `createdAt` and again at line 52 inside
  `calculateScore`; the model uses one reading for both, so the age is 0 where
  the code sees a few milliseconds. Both give the bonus of 10.
- Floating-point division (server.js:52) is modelled as exact real division.
  For integer milliseconds the two agree on both thresholds.
- The `INT` columns `repetition_count` and `score` are unbounded integers.
  Overflow at 2^31 is not modelled.
- The read-then-insert sequence (server.js:75-101) is not atomic. A racing
  second insert would violate the `UNIQUE` constraint, and the handler leaves
  that failure uncaught. The model handles one request at a time.
- Database errors and the unhandled promise rejections they cause are left
  out.
- `Chars.Lower`: `toLowerCase` is modelled on ASCII letters only. The Unicode
  mappings that yield ASCII letters are missing, such as U+212A KELVIN SIGN to
  `k` and U+0130 to `i` followed by U+0307.
- Strings are sequences of code points rather than UTF-16 code units.
- Request fields that are not strings are not modelled, nor the exception
  `clean` would throw on them. Fields are `Option<string>`.
- node-pg returns `BIGINT` values as strings. The model keeps `createdAt` as
  an integer.
- The database's order among rows of equal score is unspecified.
  `Trending.TopTrending` admits rows in an arbitrary order and promises only
  what holds for every such order.
- A retention sweep and a per-category query do not exist in `server.js`, so
  nothing models them.
- `Scenarios.DigitDecidesUrl`: titles that differ only in digits need not
  share a key, so no lemma claims they always do.

## Findings

| source | as written | input that shows it | evidently intended | confidence | as-written member | corrected member |
|---|---|---|---|---|---|---|
| server.js:28 | The column `createdAt` is declared without quotes, so PostgreSQL stores it as `createdat`. The row read back at line 81 then has no `createdAt`, the age at line 52 is NaN, and every merge scores without an age bonus. | Two reports of a Cricket topic one minute apart: the merge writes 12 + 3 = 15 instead of 25 and the topic drops below its own first score of 19 (`Scenarios.SecondReportAsDeployed`). | A merge rescores with the row's first-sighting time, as `Store.Merge` does. | medium; depends on PostgreSQL identifier folding; not executed | `Store.MergeAsDeployed` | `Store.Merge` |
