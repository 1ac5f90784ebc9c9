# Review harvester core, modelled in Dafny

This project models the core of `reviews_scraper_quickbooks.py`. That script collects the last twelve months of app reviews from three sources:

- an App Store JSON feed, paged by number;
- the Google Play store library, paged by continuation token;
- Trustpilot web pages, fetched by a thread pool.

For each source, the model covers what lies between the network and the CSV writer:

- the normalisation helpers (sentiment label, initials and the two anonymisers, text cleaning, star clamping, the twelve-month window, feed URLs);
- the feed parser;
- the three first-occurrence deduplication passes;
- the pagination loop of each source with its stop rules;
- the two HTTP retry loops.

The modelling choices:

- **Time** is integer seconds. A parsed timestamp is an instant together with the UTC offset it carries, and `review_date` is the day number of `dt.date()`.
- **Strings** are `seq<char>`. Whitespace is Python's `str.isspace` set. Upper-casing and case-insensitive matching cover ASCII, plus the few Unicode characters whose simple case fold is an ASCII letter.
- **The network** is a sequence of attempt observations. Each observation holds the shutdown flag at the top of the turn and the status and body, or an exception. Backoff sleeps are recorded as the values they would wait.
- **Foreign parsers** are function parameters: timestamp parsing `string -> Option<Stamp>` and Trustpilot's `parse_page` `string -> seq<Review>`. The store library's calls are observations `Batch(rows, token) | Failed`.
- **Trustpilot's completed pages** are an arbitrary arrival sequence, as `as_completed` may deliver them in any order.

Each loop of the source appears twice:

- a `method` with the source's loop and early exits;
- a recursive specification function.

The method's `ensures` ties it to the function, and lemmas prove what the source promises about the function. Modules follow the structure of the source:

- `Records` (common record, window);
- `Text` (whitespace, `clean_text`, case-insensitive search);
- `Numbers` (`str`/`int`, `clamp_star_rating`);
- `Names` (initials);
- `Sentiment`;
- `Fetch` (retry loops);
- `Fingerprints` (deduplication);
- `AppStore`, `GooglePlay` and `Trustpilot`.

Behaviours of the code worth knowing:

- **`review_date`** is the calendar date of the parsed timestamp in its own offset, not the UTC date (345, 521, 528, 726).
- **A malformed feed entry** that raises discards the whole page (352-353), rather than only that item.
- **A 200 reply whose body is not JSON** is retried like a transient error. With current `requests`, `resp.json()` raises a `RequestException` (300, 306-308).
- **A shutdown during the Trustpilot probe** returns nothing (787-789).
- **The Trustpilot schedule** always has `estimated_pages + 9` pages, because the estimate is at most 5 and the page cap is 50 (786, 822).
- **A result that raised** in the Trustpilot loop skips the review-limit test (874-877).

## Model

| member | source | states |
|---|---|---|
| Sentiment.LabelFromScore | reviews_scraper_quickbooks.py:192-198 | exactly one label: good iff score ≥ 0.25, bad iff score ≤ −0.25, neutral strictly between |
| Sentiment.LabelMonotone | reviews_scraper_quickbooks.py:75-76 | a higher score never gets a worse label |
| Sentiment.LabelExamples | reviews_scraper_quickbooks.py:192-198 | both boundaries are inclusive; the label names are distinct |
| Records.Last12mCutoff | reviews_scraper_quickbooks.py:234-238 | a timestamp is in the window iff it is at most 365 days before now; the cutoff is before now |
| Records.WindowIsUpwardClosed | reviews_scraper_quickbooks.py:241-245 | the inclusive window test holds for every later timestamp |
| Records.DayBrackets | reviews_scraper_quickbooks.py:345 | the day number of a timestamp brackets its wall-clock instant |
| Text.CleanText | reviews_scraper_quickbooks.py:213-218 | None iff the input is missing or all whitespace; otherwise a non-empty, stripped, single-spaced text with the input's non-space characters in order |
| Text.CleanTextIdempotent | reviews_scraper_quickbooks.py:213-218 | cleaning a cleaned text changes nothing |
| Text.CleanTextFixesClean | reviews_scraper_quickbooks.py:213-218 | a clean text is its own cleaning |
| Text.CollapseKeepsContent | reviews_scraper_quickbooks.py:217 | collapsing whitespace runs keeps every non-space character in order |
| Text.StripKeepsContent | reviews_scraper_quickbooks.py:217 | stripping keeps every non-space character in order |
| Text.CollapseIsCollapsed | reviews_scraper_quickbooks.py:217 | after `re.sub(r"\s+", " ", s)` every whitespace is one plain space not followed by another |
| Text.CollapseFixesCollapsed | reviews_scraper_quickbooks.py:217 | collapsing an already collapsed text changes nothing |
| Text.StripFixesStripped | reviews_scraper_quickbooks.py:217 | stripping a text without surrounding whitespace changes nothing |
| Text.NoContentIffAllSpace | reviews_scraper_quickbooks.py:216-218 | a text has no non-space character iff it is all whitespace |
| Text.SplitJoin | reviews_scraper_quickbooks.py:205 | splitting a single-space join of words gives the words back |
| Text.JoinIsClean | reviews_scraper_quickbooks.py:423 | words joined by single spaces form a clean text |
| Text.SplitJoinGaps | reviews_scraper_quickbooks.py:205 | `re.split(r"\s+", ...)` gives back the words, whatever non-empty whitespace runs separate them |
| Text.StripSplitSpaced | reviews_scraper_quickbooks.py:205 | `re.split(r"\s+", name.strip())` gives the words of a name with any whitespace between and around them |
| Text.CollapseJoinGaps | reviews_scraper_quickbooks.py:217 | `re.sub(r"\s+", " ", ...)` turns every run between words into one space, and trailing whitespace into at most one |
| Text.NormalizeSpaced | reviews_scraper_quickbooks.py:423 | `" ".join(full_name.split())` of a name made of words with any whitespace between and around them is their single-space join |
| Text.CollapseKeepsMatch | reviews_scraper_quickbooks.py:423-424 | collapsing whitespace keeps every case-insensitive match of a lower-case phrase (letters with single spaces between words, such as "google user") |
| Text.StripKeepsMatch | reviews_scraper_quickbooks.py:423-424 | stripping keeps every case-insensitive match of a lower-case phrase (letters with single spaces between words, such as "google user") |
| Text.NormalizeKeepsMatch | reviews_scraper_quickbooks.py:423-424 | `" ".join(s.split())` keeps every case-insensitive match of a lower-case phrase (letters with single spaces between words, such as "google user") |
| Numbers.ShowNatValue | reviews_scraper_quickbooks.py:224 | the digits of `str(n)` spell `n` |
| Numbers.ShowNatInjective | reviews_scraper_quickbooks.py:250 | `str` is injective on naturals |
| Numbers.ParseShowInt | reviews_scraper_quickbooks.py:224 | `int(str(n)) == n` for every integer |
| Numbers.ClampStarRating | reviews_scraper_quickbooks.py:221-227 | None iff `int(str(val))` raises; otherwise a value in 1..5 equal to the input in range, 1 below it, 5 above it |
| Numbers.ClampIdempotent | reviews_scraper_quickbooks.py:221-227 | clamping the text of a clamped rating gives it back |
| Numbers.ClampKeepsRange | reviews_scraper_quickbooks.py:221-227 | a rating in 1..5 comes back unchanged whatever whitespace surrounds it |
| Numbers.MissingRatingIsSkipped | reviews_scraper_quickbooks.py:224-227 | a missing rating (text "None") gives None |
| Names.ToInitials | reviews_scraper_quickbooks.py:201-210 | the result has the shape "X." or "X.Y."; its letter is "A" or an upper-cased initial. Its value for a name with any spacing is stated by `Names.ToInitialsOfWords` |
| Names.AnonymizeNameGoogle | reviews_scraper_quickbooks.py:419-431 | the result has the shape "X." or "X. Y.". Its value for a name with any spacing is stated by `Names.AnonymizeOfWords` and `Names.InitialsOfLetteredWords` |
| Names.AnonymizeNameTrustpilot | reviews_scraper_quickbooks.py:660-672 | the result has the shape "X." or "X. Y.". Its value for a name with any spacing is stated by `Names.AnonymizeOfWords` and `Names.InitialsOfLetteredWords` |
| Names.AnonMeansA | reviews_scraper_quickbooks.py:419-425 | any name containing "anon" in any case, anywhere, becomes "A." in both anonymisers (also lines 660-666) |
| Names.GoogleUserMeansA | reviews_scraper_quickbooks.py:419-425 | any raw name containing "google user" in any case (so also "a google user") becomes "A." in the store anonymiser |
| Names.TrustpilotUserMeansA | reviews_scraper_quickbooks.py:660-666 | any raw name containing "trustpilot user" in any case becomes "A." in the web anonymiser |
| Names.PlaceholderAnywhere | reviews_scraper_quickbooks.py:423-425 | a placeholder made of lower-case words, anywhere in the raw name and in any case or spacing of its letters, survives normalisation, so the name becomes "A." |
| Names.GooglePlaceholdersReduce | reviews_scraper_quickbooks.py:424 | the four store placeholders amount to "anon" or "google user" |
| Names.TrustpilotPlaceholdersReduce | reviews_scraper_quickbooks.py:665 | the three web placeholders amount to "anon" or "trustpilot user" |
| Names.ToInitialsOfWords | reviews_scraper_quickbooks.py:205-210 | for a name made of words separated by any whitespace runs, with any whitespace around it, `to_initials` reads the first and last letter-bearing word |
| Names.AnonymizeOfWords | reviews_scraper_quickbooks.py:423-431 | for a name made of words with any whitespace between and around them, `" ".join(full_name.split())` is the single-space join; when that mentions no placeholder, the anonymisers read the first and last letter-bearing word, space-separated |
| Names.LetterFreeNameGivesA | reviews_scraper_quickbooks.py:201-207 | a name with no ASCII letter gives "A." in all three variants (also lines 426-428 and 667-669) |
| Names.InitialsOfLetteredWords | reviews_scraper_quickbooks.py:205-210 | for lettered words with any whitespace between and around them, the initials come from the first and last word, "X.Y." in `to_initials` and "X. Y." in the anonymisers (also lines 429-431 and 670-672) |
| Names.JaneDoeInitials | reviews_scraper_quickbooks.py:210 | "Jane Doe" gives "J.D." (no space) |
| Names.JaneDoeSpacedInitials | reviews_scraper_quickbooks.py:205-210 | " Jane\t\tDoe\n" also gives "J.D.": the whitespace between and around the words does not matter |
| Names.AnonymousUser | reviews_scraper_quickbooks.py:424 | "Anonymous User" gives "A." in both anonymisers |
| Fetch.HttpGetJson | reviews_scraper_quickbooks.py:289-310 | the loop returns what the specification of the JSON retry loop gives |
| Fetch.JsonFetchFacts | reviews_scraper_quickbooks.py:289-310 | at most 3 requests, none after shutdown; a value only from a 200 with a JSON body; None on shutdown, a refused status with no retry, or exhausted retries, and never right after a 200 with a JSON body, so the first such reply is returned; backoff 1.2·1.5^(k−1) after each retried request |
| Fetch.HttpGetJsonContract | reviews_scraper_quickbooks.py:289-305 | from the first attempt: shutdown means no request; a status outside {200, 429, 500, 502, 503, 504} ends at once with None; a first 200 with a JSON body is returned at once; None never follows a 200 with a JSON body |
| Fetch.HttpGet | reviews_scraper_quickbooks.py:577-590 | the loop returns what the specification of the text retry loop gives |
| Fetch.TextFetchFacts | reviews_scraper_quickbooks.py:577-590 | at most 3 requests, none after shutdown; every non-200 or empty body is retried; a text only from a 200 non-empty body, and None never right after one, so the first such reply is returned; backoff 1.2·k |
| Fingerprints.DedupKeepsFirstOccurrences | reviews_scraper_quickbooks.py:394-409 | the output is the input at its first occurrences: increasing positions, each a first occurrence, every first occurrence listed |
| Fingerprints.DedupDistinct | reviews_scraper_quickbooks.py:394-409 | output fingerprints are pairwise distinct (the same pass at 521-524 and 863-867) |
| Fingerprints.DedupKeys | reviews_scraper_quickbooks.py:394-409 | every input fingerprint is represented in the output, and no other |
| Fingerprints.DedupPrefix | reviews_scraper_quickbooks.py:863-867 | offering more rows only extends the output |
| Fingerprints.DedupSubset | reviews_scraper_quickbooks.py:394-409 | every output element comes from the input |
| Fingerprints.DedupIdempotent | reviews_scraper_quickbooks.py:394-409 | deduplicating twice changes nothing |
| Fingerprints.DistinctIsFixed | reviews_scraper_quickbooks.py:394-409 | a sequence with distinct fingerprints is its own deduplication |
| Fingerprints.DedupStep | reviews_scraper_quickbooks.py:397-409 | one streaming step keeps the output rows and the seen set equal to the deduplication of the rows offered so far |
| AppStore.RssUrlInjective | reviews_scraper_quickbooks.py:248-250 | distinct pages have distinct feed URLs |
| AppStore.FinishEntry | reviews_scraper_quickbooks.py:337-351 | a kept row has the given rating and timestamp, initials of the author, and the cleaned content or else the cleaned title |
| AppStore.ReadEntry | reviews_scraper_quickbooks.py:320-351 | an entry yields a valid row with its clamped rating, its parsed timestamp and date, and text from content falling back to title |
| AppStore.ParseRssReviews | reviews_scraper_quickbooks.py:313-354 | the entry loop returns the specification's rows, or [] once an entry raised |
| AppStore.RaiseIsFinal | reviews_scraper_quickbooks.py:352-353 | once an entry raised, later entries do not matter |
| AppStore.RssRowsValid | reviews_scraper_quickbooks.py:320-351 | every parsed row has a rating in 1..5, clean non-empty text and well-formed initials |
| AppStore.ParseRssValid | reviews_scraper_quickbooks.py:313-354 | every row `parse_rss_reviews` returns is valid |
| AppStore.RecentPageKeptWhole | reviews_scraper_quickbooks.py:380-388 | a page whose oldest row is in the window is kept whole |
| AppStore.KeepRecent | reviews_scraper_quickbooks.py:379-386 | the per-row loop keeps exactly the in-window rows and finds the oldest timestamp |
| AppStore.PageStepMeaning | reviews_scraper_quickbooks.py:372-388 | a page stops the loop for no data or no rows, adding nothing, or for an oldest row outside the window, adding its in-window rows |
| AppStore.AppLoopFacts | reviews_scraper_quickbooks.py:367-389 | pages requested in order, at most `max_pages`, none after shutdown; every page but the last continued; the stop reason is the last page's; the rows are the in-window rows of exactly the requested pages |
| AppStore.GatheredInWindow | reviews_scraper_quickbooks.py:384-386 | every gathered row is in the window |
| AppStore.AppStoreRowsInWindow | reviews_scraper_quickbooks.py:367-389 | every row kept before deduplication has dt ≥ cutoff |
| AppStore.StopsAfterFirstOldPage | reviews_scraper_quickbooks.py:387-388 | the loop stops right after the first old page, keeping its in-window rows and requesting no further page |
| AppStore.FetchPage | reviews_scraper_quickbooks.py:372-388 | one page's fetch, parse and filter give the specification's page step |
| AppStore.AppStorePages | reviews_scraper_quickbooks.py:367-389 | the page loop gathers the specification's rows and requests the URLs of pages 1..n in order |
| AppStore.DedupAppStore | reviews_scraper_quickbooks.py:394-409 | the final pass returns the first row of each 100-character fingerprint |
| AppStore.ScrapeAppStore | reviews_scraper_quickbooks.py:357-412 | the output is the deduplicated rows of the page loop; the URLs are those of pages 1..n |
| GooglePlay.PlayAcceptMeaning | reviews_scraper_quickbooks.py:498-519 | a row passes iff it has a timestamp not before the cutoff, a score in 1..5 and non-empty stripped text; the kept row then has that date, score, text and the anonymised user |
| GooglePlay.AcceptedValid | reviews_scraper_quickbooks.py:498-535 | every row a batch yields is valid |
| GooglePlay.PlayTurnFacts | reviews_scraper_quickbooks.py:457-550 | one turn breaks on errors iff its call fails after two pages whose call and retry both failed; otherwise the counter is the number of such pages in a row; each other stop happens for its own reason |
| GooglePlay.PlayLoopStops | reviews_scraper_quickbooks.py:449-553 | never more than 50 pages, none begun after shutdown; each stop (empty batch, few new rows past page 10, no token, page limit, shutdown) happens only for the reason it names |
| GooglePlay.PlayLoopErrors | reviews_scraper_quickbooks.py:467-491 | the error counter is the number of pages in a row whose call and retry both failed (a failed retry does not reset it); an error stop comes only at a failed call with two such pages before it |
| GooglePlay.PlayTurnStopsAt | reviews_scraper_quickbooks.py:457-550 | one turn breaks iff its call fails with two double failures before it, or its batch is empty, has no next token, or adds fewer than 10 new rows past page 10; it appends the rows of the reference definition and keeps the counter |
| GooglePlay.PlayLoopFirstStop | reviews_scraper_quickbooks.py:449-553 | the loop ends at the first page whose break conditions hold: none of the pages before it met them, and the last did unless the loop ended on shutdown or after 50 pages |
| GooglePlay.PlayLoopRows | reviews_scraper_quickbooks.py:526-535 | the loop only appends rows, and only valid ones |
| GooglePlay.PlayRunFacts | reviews_scraper_quickbooks.py:449-553 | from the start: at most 50 pages, none after shutdown, nothing when shut down at once, the few-rows stop only past page 10; the run ends on shutdown, after 50 pages, or at the first page whose break conditions hold, and at no earlier page |
| GooglePlay.PlayRunErrors | reviews_scraper_quickbooks.py:469-475 | the run stops on errors only after three failed calls in a row |
| GooglePlay.ErrorStopMeaning | reviews_scraper_quickbooks.py:469-475 | the error stop at page p means calls p−2, p−1 and p failed |
| GooglePlay.TrailingFailuresMeaning | reviews_scraper_quickbooks.py:467-491 | a counter of k after n pages means the last k pages failed, call and retry |
| GooglePlay.AddedIsNonNegative | reviews_scraper_quickbooks.py:521-535 | a page only extends the output, so `reviews_added` is never negative |
| GooglePlay.PlayRunValid | reviews_scraper_quickbooks.py:498-535 | every accepted row has 1 ≤ score ≤ 5, non-empty stripped text and dt ≥ cutoff |
| GooglePlay.PlayOutputValid | reviews_scraper_quickbooks.py:498-535 | every output row is valid and its fingerprints are distinct |
| GooglePlay.AppendBatch | reviews_scraper_quickbooks.py:497-535 | the batch loop appends the batch's new accepted rows and counts them |
| GooglePlay.AppendRow | reviews_scraper_quickbooks.py:498-535 | one row is filtered and appended unless its fingerprint was seen |
| GooglePlay.TakeBatch | reviews_scraper_quickbooks.py:497-550 | a non-empty batch's rows are appended, and the break tests follow the count added and the token |
| GooglePlay.PlayTurnStep | reviews_scraper_quickbooks.py:454-550 | one loop body (call, error count, inline retry, batch, break tests) gives the specification's turn |
| GooglePlay.PlayPages | reviews_scraper_quickbooks.py:443-553 | the loop returns the deduplicated rows of the specification's run |
| GooglePlay.ScrapeGooglePlay | reviews_scraper_quickbooks.py:434-556 | the output is the deduplicated accepted rows of the run for the clock reading |
| Trustpilot.PageUrlInjective | reviews_scraper_quickbooks.py:822-824 | distinct pages have distinct URLs |
| Trustpilot.RecentRowsMeaning | reviews_scraper_quickbooks.py:753-764 | kept rows are in the window and from the page; kept plus old rows are all rows; all rows old iff the count equals the page size |
| Trustpilot.AllOldKeepsNothing | reviews_scraper_quickbooks.py:797-807 | the probe's "all old" test holds iff the worker's filter keeps nothing |
| Trustpilot.KeepRecentRows | reviews_scraper_quickbooks.py:753-764 | the worker's filter loop keeps exactly the rows dated at or after the cutoff |
| Trustpilot.CountOld | reviews_scraper_quickbooks.py:797-806 | the probe counts exactly the rows before the cutoff |
| Trustpilot.ScrapeTrustpilotPage | reviews_scraper_quickbooks.py:739-766 | the worker returns the specification's page yield |
| Trustpilot.PageYieldFacts | reviews_scraper_quickbooks.py:739-766 | the count is 0 iff shut down, unfetched or unparsed; otherwise it is the parsed row count, with the in-window rows kept |
| Trustpilot.ProbeLoopPages | reviews_scraper_quickbooks.py:786-814 | at most 5 pages probed, none after shutdown; every page but the last let the probe go on; an early end is caused by the last page |
| Trustpilot.ProbeLoopEstimate | reviews_scraper_quickbooks.py:790-796 | the estimate is the last probed page that parsed to rows (0 if none), and no later probed page did |
| Trustpilot.ProbeFacts | reviews_scraper_quickbooks.py:786-816 | from page 1: at most 5 pages, none after shutdown; an estimate of 0 means no probed page had rows |
| Trustpilot.ProbeOne | reviews_scraper_quickbooks.py:791-806 | one probe page's fetch, parse and old-row count give the page's view |
| Trustpilot.ProbeStep | reviews_scraper_quickbooks.py:787-814 | one probe turn ends the probe or moves it on as the specification says |
| Trustpilot.ProbeTrustpilot | reviews_scraper_quickbooks.py:785-817 | the probe reports shutdown, the estimate and the requested URLs of the specification's probe |
| Trustpilot.SchedulePages | reviews_scraper_quickbooks.py:821-824 | the loop builds the schedule of pages 1..min(est+9, 50) |
| Trustpilot.ScheduleFacts | reviews_scraper_quickbooks.py:819-824 | at most 50 pages; exactly est+9 for an estimate from the probe; distinct URLs |
| Trustpilot.TakeTurnCounter | reviews_scraper_quickbooks.py:850-860 | one result stops the loop on empty pages iff its zero count makes the counter 3; otherwise the counter matches the reference count |
| Trustpilot.TakeTurnCands | reviews_scraper_quickbooks.py:850-867 | one result's rows are offered unless it ends the loop on empty pages |
| Trustpilot.TpLoopStops | reviews_scraper_quickbooks.py:838-844 | no result is taken after the shutdown flag is seen; the loop runs out only after taking every result |
| Trustpilot.TpLoopCounter | reviews_scraper_quickbooks.py:850-860 | the counter stays below 3 after every result but the last, and after the last too unless the loop stopped on empty pages; the empty-page stop comes exactly when it reaches 3 |
| Trustpilot.TpLoopCands | reviews_scraper_quickbooks.py:850-867 | the rows offered are those of the results taken, except the last one on an empty-page stop |
| Trustpilot.TpLoopLimit | reviews_scraper_quickbooks.py:879-885 | the loop stops on the limit iff `all_rows` ends up holding more than 1000 rows |
| Trustpilot.TpLoopBelow | reviews_scraper_quickbooks.py:879-885 | `all_rows` holds at most 1000 rows after every result but the last |
| Trustpilot.TpRunFacts | reviews_scraper_quickbooks.py:836-886 | for any arrival order: nothing taken after shutdown; the stop comes at the first result after three consecutive zero counts, or with more than 1000 rows held, and at no earlier one; after a stop on exhaustion or shutdown neither holds after the last result either |
| Trustpilot.TrailingEmptyMeaning | reviews_scraper_quickbooks.py:850-860 | a non-zero counter means some result reported zero rows; a non-zero count resets it |
| Trustpilot.OfferedRecent | reviews_scraper_quickbooks.py:753-766 | every row offered by worker results is in the window |
| Trustpilot.TpOutputValid | reviews_scraper_quickbooks.py:863-867 | output fingerprints (80 characters) are distinct, and every output row is in the window |
| Trustpilot.OfferRow | reviews_scraper_quickbooks.py:864-867 | one row is appended unless its fingerprint was seen |
| Trustpilot.OfferRows | reviews_scraper_quickbooks.py:863-867 | the page's dedup loop keeps `all_rows` the deduplication of every row offered |
| Trustpilot.TakeResult | reviews_scraper_quickbooks.py:846-886 | the loop body gives the specification's turn |
| Trustpilot.ProcessResults | reviews_scraper_quickbooks.py:836-886 | the result loop returns the deduplication of the rows the specification's run offered |
| Trustpilot.ScrapeTrustpilot | reviews_scraper_quickbooks.py:769-892 | probe URLs as probed; nothing when shut down or no page had rows; otherwise the schedule and the deduplicated rows of the result loop |

## Left out

- I/O, sessions and user-agent rotation: each request is an attempt observation.
- Sleeps and their durations: the retry loops record their backoff delays; the other sleeps only pause.
- `parse_page`, `parse_date`, `parse_rating`, `extract_name`, `extract_text` and BeautifulSoup: `parse_page` is an opaque function parameter. Trustpilot ratings are therefore not shown to lie in 1..5, and indeed `parse_rating` accepts any digit.
- `dateutil` parsing: an opaque partial function parameter.
- `google_play_scraper.reviews`: each call is an observation of a batch and token, or a raised exception. The token passed in is not modelled. Each store row field may be missing; a score that is not an integer is left out.
- `ThreadPoolExecutor`, `as_completed` and `cancel`: the completed results are an arbitrary arrival sequence. It is not tied to the scheduled jobs: which pages complete, and in which order, is left open. The worker is modelled on its own (`ScrapeTrustpilotPage`), and `TpOutputValid` assumes only that results have the worker's shape.
- Sentiment backends (VADER, Hugging Face, downloads): floating-point scoring by foreign models. Only `label_from_score` is modelled.
- The signal handler and the global shutdown flag: the flag is an input at every place the code reads it.
- CSV writers, pandas sorting, `scrape_all_platforms`, `main`, `validate_config`, tqdm and log messages: output and orchestration.
- JSON values other than strings for feed labels (numbers, nested objects): a label is a string, missing, or a value whose `.get` raises.
- Unicode digits in `int()` and Unicode upper-casing: only ASCII digits are parsed, and only ASCII letters are upper-cased.
