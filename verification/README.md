# Twitter timeline scraper: the collector and the classifier

A model of the logic in `twitter.py`, the script that pages through a
user's timeline and writes one CSV row per tweet. Three things in it are
logic rather than glue, and they are what this project models and proves:

- **the attachment classifier** (`detect_media`), which labels a tweet
  `"media"` when it carries attachments, otherwise `"link"` when its
  entities hold a `urls` key, and `"none"` otherwise (`tweets.dfy`, module
  `Tweets`);
- **the row layout**, eight cells per tweet in the fixed order of the CSV
  header "Tweet ID, Created At, Likes, Retweets, Replies, Quotes, Media,
  Tweet", with each missing count written as 0 (`export.dfy`, module
  `Export`);
- **the collector** (`fetch_all_tweets`), which walks the pages the
  paginator yields, appends one row per tweet, returns as soon as it holds
  `max_total` rows (even partway through a page), stops at the first page
  whose data is null, returns what it has on any error other than a rate
  limit, and on a rate limit starts over from an empty list
  (`fetch.dfy`, module `Fetch`).

The paginator is abstracted as a sequence of page outcomes: `Data(tweets)`,
`NoData` (a response whose data is null) and `Fail(RateLimit | OtherError)`
(an exception). One attempt of the collector runs over one such sequence;
each restart after a rate limit is a new attempt over its own sequence,
because the source builds a fresh paginator every time.

The collector is imperative, as in the source: `FetchAttempt` is the outer
loop over pages and `CollectPage` the inner loop over the tweets of a page,
with the early return at the cap and the break on an empty page.
`FetchAttempt` is proved equal to `Expected`, a closed-form statement of
what an attempt returns, read off the whole stream of tweets at once:

- the rows of the first `Cap(maxTotal)` tweets, if that many tweets with
  public metrics come before the end of the stream;
- otherwise, if a tweet without public metrics comes first, the rows of the
  tweets before it;
- otherwise a rate limit, if the stream was ended by a rate-limit failure;
- otherwise the rows of every tweet in the stream.

The lemmas then state the properties on `Expected`.

Two behaviours of the source are modelled as written:

- The cap is checked after each append, so a `max_total` of zero or less
  still returns one row when the first tweet has public metrics (`Cap`,
  `NonPositiveMaxKeepsOneRow`).
- A tweet whose `public_metrics` is null makes `metrics.get` raise inside
  the `try`. The general handler catches that exception, so the attempt ends
  there and returns the rows gathered before that tweet (`FirstWithoutMetrics`,
  `StopsAtMissingMetrics`).

## Model

| member | source | states |
|---|---|---|
| `Tweets.DetectMedia` | twitter.py:24-29 | the label is always one of "media", "link", "none"; it is "media" exactly when attachments are present and non-empty; it is "link" exactly when there are no such attachments and the entities contain the key "urls"; it is "none" exactly when neither holds |
| `Tweets.MediaIgnoresEntities` | twitter.py:25-26 | media takes precedence: with non-empty attachments, replacing the entities leaves the label "media" |
| `Export.ToRow` | twitter.py:49-59 | the row built for a tweet has one cell per header column |
| `Export.RowFollowsHeader` | twitter.py:50-59 | the cell at each position of the row is the value named by the header column at that position (id, timestamp, like/retweet/reply/quote counts, label, text), so the row agrees with the header order "Tweet ID, Created At, Likes, Retweets, Replies, Quotes, Media, Tweet" that `save_to_csv` writes at twitter.py:75 (`Export.Columns`) |
| `Export.MissingMetricsAreZero` | twitter.py:53-56 | a count absent from the public metrics is written as 0 |
| `Fetch.FirstWithoutMetrics` | twitter.py:49-53 | the result is the position of the first tweet without public metrics: every tweet before it has them, and the tweet at it (if any) does not |
| `Fetch.CollectPage` | twitter.py:48-63 | the inner loop over one page: either the attempt ends inside the page with exactly `Expected`'s rows (at the cap or at a tweet without metrics), or every tweet of the page has been appended, in order, still below the cap |
| `Fetch.FetchAttempt` | twitter.py:33-71 | one attempt of the collector returns exactly `Expected(pages, maxTotal)` |
| `Fetch.StopsAtCap` | twitter.py:61-63 | once the rows cover `Cap(maxTotal)` tweets, the attempt returns exactly those rows, whatever remains of the page or the stream |
| `Fetch.StopsAtMissingMetrics` | twitter.py:49-53 | a tweet without public metrics below the cap ends the attempt with the rows of the tweets before it |
| `Fetch.StopsAtEnd` | twitter.py:44-46 | below the cap with every tweet collected, the attempt returns every tweet's row, unless the stream was ended by a rate limit |
| `Fetch.CapBound` | twitter.py:62-63 | an attempt never returns more than `Cap(maxTotal)` rows, so no more than `maxTotal` when `maxTotal >= 1` |
| `Fetch.NonPositiveMaxKeepsOneRow` | twitter.py:50-63 | with `maxTotal <= 0` and a first tweet with metrics, the attempt returns that tweet's row alone |
| `Fetch.RowsAt` | twitter.py:48-50 | the rows of a run of tweets hold, at each position, the row of the tweet at that position |
| `Fetch.RowsHaveAllColumns` | twitter.py:50-59 | every row of a run of tweets has one cell per header column |
| `Fetch.RowsFollowStream` | twitter.py:44-59 | the returned rows are the rows of a prefix of the stream of tweets, in order, and each row has one cell per header column |
| `Fetch.RateLimitedExactly` | twitter.py:44-71 | an attempt ends in a rate limit if and only if a rate-limit failure ended the stream while it was below the cap and no tweet lacked metrics; every other ending returns the gathered rows |
| `Fetch.LaterPagesUnread` | twitter.py:44-46 | pages after the first page without data affect neither the stream nor its stopping page |
| `Fetch.ExpectedIgnoresLaterPages` | twitter.py:44-46 | an attempt's outcome depends only on the pages up to the first page without data |
| `Fetch.Fetched` | twitter.py:65-68 | given the outcome of each attempt, the collection returns some rows exactly when some attempt does not end in a rate limit, and then it returns the rows of the first such attempt, every earlier attempt having ended in a rate limit |
| `Fetch.FetchAllTweets` | twitter.py:32-71 | the collector with its restart returns exactly `Fetched` of the outcomes of its attempts |
| `Fetch.FetchedCapBound` | twitter.py:62-68 | the rows the whole collection returns, after any number of restarts, never number more than `Cap(maxTotal)` |
| `Fetch.RestartDiscardsRows` | twitter.py:65-68 | after any number of attempts that ended in a rate limit, the result is that of a fresh collection over the remaining attempts: nothing gathered before is kept |

## Left out

- Loading the bearer token from the environment and the `.env` file
  (`load_config`): an environment read with no logic.
- Resolving the username to an id (`get_user_id`): one remote call with a
  catch-all error message.
- The paginator and the timeline request (page size, requested fields,
  expansions, authentication): they live in the API client library. Only
  the stream of page outcomes it yields is modelled.
- The 60-second sleep before a restart and every console message: timing
  and output.
- The DataFrame and the CSV write (quoting, escaping, file overwrite): the
  table library's concern. Only the header order and the row layout are
  modelled.
- The command line (`main`, argument parsing, the "no tweets found" branch).
- Fetch.FetchAllTweets: the program text retries without bound after each
  rate limit; the model takes a finite list of attempts and returns `None`
  when every one of them ended in a rate limit, standing for "still
  retrying". Each restart is a nested call made inside the rate-limit
  handler, so the interpreter's recursion limit would end a long enough run
  of rate limits with an error; that limit is not modelled.
- Attributes missing altogether (rather than null): a missing
  `public_metrics` or `created_at`, or a missing `entities` on a tweet
  without truthy attachments, would make the source raise and end the
  attempt, while a missing `attachments` is absorbed by the `hasattr` test.
  The model does not represent missing attributes, because the API client's
  tweet object always defines them, null when the field is absent, and the
  model's `None` is that null.
- Timestamps are kept as optional opaque strings; the tweet id and the
  metric counts are unbounded integers, as in Python.
