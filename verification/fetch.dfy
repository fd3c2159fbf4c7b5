/**
 The timeline collector: it walks the pages the paginator yields, appends one
 row per tweet, stops at the cap, at the first page without data, or at an
 error, and restarts from nothing when the API signals a rate limit.

 The paginator itself is not modelled: one attempt is the sequence of page
 outcomes it yields, and the restarts are a sequence of such attempts.
 */
module Fetch {
  import opened Tweets
  import opened Export

  /** The exceptions the collector tells apart. */
  datatype Failure = RateLimit | OtherError

  /** What one step of the paginator produces: a page with data, a response
      whose data is null, or an exception. */
  datatype Page = Data(tweets: seq<Tweet>) | NoData | Fail(failure: Failure)

  /** How one attempt ends: with the rows to return, or with a rate limit,
      which throws its rows away. */
  datatype Outcome = Returned(rows: seq<Row>) | RateLimited

  /** The tweets of the pages with data that come before the first page
      without data, in order. */
  function Stream(pages: seq<Page>): seq<Tweet>
  {
    if pages == [] then []
    else if pages[0].Data? then pages[0].tweets + Stream(pages[1..])
    else []
  }

  /** The first page that is not a page with data, if any. */
  function Stop(pages: seq<Page>): Option<Page>
  {
    if pages == [] then None
    else if pages[0].Data? then Stop(pages[1..])
    else Some(pages[0])
  }

  /** The position of the first tweet that has no public metrics, or the
      length of the run when every tweet has them. */
  function FirstWithoutMetrics(s: seq<Tweet>): (k: nat)
    ensures k <= |s|
    ensures forall i :: 0 <= i < k ==> s[i].publicMetrics.Some?
    ensures k < |s| ==> s[k].publicMetrics.None?
  {
    if s == [] || s[0].publicMetrics.None? then 0
    else 1 + FirstWithoutMetrics(s[1..])
  }

  /** The number of rows at which the collector stops. The check comes after
      each append, so a cap below one still lets one row through. */
  function Cap(maxTotal: int): nat
  {
    if maxTotal < 1 then 1 else maxTotal
  }

  /** The outcome of one attempt, stated on the whole stream of tweets at
      once: the cap, a tweet without metrics, a rate limit, or the end. */
  function Expected(pages: seq<Page>, maxTotal: int): Outcome
  {
    var s := Stream(pages);
    var c := Cap(maxTotal);
    var b := FirstWithoutMetrics(s);
    if c <= b && c <= |s| then Returned(Rows(s[..c]))
    else if b < |s| then Returned(Rows(s[..b]))
    else if Stop(pages) == Some(Fail(RateLimit)) then RateLimited
    else Returned(Rows(s))
  }

  /** Reaching the cap: once the rows cover the first `Cap(maxTotal)` tweets
      of the stream, all of which have metrics, the attempt returns exactly
      those rows, whatever follows (the rest of the page included). */
  lemma StopsAtCap(pages: seq<Page>, maxTotal: int, seen: seq<Tweet>, rest: seq<Tweet>)
    requires Stream(pages) == seen + rest
    requires AllHaveMetrics(seen) && |seen| == Cap(maxTotal)
    ensures Expected(pages, maxTotal) == Returned(Rows(seen))
  {
    var s := Stream(pages);
    assert s[..|seen|] == seen;
    assert forall i :: 0 <= i < |seen| ==> s[i] == seen[i];
  }

  /** A tweet without public metrics before the cap: the attempt returns the
      rows of the tweets before it and nothing after. */
  lemma StopsAtMissingMetrics(pages: seq<Page>, maxTotal: int, seen: seq<Tweet>, rest: seq<Tweet>)
    requires Stream(pages) == seen + rest
    requires AllHaveMetrics(seen) && |seen| < Cap(maxTotal)
    requires rest != [] && rest[0].publicMetrics.None?
    ensures Expected(pages, maxTotal) == Returned(Rows(seen))
  {
    var s := Stream(pages);
    assert s[..|seen|] == seen;
    assert s[|seen|] == rest[0];
    assert forall i :: 0 <= i < |seen| ==> s[i] == seen[i];
  }

  /** The stream ends below the cap with every tweet collected: the attempt
      returns all of them unless it was ended by a rate limit. */
  lemma StopsAtEnd(pages: seq<Page>, maxTotal: int)
    requires AllHaveMetrics(Stream(pages)) && |Stream(pages)| < Cap(maxTotal)
    ensures Expected(pages, maxTotal) ==
              if Stop(pages) == Some(Fail(RateLimit)) then RateLimited
              else Returned(Rows(Stream(pages)))
  {
  }

  /** Cap bound: an attempt never returns more rows than the cap, so never
      more than `maxTotal` when `maxTotal` is at least one, and never more
      than one otherwise. */
  lemma CapBound(pages: seq<Page>, maxTotal: int)
    ensures Expected(pages, maxTotal).Returned? ==> |Expected(pages, maxTotal).rows| <= Cap(maxTotal)
    ensures Expected(pages, maxTotal).Returned? && maxTotal >= 1 ==>
              |Expected(pages, maxTotal).rows| <= maxTotal
  {
  }

  /** With `maxTotal` of zero or less, the first tweet is still appended
      before the cap is checked, and the attempt returns its row alone. */
  lemma NonPositiveMaxKeepsOneRow(pages: seq<Page>, maxTotal: int)
    requires maxTotal <= 0
    requires Stream(pages) != [] && Stream(pages)[0].publicMetrics.Some?
    ensures Expected(pages, maxTotal) == Returned([ToRow(Stream(pages)[0])])
  {
    var s := Stream(pages);
    assert s == [s[0]] + s[1..];
    StopsAtCap(pages, maxTotal, [s[0]], s[1..]);
    assert Rows([s[0]]) == Rows([]) + [ToRow(s[0])] by {
      assert [s[0]][..0] == [];
    }
  }

  /** Every row of the rows of a run is the row of the tweet at the same
      position. */
  lemma {:induction false} RowsAt(s: seq<Tweet>, i: nat)
    requires AllHaveMetrics(s) && i < |s|
    ensures Rows(s)[i] == ToRow(s[i])
  {
    var init := s[..|s| - 1];
    assert AllHaveMetrics(init);
    if i < |s| - 1 {
      RowsAt(init, i);
      assert init[i] == s[i];
    }
  }

  /** Every row of a run of tweets has one cell per header column. */
  lemma RowsHaveAllColumns(s: seq<Tweet>)
    requires AllHaveMetrics(s)
    ensures forall r :: r in Rows(s) ==> |r| == |Columns|
  {
    forall r | r in Rows(s)
      ensures |r| == |Columns|
    {
      var i :| 0 <= i < |Rows(s)| && Rows(s)[i] == r;
      RowsAt(s, i);
    }
  }

  /** Order: what an attempt returns is the rows of a prefix of the stream,
      in stream order, and every row has one cell per header column. */
  lemma RowsFollowStream(pages: seq<Page>, maxTotal: int)
    ensures Expected(pages, maxTotal).Returned? ==>
              var rows := Expected(pages, maxTotal).rows;
              |rows| <= |Stream(pages)| &&
              AllHaveMetrics(Stream(pages)[..|rows|]) &&
              rows == Rows(Stream(pages)[..|rows|])
    ensures Expected(pages, maxTotal).Returned? ==>
              forall r :: r in Expected(pages, maxTotal).rows ==> |r| == |Columns|
  {
    var s := Stream(pages);
    var outcome := Expected(pages, maxTotal);
    if outcome.Returned? {
      assert s[..|s|] == s;
      var prefix := s[..|outcome.rows|];
      assert outcome.rows == Rows(prefix);
      RowsHaveAllColumns(prefix);
    }
  }

  /** Rate limits: an attempt ends with a rate limit exactly when the page
      that ended the stream was a rate-limit failure and, before it, neither
      the cap nor a tweet without metrics stopped the walk. Every other
      ending (the end of the pages, a page without data, any other error)
      returns the rows gathered. */
  lemma RateLimitedExactly(pages: seq<Page>, maxTotal: int)
    ensures Expected(pages, maxTotal).RateLimited? <==>
              Stop(pages) == Some(Fail(RateLimit)) &&
              |Stream(pages)| < Cap(maxTotal) && AllHaveMetrics(Stream(pages))
  {
    var s := Stream(pages);
    if AllHaveMetrics(s) {
      assert FirstWithoutMetrics(s) == |s|;
    }
  }

  /** Nothing after the first page without data is ever read: cutting the
      pages there changes neither the stream nor the page that stopped it. */
  lemma {:induction false} LaterPagesUnread(pages: seq<Page>, k: nat)
    requires k < |pages| && !pages[k].Data?
    ensures Stream(pages) == Stream(pages[..k + 1])
    ensures Stop(pages) == Stop(pages[..k + 1])
  {
    if pages[0].Data? {
      assert pages[..k + 1][1..] == pages[1..][..k];
      LaterPagesUnread(pages[1..], k - 1);
    }
  }

  /** Hence an attempt's outcome depends only on the pages up to the first
      one without data. */
  lemma ExpectedIgnoresLaterPages(pages: seq<Page>, k: nat, maxTotal: int)
    requires k < |pages| && !pages[k].Data?
    ensures Expected(pages, maxTotal) == Expected(pages[..k + 1], maxTotal)
  {
    LaterPagesUnread(pages, k);
  }

  /** Taking one page off the front of the walk. */
  lemma StreamStep(pages: seq<Page>, p: nat)
    requires p <= |pages|
    ensures p == |pages| ==> Stream(pages[p..]) == [] && Stop(pages[p..]) == None
    ensures p < |pages| ==>
              Stream(pages[p..]) ==
                (if pages[p].Data? then pages[p].tweets + Stream(pages[p + 1..]) else [])
    ensures p < |pages| ==>
              Stop(pages[p..]) ==
                (if pages[p].Data? then Stop(pages[p + 1..]) else Some(pages[p]))
  {
    if p < |pages| {
      assert pages[p..][0] == pages[p] && pages[p..][1..] == pages[p + 1..];
    } else {
      assert pages[p..] == [];
    }
  }

  /** Taking one tweet off the front of what is left of the stream. */
  lemma TweetStep(seen: seq<Tweet>, tweets: seq<Tweet>, i: nat, later: seq<Tweet>)
    requires i < |tweets|
    ensures seen + (tweets[i..] + later) == (seen + [tweets[i]]) + (tweets[i + 1..] + later)
    ensures (tweets[i..] + later)[0] == tweets[i]
  {
    assert tweets[i..] == [tweets[i]] + tweets[i + 1..];
  }

  lemma RowsAppend(seen: seq<Tweet>, t: Tweet)
    requires AllHaveMetrics(seen) && t.publicMetrics.Some?
    ensures AllHaveMetrics(seen + [t])
    ensures Rows(seen + [t]) == Rows(seen) + [ToRow(t)]
  {
    assert (seen + [t])[..|seen|] == seen;
  }

  /** The inner loop of one attempt, over the tweets of one page: append a
      row per tweet, return at once at the cap, and let a tweet without
      public metrics end the attempt (the row builder raises, and the general
      handler returns what has been gathered). `done` says that the attempt
      ended inside this page; then `rows` is what the attempt returns.
      Otherwise the rows of the whole page have been appended. */
  method CollectPage(ghost pages: seq<Page>, maxTotal: int, tweets: seq<Tweet>, ghost later: seq<Tweet>,
                     data: seq<Row>, ghost seen: seq<Tweet>)
    returns (rows: seq<Row>, ghost seen': seq<Tweet>, done: bool)
    requires Stream(pages) == seen + (tweets + later)
    requires AllHaveMetrics(seen) && |seen| < Cap(maxTotal) && data == Rows(seen)
    ensures done ==> Expected(pages, maxTotal) == Returned(rows)
    ensures !done ==> Stream(pages) == seen' + later
    ensures !done ==> AllHaveMetrics(seen') && |seen'| < Cap(maxTotal) && rows == Rows(seen')
  {
    rows, seen' := data, seen;
    assert tweets[0..] == tweets;
    var i := 0;
    while i < |tweets|
      invariant i <= |tweets|
      invariant Stream(pages) == seen' + (tweets[i..] + later)
      invariant AllHaveMetrics(seen') && |seen'| < Cap(maxTotal)
      invariant rows == Rows(seen')
    {
      var t := tweets[i];
      TweetStep(seen', tweets, i, later);
      if t.publicMetrics.None? {
        StopsAtMissingMetrics(pages, maxTotal, seen', tweets[i..] + later);
        return rows, seen', true;
      }
      RowsAppend(seen', t);
      rows := rows + [ToRow(t)];
      seen' := seen' + [t];
      if |rows| >= maxTotal {
        StopsAtCap(pages, maxTotal, seen', tweets[i + 1..] + later);
        return rows, seen', true;
      }
      i := i + 1;
    }
    assert tweets[i..] + later == later;
    done := false;
  }

  /** One attempt of the collector: the outer loop over the pages the
      paginator yields, with a break on a page without data and the two
      exception handlers around it. */
  method FetchAttempt(pages: seq<Page>, maxTotal: int) returns (outcome: Outcome)
    ensures outcome == Expected(pages, maxTotal)
  {
    var data: seq<Row> := [];
    ghost var seen: seq<Tweet> := [];
    var p := 0;
    while p < |pages|
      invariant p <= |pages|
      invariant Stream(pages) == seen + Stream(pages[p..])
      invariant Stop(pages) == Stop(pages[p..])
      invariant AllHaveMetrics(seen) && |seen| < Cap(maxTotal)
      invariant data == Rows(seen)
    {
      StreamStep(pages, p);
      if pages[p].NoData? {
        break;
      } else if pages[p].Fail? {
        assert seen + [] == seen;
        StopsAtEnd(pages, maxTotal);
        if pages[p].failure == RateLimit {
          return RateLimited;
        }
        return Returned(data);
      }
      var done;
      data, seen, done := CollectPage(pages, maxTotal, pages[p].tweets, Stream(pages[p + 1..]), data, seen);
      if done {
        return Returned(data);
      }
      assert Stop(pages[p..]) == Stop(pages[p + 1..]);
      p := p + 1;
    }
    StreamStep(pages, p);
    assert seen + [] == seen;
    StopsAtEnd(pages, maxTotal);
    return Returned(data);
  }

  /** The outcome of each attempt, in order. */
  function Outcomes(attempts: seq<seq<Page>>, maxTotal: int): seq<Outcome>
  {
    seq(|attempts|, k requires 0 <= k < |attempts| => Expected(attempts[k], maxTotal))
  }

  /** The result of the whole collection, given the outcome of each attempt
      the collector makes (one more attempt after every rate limit). `None`
      stands for "still retrying when the modelled attempts run out". */
  function Fetched(outcomes: seq<Outcome>): (r: Option<seq<Row>>)
    ensures r.None? <==> forall k :: 0 <= k < |outcomes| ==> outcomes[k].RateLimited?
    ensures r.Some? ==>
              exists k :: 0 <= k < |outcomes| && outcomes[k] == Returned(r.value) &&
                forall j :: 0 <= j < k ==> outcomes[j].RateLimited?
  {
    if outcomes == [] then None
    else if outcomes[0].Returned? then Some(outcomes[0].rows)
    else Fetched(outcomes[1..])
  }

  /** The collector as the source writes it: one attempt, and on a rate
      limit a fresh call that starts again from an empty list. */
  method FetchAllTweets(attempts: seq<seq<Page>>, maxTotal: int) returns (result: Option<seq<Row>>)
    ensures result == Fetched(Outcomes(attempts, maxTotal))
    decreases |attempts|
  {
    if attempts == [] {
      return None;
    }
    var outcome := FetchAttempt(attempts[0], maxTotal);
    match outcome
    case Returned(rows) =>
      result := Some(rows);
    case RateLimited =>
      result := FetchAllTweets(attempts[1..], maxTotal);
      assert Outcomes(attempts, maxTotal)[1..] == Outcomes(attempts[1..], maxTotal);
  }

  /** Restart: attempts that end in a rate limit leave nothing behind; the
      result is that of a fresh collection over the attempts after them. */
  lemma {:induction false} RestartDiscardsRows(outcomes: seq<Outcome>, k: nat)
    requires k <= |outcomes|
    requires forall j :: 0 <= j < k ==> outcomes[j].RateLimited?
    ensures Fetched(outcomes) == Fetched(outcomes[k..])
  {
    if k > 0 {
      assert outcomes[1..][k - 1..] == outcomes[k..];
      RestartDiscardsRows(outcomes[1..], k - 1);
    }
  }

  /** Cap bound for the whole collection: whatever the restarts, the rows
      finally returned never number more than the cap. */
  lemma FetchedCapBound(attempts: seq<seq<Page>>, maxTotal: int)
    ensures Fetched(Outcomes(attempts, maxTotal)).Some? ==>
              |Fetched(Outcomes(attempts, maxTotal)).value| <= Cap(maxTotal)
  {
    var outcomes := Outcomes(attempts, maxTotal);
    var r := Fetched(outcomes);
    if r.Some? {
      var k :| 0 <= k < |outcomes| && outcomes[k] == Returned(r.value);
      CapBound(attempts[k], maxTotal);
    }
  }
}
