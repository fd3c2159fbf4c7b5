/**
 The rows the scraper collects and the header of the table it writes:
 one eight-cell row per tweet, in the header's column order.
 */
module Export {
  import opened Tweets

  /** One cell of the exported table. `Null` is an absent timestamp. */
  datatype Cell = Int(n: int) | Text(s: string) | Null

  type Row = seq<Cell>

  /** The header of the CSV file, in order. */
  const Columns: seq<string> :=
    ["Tweet ID", "Created At", "Likes", "Retweets", "Replies", "Quotes", "Media", "Tweet"]

  /** `metrics.get(key, 0)`. */
  function MetricOrZero(metrics: map<string, int>, key: string): int
  {
    if key in metrics then metrics[key] else 0
  }

  /** What the table holds under each header name for a tweet whose public
      metrics are `metrics`; a name outside the header has no value. */
  function ColumnValue(t: Tweet, metrics: map<string, int>, column: string): Cell
  {
    if column == "Tweet ID" then Int(t.id)
    else if column == "Created At" then
      (if t.createdAt.Some? then Text(t.createdAt.value) else Null)
    else if column == "Likes" then Int(MetricOrZero(metrics, "like_count"))
    else if column == "Retweets" then Int(MetricOrZero(metrics, "retweet_count"))
    else if column == "Replies" then Int(MetricOrZero(metrics, "reply_count"))
    else if column == "Quotes" then Int(MetricOrZero(metrics, "quote_count"))
    else if column == "Media" then Text(DetectMedia(t))
    else if column == "Tweet" then Text(t.text)
    else Null
  }

  /** The row appended for one tweet: one cell per header column. The source
      reads `public_metrics` before building the row, so a tweet without it
      has no row. */
  function ToRow(t: Tweet): (row: Row)
    requires t.publicMetrics.Some?
    ensures |row| == |Columns|
  {
    var metrics := t.publicMetrics.value;
    [ Int(t.id),
      if t.createdAt.Some? then Text(t.createdAt.value) else Null,
      Int(MetricOrZero(metrics, "like_count")),
      Int(MetricOrZero(metrics, "retweet_count")),
      Int(MetricOrZero(metrics, "reply_count")),
      Int(MetricOrZero(metrics, "quote_count")),
      Text(DetectMedia(t)),
      Text(t.text) ]
  }

  /** The header and the row agree: the cell at each position is the value
      the header names at that position. */
  lemma RowFollowsHeader(t: Tweet)
    requires t.publicMetrics.Some?
    ensures forall i :: 0 <= i < |Columns| ==>
              ToRow(t)[i] == ColumnValue(t, t.publicMetrics.value, Columns[i])
  {
  }

  /** A count the API did not report is written as 0. */
  lemma MissingMetricsAreZero(t: Tweet)
    requires t.publicMetrics.Some?
    ensures "like_count" !in t.publicMetrics.value ==> ToRow(t)[2] == Int(0)
    ensures "retweet_count" !in t.publicMetrics.value ==> ToRow(t)[3] == Int(0)
    ensures "reply_count" !in t.publicMetrics.value ==> ToRow(t)[4] == Int(0)
    ensures "quote_count" !in t.publicMetrics.value ==> ToRow(t)[5] == Int(0)
  {
  }

  predicate AllHaveMetrics(s: seq<Tweet>)
  {
    forall i :: 0 <= i < |s| ==> s[i].publicMetrics.Some?
  }

  /** The rows of a run of tweets, one per tweet, in order. */
  function Rows(s: seq<Tweet>): (rows: seq<Row>)
    requires AllHaveMetrics(s)
    ensures |rows| == |s|
  {
    if s == [] then [] else Rows(s[..|s| - 1]) + [ToRow(s[|s| - 1])]
  }
}
