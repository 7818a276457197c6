/**
 * One row of the posts table: a day, two optional text columns and nine
 * optional non-negative metric columns (app.py:23-25).
 */
module Posts {
  import opened Wrappers

  /** The nine metric columns; the first seven are reactions, the last two engagement counts. */
  datatype Metric = Haha | Like | Wow | Angry | Sad | Love | Hug | Shares | CommentsNum

  const ReactionColumns: seq<Metric> := [Haha, Like, Wow, Angry, Sad, Love, Hug]
  const EngagementColumns: seq<Metric> := [Shares, CommentsNum]
  /** Column order of every per-metric series the dashboard builds. */
  const AllMetricsColumns: seq<Metric> := ReactionColumns + EngagementColumns

  /**
   * A post. `date` is the already-normalised day key; a `None` cell is a
   * missing value in the spreadsheet.
   */
  datatype Post = Post(
    date: int,
    text: Option<string>,
    fulltext: Option<string>,
    haha: Option<nat>,
    like: Option<nat>,
    wow: Option<nat>,
    angry: Option<nat>,
    sad: Option<nat>,
    love: Option<nat>,
    hug: Option<nat>,
    shares: Option<nat>,
    commentsNum: Option<nat>)
  {
    /** The cell of metric column `k`. */
    function Get(k: Metric): Option<nat> {
      match k
      case Haha => haha
      case Like => like
      case Wow => wow
      case Angry => angry
      case Sad => sad
      case Love => love
      case Hug => hug
      case Shares => shares
      case CommentsNum => commentsNum
    }
  }

  /** The metric column list names every metric exactly once, reactions first. */
  lemma AllMetricsColumnsExact()
    ensures |AllMetricsColumns| == 9
    ensures forall k: Metric :: k in AllMetricsColumns
    ensures forall i, j :: 0 <= i < j < |AllMetricsColumns| ==> AllMetricsColumns[i] != AllMetricsColumns[j]
    ensures AllMetricsColumns[..7] == ReactionColumns && AllMetricsColumns[7..] == EngagementColumns
  {
    forall k: Metric ensures k in AllMetricsColumns {
      match k
      case Haha => assert AllMetricsColumns[0] == k;
      case Like => assert AllMetricsColumns[1] == k;
      case Wow => assert AllMetricsColumns[2] == k;
      case Angry => assert AllMetricsColumns[3] == k;
      case Sad => assert AllMetricsColumns[4] == k;
      case Love => assert AllMetricsColumns[5] == k;
      case Hug => assert AllMetricsColumns[6] == k;
      case Shares => assert AllMetricsColumns[7] == k;
      case CommentsNum => assert AllMetricsColumns[8] == k;
    }
  }
}
