/** The rows of the three gathered tables and of the merged result. A null
    cell is `None`; dropping columns is modelled by moving to a row type that
    lacks them. */
module Records {
  import opened Wrappers

  /** A row of the enhanced tweet archive as read from its CSV file. The four
      dog-stage columns hold either their own name or the text "None". */
  datatype Tweet = Tweet(
    tweetId: int,
    inReplyToStatusId: Option<int>,
    inReplyToUserId: Option<int>,
    timestamp: string,
    source: string,
    text: string,
    retweetedStatusId: Option<int>,
    retweetedStatusUserId: Option<int>,
    retweetedStatusTimestamp: Option<string>,
    expandedUrls: Option<string>,
    ratingNumerator: int,
    ratingDenominator: int,
    name: string,
    doggo: string,
    floofer: string,
    pupper: string,
    puppo: string)

  /** An archive row once the retweet, reply and dog-stage columns are gone
      and the single `type` column has taken the stages' place. */
  datatype CleanTweet = CleanTweet(
    tweetId: int,
    timestamp: string,
    source: string,
    text: string,
    expandedUrls: Option<string>,
    ratingNumerator: int,
    ratingDenominator: int,
    name: string,
    dogType: string)

  /** One ranked guess of the image classifier: breed, confidence, is-a-dog. */
  datatype Prediction = Prediction(breed: string, confidence: real, isDog: bool)

  /** A row of the image-prediction table: the `p1`, `p2`, `p3` column triples
      are grouped into one `Prediction` each. */
  datatype ImageRow = ImageRow(tweetId: int, jpgUrl: string, imgNum: int, p1: Prediction, p2: Prediction, p3: Prediction)

  /** The fields read from one line of the tweet JSON file. */
  datatype Status = Status(id: int, retweetCount: int, favoriteCount: int)

  /** A row of the engagement table, its id column already renamed to
      `tweet_id`. */
  datatype Engagement = Engagement(tweetId: int, retweets: int, likes: int)

  /** A row of the merged master table. */
  datatype MergedRow = MergedRow(tweet: CleanTweet, image: ImageRow, engagement: Engagement)

  function ArchiveKey(t: Tweet): int { t.tweetId }
  function TweetKey(t: CleanTweet): int { t.tweetId }
  function ImageKey(im: ImageRow): int { im.tweetId }
  function EngagementKey(e: Engagement): int { e.tweetId }
  function MergedKey(m: MergedRow): int { m.tweet.tweetId }
}
