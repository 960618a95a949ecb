/** The cleaning steps applied to the archive and image tables, each as its
    own pure operation, in the order the notebook applies them. */
module Cleaning {
  import opened Wrappers
  import opened Tables
  import opened Text
  import opened Records

  /** The three ways a cleaning step can raise. */
  datatype CleanError =
    | MissingLabel(index: int)    // `KeyError` looking up an index label
    | EmptyName(tweetId: int)     // `x[0]` on an empty name
    | MissingAnchor(tweetId: int) // `splitUrl` on a source without `>`

  /* ---------------------------------------------------------------------
     Retweets and replies
     --------------------------------------------------------------------- */

  predicate IsOriginal(t: Tweet) { t.retweetedStatusId.None? }

  predicate IsTopLevel(t: Tweet) { t.inReplyToStatusId.None? }

  /** Quality issue 1: drop every row that has a retweeted status id. */
  function DropRetweets(tweets: seq<Tweet>): (r: seq<Tweet>)
    ensures forall i :: 0 <= i < |r| ==> r[i].retweetedStatusId.None?
    ensures KeepsExactly(r, tweets, IsOriginal)
  {
    FilterKeepsExactly(tweets, IsOriginal);
    Filter(tweets, IsOriginal)
  }

  /** Quality issue 2: drop every row that replies to another status. */
  function DropReplies(tweets: seq<Tweet>): (r: seq<Tweet>)
    ensures forall i :: 0 <= i < |r| ==> r[i].inReplyToStatusId.None?
    ensures KeepsExactly(r, tweets, IsTopLevel)
  {
    FilterKeepsExactly(tweets, IsTopLevel);
    Filter(tweets, IsTopLevel)
  }

  /** Dropping retweets and replies does not depend on which goes first. */
  lemma DropOrderIrrelevant(tweets: seq<Tweet>)
    ensures DropReplies(DropRetweets(tweets)) == DropRetweets(DropReplies(tweets))
  {
    FilterCommutes(tweets, IsOriginal, IsTopLevel);
  }

  /* ---------------------------------------------------------------------
     Dog stage (tidiness issue 1, quality issue 4)
     --------------------------------------------------------------------- */

  /** The values the collapsed `type` column can take. */
  const DogTypes: set<string> := {"doggo", "floofer", "pupper", "puppo", "multiple", "not specified"}

  /** How many of the four stage columns hold their own name. */
  function StageCount(t: Tweet): nat
  {
    (if t.doggo == "doggo" then 1 else 0) + (if t.floofer == "floofer" then 1 else 0)
    + (if t.pupper == "pupper" then 1 else 0) + (if t.puppo == "puppo" then 1 else 0)
  }

  /** The row function `f`: each set stage overwrites the running value and
      bumps a counter; a count above one gives "multiple", zero gives
      "not specified". */
  function DogType(t: Tweet): (r: string)
    ensures r in DogTypes && r != "None"
    ensures r == "multiple" <==> StageCount(t) >= 2
    ensures r == "not specified" <==> StageCount(t) == 0
    ensures r == "doggo" <==> StageCount(t) == 1 && t.doggo == "doggo"
    ensures r == "floofer" <==> StageCount(t) == 1 && t.floofer == "floofer"
    ensures r == "pupper" <==> StageCount(t) == 1 && t.pupper == "pupper"
    ensures r == "puppo" <==> StageCount(t) == 1 && t.puppo == "puppo"
  {
    var (v0, c0) := ("None", 0);
    var (v1, c1) := if t.doggo == "doggo" then ("doggo", c0 + 1) else (v0, c0);
    var (v2, c2) := if t.floofer == "floofer" then ("floofer", c1 + 1) else (v1, c1);
    var (v3, c3) := if t.pupper == "pupper" then ("pupper", c2 + 1) else (v2, c2);
    var (v4, c4) := if t.puppo == "puppo" then ("puppo", c3 + 1) else (v3, c3);
    var v5 := if c4 > 1 then "multiple" else v4;
    if c4 == 0 then "not specified" else v5
  }

  /** The archive row once the collapsed `type` column replaces the four stage
      columns and the retweet and reply columns are gone. */
  function Collapse(t: Tweet): CleanTweet
  {
    CleanTweet(t.tweetId, t.timestamp, t.source, t.text, t.expandedUrls,
               t.ratingNumerator, t.ratingDenominator, t.name, DogType(t))
  }

  /** Applies `f` to every row and drops the stage columns: one output row per
      input row, in order, every other column unchanged. */
  function CollapseDogTypes(tweets: seq<Tweet>): (r: seq<CleanTweet>)
    ensures |r| == |tweets|
    ensures forall i :: 0 <= i < |r| ==>
      && r[i].tweetId == tweets[i].tweetId
      && r[i].timestamp == tweets[i].timestamp
      && r[i].source == tweets[i].source
      && r[i].text == tweets[i].text
      && r[i].expandedUrls == tweets[i].expandedUrls
      && r[i].ratingNumerator == tweets[i].ratingNumerator
      && r[i].ratingDenominator == tweets[i].ratingDenominator
      && r[i].name == tweets[i].name
      && r[i].dogType == DogType(tweets[i])
      && r[i].dogType in DogTypes
      && (r[i].dogType == "multiple" <==> StageCount(tweets[i]) >= 2)
      && (r[i].dogType == "not specified" <==> StageCount(tweets[i]) == 0)
  {
    seq(|tweets|, i requires 0 <= i < |tweets| => Collapse(tweets[i]))
  }

  /* ---------------------------------------------------------------------
     Denominator and name (quality issues 5 and 6)
     --------------------------------------------------------------------- */

  predicate HasDenominatorTen(t: CleanTweet) { t.ratingDenominator == 10 }

  /** Quality issue 5: keep the rows rated out of 10. */
  function KeepDenominatorTen(tweets: seq<CleanTweet>): (r: seq<CleanTweet>)
    ensures forall i :: 0 <= i < |r| ==> r[i].ratingDenominator == 10
    ensures KeepsExactly(r, tweets, HasDenominatorTen)
  {
    FilterKeepsExactly(tweets, HasDenominatorTen);
    Filter(tweets, HasDenominatorTen)
  }

  /** A name counts as proper when its first character is upper case. */
  predicate IsProperName(name: string) { |name| > 0 && IsUpper(name[0]) }

  predicate HasProperName(t: CleanTweet) { IsProperName(t.name) }

  predicate HasEmptyName(t: CleanTweet) { |t.name| == 0 }

  /** Quality issue 6: keep the rows whose name starts with an upper-case
      letter. Evaluating `x[0]` on every row first, the step raises at the
      first row with an empty name. */
  function KeepProperNames(tweets: seq<CleanTweet>): (r: Result<seq<CleanTweet>, CleanError>)
    ensures r.Failure? <==> exists i :: 0 <= i < |tweets| && |tweets[i].name| == 0
    ensures r.Failure? ==> exists i ::
      && 0 <= i < |tweets| && |tweets[i].name| == 0
      && r.error == EmptyName(tweets[i].tweetId)
      && forall j :: 0 <= j < i ==> |tweets[j].name| > 0
    ensures r.Success? ==> forall i :: 0 <= i < |r.value| ==> |r.value[i].name| > 0 && IsUpper(r.value[i].name[0])
    ensures r.Success? ==> KeepsExactly(r.value, tweets, HasProperName)
  {
    match FindFirst(tweets, HasEmptyName)
    case Some(i) => Failure(EmptyName(tweets[i].tweetId))
    case None =>
      FilterKeepsExactly(tweets, HasProperName);
      Success(Filter(tweets, HasProperName))
  }

  /** The literal placeholder "None" passes the name filter. */
  lemma PlaceholderNameSurvives(tweets: seq<CleanTweet>, t: CleanTweet)
    requires t in tweets && t.name == "None"
    requires KeepProperNames(tweets).Success?
    ensures t in KeepProperNames(tweets).value
  {
    assert HasProperName(t);
  }

  /* ---------------------------------------------------------------------
     Source label (quality issue 7)
     --------------------------------------------------------------------- */

  predicate LacksAnchor(t: CleanTweet) { '>' !in t.source }

  /** The row with its source markup replaced by the link's text. */
  function Relabel(t: CleanTweet): CleanTweet
    requires '>' in t.source
  {
    t.(source := SplitUrl(t.source).value)
  }

  /** Quality issue 7: replace every source by `splitUrl` of it, raising at
      the first row whose source has no `>`. */
  function ExtractSources(tweets: seq<CleanTweet>): (r: Result<seq<CleanTweet>, CleanError>)
    ensures r.Failure? <==> exists i :: 0 <= i < |tweets| && '>' !in tweets[i].source
    ensures r.Failure? ==> exists i ::
      && 0 <= i < |tweets| && '>' !in tweets[i].source
      && r.error == MissingAnchor(tweets[i].tweetId)
      && forall j :: 0 <= j < i ==> '>' in tweets[j].source
    ensures r.Success? ==> |r.value| == |tweets|
    ensures r.Success? ==> forall i :: 0 <= i < |tweets| ==>
      && '>' in tweets[i].source
      && r.value[i] == tweets[i].(source := AnchorText(tweets[i].source))
      && '<' !in r.value[i].source && '>' !in r.value[i].source
  {
    match FindFirst(tweets, LacksAnchor)
    case Some(i) => Failure(MissingAnchor(tweets[i].tweetId))
    case None =>
      assert forall i :: 0 <= i < |tweets| ==> SplitUrl(tweets[i].source) == Some(AnchorText(tweets[i].source)) by {
        forall i | 0 <= i < |tweets| {
          SplitUrlIsAnchorText(tweets[i].source);
        }
      }
      Success(seq(|tweets|, i requires 0 <= i < |tweets| => Relabel(tweets[i])))
  }

  /* ---------------------------------------------------------------------
     Images (quality issue 8)
     --------------------------------------------------------------------- */

  predicate HasDog(im: ImageRow) { im.p1.isDog || im.p2.isDog || im.p3.isDog }

  /** Quality issue 8: keep the images for which at least one of the three
      predictions is a dog; afterwards no row has all three false. */
  function KeepDogImages(images: seq<ImageRow>): (r: seq<ImageRow>)
    ensures forall i :: 0 <= i < |r| ==> !(!r[i].p1.isDog && !r[i].p2.isDog && !r[i].p3.isDog)
    ensures KeepsExactly(r, images, HasDog)
  {
    FilterKeepsExactly(images, HasDog);
    Filter(images, HasDog)
  }
}
