/** The merge of the three cleaned tables and the whole cleaning-and-merge run,
    with what it guarantees about the master table it produces. */
module Pipeline {
  import opened Wrappers
  import opened Tables
  import opened Text
  import opened Records
  import opened Cleaning
  import opened EngagementTable

  function PairKey(p: (CleanTweet, ImageRow)): int { p.0.tweetId }

  function Flatten(rows: seq<((CleanTweet, ImageRow), Engagement)>): (out: seq<MergedRow>)
    ensures |out| == |rows|
    ensures forall i :: 0 <= i < |out| ==> out[i] == MergedRow(rows[i].0.0, rows[i].0.1, rows[i].1)
  {
    seq(|rows|, i requires 0 <= i < |rows| => MergedRow(rows[i].0.0, rows[i].0.1, rows[i].1))
  }

  /** The two inner merges on `tweet_id`: archive with images, then the result
      with the engagement table. */
  function Merge(archive: seq<CleanTweet>, images: seq<ImageRow>, engagement: seq<Engagement>): (out: seq<MergedRow>)
    ensures forall i :: 0 <= i < |out| ==>
      && out[i].tweet in archive && out[i].image in images && out[i].engagement in engagement
      && out[i].image.tweetId == out[i].tweet.tweetId
      && out[i].engagement.tweetId == out[i].tweet.tweetId
    ensures forall t, im, e ::
      (t in archive && im in images && e in engagement && im.tweetId == t.tweetId && e.tweetId == t.tweetId)
      ==> MergedRow(t, im, e) in out
  {
    var first := Join(archive, images, TweetKey, ImageKey);
    var second := Join(first, engagement, PairKey, EngagementKey);
    var out := Flatten(second);
    assert forall t, im, e ::
      (t in archive && im in images && e in engagement && im.tweetId == t.tweetId && e.tweetId == t.tweetId)
      ==> MergedRow(t, im, e) in out by {
      forall t, im, e | t in archive && im in images && e in engagement
        && im.tweetId == t.tweetId && e.tweetId == t.tweetId
        ensures MergedRow(t, im, e) in out
      {
        assert (t, im) in first;
        assert ((t, im), e) in second;
        var m :| 0 <= m < |second| && second[m] == ((t, im), e);
        assert out[m] == MergedRow(t, im, e);
      }
    }
    out
  }

  /** The keys of the archive-image merge, read off its left halves. */
  lemma FirstMergeKeys(archive: seq<CleanTweet>, images: seq<ImageRow>)
    ensures Keys(Join(archive, images, TweetKey, ImageKey), PairKey) == Keys(archive, TweetKey) * Keys(images, ImageKey)
  {
    var first := Join(archive, images, TweetKey, ImageKey);
    JoinKeys(archive, images, TweetKey, ImageKey);
    assert Keys(first, PairKey) == set m | 0 <= m < |first| :: TweetKey(first[m].0);
  }

  lemma FlattenKeys(rows: seq<((CleanTweet, ImageRow), Engagement)>)
    ensures Keys(Flatten(rows), MergedKey) == set m | 0 <= m < |rows| :: PairKey(rows[m].0)
  {
    var out := Flatten(rows);
    assert forall m | 0 <= m < |rows| :: MergedKey(out[m]) == PairKey(rows[m].0);
  }

  /** An id survives both merges exactly when all three tables hold it. */
  lemma MergeKeys(archive: seq<CleanTweet>, images: seq<ImageRow>, engagement: seq<Engagement>)
    ensures Keys(Merge(archive, images, engagement), MergedKey)
      == Keys(archive, TweetKey) * Keys(images, ImageKey) * Keys(engagement, EngagementKey)
  {
    var first := Join(archive, images, TweetKey, ImageKey);
    var second := Join(first, engagement, PairKey, EngagementKey);
    assert Merge(archive, images, engagement) == Flatten(second);
    FirstMergeKeys(archive, images);
    JoinKeys(first, engagement, PairKey, EngagementKey);
    FlattenKeys(second);
  }

  /** With unique ids in every table the merges do not multiply rows. */
  lemma MergeUnique(archive: seq<CleanTweet>, images: seq<ImageRow>, engagement: seq<Engagement>)
    requires UniqueKeys(archive, TweetKey) && UniqueKeys(images, ImageKey) && UniqueKeys(engagement, EngagementKey)
    ensures UniqueKeys(Merge(archive, images, engagement), MergedKey)
  {
    var first := Join(archive, images, TweetKey, ImageKey);
    var second := Join(first, engagement, PairKey, EngagementKey);
    var out := Merge(archive, images, engagement);
    assert out == Flatten(second);
    JoinUnique(archive, images, TweetKey, ImageKey);
    assert UniqueKeys(first, PairKey) by {
      assert UniqueLeftKeys(first, TweetKey);
    }
    JoinUnique(first, engagement, PairKey, EngagementKey);
    assert UniqueLeftKeys(second, PairKey);
    forall i, j | 0 <= i < j < |out| ensures MergedKey(out[i]) != MergedKey(out[j]) {
      assert MergedKey(out[i]) == PairKey(second[i].0) && MergedKey(out[j]) == PairKey(second[j].0);
    }
  }

  /** Flattening the nested pairs neither merges nor splits rows. */
  lemma {:induction false} FlattenCount(rows: seq<((CleanTweet, ImageRow), Engagement)>, t: CleanTweet, im: ImageRow, e: Engagement)
    ensures multiset(Flatten(rows))[MergedRow(t, im, e)] == multiset(rows)[((t, im), e)]
  {
    if |rows| > 0 {
      var out := Flatten(rows);
      FlattenCount(rows[1..], t, im, e);
      assert out == [out[0]] + Flatten(rows[1..]);
      SumCount([out[0]], Flatten(rows[1..]), MergedRow(t, im, e));
      CountCons(rows, ((t, im), e));
    }
  }

  /** The master table holds each triple sharing one id as often as the
      product of the triple's counts in the three tables, and no other row:
      the two merges multiply duplicate ids. */
  lemma MergeCount(archive: seq<CleanTweet>, images: seq<ImageRow>, engagement: seq<Engagement>,
                   t: CleanTweet, im: ImageRow, e: Engagement)
    ensures multiset(Merge(archive, images, engagement))[MergedRow(t, im, e)]
      == if im.tweetId == t.tweetId && e.tweetId == t.tweetId
         then multiset(archive)[t] * multiset(images)[im] * multiset(engagement)[e]
         else 0
  {
    var first := Join(archive, images, TweetKey, ImageKey);
    var second := Join(first, engagement, PairKey, EngagementKey);
    assert Merge(archive, images, engagement) == Flatten(second);
    FlattenCount(second, t, im, e);
    JoinPairCount(first, engagement, PairKey, EngagementKey, (t, im), e);
    JoinPairCount(archive, images, TweetKey, ImageKey, t, im);
  }

  /** Duplicate ids fan out: when every row of the three tables carries the
      same id, the master table is their full cross product. */
  lemma MergeFansOut(archive: seq<CleanTweet>, images: seq<ImageRow>, engagement: seq<Engagement>, k: int)
    requires forall i :: 0 <= i < |archive| ==> archive[i].tweetId == k
    requires forall i :: 0 <= i < |images| ==> images[i].tweetId == k
    requires forall i :: 0 <= i < |engagement| ==> engagement[i].tweetId == k
    ensures |Merge(archive, images, engagement)| == |archive| * |images| * |engagement|
  {
    var first := Join(archive, images, TweetKey, ImageKey);
    var second := Join(first, engagement, PairKey, EngagementKey);
    assert Merge(archive, images, engagement) == Flatten(second);
    JoinFansOut(archive, images, TweetKey, ImageKey);
    forall i | 0 <= i < |first| ensures PairKey(first[i]) == k {
      var x :| 0 <= x < |archive| && archive[x] == first[i].0;
    }
    JoinFansOut(first, engagement, PairKey, EngagementKey);
  }

  /* ---------------------------------------------------------------------
     The whole run
     --------------------------------------------------------------------- */

  /** An archive row reaching the name filter: original, top level, rated out
      of 10. */
  predicate Rated(t: Tweet)
  {
    IsOriginal(t) && IsTopLevel(t) && t.ratingDenominator == 10
  }

  /** An archive row that passes every archive filter. */
  predicate Kept(t: Tweet)
  {
    Rated(t) && IsProperName(t.name)
  }

  /** What the cleaning promises of every archive row it outputs. */
  predicate CleanRow(t: CleanTweet)
  {
    && t.ratingDenominator == 10
    && IsProperName(t.name)
    && t.dogType in DogTypes
    && '<' !in t.source && '>' !in t.source
  }

  /** What the run promises of every row of the master table. */
  predicate MasterRow(m: MergedRow)
  {
    && CleanRow(m.tweet)
    && HasDog(m.image)
    && m.image.tweetId == m.tweet.tweetId
    && m.engagement.tweetId == m.tweet.tweetId
  }

  /** The archive table as it reaches the name filter. */
  function RatedArchive(tweets: seq<Tweet>): seq<CleanTweet>
  {
    KeepDenominatorTen(CollapseDogTypes(DropReplies(DropRetweets(tweets))))
  }

  lemma TopLevelRows(tweets: seq<Tweet>)
    ensures forall x :: x in DropReplies(DropRetweets(tweets)) <==> x in tweets && IsOriginal(x) && IsTopLevel(x)
  {
    var originals := DropRetweets(tweets);
    KeepsExactlyMembers(originals, tweets, IsOriginal);
    KeepsExactlyMembers(DropReplies(originals), originals, IsTopLevel);
  }

  lemma CollapsedRows(s: seq<Tweet>)
    ensures forall x :: x in CollapseDogTypes(s) <==> exists t :: t in s && x == Collapse(t)
  {
    var typed := CollapseDogTypes(s);
    assert forall i :: 0 <= i < |s| ==> typed[i] == Collapse(s[i]);
    forall x ensures x in typed <==> exists t :: t in s && x == Collapse(t) {
      if x in typed {
        var i :| 0 <= i < |typed| && typed[i] == x;
        assert s[i] in s;
      }
      if exists t :: t in s && x == Collapse(t) {
        var t :| t in s && x == Collapse(t);
        var i :| 0 <= i < |s| && s[i] == t;
        assert typed[i] == x;
      }
    }
  }

  /** The rows reaching the name filter are the collapsed rated rows. */
  lemma RatedArchiveRows(tweets: seq<Tweet>)
    ensures forall x :: x in RatedArchive(tweets) <==> exists t :: t in tweets && Rated(t) && x == Collapse(t)
  {
    TopLevelRows(tweets);
    CollapsedRows(DropReplies(DropRetweets(tweets)));
    KeepsExactlyMembers(RatedArchive(tweets), CollapseDogTypes(DropReplies(DropRetweets(tweets))), HasDenominatorTen);
  }

  /** The archive after the two drops, each row still carrying the label the
      CSV reader gave it: a boolean mask keeps the labels of the rows it keeps. */
  function LabelledTopLevel(tweets: seq<Tweet>): LabelledRows<Tweet>
  {
    Filter(Filter(Labelled(tweets), OnValue(IsOriginal)), OnValue(IsTopLevel))
  }

  /** `tweets['timestamp'][0]` after the two drops: a lookup of index label 0,
      `None` where it raises `KeyError`. */
  function FirstTimestamp(tweets: seq<Tweet>): Option<string>
  {
    match At(LabelledTopLevel(tweets), 0)
    case None => None
    case Some(t) => Some(t.timestamp)
  }

  /** The labelled table holds the rows the two drops keep, in order. */
  lemma LabelledTopLevelValues(tweets: seq<Tweet>)
    ensures Values(LabelledTopLevel(tweets)) == DropReplies(DropRetweets(tweets))
  {
    var originals := Filter(Labelled(tweets), OnValue(IsOriginal));
    FilterValues(Labelled(tweets), IsOriginal);
    FilterValues(originals, IsTopLevel);
  }

  /** Label 0 survives the drops exactly when the archive's first row does;
      then the lookup reads that row, which is the first remaining row. */
  lemma FirstTimestampFails(tweets: seq<Tweet>)
    ensures FirstTimestamp(tweets).None? <==>
      |tweets| == 0 || !IsOriginal(tweets[0]) || !IsTopLevel(tweets[0])
    ensures FirstTimestamp(tweets).Some? ==>
      && FirstTimestamp(tweets).value == tweets[0].timestamp
      && |DropReplies(DropRetweets(tweets))| > 0
      && DropReplies(DropRetweets(tweets))[0] == tweets[0]
  {
    var originals := Filter(Labelled(tweets), OnValue(IsOriginal));
    AtLabelled(tweets, 0);
    AtAfterFilter(Labelled(tweets), IsOriginal, 0);
    FilterUnique(Labelled(tweets), OnValue(IsOriginal), LabelOf);
    AtAfterFilter(originals, IsTopLevel, 0);
    if |tweets| > 0 && IsOriginal(tweets[0]) && IsTopLevel(tweets[0]) {
      assert DropRetweets(tweets)[0] == tweets[0];
    }
  }

  /** The archive half of the run: every archive cleaning step in order. The
      timestamp lookup comes first and raises when label 0 was dropped. */
  function CleanArchive(tweets: seq<Tweet>): Result<seq<CleanTweet>, CleanError>
  {
    if FirstTimestamp(tweets).None? then Failure(MissingLabel(0))
    else NamedSources(tweets)
  }

  /** The name filter and the source rewrite, the two archive steps that can
      raise on a row. */
  function NamedSources(tweets: seq<Tweet>): Result<seq<CleanTweet>, CleanError>
  {
    var named :- KeepProperNames(RatedArchive(tweets));
    ExtractSources(named)
  }

  /** An archive row as the cleaning outputs it: the stage columns collapsed
      into `type` and the source replaced by its link's text. */
  function Cleaned(t: Tweet): CleanTweet
    requires '>' in t.source
  {
    Collapse(t).(source := AnchorText(t.source))
  }

  /** Some row of a table built from the rows of `tweets` passing `pass` has
      an empty name (or a source without `>`) exactly when one of those
      passing rows has. */
  lemma DefectTransfer(v: seq<CleanTweet>, tweets: seq<Tweet>, pass: Tweet -> bool)
    requires forall x :: x in v <==> exists t :: t in tweets && pass(t) && x == Collapse(t)
    ensures (exists i :: 0 <= i < |v| && |v[i].name| == 0)
      <==> (exists j :: 0 <= j < |tweets| && pass(tweets[j]) && |tweets[j].name| == 0)
    ensures (exists i :: 0 <= i < |v| && '>' !in v[i].source)
      <==> (exists j :: 0 <= j < |tweets| && pass(tweets[j]) && '>' !in tweets[j].source)
  {
    forall i | 0 <= i < |v|
      ensures exists j :: 0 <= j < |tweets| && pass(tweets[j]) && v[i] == Collapse(tweets[j])
    {
      assert v[i] in v;
      var t :| t in tweets && pass(t) && v[i] == Collapse(t);
      var j :| 0 <= j < |tweets| && tweets[j] == t;
    }
    forall j | 0 <= j < |tweets| && pass(tweets[j])
      ensures exists i :: 0 <= i < |v| && v[i] == Collapse(tweets[j])
    {
      assert Collapse(tweets[j]) in v;
    }
  }

  /** After the name filter, the rows are the collapsed kept archive rows. */
  lemma NamedRows(tweets: seq<Tweet>)
    requires KeepProperNames(RatedArchive(tweets)).Success?
    ensures var named := KeepProperNames(RatedArchive(tweets)).value;
      forall x :: x in named <==> exists t :: t in tweets && Kept(t) && x == Collapse(t)
  {
    var rated := RatedArchive(tweets);
    var named := KeepProperNames(rated).value;
    RatedArchiveRows(tweets);
    KeepsExactlyMembers(named, rated, HasProperName);
  }

  /** The archive cleaning fails exactly when the archive's first row is a
      retweet or a reply (or there is none), when a row reaching the name
      filter has an empty name, or when a row passing every filter has no `>`
      in its source. */
  lemma CleanArchiveFails(tweets: seq<Tweet>)
    ensures CleanArchive(tweets).Failure? <==>
      || |tweets| == 0 || !IsOriginal(tweets[0]) || !IsTopLevel(tweets[0])
      || (exists i :: 0 <= i < |tweets| && Rated(tweets[i]) && |tweets[i].name| == 0)
      || (exists i :: 0 <= i < |tweets| && Kept(tweets[i]) && '>' !in tweets[i].source)
    ensures CleanArchive(tweets) == Failure(MissingLabel(0)) <==>
      |tweets| == 0 || !IsOriginal(tweets[0]) || !IsTopLevel(tweets[0])
  {
    FirstTimestampFails(tweets);
    RatedArchiveRows(tweets);
    DefectTransfer(RatedArchive(tweets), tweets, Rated);
    if KeepProperNames(RatedArchive(tweets)).Success? {
      NamedRows(tweets);
      DefectTransfer(KeepProperNames(RatedArchive(tweets)).value, tweets, Kept);
    }
  }

  /** The rows built from the kept archive rows carry the cleaning's promises
      and exactly their ids. */
  lemma KeptTransfer(v: seq<CleanTweet>, tweets: seq<Tweet>)
    requires forall x :: x in v <==> exists t :: t in tweets && Kept(t) && x == Collapse(t)
    ensures forall i :: 0 <= i < |v| ==>
      v[i].ratingDenominator == 10 && IsProperName(v[i].name) && v[i].dogType in DogTypes
    ensures Keys(v, TweetKey) == set j | 0 <= j < |tweets| && Kept(tweets[j]) :: tweets[j].tweetId
  {
    forall i | 0 <= i < |v|
      ensures exists j :: 0 <= j < |tweets| && Kept(tweets[j]) && v[i] == Collapse(tweets[j])
    {
      assert v[i] in v;
      var t :| t in tweets && Kept(t) && v[i] == Collapse(t);
      var j :| 0 <= j < |tweets| && tweets[j] == t;
    }
    forall j | 0 <= j < |tweets| && Kept(tweets[j])
      ensures exists i :: 0 <= i < |v| && v[i] == Collapse(tweets[j])
    {
      assert Collapse(tweets[j]) in v;
    }
  }

  /** Relabelling the sources keeps every other column and so every id. */
  lemma ExtractSourcesKeys(named: seq<CleanTweet>)
    requires ExtractSources(named).Success?
    ensures var v := ExtractSources(named).value;
      && Keys(v, TweetKey) == Keys(named, TweetKey)
      && (UniqueKeys(named, TweetKey) ==> UniqueKeys(v, TweetKey))
      && forall i :: 0 <= i < |v| ==>
        && v[i].ratingDenominator == named[i].ratingDenominator
        && v[i].name == named[i].name
        && v[i].dogType == named[i].dogType
        && '<' !in v[i].source && '>' !in v[i].source
  {
    var v := ExtractSources(named).value;
    SameKeys(v, named);
  }

  /** Two tables with the same ids row by row have the same key set, and one
      has unique keys when the other has. */
  lemma SameKeys(v: seq<CleanTweet>, named: seq<CleanTweet>)
    requires |v| == |named|
    requires forall i :: 0 <= i < |v| ==> v[i].tweetId == named[i].tweetId
    ensures Keys(v, TweetKey) == Keys(named, TweetKey)
    ensures UniqueKeys(named, TweetKey) ==> UniqueKeys(v, TweetKey)
  {
    forall k | k in Keys(v, TweetKey) ensures k in Keys(named, TweetKey) {
      var i :| 0 <= i < |v| && TweetKey(v[i]) == k;
      assert TweetKey(named[i]) == k;
    }
    forall k | k in Keys(named, TweetKey) ensures k in Keys(v, TweetKey) {
      var i :| 0 <= i < |named| && TweetKey(named[i]) == k;
      assert TweetKey(v[i]) == k;
    }
  }

  /** Relabelling the sources of the collapsed kept rows gives exactly the
      cleaned kept rows. */
  lemma RelabelTransfer(v: seq<CleanTweet>, named: seq<CleanTweet>, tweets: seq<Tweet>)
    requires forall x :: x in named <==> exists t :: t in tweets && Kept(t) && x == Collapse(t)
    requires |v| == |named|
    requires forall i :: 0 <= i < |named| ==>
      '>' in named[i].source && v[i] == named[i].(source := AnchorText(named[i].source))
    ensures forall x :: x in v <==> exists t :: t in tweets && Kept(t) && '>' in t.source && x == Cleaned(t)
  {
    forall x | x in v
      ensures exists t :: t in tweets && Kept(t) && '>' in t.source && x == Cleaned(t)
    {
      var i :| 0 <= i < |v| && v[i] == x;
      assert named[i] in named;
      var t :| t in tweets && Kept(t) && named[i] == Collapse(t);
      assert x == Cleaned(t);
    }
    forall t | t in tweets && Kept(t) && '>' in t.source
      ensures Cleaned(t) in v
    {
      assert Collapse(t) in named;
      var i :| 0 <= i < |named| && named[i] == Collapse(t);
      assert v[i] == Cleaned(t);
    }
  }

  /** Every row the archive cleaning outputs keeps its promises. */
  lemma CleanArchiveShape(tweets: seq<Tweet>)
    requires CleanArchive(tweets).Success?
    ensures forall i :: 0 <= i < |CleanArchive(tweets).value| ==> CleanRow(CleanArchive(tweets).value[i])
  {
    NamedRows(tweets);
    KeptTransfer(KeepProperNames(RatedArchive(tweets)).value, tweets);
    RelabelledRows(KeepProperNames(RatedArchive(tweets)).value);
    assert CleanArchive(tweets) == ExtractSources(KeepProperNames(RatedArchive(tweets)).value);
  }

  /** Rewriting the sources of rows that keep every other promise gives rows
      that keep them all. */
  lemma RelabelledRows(named: seq<CleanTweet>)
    requires forall i :: 0 <= i < |named| ==>
      named[i].ratingDenominator == 10 && IsProperName(named[i].name) && named[i].dogType in DogTypes
    ensures ExtractSources(named).Success? ==>
      forall i :: 0 <= i < |ExtractSources(named).value| ==> CleanRow(ExtractSources(named).value[i])
  {
  }

  /** The ids the archive cleaning outputs are those of the archive rows
      passing every filter. */
  lemma CleanArchiveKeys(tweets: seq<Tweet>)
    requires CleanArchive(tweets).Success?
    ensures Keys(CleanArchive(tweets).value, TweetKey) == set j | 0 <= j < |tweets| && Kept(tweets[j]) :: tweets[j].tweetId
  {
    var named := KeepProperNames(RatedArchive(tweets)).value;
    NamedRows(tweets);
    KeptTransfer(named, tweets);
    ExtractSourcesKeys(named);
  }

  /** The rows the archive cleaning outputs are exactly the cleaned kept
      archive rows. */
  lemma CleanArchiveMembers(tweets: seq<Tweet>)
    requires CleanArchive(tweets).Success?
    ensures forall x :: x in CleanArchive(tweets).value <==>
      exists t :: t in tweets && Kept(t) && '>' in t.source && x == Cleaned(t)
  {
    var named := KeepProperNames(RatedArchive(tweets)).value;
    NamedRows(tweets);
    RelabelTransfer(ExtractSources(named).value, named, tweets);
  }

  /** Every row the archive cleaning outputs keeps its promises, and the ids
      it outputs are those of the archive rows passing every filter. The rows
      themselves are exactly the kept archive rows with the stage columns
      collapsed and the source relabelled. */
  lemma CleanArchiveRows(tweets: seq<Tweet>)
    requires CleanArchive(tweets).Success?
    ensures forall i :: 0 <= i < |CleanArchive(tweets).value| ==> CleanRow(CleanArchive(tweets).value[i])
    ensures Keys(CleanArchive(tweets).value, TweetKey) == set j | 0 <= j < |tweets| && Kept(tweets[j]) :: tweets[j].tweetId
    ensures forall x :: x in CleanArchive(tweets).value <==>
      exists t :: t in tweets && Kept(t) && '>' in t.source && x == Cleaned(t)
  {
    CleanArchiveShape(tweets);
    CleanArchiveKeys(tweets);
    CleanArchiveMembers(tweets);
  }

  /** Unique archive ids stay unique through the archive cleaning. */
  lemma CleanArchiveUnique(tweets: seq<Tweet>)
    requires UniqueKeys(tweets, ArchiveKey)
    requires CleanArchive(tweets).Success?
    ensures UniqueKeys(CleanArchive(tweets).value, TweetKey)
  {
    var originals := DropRetweets(tweets);
    var toplevel := DropReplies(originals);
    var typed := CollapseDogTypes(toplevel);
    var rated := KeepDenominatorTen(typed);
    var named := KeepProperNames(rated).value;
    FilterUnique(tweets, IsOriginal, ArchiveKey);
    FilterUnique(originals, IsTopLevel, ArchiveKey);
    assert UniqueKeys(typed, TweetKey) by {
      assert forall i :: 0 <= i < |typed| ==> TweetKey(typed[i]) == ArchiveKey(toplevel[i]);
    }
    FilterUnique(typed, HasDenominatorTen, TweetKey);
    FilterUnique(rated, HasProperName, TweetKey);
    ExtractSourcesKeys(named);
  }

  /** A master row as the run promises it: the cleaning's promises hold, its
      tweet is a cleaned kept archive row, its image an input image, and its
      counts those of the last fetched status with its id. */
  ghost predicate TracesBack(m: MergedRow, tweets: seq<Tweet>, images: seq<ImageRow>, statuses: seq<Status>)
  {
    && MasterRow(m)
    && m.image in images
    && (exists t :: t in tweets && Kept(t) && '>' in t.source && m.tweet == Cleaned(t))
    && IsLastRow(statuses, m.engagement)
  }

  /** Merging tables built from the inputs gives rows that trace back to
      them. */
  lemma MergeProvenance(archive: seq<CleanTweet>, dogs: seq<ImageRow>, table: seq<Engagement>,
                        tweets: seq<Tweet>, images: seq<ImageRow>, statuses: seq<Status>)
    requires forall x :: x in archive ==>
      CleanRow(x) && exists t :: t in tweets && Kept(t) && '>' in t.source && x == Cleaned(t)
    requires forall im :: im in dogs ==> im in images && HasDog(im)
    requires forall e :: e in table ==> IsLastRow(statuses, e)
    ensures forall m :: m in Merge(archive, dogs, table) ==> TracesBack(m, tweets, images, statuses)
  {
    var out := Merge(archive, dogs, table);
    forall m | m in out
      ensures TracesBack(m, tweets, images, statuses)
    {
      var i :| 0 <= i < |out| && out[i] == m;
    }
  }

  /** Every row of a successful archive cleaning keeps the cleaning's
      promises and is a cleaned kept archive row. */
  lemma ArchiveTraces(tweets: seq<Tweet>)
    requires CleanArchive(tweets).Success?
    ensures forall x :: x in CleanArchive(tweets).value ==>
      CleanRow(x) && exists t :: t in tweets && Kept(t) && '>' in t.source && x == Cleaned(t)
  {
    CleanArchiveShape(tweets);
    CleanArchiveMembers(tweets);
    forall x | x in CleanArchive(tweets).value
      ensures CleanRow(x)
    {
      var i :| 0 <= i < |CleanArchive(tweets).value| && CleanArchive(tweets).value[i] == x;
    }
  }

  /** The master rows built from a successful archive cleaning trace back to
      the inputs. */
  lemma MasterRows(tweets: seq<Tweet>, images: seq<ImageRow>, statuses: seq<Status>)
    requires CleanArchive(tweets).Success?
    ensures forall m :: m in Merge(CleanArchive(tweets).value, KeepDogImages(images), Tabulate(statuses)) ==>
      TracesBack(m, tweets, images, statuses)
  {
    TabulateHoldsOnlyLast(statuses);
    KeepsExactlyMembers(KeepDogImages(images), images, HasDog);
    ArchiveTraces(tweets);
    MergeProvenance(CleanArchive(tweets).value, KeepDogImages(images), Tabulate(statuses), tweets, images, statuses);
  }

  /** The cleaning-and-merge run: clean the archive (raising as the notebook
      would), keep the dog images, tabulate the engagement counts and merge
      the three on `tweet_id`. Every master row traces back to a cleaned kept
      archive row, an input dog image with its id, and the counts of the last
      fetched status with its id. */
  function Wrangle(tweets: seq<Tweet>, images: seq<ImageRow>, statuses: seq<Status>): (r: Result<seq<MergedRow>, CleanError>)
    ensures r.Failure? <==>
      || |tweets| == 0 || !IsOriginal(tweets[0]) || !IsTopLevel(tweets[0])
      || (exists i :: 0 <= i < |tweets| && Rated(tweets[i]) && |tweets[i].name| == 0)
      || (exists i :: 0 <= i < |tweets| && Kept(tweets[i]) && '>' !in tweets[i].source)
    ensures r.Success? ==> forall m :: m in r.value ==> TracesBack(m, tweets, images, statuses)
  {
    CleanArchiveFails(tweets);
    if CleanArchive(tweets).Failure? then Failure(CleanArchive(tweets).error)
    else
      MasterRows(tweets, images, statuses);
      Success(Merge(CleanArchive(tweets).value, KeepDogImages(images), Tabulate(statuses)))
  }

  /** Conversely, every combination of a kept archive row, a dog image and
      the last fetched status sharing one id is a row of the master table. */
  lemma WrangleComplete(tweets: seq<Tweet>, images: seq<ImageRow>, statuses: seq<Status>)
    requires Wrangle(tweets, images, statuses).Success?
    ensures forall t, im, k ::
      (&& t in tweets && Kept(t) && '>' in t.source
       && im in images && HasDog(im)
       && 0 <= k < |statuses| && IsLastFor(statuses, k)
       && im.tweetId == t.tweetId && statuses[k].id == t.tweetId)
      ==> MergedRow(Cleaned(t), im, Row(statuses[k])) in Wrangle(tweets, images, statuses).value
  {
    var archive := CleanArchive(tweets).value;
    var dogs := KeepDogImages(images);
    var table := Tabulate(statuses);
    CleanArchiveRows(tweets);
    KeepsExactlyMembers(dogs, images, HasDog);
    assert Wrangle(tweets, images, statuses).value == Merge(archive, dogs, table);
    forall t, im, k |
      && t in tweets && Kept(t) && '>' in t.source
      && im in images && HasDog(im)
      && 0 <= k < |statuses| && IsLastFor(statuses, k)
      && im.tweetId == t.tweetId && statuses[k].id == t.tweetId
      ensures MergedRow(Cleaned(t), im, Row(statuses[k])) in Merge(archive, dogs, table)
    {
      assert Cleaned(t) in archive;
      assert Row(statuses[k]) in table;
    }
  }

  /** An id reaches the master table exactly when the archive holds a row with
      it that passes every archive filter, the image table holds a dog image
      with it, and some fetched status has it. */
  lemma WrangleIds(tweets: seq<Tweet>, images: seq<ImageRow>, statuses: seq<Status>)
    requires Wrangle(tweets, images, statuses).Success?
    ensures Keys(Wrangle(tweets, images, statuses).value, MergedKey)
      == (set i | 0 <= i < |tweets| && Kept(tweets[i]) :: tweets[i].tweetId)
       * (set j | 0 <= j < |images| && HasDog(images[j]) :: images[j].tweetId)
       * (set m | 0 <= m < |statuses| :: statuses[m].id)
  {
    MasterIds(tweets, images, statuses);
    assert Wrangle(tweets, images, statuses).value
      == Merge(CleanArchive(tweets).value, KeepDogImages(images), Tabulate(statuses));
  }

  lemma MasterIds(tweets: seq<Tweet>, images: seq<ImageRow>, statuses: seq<Status>)
    requires CleanArchive(tweets).Success?
    ensures Keys(Merge(CleanArchive(tweets).value, KeepDogImages(images), Tabulate(statuses)), MergedKey)
      == (set i | 0 <= i < |tweets| && Kept(tweets[i]) :: tweets[i].tweetId)
       * (set j | 0 <= j < |images| && HasDog(images[j]) :: images[j].tweetId)
       * Ids(statuses)
  {
    CleanArchiveKeys(tweets);
    assert KeepDogImages(images) == Filter(images, HasDog);
    FilterKeys(images, HasDog, ImageKey);
    MergeKeys(CleanArchive(tweets).value, KeepDogImages(images), Tabulate(statuses));
  }

  /** When the archive and the image table have unique ids, so does the master
      table: the merges never multiply a tweet. */
  lemma WrangleUnique(tweets: seq<Tweet>, images: seq<ImageRow>, statuses: seq<Status>)
    requires UniqueKeys(tweets, ArchiveKey) && UniqueKeys(images, ImageKey)
    requires Wrangle(tweets, images, statuses).Success?
    ensures UniqueKeys(Wrangle(tweets, images, statuses).value, MergedKey)
  {
    CleanArchiveUnique(tweets);
    FilterUnique(images, HasDog, ImageKey);
    MergeUnique(CleanArchive(tweets).value, KeepDogImages(images), Tabulate(statuses));
  }
}
