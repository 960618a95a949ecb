/** The engagement table: the fetched statuses collected into a dictionary
    keyed by tweet id, then turned into one row per key. A Python dictionary
    remembers insertion order, and assigning to a key already present
    replaces its value in place; the table below is that dictionary as an
    ordered list of rows. */
module EngagementTable {
  import opened Tables
  import opened Records

  function Row(s: Status): Engagement
  {
    Engagement(s.id, s.retweetCount, s.favoriteCount)
  }

  /** `data[d['id']] = (d['retweet_count'], d['favorite_count'])`. */
  function Store(table: seq<Engagement>, s: Status): (r: seq<Engagement>)
    requires UniqueKeys(table, EngagementKey)
    ensures UniqueKeys(r, EngagementKey)
    ensures Keys(r, EngagementKey) == Keys(table, EngagementKey) + {s.id}
    ensures Row(s) in r
    ensures forall e :: e in table && e.tweetId != s.id ==> e in r
  {
    if |table| == 0 then
      assert Keys([Row(s)], EngagementKey) == {s.id} by {
        assert [Row(s)][0] == Row(s);
      }
      [Row(s)]
    else
      assert table == [table[0]] + table[1..];
      KeysCons(table[0], table[1..], EngagementKey);
      UniqueKeysCons(table[0], table[1..], EngagementKey);
      if table[0].tweetId == s.id then
        KeysCons(Row(s), table[1..], EngagementKey);
        UniqueKeysCons(Row(s), table[1..], EngagementKey);
        [Row(s)] + table[1..]
      else
        var rest := Store(table[1..], s);
        KeysCons(table[0], rest, EngagementKey);
        UniqueKeysCons(table[0], rest, EngagementKey);
        [table[0]] + rest
  }

  /** `statuses[j]` is the last status with its id. */
  predicate IsLastFor(statuses: seq<Status>, j: int)
    requires 0 <= j < |statuses|
  {
    forall k :: j < k < |statuses| ==> statuses[k].id != statuses[j].id
  }

  /** `e` holds the counts of a status that is last for its id. */
  predicate IsLastRow(statuses: seq<Status>, e: Engagement)
  {
    exists j :: 0 <= j < |statuses| && IsLastFor(statuses, j) && e == Row(statuses[j])
  }

  /** `table` holds the row of every status that is last for its id. */
  predicate HoldsLastRows(statuses: seq<Status>, table: seq<Engagement>)
  {
    forall j :: 0 <= j < |statuses| && IsLastFor(statuses, j) ==> Row(statuses[j]) in table
  }

  /** The ids of the fetched statuses. */
  function Ids(statuses: seq<Status>): set<int>
  {
    set j | 0 <= j < |statuses| :: statuses[j].id
  }

  /** The loop over the JSON lines: one row per distinct id, and for each id
      the counts of its last status, since a later line overwrites an earlier
      one. */
  function Tabulate(statuses: seq<Status>): (table: seq<Engagement>)
    ensures UniqueKeys(table, EngagementKey)
    ensures Keys(table, EngagementKey) == Ids(statuses)
    ensures HoldsLastRows(statuses, table)
  {
    if |statuses| == 0 then []
    else
      var older := Tabulate(statuses[..|statuses| - 1]);
      TabulateStep(statuses, older);
      Store(older, statuses[|statuses| - 1])
  }

  /** One iteration of the loop: storing the newest status into the table of
      the older ones gives the table of all of them. */
  lemma TabulateStep(statuses: seq<Status>, older: seq<Engagement>)
    requires |statuses| > 0
    requires UniqueKeys(older, EngagementKey)
    requires Keys(older, EngagementKey) == Ids(statuses[..|statuses| - 1])
    requires HoldsLastRows(statuses[..|statuses| - 1], older)
    ensures var table := Store(older, statuses[|statuses| - 1]);
      Keys(table, EngagementKey) == Ids(statuses) && HoldsLastRows(statuses, table)
  {
    IdsSnoc(statuses);
    LastRowsStep(statuses, older);
  }

  /** The ids of all statuses are those of the older ones plus the newest. */
  lemma IdsSnoc(statuses: seq<Status>)
    requires |statuses| > 0
    ensures Ids(statuses) == Ids(statuses[..|statuses| - 1]) + {statuses[|statuses| - 1].id}
  {
    var n := |statuses| - 1;
    var prefix := statuses[..n];
    assert forall j :: 0 <= j < n ==> prefix[j] == statuses[j];
  }

  /** Storing the newest status keeps the last row of every id. */
  lemma LastRowsStep(statuses: seq<Status>, older: seq<Engagement>)
    requires |statuses| > 0
    requires UniqueKeys(older, EngagementKey)
    requires HoldsLastRows(statuses[..|statuses| - 1], older)
    ensures HoldsLastRows(statuses, Store(older, statuses[|statuses| - 1]))
  {
    var n := |statuses| - 1;
    var prefix := statuses[..n];
    var table := Store(older, statuses[n]);
    LastStatusesKept(statuses);
    forall j | 0 <= j < |statuses| && IsLastFor(statuses, j)
      ensures Row(statuses[j]) in table
    {
      if j < n {
        assert prefix[j] == statuses[j];
        assert Row(prefix[j]) in older;
      }
    }
  }

  /** The step of `Tabulate`: a status that is last for its id is either the
      newest one, or last in the older statuses with an id the newest one does
      not overwrite. */
  lemma LastStatusesKept(statuses: seq<Status>)
    requires |statuses| > 0
    ensures var n := |statuses| - 1;
      forall j :: 0 <= j < n && IsLastFor(statuses, j) ==>
        IsLastFor(statuses[..n], j) && statuses[j].id != statuses[n].id
  {
    var n := |statuses| - 1;
    forall j | 0 <= j < n && IsLastFor(statuses, j)
      ensures IsLastFor(statuses[..n], j) && statuses[j].id != statuses[n].id
    {
      forall k | j < k < n ensures statuses[..n][k].id != statuses[..n][j].id {
        assert statuses[..n][k] == statuses[k];
      }
    }
  }

  /** Index of the last status with id `k`. */
  function LastIndexOf(statuses: seq<Status>, k: int): (j: nat)
    requires exists m :: 0 <= m < |statuses| && statuses[m].id == k
    ensures j < |statuses| && statuses[j].id == k && IsLastFor(statuses, j)
  {
    var n := |statuses| - 1;
    if statuses[n].id == k then n
    else
      assert exists m :: 0 <= m < n && statuses[..n][m].id == k by {
        var m :| 0 <= m < |statuses| && statuses[m].id == k;
        assert statuses[..n][m] == statuses[m];
      }
      var j := LastIndexOf(statuses[..n], k);
      assert statuses[j] == statuses[..n][j];
      j
  }

  /** The table holds nothing but the last status of each id: together with
      `Tabulate`'s contract, a later duplicate overwrites an earlier one and
      no other row survives. */
  lemma TabulateHoldsOnlyLast(statuses: seq<Status>)
    ensures forall e :: e in Tabulate(statuses) ==> IsLastRow(statuses, e)
  {
    var table := Tabulate(statuses);
    forall e | e in table
      ensures IsLastRow(statuses, e)
    {
      var i :| 0 <= i < |table| && table[i] == e;
      var k := table[i].tweetId;
      assert EngagementKey(table[i]) in Keys(table, EngagementKey);
      assert k in Ids(statuses);
      var m :| 0 <= m < |statuses| && statuses[m].id == k;
      var j := LastIndexOf(statuses, k);
      assert Row(statuses[j]) in table;
      var q :| 0 <= q < |table| && table[q] == Row(statuses[j]);
      assert EngagementKey(table[q]) == EngagementKey(table[i]);
      if q != i {
        assert false;
      }
    }
  }
}
