/** Generic operations on in-memory tables, a table being a sequence of rows:
    boolean-mask filtering, search for the first offending row, key sets and
    the inner join of two tables on an integer key. */
module Tables {
  import opened Wrappers

  /* ---------------------------------------------------------------------
     Filtering
     --------------------------------------------------------------------- */

  /** The rows of `s` for which `keep` holds, in their original order. This is
      what indexing a data frame with a boolean mask does. */
  function Filter<T(!new)>(s: seq<T>, keep: T -> bool): (r: seq<T>)
    ensures |r| <= |s|
    ensures forall i :: 0 <= i < |r| ==> keep(r[i])
    ensures forall x :: x in r <==> x in s && keep(x)
  {
    if |s| == 0 then []
    else (if keep(s[0]) then [s[0]] else []) + Filter(s[1..], keep)
  }

  /** `r` can be obtained from `s` by deleting rows: relative order is kept. */
  ghost predicate IsSubsequence<T>(r: seq<T>, s: seq<T>)
    decreases |s|
  {
    if |r| == 0 then true
    else if |s| == 0 then false
    else (r[0] == s[0] && IsSubsequence(r[1..], s[1..])) || IsSubsequence(r, s[1..])
  }

  /** Independent description of a row filter: `r` keeps the rows of `s` in
      order, every row satisfying `keep` exactly as often as it occurs in `s`
      and no other row. */
  ghost predicate KeepsExactly<T(!new)>(r: seq<T>, s: seq<T>, keep: T -> bool)
  {
    && IsSubsequence(r, s)
    && forall x :: multiset(r)[x] == if keep(x) then multiset(s)[x] else 0
  }

  lemma {:induction false} FilterIsSubsequence<T(!new)>(s: seq<T>, keep: T -> bool)
    ensures IsSubsequence(Filter(s, keep), s)
  {
    if |s| > 0 {
      FilterIsSubsequence(s[1..], keep);
      var r := Filter(s, keep);
      if keep(s[0]) {
        assert r[0] == s[0] && r[1..] == Filter(s[1..], keep);
      } else {
        assert r == Filter(s[1..], keep);
      }
    }
  }

  lemma {:induction false} FilterMultiset<T(!new)>(s: seq<T>, keep: T -> bool)
    ensures forall x :: multiset(Filter(s, keep))[x] == if keep(x) then multiset(s)[x] else 0
  {
    if |s| > 0 {
      FilterMultiset(s[1..], keep);
      assert s == [s[0]] + s[1..];
      assert multiset(s) == multiset([s[0]]) + multiset(s[1..]);
    }
  }

  /** `Filter` meets the independent description ... */
  lemma FilterKeepsExactly<T(!new)>(s: seq<T>, keep: T -> bool)
    ensures KeepsExactly(Filter(s, keep), s, keep)
  {
    FilterIsSubsequence(s, keep);
    FilterMultiset(s, keep);
  }

  lemma {:induction false} SubsequenceMultiset<T>(r: seq<T>, s: seq<T>)
    requires IsSubsequence(r, s)
    ensures multiset(r) <= multiset(s)
    decreases |s|
  {
    if |r| > 0 {
      assert s == [s[0]] + s[1..];
      if r[0] == s[0] && IsSubsequence(r[1..], s[1..]) {
        SubsequenceMultiset(r[1..], s[1..]);
        assert r == [r[0]] + r[1..];
      } else {
        SubsequenceMultiset(r, s[1..]);
      }
    }
  }

  /** ... and is the only sequence that does: the description determines the
      filtered table completely. */
  lemma {:induction false} KeepsExactlyIsFilter<T(!new)>(r: seq<T>, s: seq<T>, keep: T -> bool)
    requires KeepsExactly(r, s, keep)
    ensures r == Filter(s, keep)
    decreases |s|
  {
    if |s| == 0 {
      assert |r| == 0;
    } else {
      var a := s[0];
      assert s == [a] + s[1..];
      assert multiset(s) == multiset{a} + multiset(s[1..]);
      if keep(a) {
        assert multiset(r)[a] == multiset(s)[a] > multiset(s[1..])[a];
        assert |r| > 0;
        if !(r[0] == a && IsSubsequence(r[1..], s[1..])) {
          SubsequenceMultiset(r, s[1..]);
          assert false;
        }
        assert r == [a] + r[1..];
        assert multiset(r) == multiset{a} + multiset(r[1..]);
        KeepsExactlyIsFilter(r[1..], s[1..], keep);
      } else {
        if |r| > 0 {
          assert r[0] in multiset(r);
          assert r[0] != a;
        }
        assert IsSubsequence(r, s[1..]);
        KeepsExactlyIsFilter(r, s[1..], keep);
      }
    }
  }

  /** Two filters may be applied in either order. */
  lemma {:induction false} FilterCommutes<T(!new)>(s: seq<T>, p: T -> bool, q: T -> bool)
    ensures Filter(Filter(s, p), q) == Filter(Filter(s, q), p)
  {
    if |s| > 0 {
      FilterCommutes(s[1..], p, q);
      FilterAppend(if p(s[0]) then [s[0]] else [], Filter(s[1..], p), q);
      FilterAppend(if q(s[0]) then [s[0]] else [], Filter(s[1..], q), p);
    }
  }

  lemma {:induction false} FilterAppend<T(!new)>(a: seq<T>, b: seq<T>, keep: T -> bool)
    ensures Filter(a + b, keep) == Filter(a, keep) + Filter(b, keep)
  {
    if |a| > 0 {
      FilterAppend(a[1..], b, keep);
      assert (a + b)[1..] == a[1..] + b;
    } else {
      assert a + b == b;
    }
  }

  /* ---------------------------------------------------------------------
     First offending row
     --------------------------------------------------------------------- */

  /** Index of the first row satisfying `bad`: the row at which a row-wise
      `apply` raises, if any does. */
  function FindFirst<T>(s: seq<T>, bad: T -> bool): (r: Option<nat>)
    ensures r.None? <==> forall i :: 0 <= i < |s| ==> !bad(s[i])
    ensures r.Some? ==> r.value < |s| && bad(s[r.value])
    ensures r.Some? ==> forall j :: 0 <= j < r.value ==> !bad(s[j])
  {
    if |s| == 0 then None
    else if bad(s[0]) then Some(0)
    else match FindFirst(s[1..], bad)
      case None => None
      case Some(i) => Some(i + 1)
  }

  /* ---------------------------------------------------------------------
     Keys and inner join
     --------------------------------------------------------------------- */

  /** The set of key values occurring in a table. */
  function Keys<T>(s: seq<T>, key: T -> int): set<int>
  {
    set i | 0 <= i < |s| :: key(s[i])
  }

  lemma KeysCons<T>(x: T, s: seq<T>, key: T -> int)
    ensures Keys([x] + s, key) == {key(x)} + Keys(s, key)
  {
    var xs := [x] + s;
    forall k | k in Keys(xs, key) ensures k in {key(x)} + Keys(s, key) {
      var i :| 0 <= i < |xs| && key(xs[i]) == k;
      if i > 0 { assert xs[i] == s[i - 1]; }
    }
    forall k | k in Keys(s, key) ensures k in Keys(xs, key) {
      var i :| 0 <= i < |s| && key(s[i]) == k;
      assert xs[i + 1] == s[i];
    }
    assert xs[0] == x;
  }

  /** No key value occurs twice. */
  predicate UniqueKeys<T>(s: seq<T>, key: T -> int)
  {
    forall i, j :: 0 <= i < j < |s| ==> key(s[i]) != key(s[j])
  }

  lemma UniqueKeysCons<T>(x: T, s: seq<T>, key: T -> int)
    ensures UniqueKeys([x] + s, key) <==> UniqueKeys(s, key) && key(x) !in Keys(s, key)
  {
    var xs := [x] + s;
    if UniqueKeys(xs, key) {
      forall i, j | 0 <= i < j < |s| ensures key(s[i]) != key(s[j]) {
        assert xs[i + 1] == s[i] && xs[j + 1] == s[j];
      }
      forall i | 0 <= i < |s| ensures key(s[i]) != key(x) {
        assert xs[i + 1] == s[i] && xs[0] == x;
      }
    }
    if UniqueKeys(s, key) && key(x) !in Keys(s, key) {
      forall i, j | 0 <= i < j < |xs| ensures key(xs[i]) != key(xs[j]) {
        assert xs[j] == s[j - 1];
        if i > 0 {
          assert xs[i] == s[i - 1];
        } else {
          assert key(s[j - 1]) in Keys(s, key);
        }
      }
    }
  }

  /** The pairs `(l, r)` with `r` a row of `right` sharing the key of `l`, in
      the order of `right`. */
  function Matches<L(!new), R(!new)>(l: L, right: seq<R>, lkey: L -> int, rkey: R -> int): (out: seq<(L, R)>)
    ensures forall i :: 0 <= i < |out| ==> out[i].0 == l && out[i].1 in right && rkey(out[i].1) == lkey(l)
    ensures forall r :: r in right && rkey(r) == lkey(l) ==> (l, r) in out
  {
    if |right| == 0 then []
    else (if rkey(right[0]) == lkey(l) then [(l, right[0])] else []) + Matches(l, right[1..], lkey, rkey)
  }

  /** Inner join on a key: every pair of rows with equal keys, grouped by left
      row in the order of `left`. How often each pair occurs is stated by
      `JoinCount`. */
  function Join<L(!new), R(!new)>(left: seq<L>, right: seq<R>, lkey: L -> int, rkey: R -> int): (out: seq<(L, R)>)
    ensures forall i :: 0 <= i < |out| ==> out[i].0 in left && out[i].1 in right && lkey(out[i].0) == rkey(out[i].1)
    ensures forall l, r :: l in left && r in right && lkey(l) == rkey(r) ==> (l, r) in out
  {
    if |left| == 0 then []
    else Matches(left[0], right, lkey, rkey) + Join(left[1..], right, lkey, rkey)
  }

  /** `Matches` holds the pair `(l, r)` once for every copy of `r` on the
      right, and only for its own left row and a matching key. */
  lemma {:induction false} MatchesCount<L(!new), R(!new)>(l0: L, right: seq<R>, lkey: L -> int, rkey: R -> int, l: L, r: R)
    ensures multiset(Matches(l0, right, lkey, rkey))[(l, r)]
      == if l == l0 && lkey(l0) == rkey(r) then multiset(right)[r] else 0
  {
    if |right| > 0 {
      MatchesCount(l0, right[1..], lkey, rkey, l, r);
      assert right == [right[0]] + right[1..];
      assert multiset(right) == multiset([right[0]]) + multiset(right[1..]);
      var head := if rkey(right[0]) == lkey(l0) then [(l0, right[0])] else [];
      assert Matches(l0, right, lkey, rkey) == head + Matches(l0, right[1..], lkey, rkey);
      assert multiset(Matches(l0, right, lkey, rkey)) == multiset(head) + multiset(Matches(l0, right[1..], lkey, rkey));
    }
  }

  /** One pair's count in a join: a left row occurring m times and a right row
      occurring n times with the same key give the pair m * n times. */
  lemma {:induction false} JoinPairCount<L(!new), R(!new)>(left: seq<L>, right: seq<R>, lkey: L -> int, rkey: R -> int, l: L, r: R)
    ensures multiset(Join(left, right, lkey, rkey))[(l, r)]
      == if lkey(l) == rkey(r) then multiset(left)[l] * multiset(right)[r] else 0
  {
    if |left| > 0 {
      var m := Matches(left[0], right, lkey, rkey);
      var rest := Join(left[1..], right, lkey, rkey);
      JoinCons(left, right, lkey, rkey);
      MatchesCount(left[0], right, lkey, rkey, l, r);
      JoinPairCount(left[1..], right, lkey, rkey, l, r);
      CountCons(left, l);
      SumCount(m, rest, (l, r));
      if lkey(l) == rkey(r) {
        var a := if l == left[0] then 1 else 0;
        CountStep(multiset(m + rest)[(l, r)], multiset(m)[(l, r)], multiset(rest)[(l, r)],
          a, multiset(left[1..])[l], multiset(right)[r]);
      }
    }
  }

  lemma JoinCons<L(!new), R(!new)>(left: seq<L>, right: seq<R>, lkey: L -> int, rkey: R -> int)
    requires |left| > 0
    ensures Join(left, right, lkey, rkey) == Matches(left[0], right, lkey, rkey) + Join(left[1..], right, lkey, rkey)
  {
  }

  lemma SumCount<T>(a: seq<T>, b: seq<T>, x: T)
    ensures multiset(a + b)[x] == multiset(a)[x] + multiset(b)[x]
  {
  }

  lemma CountStep(total: int, head: int, tail: int, a: int, k: int, n: int)
    requires total == head + tail && head == a * n && tail == k * n
    ensures total == (a + k) * n
  {
  }

  /** The count of `x` in a non-empty table splits into its first row and
      the rest. */
  lemma CountCons<T>(s: seq<T>, x: T)
    requires |s| > 0
    ensures multiset(s)[x] == (if x == s[0] then 1 else 0) + multiset(s[1..])[x]
  {
    assert s == [s[0]] + s[1..];
    assert multiset(s) == multiset([s[0]]) + multiset(s[1..]);
  }

  /** The join holds each pair of rows with equal keys as often as the product
      of their counts in the two tables, and no other pair: a key occurring m
      times on the left and n times on the right yields m * n rows, as in an
      inner merge. */
  lemma {:induction false} JoinCount<L(!new), R(!new)>(left: seq<L>, right: seq<R>, lkey: L -> int, rkey: R -> int)
    ensures forall l, r :: (multiset(Join(left, right, lkey, rkey))[(l, r)]
      == if lkey(l) == rkey(r) then multiset(left)[l] * multiset(right)[r] else 0)
  {
    forall l, r {
      JoinPairCount(left, right, lkey, rkey, l, r);
    }
  }

  /** When every left key equals every right key, the join is the full cross
      product: |left| * |right| rows. */
  lemma {:induction false} JoinFansOut<L(!new), R(!new)>(left: seq<L>, right: seq<R>, lkey: L -> int, rkey: R -> int)
    requires forall i, j :: 0 <= i < |left| && 0 <= j < |right| ==> lkey(left[i]) == rkey(right[j])
    ensures |Join(left, right, lkey, rkey)| == |left| * |right|
  {
    if |left| > 0 {
      var tail := left[1..];
      forall i, j | 0 <= i < |tail| && 0 <= j < |right|
        ensures lkey(tail[i]) == rkey(right[j])
      {
        assert tail[i] == left[i + 1];
      }
      MatchesAll(left[0], right, lkey, rkey);
      JoinFansOut(tail, right, lkey, rkey);
      JoinCons(left, right, lkey, rkey);
      CountStep(|Join(left, right, lkey, rkey)|, |Matches(left[0], right, lkey, rkey)|,
        |Join(tail, right, lkey, rkey)|, 1, |tail|, |right|);
    }
  }

  /** A left row whose key every right row shares matches all of them. */
  lemma {:induction false} MatchesAll<L(!new), R(!new)>(l: L, right: seq<R>, lkey: L -> int, rkey: R -> int)
    requires forall j :: 0 <= j < |right| ==> rkey(right[j]) == lkey(l)
    ensures |Matches(l, right, lkey, rkey)| == |right|
  {
    if |right| > 0 {
      MatchesAll(l, right[1..], lkey, rkey);
    }
  }

  /** Filtering a table leaves exactly the keys of the rows that pass. */
  lemma FilterKeys<T(!new)>(s: seq<T>, keep: T -> bool, key: T -> int)
    ensures Keys(Filter(s, keep), key) == set i | 0 <= i < |s| && keep(s[i]) :: key(s[i])
  {
    var r := Filter(s, keep);
    forall k | k in Keys(r, key)
      ensures k in set i | 0 <= i < |s| && keep(s[i]) :: key(s[i])
    {
      var i :| 0 <= i < |r| && key(r[i]) == k;
      assert r[i] in s;
      var j :| 0 <= j < |s| && s[j] == r[i];
    }
    forall k | k in set i | 0 <= i < |s| && keep(s[i]) :: key(s[i])
      ensures k in Keys(r, key)
    {
      var j :| 0 <= j < |s| && keep(s[j]) && key(s[j]) == k;
      assert s[j] in r;
      var i :| 0 <= i < |r| && r[i] == s[j];
    }
  }

  /** The keys of a join are the keys the two sides have in common, whether or
      not keys are unique. */
  lemma JoinKeys<L(!new), R(!new)>(left: seq<L>, right: seq<R>, lkey: L -> int, rkey: R -> int)
    ensures (set m | 0 <= m < |Join(left, right, lkey, rkey)| :: lkey(Join(left, right, lkey, rkey)[m].0)) == Keys(left, lkey) * Keys(right, rkey)
  {
    var out := Join(left, right, lkey, rkey);
    forall k | k in Keys(left, lkey) * Keys(right, rkey)
      ensures k in set m | 0 <= m < |out| :: lkey(out[m].0)
    {
      var i :| 0 <= i < |left| && lkey(left[i]) == k;
      var j :| 0 <= j < |right| && rkey(right[j]) == k;
      assert (left[i], right[j]) in out;
      var m :| 0 <= m < |out| && out[m] == (left[i], right[j]);
      assert lkey(out[m].0) == k;
    }
    forall k | k in set m | 0 <= m < |out| :: lkey(out[m].0)
      ensures k in Keys(left, lkey) * Keys(right, rkey)
    {
      var m :| 0 <= m < |out| && lkey(out[m].0) == k;
      var p := out[m];
      var i :| 0 <= i < |left| && left[i] == p.0;
      var j :| 0 <= j < |right| && right[j] == p.1;
      assert lkey(left[i]) == k;
      assert rkey(right[j]) == k;
    }
  }

  lemma {:induction false} MatchesNone<L(!new), R(!new)>(l: L, right: seq<R>, lkey: L -> int, rkey: R -> int)
    requires forall r :: r in right ==> rkey(r) != lkey(l)
    ensures Matches(l, right, lkey, rkey) == []
  {
    if |right| > 0 {
      assert right[0] in right;
      MatchesNone(l, right[1..], lkey, rkey);
    }
  }

  /** With unique keys on the right, a left row finds at most one partner. */
  lemma {:induction false} MatchesAtMostOne<L(!new), R(!new)>(l: L, right: seq<R>, lkey: L -> int, rkey: R -> int)
    requires UniqueKeys(right, rkey)
    ensures |Matches(l, right, lkey, rkey)| <= 1
  {
    if |right| > 0 {
      var rest := Matches(l, right[1..], lkey, rkey);
      assert UniqueKeys(right[1..], rkey) by {
        forall i, j | 0 <= i < j < |right[1..]|
          ensures rkey(right[1..][i]) != rkey(right[1..][j])
        {
          assert right[1..][i] == right[i + 1] && right[1..][j] == right[j + 1];
        }
      }
      if rkey(right[0]) == lkey(l) {
        forall r | r in right[1..]
          ensures rkey(r) != lkey(l)
        {
          var j :| 0 <= j < |right[1..]| && right[1..][j] == r;
          assert right[j + 1] == r;
        }
        MatchesNone(l, right[1..], lkey, rkey);
      } else {
        MatchesAtMostOne(l, right[1..], lkey, rkey);
      }
    }
  }

  /** No key occurs twice among the left halves of a sequence of joined pairs. */
  ghost predicate UniqueLeftKeys<L, R>(out: seq<(L, R)>, lkey: L -> int)
  {
    forall i, j :: 0 <= i < j < |out| ==> lkey(out[i].0) != lkey(out[j].0)
  }

  /** With unique keys on both sides, the join has unique keys too: it does not
      multiply rows. */
  lemma {:induction false} JoinUnique<L(!new), R(!new)>(left: seq<L>, right: seq<R>, lkey: L -> int, rkey: R -> int)
    requires UniqueKeys(left, lkey) && UniqueKeys(right, rkey)
    ensures UniqueLeftKeys(Join(left, right, lkey, rkey), lkey)
  {
    if |left| > 0 {
      var m := Matches(left[0], right, lkey, rkey);
      var rest := Join(left[1..], right, lkey, rkey);
      assert UniqueKeys(left[1..], lkey) by {
        forall i, j | 0 <= i < j < |left[1..]|
          ensures lkey(left[1..][i]) != lkey(left[1..][j])
        {
          assert left[1..][i] == left[i + 1] && left[1..][j] == left[j + 1];
        }
      }
      JoinUnique(left[1..], right, lkey, rkey);
      MatchesAtMostOne(left[0], right, lkey, rkey);
      var out := m + rest;
      assert UniqueLeftKeys(rest, lkey);
      forall i, j | 0 <= i < j < |out|
        ensures lkey(out[i].0) != lkey(out[j].0)
      {
        if i < |m| {
          assert j >= |m| && out[j] == rest[j - |m|];
          assert rest[j - |m|].0 in left[1..];
          assert out[i] == m[i] && out[i].0 == left[0];
          var q :| 0 <= q < |left[1..]| && left[1..][q] == rest[j - |m|].0;
          assert left[q + 1] == out[j].0;
          assert lkey(left[0]) != lkey(left[q + 1]);
          assert lkey(out[i].0) == lkey(left[0]);
          assert lkey(out[j].0) == lkey(left[q + 1]);
        } else {
          assert out[i] == rest[i - |m|] && out[j] == rest[j - |m|];
          assert lkey(rest[i - |m|].0) != lkey(rest[j - |m|].0);
        }
      }
    }
  }

  /** A described filter keeps exactly the members that pass. */
  lemma KeepsExactlyMembers<T(!new)>(r: seq<T>, s: seq<T>, keep: T -> bool)
    requires KeepsExactly(r, s, keep)
    ensures forall x :: x in r <==> x in s && keep(x)
  {
    forall x ensures x in r <==> x in s && keep(x) {
      assert x in r <==> multiset(r)[x] > 0;
      assert x in s <==> multiset(s)[x] > 0;
    }
  }

  /** Filtering cannot create a duplicate key. */
  lemma {:induction false} FilterUnique<T(!new)>(s: seq<T>, keep: T -> bool, key: T -> int)
    requires UniqueKeys(s, key)
    ensures UniqueKeys(Filter(s, keep), key)
  {
    if |s| > 0 {
      assert s == [s[0]] + s[1..];
      UniqueKeysCons(s[0], s[1..], key);
      FilterUnique(s[1..], keep, key);
      var rest := Filter(s[1..], keep);
      if keep(s[0]) {
        FilterKeys(s[1..], keep, key);
        UniqueKeysCons(s[0], rest, key);
      } else {
        assert Filter(s, keep) == rest;
      }
    }
  }

  /* ---------------------------------------------------------------------
     Index labels
     --------------------------------------------------------------------- */

  /** A table as a data frame holds it: each row paired with its index label. */
  type LabelledRows<T> = seq<(int, T)>

  function LabelOf<T>(p: (int, T)): int { p.0 }

  /** A row predicate read through the label: what a boolean mask tests. */
  function OnValue<T>(keep: T -> bool): ((int, T)) -> bool
  {
    (p: (int, T)) => keep(p.1)
  }

  /** The rows without their labels. */
  function Values<T>(rows: LabelledRows<T>): (r: seq<T>)
    ensures |r| == |rows| && forall i :: 0 <= i < |r| ==> r[i] == rows[i].1
  {
    seq(|rows|, i requires 0 <= i < |rows| => rows[i].1)
  }

  /** A freshly read table: row `i` carries label `i`. */
  function Labelled<T>(s: seq<T>): (r: LabelledRows<T>)
    ensures Values(r) == s
    ensures UniqueKeys(r, LabelOf)
    ensures forall i :: 0 <= i < |r| ==> r[i].0 == i
  {
    seq(|s|, i requires 0 <= i < |s| => (i, s[i]))
  }

  /** `column[k]` on an integer index: the value of the row carrying
      label `k`, or `None` where pandas raises `KeyError`. */
  function At<T>(rows: LabelledRows<T>, k: int): (r: Option<T>)
    ensures r.None? <==> forall i :: 0 <= i < |rows| ==> rows[i].0 != k
    ensures r.Some? ==> (k, r.value) in rows
  {
    if |rows| == 0 then None
    else if rows[0].0 == k then Some(rows[0].1)
    else
      assert forall i :: 1 <= i < |rows| ==> rows[i] == rows[1..][i - 1];
      At(rows[1..], k)
  }

  /** On a freshly read table, label `k` is row `k`. */
  lemma AtLabelled<T>(s: seq<T>, k: int)
    ensures At(Labelled(s), k) == if 0 <= k < |s| then Some(s[k]) else None
  {
    var rows := Labelled(s);
    if 0 <= k < |s| {
      assert rows[k].0 == k;
      var j :| 0 <= j < |rows| && rows[j] == (k, At(rows, k).value);
      assert Values(rows)[j] == s[j];
    }
  }

  /** A mask keeps each row's label: the values are the masked values. */
  lemma {:induction false} FilterValues<T(!new)>(rows: LabelledRows<T>, keep: T -> bool)
    ensures Values(Filter(rows, OnValue(keep))) == Filter(Values(rows), keep)
  {
    if |rows| > 0 {
      var head: seq<(int, T)> := if keep(rows[0].1) then [rows[0]] else [];
      var rest := Filter(rows[1..], OnValue(keep));
      assert OnValue(keep)(rows[0]) == keep(rows[0].1);
      assert Filter(rows, OnValue(keep)) == head + rest;
      FilterValues(rows[1..], keep);
      ValuesAppend(head, rest);
      assert Values(rows)[1..] == Values(rows[1..]);
      assert Values(rows)[0] == rows[0].1;
      assert Values(head) == if keep(rows[0].1) then [rows[0].1] else [];
    }
  }

  lemma ValuesAppend<T>(a: LabelledRows<T>, b: LabelledRows<T>)
    ensures Values(a + b) == Values(a) + Values(b)
  {
    assert forall i :: 0 <= i < |a + b| ==> Values(a + b)[i] == (Values(a) + Values(b))[i];
  }

  /** Looking a label up after a mask finds the row only if the row was
      there and passed the mask. */
  lemma {:induction false} AtAfterFilter<T(!new)>(rows: LabelledRows<T>, keep: T -> bool, k: int)
    requires UniqueKeys(rows, LabelOf)
    ensures At(Filter(rows, OnValue(keep)), k)
      == if At(rows, k).Some? && keep(At(rows, k).value) then At(rows, k) else None
  {
    if |rows| > 0 {
      var tail := rows[1..];
      var rest := Filter(tail, OnValue(keep));
      assert OnValue(keep)(rows[0]) == keep(rows[0].1);
      assert Filter(rows, OnValue(keep)) == (if keep(rows[0].1) then [rows[0]] else []) + rest;
      if rows[0].0 == k {
        if !keep(rows[0].1) {
          forall i | 0 <= i < |rest| ensures rest[i].0 != k {
            assert rest[i] in tail;
            var j :| 0 <= j < |tail| && tail[j] == rest[i];
            assert LabelOf(rows[0]) != LabelOf(rows[j + 1]);
          }
        }
      } else {
        assert UniqueKeys(tail, LabelOf) by {
          forall i, j | 0 <= i < j < |tail| ensures LabelOf(tail[i]) != LabelOf(tail[j]) {
            assert LabelOf(rows[i + 1]) != LabelOf(rows[j + 1]);
          }
        }
        AtAfterFilter(tail, keep, k);
        if keep(rows[0].1) {
          assert ([rows[0]] + rest)[1..] == rest;
        }
      }
    }
  }
}
