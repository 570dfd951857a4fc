/**
 * `DataFrame(counter.items()).sort_values(by='Frequency', ascending=False)`
 * (main.py lines 135-140) and `.head(10)` (lines 145 and 156). The default
 * pandas sort is not stable, so a ranking is specified by what every admissible
 * result shares: it is a permutation of the counter's entries whose counts never
 * increase. No tie order is fixed.
 */
module Ranking {
  import opened Sequences
  import opened Frequency

  /** Number of bars drawn in each hashtag chart. */
  const ChartSize: nat := 10

  /** Counts never increase along the table. */
  predicate NonIncreasing(t: seq<Entry>) {
    forall i, j :: 0 <= i < j < |t| ==> t[i].count >= t[j].count
  }

  /** `t` is one of the tables a descending sort by count may return for `entries`. */
  ghost predicate IsRanking(t: seq<Entry>, entries: seq<Entry>) {
    multiset(t) == multiset(entries) && NonIncreasing(t)
  }

  function CountOf(e: Entry): nat {
    e.count
  }

  /** The count column of a table. */
  function Counts(t: seq<Entry>): seq<nat> {
    Project(t, CountOf)
  }

  /** Places `e` in front of the first entry whose count does not exceed its own. */
  function Insert(e: Entry, t: seq<Entry>): seq<Entry>
    decreases |t|
  {
    if t == [] || e.count >= t[0].count then [e] + t
    else [t[0]] + Insert(e, t[1..])
  }

  lemma {:induction false} InsertPermutes(e: Entry, t: seq<Entry>)
    ensures multiset(Insert(e, t)) == multiset(t) + multiset{e}
    decreases |t|
  {
    if !(t == [] || e.count >= t[0].count) {
      InsertPermutes(e, t[1..]);
      assert t == [t[0]] + t[1..];
    }
  }

  lemma {:induction false} InsertSorted(e: Entry, t: seq<Entry>)
    requires NonIncreasing(t)
    ensures NonIncreasing(Insert(e, t))
    ensures Insert(e, t)[0] == e || (t != [] && Insert(e, t)[0] == t[0])
    decreases |t|
  {
    if t == [] || e.count >= t[0].count {
      ConsNonIncreasing(e, t);
    } else {
      var r' := Insert(e, t[1..]);
      NonIncreasingTail(t);
      InsertSorted(e, t[1..]);
      assert r'[0].count <= t[0].count;
      ConsNonIncreasing(t[0], r');
    }
  }

  /** A table stays sorted after dropping its first row. */
  lemma NonIncreasingTail(t: seq<Entry>)
    requires t != [] && NonIncreasing(t)
    ensures NonIncreasing(t[1..])
  {
    forall i, j | 0 <= i < j < |t| - 1 ensures t[1..][i].count >= t[1..][j].count {
      assert t[1..][i] == t[i + 1] && t[1..][j] == t[j + 1];
    }
  }

  /** Putting a row with the largest count in front keeps a table sorted. */
  lemma ConsNonIncreasing(e: Entry, t: seq<Entry>)
    requires NonIncreasing(t) && (t == [] || e.count >= t[0].count)
    ensures NonIncreasing([e] + t)
  {
    var r := [e] + t;
    forall i, j | 0 <= i < j < |r| ensures r[i].count >= r[j].count {
      assert r[j] == t[j - 1];
      if i > 0 {
        assert r[i] == t[i - 1];
      } else if j > 1 {
        assert t[0].count >= t[j - 1].count;
      }
    }
  }

  /**
   * One admissible result of the descending sort (equal counts keep their input
   * order here); it shows that every table has a ranking. Nothing else in the
   * model depends on which tie order it picks.
   */
  function SortByCount(entries: seq<Entry>): (r: seq<Entry>)
    ensures IsRanking(r, entries)
    decreases |entries|
  {
    if entries == [] then []
    else
      var rest := SortByCount(entries[1..]);
      InsertPermutes(entries[0], rest);
      InsertSorted(entries[0], rest);
      MultisetTail(entries);
      Insert(entries[0], rest)
  }

  /** `.head(n)`: the first n rows, or the whole table when it is shorter. */
  function TopN(t: seq<Entry>, n: nat): (r: seq<Entry>)
    ensures |r| == if n < |t| then n else |t|
    ensures r == t[..|r|]
  {
    if n < |t| then t[..n] else t
  }

  /** Any ranking of the counter is itself an exact count: distinct tags, each with its number of occurrences. */
  lemma RankingTallies(t: seq<Entry>, entries: seq<Entry>, m: multiset<string>)
    requires Tallies(entries, m) && IsRanking(t, entries)
    ensures Tallies(t, m)
    ensures |t| == |entries|
  {
    assert |t| == |multiset(t)| == |entries|;
    forall i | 0 <= i < |t| ensures t[i].count == m[t[i].tag] && HasTag(entries, t[i].tag) {
      var k := IndexIn(t[i], entries);
    }
    forall x | x in m ensures HasTag(t, x) {
      var k :| 0 <= k < |entries| && entries[k].tag == x;
      var i := IndexIn(entries[k], t);
    }
    RankingDistinct(t, entries);
  }

  /** A position at which a member of a sequence occurs. */
  lemma IndexIn(e: Entry, s: seq<Entry>) returns (k: nat)
    requires e in multiset(s)
    ensures k < |s| && s[k] == e
  {
    k :| 0 <= k < |s| && s[k] == e;
  }

  /** Rearranging a table with distinct tags keeps the tags distinct. */
  lemma RankingDistinct(t: seq<Entry>, entries: seq<Entry>)
    requires DistinctTags(entries) && multiset(t) == multiset(entries)
    ensures DistinctTags(t)
  {
    assert Distinct(entries) by {
      forall i, j | 0 <= i < j < |entries| ensures entries[i] != entries[j] {
        assert entries[i].tag != entries[j].tag;
      }
    }
    DistinctIffSingleMultiplicity(entries);
    DistinctIffSingleMultiplicity(t);
    forall i, j | 0 <= i < j < |t| ensures t[i].tag != t[j].tag {
      var ki := IndexIn(t[i], entries);
      var kj := IndexIn(t[j], entries);
      assert t[i] != t[j];
    }
  }

  /** A table is sorted by count exactly when its count column is descending. */
  lemma NonIncreasingIsDescending(t: seq<Entry>)
    ensures NonIncreasing(t) <==> Descending(Counts(t))
  {
    forall i | 0 <= i < |t| ensures Counts(t)[i] == t[i].count {
      ProjectAt(t, CountOf, i);
    }
  }

  /** Rankings differ only in how they order equal counts: their count columns coincide. */
  lemma RankingsAgreeOnCounts(t1: seq<Entry>, t2: seq<Entry>, entries: seq<Entry>)
    requires IsRanking(t1, entries) && IsRanking(t2, entries)
    ensures Counts(t1) == Counts(t2)
  {
    PermutationProjects(t1, t2, CountOf);
    NonIncreasingIsDescending(t1);
    NonIncreasingIsDescending(t2);
    DescendingUnique(Counts(t1), Counts(t2));
  }

  /**
   * The first n rows of a ranking: at most n rows, no padding, taken from the
   * counter, in non-increasing count order, and no row left out has a larger
   * count than a row kept.
   */
  lemma TopNOfRanking(t: seq<Entry>, entries: seq<Entry>, n: nat)
    requires IsRanking(t, entries)
    ensures var r := TopN(t, n);
      && |r| == (if n < |entries| then n else |entries|)
      && multiset(r) <= multiset(entries)
      && NonIncreasing(r)
      && forall i, j :: 0 <= i < |r| <= j < |t| ==> r[i].count >= t[j].count
  {
    var r := TopN(t, n);
    assert |t| == |multiset(t)| == |entries|;
    assert t == r + t[|r|..];
    assert multiset(t) == multiset(r) + multiset(t[|r|..]);
  }

  /** Whatever tie order the sort picks, the chart shows the same counts. */
  lemma TopNCountsAgree(t1: seq<Entry>, t2: seq<Entry>, entries: seq<Entry>, n: nat)
    requires IsRanking(t1, entries) && IsRanking(t2, entries)
    ensures Counts(TopN(t1, n)) == Counts(TopN(t2, n))
  {
    RankingsAgreeOnCounts(t1, t2, entries);
    var r1, r2 := TopN(t1, n), TopN(t2, n);
    assert |t1| == |multiset(t1)| == |t2|;
    forall i | 0 <= i < |r1| ensures Counts(r1)[i] == Counts(r2)[i] {
      ProjectAt(r1, CountOf, i);
      ProjectAt(r2, CountOf, i);
      ProjectAt(t1, CountOf, i);
      ProjectAt(t2, CountOf, i);
    }
  }

  /** An empty table ranks to an empty table and shows no bars. */
  lemma EmptyRanking(t: seq<Entry>, n: nat)
    requires IsRanking(t, [])
    ensures TopN(t, n) == []
  {
    assert |t| == |multiset(t)| == 0;
  }
}
