/**
 * The row filters of main.py: `top[top['PB or Not'] == cls]` (lines 59-60),
 * `top.dropna(subset=['Hashtags'])` (line 109) followed by the same class
 * filters (lines 111-112), and the PB share shown as a metric (line 71).
 */
module Partition {
  import opened Wrappers
  import opened Sequences

  const PB: string := "PB"
  const NotPB: string := "NotPB"

  /** A row of the top-20% table, reduced to the two columns the pipeline reads. */
  datatype Row = Row(pbOrNot: string, hashtags: Option<string>)

  /** Boolean-mask filter on exact equality of the class column; row order is kept. */
  function WithLabel(rows: seq<Row>, cls: string): (r: seq<Row>)
    ensures |r| <= |rows|
    decreases |rows|
  {
    if rows == [] then []
    else
      var rest := WithLabel(rows[1..], cls);
      if rows[0].pbOrNot == cls then [rows[0]] + rest else rest
  }

  /** `dropna(subset=['Hashtags'])`: rows whose cell is missing are dropped; row order is kept. */
  function DropMissing(rows: seq<Row>): (r: seq<Row>)
    ensures |r| <= |rows|
    decreases |rows|
  {
    if rows == [] then []
    else
      var rest := DropMissing(rows[1..]);
      if rows[0].hashtags.Some? then [rows[0]] + rest else rest
  }

  /**
   * The class filter keeps the rows of that class, each as often as it occurs,
   * and no other row, in their original order.
   */
  lemma {:induction false} WithLabelSpec(rows: seq<Row>, cls: string)
    ensures IsSubsequence(WithLabel(rows, cls), rows)
    ensures forall x :: multiset(WithLabel(rows, cls))[x] == if x.pbOrNot == cls then multiset(rows)[x] else 0
    decreases |rows|
  {
    if rows != [] {
      WithLabelSpec(rows[1..], cls);
      assert rows == [rows[0]] + rows[1..];
    }
  }

  /** dropna keeps the rows whose cell is present, each as often as it occurs, in their original order. */
  lemma {:induction false} DropMissingSpec(rows: seq<Row>)
    ensures IsSubsequence(DropMissing(rows), rows)
    ensures forall x :: multiset(DropMissing(rows))[x] == if x.hashtags.Some? then multiset(rows)[x] else 0
    decreases |rows|
  {
    if rows != [] {
      DropMissingSpec(rows[1..]);
      assert rows == [rows[0]] + rows[1..];
    }
  }

  /** The PB share of line 71 as a fraction (PB rows, all rows); None where Python divides by zero. */
  function PbShare(top: seq<Row>): (r: Option<(nat, nat)>)
    ensures r.None? <==> top == []
    ensures r.Some? ==> r.value.0 <= r.value.1 && r.value.1 == |top|
  {
    if top == [] then None
    else
      PartitionBounded(top);
      Some((|WithLabel(top, PB)|, |top|))
  }

  /** The rows a filter keeps and the rows it drops together make up the input. */
  lemma {:induction false} LabelSplit(rows: seq<Row>, cls: string)
    ensures |WithLabel(rows, cls)| <= |rows|
    ensures |WithLabel(rows, cls)| == |rows| <==> forall i :: 0 <= i < |rows| ==> rows[i].pbOrNot == cls
    decreases |rows|
  {
    if rows != [] {
      LabelSplit(rows[1..], cls);
      if rows[0].pbOrNot == cls {
        assert forall i :: 0 < i < |rows| ==> rows[i] == rows[1..][i - 1];
      }
    }
  }

  /**
   * The PB and NotPB groups share no row, and together hold at most all rows;
   * they hold every row exactly when every row is labelled PB or NotPB.
   */
  lemma PartitionBounded(rows: seq<Row>)
    ensures multiset(WithLabel(rows, PB)) * multiset(WithLabel(rows, NotPB)) == multiset{}
    ensures multiset(WithLabel(rows, PB)) + multiset(WithLabel(rows, NotPB)) <= multiset(rows)
    ensures |WithLabel(rows, PB)| + |WithLabel(rows, NotPB)| <= |rows|
    ensures (multiset(WithLabel(rows, PB)) + multiset(WithLabel(rows, NotPB)) == multiset(rows))
        <==> forall i :: 0 <= i < |rows| ==> rows[i].pbOrNot in {PB, NotPB}
  {
    var p, n := multiset(WithLabel(rows, PB)), multiset(WithLabel(rows, NotPB));
    WithLabelSpec(rows, PB);
    WithLabelSpec(rows, NotPB);
    assert PB != NotPB by { assert |PB| != |NotPB|; }
    GroupsDisjoint(p, n, rows);
    GroupsWithin(p, n, rows);
    GroupsCover(p, n, rows);
    MultisetSubsetSize(p + n, multiset(rows));
  }

  lemma GroupsDisjoint(p: multiset<Row>, n: multiset<Row>, rows: seq<Row>)
    requires PB != NotPB
    requires forall x :: p[x] == if x.pbOrNot == PB then multiset(rows)[x] else 0
    requires forall x :: n[x] == if x.pbOrNot == NotPB then multiset(rows)[x] else 0
    ensures p * n == multiset{}
  {
    forall x ensures (p * n)[x] == 0 {
    }
  }

  lemma GroupsWithin(p: multiset<Row>, n: multiset<Row>, rows: seq<Row>)
    requires PB != NotPB
    requires forall x :: p[x] == if x.pbOrNot == PB then multiset(rows)[x] else 0
    requires forall x :: n[x] == if x.pbOrNot == NotPB then multiset(rows)[x] else 0
    ensures p + n <= multiset(rows)
  {
    forall x ensures (p + n)[x] <= multiset(rows)[x] {
    }
  }

  lemma GroupsCover(p: multiset<Row>, n: multiset<Row>, rows: seq<Row>)
    requires PB != NotPB
    requires forall x :: p[x] == if x.pbOrNot == PB then multiset(rows)[x] else 0
    requires forall x :: n[x] == if x.pbOrNot == NotPB then multiset(rows)[x] else 0
    ensures p + n == multiset(rows) <==> forall i :: 0 <= i < |rows| ==> rows[i].pbOrNot in {PB, NotPB}
  {
    if forall i :: 0 <= i < |rows| ==> rows[i].pbOrNot in {PB, NotPB} {
      forall x ensures (p + n)[x] == multiset(rows)[x] {
        if x in multiset(rows) {
          var i :| 0 <= i < |rows| && rows[i] == x;
        }
      }
    } else {
      var i :| 0 <= i < |rows| && rows[i].pbOrNot !in {PB, NotPB};
      assert (p + n)[rows[i]] == 0;
      assert rows[i] in multiset(rows);
    }
  }

  lemma MultisetSubsetSize<T>(a: multiset<T>, b: multiset<T>)
    requires a <= b
    ensures |a| <= |b|
  {
    assert b == a + (b - a);
  }

  /** A row with a missing cell is in neither hashtag group; any other row keeps its class. */
  lemma HashtagGroups(rows: seq<Row>, cls: string, x: Row)
    ensures x in WithLabel(DropMissing(rows), cls) <==> x in rows && x.hashtags.Some? && x.pbOrNot == cls
  {
    var r := WithLabel(DropMissing(rows), cls);
    DropMissingSpec(rows);
    WithLabelSpec(DropMissing(rows), cls);
    assert x in r <==> x in multiset(r);
    assert x in rows <==> x in multiset(rows);
  }

  /** Both filters distribute over concatenation, so groups keep the table's row order. */
  lemma FiltersConcat(a: seq<Row>, b: seq<Row>, cls: string)
    ensures WithLabel(a + b, cls) == WithLabel(a, cls) + WithLabel(b, cls)
    ensures DropMissing(a + b) == DropMissing(a) + DropMissing(b)
  {
    WithLabelConcat(a, b, cls);
    DropMissingConcat(a, b);
  }

  lemma {:induction false} WithLabelConcat(a: seq<Row>, b: seq<Row>, cls: string)
    ensures WithLabel(a + b, cls) == WithLabel(a, cls) + WithLabel(b, cls)
    decreases |a|
  {
    if a == [] {
      assert a + b == b;
    } else {
      assert (a + b)[0] == a[0] && (a + b)[1..] == a[1..] + b;
      WithLabelConcat(a[1..], b, cls);
    }
  }

  lemma {:induction false} DropMissingConcat(a: seq<Row>, b: seq<Row>)
    ensures DropMissing(a + b) == DropMissing(a) + DropMissing(b)
    decreases |a|
  {
    if a == [] {
      assert a + b == b;
    } else {
      assert (a + b)[0] == a[0] && (a + b)[1..] == a[1..] + b;
      DropMissingConcat(a[1..], b);
    }
  }
}
