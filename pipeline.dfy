/**
 * The hashtag-frequency pipeline of main.py for one class: drop rows with a
 * missing Hashtags cell (line 109), keep the rows of the class (lines 111-112),
 * take their cells in row order (lines 117 and 123), clean them into tokens
 * (lines 118 and 124), count the tokens (lines 129 and 132), sort by count
 * (lines 135-140) and keep the first ten rows (lines 145 and 156).
 */
module HashtagPipeline {
  import opened Wrappers
  import opened Sequences
  import opened TagNormalizer
  import opened Partition
  import opened Frequency
  import opened Ranking

  /** Every row has a Hashtags cell. */
  predicate AllPresent(rows: seq<Row>) {
    forall i :: 0 <= i < |rows| ==> rows[i].hashtags.Some?
  }

  /** `['Hashtags'].tolist()` on rows that all have a cell. */
  function CellsOf(rows: seq<Row>): (cells: seq<string>)
    requires AllPresent(rows)
    ensures |cells| == |rows|
    decreases |rows|
  {
    if rows == [] then [] else [rows[0].hashtags.value] + CellsOf(rows[1..])
  }

  /** The hashtag group of a class: dropna first, then the class filter. */
  function HashtagRows(top: seq<Row>, cls: string): seq<Row> {
    WithLabel(DropMissing(top), cls)
  }

  lemma {:induction false} DropMissingPresent(rows: seq<Row>)
    ensures AllPresent(DropMissing(rows))
    decreases |rows|
  {
    if rows != [] {
      DropMissingPresent(rows[1..]);
    }
  }

  lemma {:induction false} WithLabelPresent(rows: seq<Row>, cls: string)
    requires AllPresent(rows)
    ensures AllPresent(WithLabel(rows, cls))
    decreases |rows|
  {
    if rows != [] {
      WithLabelPresent(rows[1..], cls);
    }
  }

  /** `hashtags_list_*_cleaned`: all tokens of the class, row by row. */
  function HashtagTokens(top: seq<Row>, cls: string): seq<string> {
    DropMissingPresent(top);
    WithLabelPresent(DropMissing(top), cls);
    CleanCells(CellsOf(HashtagRows(top, cls)))
  }

  /** `hashtags_counter_*`: the counter of the class's tokens. */
  function HashtagCounter(top: seq<Row>, cls: string): seq<Entry> {
    CounterOf(HashtagTokens(top, cls))
  }

  /** One admissible chart table; every property below holds for all rankings. */
  function TopHashtags(top: seq<Row>, cls: string, n: nat): seq<Entry> {
    TopN(SortByCount(HashtagCounter(top, cls)), n)
  }

  lemma {:induction false} CellsOfConcat(a: seq<Row>, b: seq<Row>)
    requires AllPresent(a) && AllPresent(b)
    ensures AllPresent(a + b) && CellsOf(a + b) == CellsOf(a) + CellsOf(b)
    decreases |a|
  {
    if a == [] {
      assert a + b == b;
    } else {
      assert (a + b)[1..] == a[1..] + b;
      CellsOfConcat(a[1..], b);
    }
  }

  /** Tokens of earlier rows come first: the token list of a table is the concatenation over its rows. */
  lemma TokensConcat(a: seq<Row>, b: seq<Row>, cls: string)
    ensures HashtagTokens(a + b, cls) == HashtagTokens(a, cls) + HashtagTokens(b, cls)
  {
    FiltersConcat(a, b, cls);
    FiltersConcat(DropMissing(a), DropMissing(b), cls);
    DropMissingPresent(a);
    DropMissingPresent(b);
    WithLabelPresent(DropMissing(a), cls);
    WithLabelPresent(DropMissing(b), cls);
    CellsOfConcat(HashtagRows(a, cls), HashtagRows(b, cls));
    CleanCellsConcat(CellsOf(HashtagRows(a, cls)), CellsOf(HashtagRows(b, cls)));
  }

  /**
   * A single row contributes the tokens of its cell when it has one and is of the
   * class, and nothing otherwise; in particular a row with a missing cell never does.
   */
  lemma TokensOfRow(r: Row, cls: string)
    ensures HashtagTokens([r], cls) ==
      if r.hashtags.Some? && r.pbOrNot == cls then CleanCell(r.hashtags.value) else []
  {
    assert [r][1..] == [];
    if r.hashtags.Some? && r.pbOrNot == cls {
      assert HashtagRows([r], cls) == [r];
      assert CellsOf([r]) == [r.hashtags.value];
      assert CleanCells([r.hashtags.value]) == CleanCell(r.hashtags.value) + CleanCells([]);
    }
  }

  /**
   * A row whose cell is missing adds nothing to the tokens of its class, yet it
   * is still one of the class's rows in the metric of line 71.
   */
  lemma MissingCellStillCountedInShare(top: seq<Row>, r: Row)
    requires r.hashtags.None? && r.pbOrNot == PB
    ensures HashtagTokens(top + [r], PB) == HashtagTokens(top, PB)
    ensures |WithLabel(top + [r], PB)| == |WithLabel(top, PB)| + 1
  {
    TokensConcat(top, [r], PB);
    TokensOfRow(r, PB);
    FiltersConcat(top, [r], PB);
    assert [r][1..] == [];
  }

  /**
   * The table behind a chart: for any order the sort may pick, it has one row per
   * distinct token of the class, each with its exact number of occurrences, and the
   * counts add up to the number of tokens. The chart shows min(n, rows) of them,
   * in non-increasing count order, and no row left out has a larger count than a
   * row shown.
   */
  lemma ChartTable(top: seq<Row>, cls: string, t: seq<Entry>, n: nat)
    requires IsRanking(t, HashtagCounter(top, cls))
    ensures Tallies(t, multiset(HashtagTokens(top, cls))) && |t| == |HashtagCounter(top, cls)|
    ensures SumCounts(HashtagCounter(top, cls)) == |HashtagTokens(top, cls)|
    ensures |TopN(t, n)| == if n < |t| then n else |t|
    ensures NonIncreasing(TopN(t, n))
    ensures forall i :: 0 <= i < |TopN(t, n)| ==>
      TopN(t, n)[i].count == multiset(HashtagTokens(top, cls))[TopN(t, n)[i].tag]
    ensures forall i, j :: 0 <= i < |TopN(t, n)| <= j < |t| ==> TopN(t, n)[i].count >= t[j].count
  {
    var tokens := HashtagTokens(top, cls);
    CounterOfCounts(tokens);
    RankingTallies(t, CounterOf(tokens), multiset(tokens));
    TopNOfRanking(t, CounterOf(tokens), n);
  }

  /** The table this model computes is one of the admissible charts, so ChartTable applies to it. */
  lemma TopHashtagsIsChart(top: seq<Row>, cls: string, n: nat)
    ensures var r := TopHashtags(top, cls, n);
      && |r| == (if n < |HashtagCounter(top, cls)| then n else |HashtagCounter(top, cls)|)
      && NonIncreasing(r)
      && forall i :: 0 <= i < |r| ==> r[i].count == multiset(HashtagTokens(top, cls))[r[i].tag]
  {
    var t := SortByCount(HashtagCounter(top, cls));
    ChartTable(top, cls, t, n);
  }

  /** A class with no row that has a cell yields an empty chart, not an error. */
  lemma EmptyPartitionEmptyChart(top: seq<Row>, cls: string, t: seq<Entry>, n: nat)
    requires forall i :: 0 <= i < |top| ==> top[i].hashtags.None? || top[i].pbOrNot != cls
    requires IsRanking(t, HashtagCounter(top, cls))
    ensures HashtagTokens(top, cls) == []
    ensures TopN(t, n) == []
  {
    NoTokens(top, cls);
    EmptyRanking(t, n);
  }

  lemma {:induction false} NoTokens(top: seq<Row>, cls: string)
    requires forall i :: 0 <= i < |top| ==> top[i].hashtags.None? || top[i].pbOrNot != cls
    ensures HashtagTokens(top, cls) == []
    decreases |top|
  {
    if top != [] {
      assert top == [top[0]] + top[1..];
      TokensConcat([top[0]], top[1..], cls);
      TokensOfRow(top[0], cls);
      NoTokens(top[1..], cls);
    }
  }

  // ---------------------------------------------------------------------
  // The worked example: two PB rows and one NotPB row holding "[]".
  // ---------------------------------------------------------------------

  const Tasty: string := "맛있는"
  const Fresh: string := "신선한"

  function ExampleRows(): seq<Row> {
    [Row(PB, Some("[맛있는, 신선한]")), Row(PB, Some("[신선한]")), Row(NotPB, Some("[]"))]
  }

  lemma StripTasty()
    ensures Strip("[맛있는") == Tasty
  {
    assert "[맛있는" == "[" + Tasty + "";
    assert IsTrimmed(Tasty) by { assert Tasty[0] == '맛' && Tasty[2] == '는'; }
    StripWrapped("[", Tasty, "");
  }

  lemma FreshTrimmed()
    ensures IsTrimmed(Fresh)
  {
    assert Fresh[0] == '신' && Fresh[2] == '한';
  }

  lemma StripFresh()
    ensures Strip(" 신선한]") == Fresh
    ensures Strip("[신선한]") == Fresh
  {
    FreshTrimmed();
    assert " 신선한]" == " " + Fresh + "]";
    StripWrapped(" ", Fresh, "]");
    assert "[신선한]" == "[" + Fresh + "]";
    StripWrapped("[", Fresh, "]");
  }

  lemma ExampleFirstPieces()
    ensures CleanPieces(["[맛있는", " 신선한]"]) == [Tasty, Fresh]
  {
    assert "[맛있는" != EmptyListMarker by { assert |"[맛있는"| != |EmptyListMarker|; }
    assert " 신선한]" != EmptyListMarker by { assert |" 신선한]"| != |EmptyListMarker|; }
    CleanTwoPieces("[맛있는", " 신선한]");
    StripTasty();
    StripFresh();
  }

  lemma ExampleFirstCell()
    ensures CleanCell("[맛있는, 신선한]") == [Tasty, Fresh]
  {
    assert "[맛있는, 신선한]" == "[맛있는" + [Separator] + " 신선한]";
    SplitTwo("[맛있는", " 신선한]");
    ExampleFirstPieces();
  }

  lemma ExampleSecondCell()
    ensures CleanCell("[신선한]") == [Fresh]
  {
    var c := "[신선한]";
    assert Separator !in c;
    assert c != EmptyListMarker by { assert |c| != |EmptyListMarker|; }
    CleanSinglePieceCell(c);
    StripFresh();
  }

  lemma ExampleTokens()
    ensures HashtagTokens(ExampleRows(), PB) == [Tasty, Fresh, Fresh]
    ensures HashtagTokens(ExampleRows(), NotPB) == []
  {
    var rows := ExampleRows();
    assert rows == [rows[0]] + [rows[1]] + [rows[2]];
    TokensConcat([rows[0]] + [rows[1]], [rows[2]], PB);
    TokensConcat([rows[0]], [rows[1]], PB);
    TokensConcat([rows[0]] + [rows[1]], [rows[2]], NotPB);
    TokensConcat([rows[0]], [rows[1]], NotPB);
    TokensOfRow(rows[0], PB);
    TokensOfRow(rows[1], PB);
    TokensOfRow(rows[2], PB);
    TokensOfRow(rows[0], NotPB);
    TokensOfRow(rows[1], NotPB);
    TokensOfRow(rows[2], NotPB);
    ExampleFirstCell();
    ExampleSecondCell();
    EmptyListCell();
    assert PB != NotPB by { assert |PB| != |NotPB|; }
  }

  /** Counting x, y, y with x != y gives x once, then y twice, in first-seen order. */
  lemma CounterOfOneThenTwo(x: string, y: string)
    requires x != y
    ensures CounterOf([x, y, y]) == [Entry(x, 1), Entry(y, 2)]
  {
    assert [x][..0] == [];
    assert CounterOf([x]) == Tally([], x) == [Entry(x, 1)];
    assert [x, y][..1] == [x];
    assert Tally([Entry(x, 1)], y) == [Entry(x, 1)] + Tally([], y);
    assert CounterOf([x, y]) == [Entry(x, 1), Entry(y, 1)];
    assert [x, y, y][..2] == [x, y];
    assert Tally([Entry(x, 1), Entry(y, 1)], y) == [Entry(x, 1)] + Tally([Entry(y, 1)], y);
  }

  /** PB counts {"맛있는": 1, "신선한": 2} in first-seen order; NotPB counts nothing. */
  lemma ExampleCounters()
    ensures HashtagCounter(ExampleRows(), PB) == [Entry(Tasty, 1), Entry(Fresh, 2)]
    ensures HashtagCounter(ExampleRows(), NotPB) == []
  {
    ExampleTokens();
    assert Tasty != Fresh by { assert Tasty[0] != Fresh[0]; }
    CounterOfOneThenTwo(Tasty, Fresh);
  }

  /** Two entries with different counts have exactly one ranking: the larger first. */
  lemma TwoEntryRanking(a: Entry, b: Entry, t: seq<Entry>)
    requires a.count < b.count && IsRanking(t, [a, b])
    ensures t == [b, a]
  {
    assert |t| == |multiset(t)| == 2;
    var x, y := t[0], t[1];
    assert x in multiset(t) && y in multiset(t);
    assert x == a || x == b;
    assert y == a || y == b;
    assert x.count >= y.count;
    assert x == b;
    assert y == a;
  }

  /** Counts 2 and 1 leave the sort no choice: every ranking charts 신선한 before 맛있는. */
  lemma ExampleChart(t: seq<Entry>)
    requires IsRanking(t, HashtagCounter(ExampleRows(), PB))
    ensures TopN(t, ChartSize) == [Entry(Fresh, 2), Entry(Tasty, 1)]
  {
    ExampleCounters();
    TwoEntryRanking(Entry(Tasty, 1), Entry(Fresh, 2), t);
  }
}
