/**
 * `Counter(tokens)` of main.py (lines 129 and 132) and its `.items()`
 * (lines 135-136): one (tag, count) entry per distinct token, in the order in
 * which tokens are first seen, built by counting tokens one at a time.
 */
module Frequency {

  /** One row of the frequency table: a hashtag and how often it occurs. */
  datatype Entry = Entry(tag: string, count: nat)

  /** No tag occurs in two entries. */
  predicate DistinctTags(entries: seq<Entry>) {
    forall i, j :: 0 <= i < j < |entries| ==> entries[i].tag != entries[j].tag
  }

  /** `t` is the tag of some entry. */
  predicate HasTag(entries: seq<Entry>, t: string) {
    exists i :: 0 <= i < |entries| && entries[i].tag == t
  }

  /** Every entry's count is the multiplicity of its tag in `m`, and the tags are exactly those of `m`. */
  ghost predicate Tallies(entries: seq<Entry>, m: multiset<string>) {
    && DistinctTags(entries)
    && (forall i :: 0 <= i < |entries| ==> entries[i].count == m[entries[i].tag])
    && (forall t :: HasTag(entries, t) <==> t in m)
  }

  /** Sum of the count column. */
  function SumCounts(entries: seq<Entry>): nat
    decreases |entries|
  {
    if entries == [] then 0 else entries[0].count + SumCounts(entries[1..])
  }

  /** `counter[t] += 1`: bump the entry for `t`, or append a new entry at the end. */
  function Tally(entries: seq<Entry>, t: string): (r: seq<Entry>)
    ensures |r| >= |entries|
    decreases |entries|
  {
    if entries == [] then [Entry(t, 1)]
    else if entries[0].tag == t then [Entry(t, entries[0].count + 1)] + entries[1..]
    else [entries[0]] + Tally(entries[1..], t)
  }

  /** `Counter(tokens)`: tally the tokens from first to last. */
  function CounterOf(tokens: seq<string>): seq<Entry>
    decreases |tokens|
  {
    if tokens == [] then [] else Tally(CounterOf(tokens[..|tokens| - 1]), tokens[|tokens| - 1])
  }

  /** Dropping the first entry leaves an exact count of the tokens other than its tag. */
  lemma TalliesRest(entries: seq<Entry>, m: multiset<string>)
    requires entries != [] && Tallies(entries, m)
    ensures Tallies(entries[1..], m[entries[0].tag := 0])
  {
    var head, rest, mr := entries[0], entries[1..], m[entries[0].tag := 0];
    forall i | 0 <= i < |rest| ensures rest[i].count == mr[rest[i].tag] {
      assert rest[i] == entries[i + 1];
    }
    forall x ensures HasTag(rest, x) <==> x in mr {
      if HasTag(rest, x) {
        var i :| 0 <= i < |rest| && rest[i].tag == x;
        assert entries[i + 1].tag == x;
      }
      if x in mr {
        var i :| 0 <= i < |entries| && entries[i].tag == x;
        assert rest[i - 1].tag == x;
      }
    }
    forall i, j | 0 <= i < j < |rest| ensures rest[i].tag != rest[j].tag {
      assert rest[i] == entries[i + 1] && rest[j] == entries[j + 1];
    }
  }

  /** Two tables with the same tag column agree on which tags they hold and on distinctness. */
  lemma SameTagColumn(a: seq<Entry>, b: seq<Entry>)
    requires |a| == |b| && forall i :: 0 <= i < |a| ==> a[i].tag == b[i].tag
    ensures forall x :: HasTag(a, x) <==> HasTag(b, x)
    ensures DistinctTags(a) <==> DistinctTags(b)
  {
    forall x ensures HasTag(a, x) <==> HasTag(b, x) {
      if HasTag(a, x) { var i :| 0 <= i < |a| && a[i].tag == x; assert b[i].tag == x; }
      if HasTag(b, x) { var i :| 0 <= i < |b| && b[i].tag == x; assert a[i].tag == x; }
    }
  }

  /** Tallying a token whose entry comes first bumps that entry. */
  lemma TallyCountsHit(entries: seq<Entry>, m: multiset<string>, t: string)
    requires Tallies(entries, m) && entries != [] && entries[0].tag == t
    ensures Tallies(Tally(entries, t), m + multiset{t})
  {
    var r := Tally(entries, t);
    var m' := m + multiset{t};
    assert r == [Entry(t, entries[0].count + 1)] + entries[1..];
    assert forall i :: 0 <= i < |r| ==> r[i].tag == entries[i].tag;
    SameTagColumn(r, entries);
    forall i | 0 <= i < |r| ensures r[i].count == m'[r[i].tag] {
      if i > 0 {
        assert r[i] == entries[i];
        assert entries[i].tag != entries[0].tag;
      }
    }
    forall x ensures HasTag(r, x) <==> x in m' {
      assert x in m' <==> x in m;
    }
  }

  /** Putting back an entry whose tag the rest does not hold restores an exact count. */
  lemma TallyCountsCons(head: Entry, tr: seq<Entry>, mr: multiset<string>, m': multiset<string>)
    requires Tallies(tr, mr) && head.tag !in mr
    requires m' == mr[head.tag := head.count] && head.count > 0
    ensures Tallies([head] + tr, m')
  {
    ConsCounts(head, tr, mr, m');
    ConsTags(head, tr, mr, m');
    ConsDistinct(head, tr, mr);
  }

  lemma ConsCounts(head: Entry, tr: seq<Entry>, mr: multiset<string>, m': multiset<string>)
    requires Tallies(tr, mr) && head.tag !in mr
    requires m' == mr[head.tag := head.count]
    ensures forall i :: 0 <= i < |[head] + tr| ==> ([head] + tr)[i].count == m'[([head] + tr)[i].tag]
  {
    var r := [head] + tr;
    forall i | 0 <= i < |r| ensures r[i].count == m'[r[i].tag] {
      if i > 0 {
        var e := tr[i - 1];
        assert r[i] == e;
        assert HasTag(tr, e.tag);
        assert e.tag != head.tag;
      }
    }
  }

  lemma ConsTags(head: Entry, tr: seq<Entry>, mr: multiset<string>, m': multiset<string>)
    requires Tallies(tr, mr) && head.tag !in mr
    requires m' == mr[head.tag := head.count] && head.count > 0
    ensures forall x :: HasTag([head] + tr, x) <==> x in m'
  {
    var r := [head] + tr;
    forall x ensures HasTag(r, x) <==> x in m' {
      if HasTag(r, x) {
        var i :| 0 <= i < |r| && r[i].tag == x;
        if i > 0 {
          assert tr[i - 1].tag == x;
          assert HasTag(tr, x);
          assert m'[x] == mr[x];
        }
      }
      if x in m' {
        if x == head.tag {
          assert r[0].tag == x;
        } else {
          assert mr[x] == m'[x];
          assert HasTag(tr, x);
          var i :| 0 <= i < |tr| && tr[i].tag == x;
          assert r[i + 1].tag == x;
        }
      }
    }
  }

  lemma ConsDistinct(head: Entry, tr: seq<Entry>, mr: multiset<string>)
    requires Tallies(tr, mr) && head.tag !in mr
    ensures DistinctTags([head] + tr)
  {
    var r := [head] + tr;
    forall i, j | 0 <= i < j < |r| ensures r[i].tag != r[j].tag {
      assert r[j] == tr[j - 1];
      assert HasTag(tr, tr[j - 1].tag);
      if i > 0 { assert r[i] == tr[i - 1]; }
    }
  }

  /** Tallying one more token keeps the table an exact count of the tokens seen so far. */
  lemma {:induction false} TallyCounts(entries: seq<Entry>, m: multiset<string>, t: string)
    requires Tallies(entries, m)
    ensures Tallies(Tally(entries, t), m + multiset{t})
    decreases |entries|
  {
    if entries == [] {
      assert m == multiset{};
      assert Tally(entries, t)[0].tag == t;
    } else if entries[0].tag == t {
      TallyCountsHit(entries, m, t);
    } else {
      var head := entries[0];
      var mr := m[head.tag := 0];
      TalliesRest(entries, m);
      TallyCounts(entries[1..], mr, t);
      assert HasTag(entries, head.tag);
      assert (m + multiset{t}) == (mr + multiset{t})[head.tag := head.count];
      TallyCountsCons(head, Tally(entries[1..], t), mr + multiset{t}, m + multiset{t});
    }
  }

  /** Tallying a token adds exactly one to the sum of counts. */
  lemma {:induction false} TallySum(entries: seq<Entry>, t: string)
    ensures SumCounts(Tally(entries, t)) == SumCounts(entries) + 1
    decreases |entries|
  {
    if entries != [] && entries[0].tag != t {
      TallySum(entries[1..], t);
      assert Tally(entries, t)[1..] == Tally(entries[1..], t);
    } else if entries != [] {
      assert Tally(entries, t)[1..] == entries[1..];
    }
  }

  /**
   * Tallying never reorders: existing entries keep their positions and tags, and a
   * token not seen before gets a new entry with count 1 at the end.
   */
  lemma {:induction false} TallyKeepsOrder(entries: seq<Entry>, t: string)
    ensures var r := Tally(entries, t);
      && |r| == (if HasTag(entries, t) then |entries| else |entries| + 1)
      && (forall i :: 0 <= i < |entries| ==> r[i].tag == entries[i].tag)
      && (!HasTag(entries, t) ==> r[|entries|] == Entry(t, 1))
    decreases |entries|
  {
    if entries != [] && entries[0].tag != t {
      TallyKeepsOrder(entries[1..], t);
      var r, rest := Tally(entries, t), entries[1..];
      assert HasTag(entries, t) <==> HasTag(rest, t) by {
        if HasTag(entries, t) {
          var i :| 0 <= i < |entries| && entries[i].tag == t;
          assert rest[i - 1].tag == t;
        }
        if HasTag(rest, t) {
          var i :| 0 <= i < |rest| && rest[i].tag == t;
          assert entries[i + 1].tag == t;
        }
      }
      forall i | 0 <= i < |entries| ensures r[i].tag == entries[i].tag {
        if i > 0 { assert r[i] == Tally(rest, t)[i - 1]; }
      }
    } else if entries != [] {
      assert HasTag(entries, t) by { assert entries[0].tag == t; }
    }
  }

  /**
   * The counter holds one entry per distinct token, each with the token's exact
   * number of occurrences, and the counts sum to the number of tokens.
   */
  lemma {:induction false} CounterOfCounts(tokens: seq<string>)
    ensures Tallies(CounterOf(tokens), multiset(tokens))
    ensures SumCounts(CounterOf(tokens)) == |tokens|
    decreases |tokens|
  {
    if tokens == [] {
    } else {
      var n := |tokens| - 1;
      var prefix := tokens[..n];
      CounterOfCounts(prefix);
      assert tokens == prefix + [tokens[n]];
      TallyCounts(CounterOf(prefix), multiset(prefix), tokens[n]);
      TallySum(CounterOf(prefix), tokens[n]);
    }
  }

  /** Index of the first occurrence of `x` in `s`. */
  function FirstIndex(s: seq<string>, x: string): (k: nat)
    requires x in s
    ensures k < |s| && s[k] == x
    decreases |s|
  {
    if s[0] == x then 0 else 1 + FirstIndex(s[1..], x)
  }

  /** No occurrence of `x` comes before FirstIndex(s, x). */
  lemma {:induction false} FirstIndexIsFirst(s: seq<string>, x: string, j: nat)
    requires x in s && j < FirstIndex(s, x)
    ensures s[j] != x
    decreases |s|
  {
    if j > 0 {
      FirstIndexIsFirst(s[1..], x, j - 1);
    }
  }

  /** Appending a token does not move the first occurrence of a token already present. */
  lemma {:induction false} FirstIndexAppend(s: seq<string>, t: string, x: string)
    requires x in s
    ensures x in s + [t] && FirstIndex(s + [t], x) == FirstIndex(s, x)
    decreases |s|
  {
    assert (s + [t])[0] == s[0];
    if s[0] != x {
      assert (s + [t])[1..] == s[1..] + [t];
      FirstIndexAppend(s[1..], t, x);
    }
  }

  /** A token seen for the first time is first seen at the end. */
  lemma {:induction false} FirstIndexOfNew(s: seq<string>, t: string)
    requires t !in s
    ensures FirstIndex(s + [t], t) == |s|
    decreases |s|
  {
    if s != [] {
      assert (s + [t])[0] == s[0] && (s + [t])[1..] == s[1..] + [t];
      FirstIndexOfNew(s[1..], t);
    }
  }

  /** Each entry's tag occurs in `tokens`, and entries are ordered by the tag's first occurrence. */
  ghost predicate FirstSeenOrder(entries: seq<Entry>, tokens: seq<string>) {
    && (forall i :: 0 <= i < |entries| ==> entries[i].tag in tokens)
    && (forall i, j :: 0 <= i < j < |entries| ==>
          FirstIndex(tokens, entries[i].tag) < FirstIndex(tokens, entries[j].tag))
  }

  /** Tallying the next token keeps the entries in first-seen order. */
  lemma TallyFirstSeen(entries: seq<Entry>, prefix: seq<string>, t: string)
    requires FirstSeenOrder(entries, prefix)
    requires !HasTag(entries, t) ==> t !in prefix
    ensures FirstSeenOrder(Tally(entries, t), prefix + [t])
  {
    var r, tokens := Tally(entries, t), prefix + [t];
    TallyKeepsOrder(entries, t);
    forall i | 0 <= i < |entries|
      ensures r[i].tag in tokens && FirstIndex(tokens, r[i].tag) == FirstIndex(prefix, entries[i].tag)
    {
      FirstIndexAppend(prefix, t, entries[i].tag);
    }
    if !HasTag(entries, t) {
      FirstIndexOfNew(prefix, t);
      assert r[|entries|].tag == t;
      assert tokens[|prefix|] == t;
    }
    forall i, j | 0 <= i < j < |r| ensures FirstIndex(tokens, r[i].tag) < FirstIndex(tokens, r[j].tag) {
      if j == |entries| {
        assert FirstIndex(tokens, r[j].tag) == |prefix|;
      }
    }
  }

  /** The entries are in first-seen order, like the keys of Python's Counter. */
  lemma {:induction false} CounterOfFirstSeenOrder(tokens: seq<string>)
    ensures FirstSeenOrder(CounterOf(tokens), tokens)
    decreases |tokens|
  {
    if tokens != [] {
      var n := |tokens| - 1;
      var prefix, t := tokens[..n], tokens[n];
      assert tokens == prefix + [t];
      CounterOfFirstSeenOrder(prefix);
      CounterOfCounts(prefix);
      assert !HasTag(CounterOf(prefix), t) ==> t !in multiset(prefix);
      TallyFirstSeen(CounterOf(prefix), prefix, t);
    }
  }
}
