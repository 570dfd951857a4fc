/** Generic facts about sequences and multisets used by the hashtag pipeline. */
module Sequences {

  /** `a` can be obtained from `b` by deleting elements (order kept). */
  predicate IsSubsequence<T(==)>(a: seq<T>, b: seq<T>)
    decreases |b|
  {
    if a == [] then true
    else if b == [] then false
    else (a[0] == b[0] && IsSubsequence(a[1..], b[1..])) || IsSubsequence(a, b[1..])
  }

  /** No value occurs twice. */
  predicate Distinct<T(==)>(s: seq<T>) {
    forall i, j :: 0 <= i < j < |s| ==> s[i] != s[j]
  }

  /** Applies `f` to every element, keeping positions. */
  function Project<T, U>(s: seq<T>, f: T -> U): (r: seq<U>)
    ensures |r| == |s|
  {
    if s == [] then [] else [f(s[0])] + Project(s[1..], f)
  }

  /** A sequence is duplicate-free exactly when no value has multiplicity above one. */
  lemma {:induction false} DistinctIffSingleMultiplicity<T>(s: seq<T>)
    ensures Distinct(s) <==> forall x :: multiset(s)[x] <= 1
  {
    if s == [] {
    } else {
      var rest := s[1..];
      assert s == [s[0]] + rest;
      DistinctIffSingleMultiplicity(rest);
      if Distinct(s) {
        assert Distinct(rest) by {
          forall i, j | 0 <= i < j < |rest| ensures rest[i] != rest[j] {
            assert rest[i] == s[i + 1] && rest[j] == s[j + 1];
          }
        }
        assert s[0] !in rest;
        forall x ensures multiset(s)[x] <= 1 {
          assert multiset(s)[x] == multiset([s[0]])[x] + multiset(rest)[x];
        }
      } else {
        var i, j :| 0 <= i < j < |s| && s[i] == s[j];
        if i == 0 {
          assert s[j] == rest[j - 1];
          assert s[0] in multiset(rest);
          assert multiset(s)[s[0]] == 1 + multiset(rest)[s[0]];
        } else {
          assert rest[i - 1] == rest[j - 1];
          assert !Distinct(rest);
          var x :| multiset(rest)[x] > 1;
          assert multiset(s)[x] == multiset([s[0]])[x] + multiset(rest)[x];
        }
      }
    }
  }

  /** Deleting the element at `k` removes exactly one copy of it. */
  lemma {:induction false} RemoveAtMultiset<T>(b: seq<T>, k: nat)
    requires k < |b|
    ensures multiset(b[..k] + b[k + 1..]) == multiset(b) - multiset{b[k]}
  {
    assert b == b[..k] + [b[k]] + b[k + 1..];
    assert multiset(b) == multiset(b[..k]) + multiset{b[k]} + multiset(b[k + 1..]);
  }

  lemma {:induction false} ProjectConcat<T, U>(x: seq<T>, y: seq<T>, f: T -> U)
    ensures Project(x + y, f) == Project(x, f) + Project(y, f)
  {
    if x != [] {
      assert (x + y)[1..] == x[1..] + y;
      ProjectConcat(x[1..], y, f);
    } else {
      assert x + y == y;
    }
  }

  /** Projecting after deleting the element at `k` loses exactly the image of that element. */
  lemma {:induction false} ProjectRemoveAt<T, U>(b: seq<T>, k: nat, f: T -> U)
    requires k < |b|
    ensures multiset(Project(b, f)) == multiset(Project(b[..k] + b[k + 1..], f)) + multiset{f(b[k])}
  {
    var x, y := b[..k], b[k + 1..];
    assert b == x + [b[k]] + y;
    ProjectConcat(x, [b[k]], f);
    ProjectConcat(x + [b[k]], y, f);
    ProjectConcat(x, y, f);
    assert Project([b[k]], f) == [f(b[k])];
  }

  /** A permutation stays a permutation after projecting every element. */
  lemma {:induction false} PermutationProjects<T, U>(a: seq<T>, b: seq<T>, f: T -> U)
    requires multiset(a) == multiset(b)
    ensures multiset(Project(a, f)) == multiset(Project(b, f))
    decreases |a|
  {
    if a == [] {
      assert |b| == |multiset(b)| == 0;
    } else {
      assert a[0] in b by { assert a[0] in multiset(b); }
      var k :| 0 <= k < |b| && b[k] == a[0];
      var rest := b[..k] + b[k + 1..];
      RemoveAtMultiset(b, k);
      MultisetTail(a);
      assert multiset(a[1..]) == multiset(rest);
      PermutationProjects(a[1..], rest, f);
      ProjectRemoveAt(b, k, f);
      assert Project(a, f) == [f(a[0])] + Project(a[1..], f);
      assert multiset(Project(a, f)) == multiset{f(a[0])} + multiset(Project(a[1..], f));
    }
  }

  lemma {:induction false} ProjectAt<T, U>(s: seq<T>, f: T -> U, i: nat)
    requires i < |s|
    ensures Project(s, f)[i] == f(s[i])
    decreases i
  {
    if i > 0 {
      ProjectAt(s[1..], f, i - 1);
    }
  }

  /** Counts never increase from left to right. */
  predicate Descending(s: seq<nat>) {
    forall i, j :: 0 <= i < j < |s| ==> s[i] >= s[j]
  }

  /** The head of a descending sequence is its largest element. */
  lemma DescendingHeadIsMax(a: seq<nat>, x: nat)
    requires Descending(a) && x in multiset(a)
    ensures a[0] >= x
  {
    var k :| 0 <= k < |a| && a[k] == x;
  }

  lemma MultisetTail<T>(a: seq<T>)
    requires a != []
    ensures multiset(a[1..]) == multiset(a) - multiset{a[0]}
  {
    assert a == [a[0]] + a[1..];
  }

  lemma DescendingTail(a: seq<nat>)
    requires a != [] && Descending(a)
    ensures Descending(a[1..])
  {
    forall i, j | 0 <= i < j < |a[1..]| ensures a[1..][i] >= a[1..][j] {
      assert a[1..][i] == a[i + 1] && a[1..][j] == a[j + 1];
    }
  }

  /** A multiset has exactly one descending arrangement. */
  lemma {:induction false} DescendingUnique(a: seq<nat>, b: seq<nat>)
    requires multiset(a) == multiset(b) && Descending(a) && Descending(b)
    ensures a == b
    decreases |a|
  {
    assert |a| == |multiset(a)| == |multiset(b)| == |b|;
    if a != [] {
      DescendingHeads(a, b);
      var x := a[0];
      SameTails(a, b);
      DescendingTail(a);
      DescendingTail(b);
      DescendingUnique(a[1..], b[1..]);
      assert a == [x] + a[1..] && b == [x] + b[1..];
    }
  }

  /** Two descending arrangements of one multiset start with its maximum. */
  lemma DescendingHeads(a: seq<nat>, b: seq<nat>)
    requires a != [] && b != []
    requires multiset(a) == multiset(b) && Descending(a) && Descending(b)
    ensures a[0] == b[0]
  {
    var x, y := a[0], b[0];
    assert x in multiset(b) && y in multiset(a);
    DescendingHeadIsMax(b, x);
    DescendingHeadIsMax(a, y);
  }

  lemma SameTails(a: seq<nat>, b: seq<nat>)
    requires a != [] && b != [] && a[0] == b[0] && multiset(a) == multiset(b)
    ensures multiset(a[1..]) == multiset(b[1..])
  {
    MultisetTail(a);
    MultisetTail(b);
  }
}
