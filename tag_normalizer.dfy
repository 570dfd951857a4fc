/**
 * The hashtag-cell cleaning comprehension of main.py (lines 118 and 124):
 * a cell is split on ',', a piece that is exactly "[]" is dropped, and every
 * other piece is stripped of '[', ']' and ' ' at both ends. Empty tokens
 * are NOT dropped, and only the space character counts as whitespace.
 */
module TagNormalizer {

  const Separator: char := ','
  const EmptyListMarker: string := "[]"

  // ---------------------------------------------------------------------
  // str.split(',')
  // ---------------------------------------------------------------------

  /** Python's `s.split(sep)` with an explicit separator: never empty. */
  function Split(s: string, sep: char): (r: seq<string>)
    ensures |r| >= 1
    decreases |s|
  {
    if s == [] then [""]
    else
      var rest := Split(s[1..], sep);
      if s[0] == sep then [""] + rest
      else [[s[0]] + rest[0]] + rest[1..]
  }

  /** Python's `sep.join(pieces)`. */
  function Join(pieces: seq<string>, sep: char): string
    decreases |pieces|
  {
    if pieces == [] then ""
    else if |pieces| == 1 then pieces[0]
    else pieces[0] + [sep] + Join(pieces[1..], sep)
  }

  /** Number of occurrences of `c` in `s`. */
  function Occurrences(s: string, c: char): nat {
    multiset(s)[c]
  }

  /** Splitting yields one more piece than there are separators, and no piece holds a separator. */
  lemma {:induction false} SplitShape(s: string, sep: char)
    ensures |Split(s, sep)| == Occurrences(s, sep) + 1
    ensures forall i :: 0 <= i < |Split(s, sep)| ==> sep !in Split(s, sep)[i]
    decreases |s|
  {
    if s != [] {
      SplitShape(s[1..], sep);
      assert s == [s[0]] + s[1..];
      assert multiset(s) == multiset{s[0]} + multiset(s[1..]);
      var rest := Split(s[1..], sep);
      if s[0] != sep {
        var r := Split(s, sep);
        forall i | 0 <= i < |r| ensures sep !in r[i] {
          if i > 0 {
            assert r[i] == rest[i];
          } else {
            assert r[0] == [s[0]] + rest[0];
          }
        }
      } else {
        var r := Split(s, sep);
        forall i | 0 <= i < |r| ensures sep !in r[i] {
          if i > 0 {
            assert r[i] == rest[i - 1];
          }
        }
      }
    }
  }

  /** Splitting a string that starts with `c` looks only at `c` and the rest. */
  lemma SplitCons(c: char, x: string, sep: char)
    ensures Split([c] + x, sep) ==
      if c == sep then [""] + Split(x, sep) else [[c] + Split(x, sep)[0]] + Split(x, sep)[1..]
  {
    assert ([c] + x)[1..] == x;
  }

  /** Prefixing the first piece with `c` prefixes the joined string with `c`. */
  lemma JoinConsChar(c: char, rest: seq<string>, sep: char)
    requires |rest| >= 1
    ensures Join([[c] + rest[0]] + rest[1..], sep) == [c] + Join(rest, sep)
  {
    var r := [[c] + rest[0]] + rest[1..];
    assert r[0] == [c] + rest[0] && r[1..] == rest[1..];
    if |rest| > 1 {
      assert Join(r, sep) == ([c] + rest[0]) + [sep] + Join(rest[1..], sep);
      assert Join(rest, sep) == rest[0] + [sep] + Join(rest[1..], sep);
    }
  }

  /** An empty first piece contributes only the separator that follows it. */
  lemma JoinConsEmpty(rest: seq<string>, sep: char)
    requires |rest| >= 1
    ensures Join([""] + rest, sep) == [sep] + Join(rest, sep)
  {
    var r := [""] + rest;
    assert r[0] == "" && r[1..] == rest;
  }

  /** Joining the pieces back with the separator restores the cell. */
  lemma {:induction false} JoinSplit(s: string, sep: char)
    ensures Join(Split(s, sep), sep) == s
    decreases |s|
  {
    if s != [] {
      JoinSplit(s[1..], sep);
      assert s == [s[0]] + s[1..];
      SplitCons(s[0], s[1..], sep);
      if s[0] == sep {
        JoinConsEmpty(Split(s[1..], sep), sep);
      } else {
        JoinConsChar(s[0], Split(s[1..], sep), sep);
      }
    }
  }

  /** Splitting a joined list of separator-free pieces gives the pieces back. */
  lemma {:induction false} SplitJoin(pieces: seq<string>, sep: char)
    requires |pieces| >= 1
    requires forall i :: 0 <= i < |pieces| ==> sep !in pieces[i]
    ensures Split(Join(pieces, sep), sep) == pieces
    decreases |pieces|, |pieces[0]|
  {
    var p := pieces[0];
    if p == [] {
      if |pieces| > 1 {
        var rest := pieces[1..];
        SplitJoin(rest, sep);
        assert pieces == [""] + rest;
        JoinConsEmpty(rest, sep);
        SplitCons(sep, Join(rest, sep), sep);
      }
    } else {
      var tail := [p[1..]] + pieces[1..];
      assert p[0] != sep by { assert p[0] in p; }
      forall i | 0 <= i < |tail| ensures sep !in tail[i] {
        if i == 0 {
          assert forall c :: c in p[1..] ==> c in p;
        } else {
          assert tail[i] == pieces[i];
        }
      }
      SplitJoin(tail, sep);
      assert [p[0]] + tail[0] == p && tail[1..] == pieces[1..];
      assert pieces == [[p[0]] + tail[0]] + tail[1..];
      JoinConsChar(p[0], tail, sep);
      SplitCons(p[0], Join(tail, sep), sep);
    }
  }

  // ---------------------------------------------------------------------
  // str.strip("[] ")
  // ---------------------------------------------------------------------

  /** The characters named in the argument of `strip("[] ")`. */
  predicate IsStripChar(c: char) {
    c == '[' || c == ']' || c == ' '
  }

  predicate AllStripChars(s: string) {
    forall i :: 0 <= i < |s| ==> IsStripChar(s[i])
  }

  /** No strip character at either end. */
  predicate IsTrimmed(s: string) {
    s == [] || (!IsStripChar(s[0]) && !IsStripChar(s[|s| - 1]))
  }

  /** Removes the leading run of strip characters. */
  function StripLeft(s: string): (r: string)
    ensures |r| <= |s|
    decreases |s|
  {
    if s != [] && IsStripChar(s[0]) then StripLeft(s[1..]) else s
  }

  /** Removes the trailing run of strip characters. */
  function StripRight(s: string): (r: string)
    ensures |r| <= |s|
    decreases |s|
  {
    if s != [] && IsStripChar(s[|s| - 1]) then StripRight(s[..|s| - 1]) else s
  }

  /** StripLeft leaves a suffix that does not start with a strip character, and cuts only strip characters. */
  lemma {:induction false} StripLeftShape(s: string)
    ensures StripLeft(s) == s[|s| - |StripLeft(s)|..]
    ensures AllStripChars(s[..|s| - |StripLeft(s)|])
    ensures StripLeft(s) == [] || !IsStripChar(StripLeft(s)[0])
    decreases |s|
  {
    if s != [] && IsStripChar(s[0]) {
      StripLeftShape(s[1..]);
      var n := |s| - |StripLeft(s)|;
      assert s[1..][..n - 1] == s[1..n];
      assert s[1..][n - 1..] == s[n..];
    }
  }

  /** StripRight leaves a prefix that does not end with a strip character, and cuts only strip characters. */
  lemma {:induction false} StripRightShape(s: string)
    ensures StripRight(s) == s[..|StripRight(s)|]
    ensures AllStripChars(s[|StripRight(s)|..])
    ensures StripRight(s) == [] || !IsStripChar(StripRight(s)[|StripRight(s)| - 1])
    decreases |s|
  {
    if s != [] && IsStripChar(s[|s| - 1]) {
      var t := s[..|s| - 1];
      StripRightShape(t);
      var n := |StripRight(s)|;
      assert t[..n] == s[..n];
      assert forall k :: n <= k < |t| ==> t[k] == s[k];
    }
  }

  /** Python's `s.strip("[] ")`. */
  function Strip(s: string): string {
    StripRight(StripLeft(s))
  }

  /** `r` is `s` with the strip characters before position `i` and after `r` cut away. */
  predicate CutAt(r: string, s: string, i: nat) {
    && i + |r| <= |s|
    && r == s[i..i + |r|]
    && AllStripChars(s[..i])
    && AllStripChars(s[i + |r|..])
  }

  /** `r` is `s` with a run of strip characters cut from each end, and no more can be cut. */
  ghost predicate IsStripOf(r: string, s: string) {
    IsTrimmed(r) && exists i :: CutAt(r, s, i)
  }

  /** Strip cuts only strip characters, and only from the ends, and leaves a trimmed string. */
  lemma StripIsStrip(s: string)
    ensures IsTrimmed(Strip(s))
    ensures CutAt(Strip(s), s, |s| - |StripLeft(s)|)
  {
    StripTrimmed(s);
    StripCut(s);
  }

  lemma StripTrimmed(s: string)
    ensures IsTrimmed(Strip(s))
  {
    var l := StripLeft(s);
    var r := StripRight(l);
    StripLeftShape(s);
    StripRightShape(l);
    if r != [] {
      assert r[0] == l[0];
    }
  }

  lemma StripCut(s: string)
    ensures CutAt(Strip(s), s, |s| - |StripLeft(s)|)
  {
    var l := StripLeft(s);
    StripLeftShape(s);
    StripRightShape(l);
    CutOfParts(s, l, StripRight(l), |s| - |l|);
  }

  /** A prefix of a suffix, with strip characters on both sides of it, is a cut. */
  lemma CutOfParts(s: string, l: string, r: string, i: nat)
    requires i <= |s| && l == s[i..] && |r| <= |l| && r == l[..|r|]
    requires AllStripChars(s[..i]) && AllStripChars(l[|r|..])
    ensures CutAt(r, s, i)
  {
    forall k | 0 <= k < |r| ensures r[k] == s[i + k] {
      assert r[k] == l[k];
    }
    forall k | i + |r| <= k < |s| ensures IsStripChar(s[k]) {
      assert l[|r|..][k - i - |r|] == s[k];
    }
  }

  /** Only one position can be the first character that is not a strip character. */
  lemma FirstKeptUnique(s: string, i: nat, j: nat)
    requires i < |s| && j < |s|
    requires AllStripChars(s[..i]) && AllStripChars(s[..j])
    requires !IsStripChar(s[i]) && !IsStripChar(s[j])
    ensures i == j
  {
  }

  /** Only one position can follow the last character that is not a strip character. */
  lemma LastKeptUnique(s: string, e1: nat, e2: nat)
    requires 0 < e1 <= |s| && 0 < e2 <= |s|
    requires AllStripChars(s[e1..]) && AllStripChars(s[e2..])
    requires !IsStripChar(s[e1 - 1]) && !IsStripChar(s[e2 - 1])
    ensures e1 == e2
  {
  }

  /** If a strip leaves nothing, the whole string was strip characters. */
  lemma NothingKept(s: string, i: nat)
    requires i <= |s| && AllStripChars(s[..i]) && AllStripChars(s[i..])
    ensures AllStripChars(s)
  {
    assert s == s[..i] + s[i..];
    forall k | 0 <= k < |s| ensures IsStripChar(s[k]) {
      if k < i { assert s[k] == s[..i][k]; } else { assert s[k] == s[i..][k - i]; }
    }
  }

  /** A string made only of strip characters strips to "". */
  lemma StripAllStripChars(s: string)
    requires AllStripChars(s)
    ensures Strip(s) == []
  {
    StripIsStrip(s);
    var t := Strip(s);
  }

  /** Cutting strip characters from both ends until none is left has exactly one outcome: Strip. */
  lemma StripUnique(r: string, s: string, i: nat)
    requires IsTrimmed(r) && CutAt(r, s, i)
    ensures r == Strip(s)
  {
    if r == [] {
      assert s[i + |r|..] == s[i..];
      NothingKept(s, i);
      StripAllStripChars(s);
    } else {
      StripUniqueNonEmpty(r, s, i);
    }
  }

  lemma StripUniqueNonEmpty(r: string, s: string, i: nat)
    requires r != [] && IsTrimmed(r) && CutAt(r, s, i)
    ensures r == Strip(s)
  {
    StripIsStrip(s);
    var t := Strip(s);
    var j := |s| - |StripLeft(s)|;
    if t == [] {
      NothingKept(s, j);
    } else {
      SameCut(r, t, s, i, j);
    }
  }

  /** Two non-empty trimmed cuts of the same string are the same. */
  lemma SameCut(r: string, t: string, s: string, i: nat, j: nat)
    requires r != [] && IsTrimmed(r) && CutAt(r, s, i)
    requires t != [] && IsTrimmed(t) && CutAt(t, s, j)
    ensures r == t
  {
    assert r[0] == s[i] && t[0] == s[j];
    FirstKeptUnique(s, i, j);
    assert r[|r| - 1] == s[i + |r| - 1] && t[|t| - 1] == s[j + |t| - 1];
    LastKeptUnique(s, i + |r|, j + |t|);
  }

  /** Strip is exactly "cut strip characters from both ends until neither end has one". */
  lemma StripCharacterised(r: string, s: string)
    ensures r == Strip(s) <==> IsStripOf(r, s)
  {
    StripIsStrip(s);
    if IsStripOf(r, s) {
      var i :| CutAt(r, s, i);
      StripUnique(r, s, i);
    }
  }

  /** Stripping an already stripped token changes nothing. */
  lemma StripIdempotent(s: string)
    ensures Strip(Strip(s)) == Strip(s)
  {
    var t := Strip(s);
    StripIsStrip(s);
    assert CutAt(t, t, 0) by {
      assert t == t[0..0 + |t|];
      assert AllStripChars(t[..0]) && AllStripChars(t[0 + |t|..]);
    }
    StripUnique(t, t, 0);
  }

  // ---------------------------------------------------------------------
  // [tag.strip("[] ") for tags in cells for tag in tags.split(',') if tag != '[]']
  // ---------------------------------------------------------------------

  /** Inner loop of the comprehension over the pieces of one cell. */
  function CleanPieces(pieces: seq<string>): seq<string>
    decreases |pieces|
  {
    if pieces == [] then []
    else if pieces[0] == EmptyListMarker then CleanPieces(pieces[1..])
    else [Strip(pieces[0])] + CleanPieces(pieces[1..])
  }

  /** Tokens of one hashtag cell. */
  function CleanCell(cell: string): seq<string> {
    CleanPieces(Split(cell, Separator))
  }

  /** The whole comprehension over a list of cells. */
  function CleanCells(cells: seq<string>): seq<string>
    decreases |cells|
  {
    if cells == [] then [] else CleanCell(cells[0]) + CleanCells(cells[1..])
  }

  /** The inner loop keeps the order of pieces. */
  lemma {:induction false} CleanPiecesConcat(a: seq<string>, b: seq<string>)
    ensures CleanPieces(a + b) == CleanPieces(a) + CleanPieces(b)
    decreases |a|
  {
    if a == [] {
      assert a + b == b;
    } else {
      assert (a + b)[1..] == a[1..] + b;
      CleanPiecesConcat(a[1..], b);
    }
  }

  /** A cell yields at most one token per piece. */
  lemma {:induction false} CleanPiecesLength(pieces: seq<string>)
    ensures |CleanPieces(pieces)| <= |pieces|
    decreases |pieces|
  {
    if pieces != [] {
      CleanPiecesLength(pieces[1..]);
    }
  }

  /** `t` is what the comprehension makes of some piece that is not "[]". */
  ghost predicate FromPiece(t: string, pieces: seq<string>) {
    exists k :: 0 <= k < |pieces| && pieces[k] != EmptyListMarker && t == Strip(pieces[k])
  }

  /** The token at position `i` is the strip of a piece other than "[]". */
  lemma CleanPiecesAt(pieces: seq<string>, i: nat)
    requires i < |CleanPieces(pieces)|
    ensures FromPiece(CleanPieces(pieces)[i], pieces)
  {
    var k := CleanPiecesSource(pieces, i);
  }

  /** The index of the piece the token at position `i` comes from. */
  lemma {:induction false} CleanPiecesSource(pieces: seq<string>, i: nat) returns (k: nat)
    requires i < |CleanPieces(pieces)|
    ensures k < |pieces| && pieces[k] != EmptyListMarker && CleanPieces(pieces)[i] == Strip(pieces[k])
    decreases |pieces|
  {
    assert pieces != [];
    if pieces[0] != EmptyListMarker && i == 0 {
      CleanPiecesKeep(pieces, 0);
      k := 0;
    } else {
      var j := if pieces[0] == EmptyListMarker then i else i - 1;
      CleanPiecesKeep(pieces, j);
      var k' := CleanPiecesSource(pieces[1..], j);
      k := k' + 1;
      assert pieces[k] == pieces[1..][k'];
    }
  }

  /** Where the token at position `i` sits once the first piece is set aside. */
  lemma CleanPiecesKeep(pieces: seq<string>, j: nat)
    requires pieces != []
    ensures pieces[0] == EmptyListMarker ==> CleanPieces(pieces) == CleanPieces(pieces[1..])
    ensures pieces[0] != EmptyListMarker ==>
      CleanPieces(pieces) == [Strip(pieces[0])] + CleanPieces(pieces[1..])
    ensures pieces[0] != EmptyListMarker && j < |CleanPieces(pieces[1..])| ==>
      CleanPieces(pieces)[j + 1] == CleanPieces(pieces[1..])[j]
  {
  }

  /** Every token is the strip of a piece other than "[]", hence trimmed and unchanged by a second strip. */
  lemma CleanPiecesTokens(pieces: seq<string>)
    ensures forall i :: 0 <= i < |CleanPieces(pieces)| ==>
      var t := CleanPieces(pieces)[i]; FromPiece(t, pieces) && IsTrimmed(t) && Strip(t) == t
  {
    forall i | 0 <= i < |CleanPieces(pieces)|
      ensures var t := CleanPieces(pieces)[i]; FromPiece(t, pieces) && IsTrimmed(t) && Strip(t) == t
    {
      CleanPiecesAt(pieces, i);
      var k :| 0 <= k < |pieces| && pieces[k] != EmptyListMarker && CleanPieces(pieces)[i] == Strip(pieces[k]);
      StripIsStrip(pieces[k]);
      StripIdempotent(pieces[k]);
    }
  }

  /** Stripping never introduces a character. */
  lemma StripKeepsOnly(p: string, c: char)
    requires c !in p
    ensures c !in Strip(p)
  {
    StripIsStrip(p);
    var i := |p| - |StripLeft(p)|;
    assert Strip(p) == p[i..i + |Strip(p)|];
  }

  /** Tokens carry no separator, since pieces carry none and stripping only cuts. */
  lemma CleanPiecesNoSeparator(pieces: seq<string>, sep: char)
    requires forall i :: 0 <= i < |pieces| ==> sep !in pieces[i]
    ensures forall i :: 0 <= i < |CleanPieces(pieces)| ==> sep !in CleanPieces(pieces)[i]
  {
    forall i | 0 <= i < |CleanPieces(pieces)| ensures sep !in CleanPieces(pieces)[i] {
      CleanPiecesAt(pieces, i);
      var k :| 0 <= k < |pieces| && pieces[k] != EmptyListMarker && CleanPieces(pieces)[i] == Strip(pieces[k]);
      StripKeepsOnly(pieces[k], sep);
    }
  }

  /**
   * One cell: at most (number of commas + 1) tokens, each trimmed, unchanged by a
   * second strip, comma-free, and each the strip of a piece other than "[]".
   */
  lemma CleanCellShape(cell: string)
    ensures |CleanCell(cell)| <= Occurrences(cell, Separator) + 1
    ensures forall i :: 0 <= i < |CleanCell(cell)| ==>
      var t := CleanCell(cell)[i];
      IsTrimmed(t) && Strip(t) == t && Separator !in t && FromPiece(t, Split(cell, Separator))
  {
    SplitShape(cell, Separator);
    CleanPiecesLength(Split(cell, Separator));
    CleanPiecesTokens(Split(cell, Separator));
    CleanPiecesNoSeparator(Split(cell, Separator), Separator);
  }

  /** Tokens of earlier cells come first, each cell's tokens in split order. */
  lemma {:induction false} CleanCellsConcat(a: seq<string>, b: seq<string>)
    ensures CleanCells(a + b) == CleanCells(a) + CleanCells(b)
    decreases |a|
  {
    if a == [] {
      assert a + b == b;
    } else {
      assert (a + b)[1..] == a[1..] + b;
      CleanCellsConcat(a[1..], b);
    }
  }

  /** A string without a separator is a single piece. */
  lemma {:induction false} SplitNoSeparator(s: string, sep: char)
    requires sep !in s
    ensures Split(s, sep) == [s]
    decreases |s|
  {
    if s != [] {
      assert forall c :: c in s[1..] ==> c in s;
      SplitNoSeparator(s[1..], sep);
      assert [s[0]] + s[1..] == s;
    }
  }

  /** The cell "[]" contributes nothing. */
  lemma EmptyListCell()
    ensures CleanCell(EmptyListMarker) == []
  {
    SplitNoSeparator(EmptyListMarker, Separator);
    assert Split(EmptyListMarker, Separator) == [EmptyListMarker];
    assert [EmptyListMarker][1..] == [];
    assert CleanPieces([EmptyListMarker]) == CleanPieces([]);
  }

  /** A piece other than "[]" yields its strip. */
  lemma CleanOnePiece(p: string)
    requires p != EmptyListMarker
    ensures CleanPieces([p]) == [Strip(p)]
  {
    assert [p][1..] == [];
  }

  /**
   * Every piece contributes in place: a piece other than "[]" puts its strip
   * between the tokens of the pieces before and after it, and "[]" puts nothing.
   */
  lemma CleanPiecesInPlace(a: seq<string>, p: string, b: seq<string>)
    ensures p != EmptyListMarker ==> CleanPieces(a + [p] + b) == CleanPieces(a) + [Strip(p)] + CleanPieces(b)
    ensures p == EmptyListMarker ==> CleanPieces(a + [p] + b) == CleanPieces(a) + CleanPieces(b)
  {
    CleanPiecesConcat(a + [p], b);
    CleanPiecesConcat(a, [p]);
    if p != EmptyListMarker {
      CleanOnePiece(p);
    } else {
      assert [p][1..] == [];
      assert CleanPieces([p]) == [];
    }
  }

  lemma CleanTwoPieces(p: string, q: string)
    requires p != EmptyListMarker && q != EmptyListMarker
    ensures CleanPieces([p, q]) == [Strip(p), Strip(q)]
  {
    assert [p, q][0] == p && [p, q][1..] == [q];
    CleanOnePiece(q);
  }

  /** A cell without a comma that is not "[]" yields exactly its strip. */
  lemma CleanSinglePieceCell(cell: string)
    requires Separator !in cell && cell != EmptyListMarker
    ensures CleanCell(cell) == [Strip(cell)]
  {
    SplitNoSeparator(cell, Separator);
    CleanOnePiece(cell);
  }

  /** A word wrapped in strip characters strips to the word. */
  lemma StripWrapped(pre: string, w: string, post: string)
    requires AllStripChars(pre) && AllStripChars(post) && IsTrimmed(w)
    ensures Strip(pre + w + post) == w
  {
    var s := pre + w + post;
    assert s[..|pre|] == pre;
    assert s[|pre|..|pre| + |w|] == w;
    assert s[|pre| + |w|..] == post;
    StripUnique(w, s, |pre|);
  }

  /**
   * The marker test happens before stripping: a cell made only of '[', ']' and
   * ' ' that is not exactly "[]" yields one empty token.
   */
  lemma MarkerLikeCell(cell: string)
    requires AllStripChars(cell) && cell != EmptyListMarker
    ensures CleanCell(cell) == [""]
  {
    assert Separator !in cell by {
      forall i | 0 <= i < |cell| ensures cell[i] != Separator {
        assert IsStripChar(cell[i]);
      }
    }
    CleanSinglePieceCell(cell);
    StripAllStripChars(cell);
  }

  /** A cell with one comma splits into the text before it and the text after it. */
  lemma SplitTwo(p: string, q: string)
    requires Separator !in p && Separator !in q
    ensures Split(p + [Separator] + q, Separator) == [p, q]
  {
    var pieces := [p, q];
    SplitJoin(pieces, Separator);
    assert pieces[1..] == [q];
  }

  lemma CleanPiecesExample()
    ensures CleanPieces(["[a", " ]"]) == ["a", ""]
  {
    var p, q := "[a", " ]";
    assert p != EmptyListMarker by { assert p[1] != EmptyListMarker[1]; }
    assert q != EmptyListMarker by { assert q[0] != EmptyListMarker[0]; }
    CleanTwoPieces(p, q);
    StripExampleWord();
    StripExampleBlank();
  }

  lemma StripExampleWord()
    ensures Strip("[a") == "a"
  {
    assert "[a" == "[" + "a" + "";
    StripWrapped("[", "a", "");
  }

  lemma StripExampleBlank()
    ensures Strip(" ]") == ""
  {
    var q := " ]";
    assert AllStripChars(q) by { assert IsStripChar(q[0]) && IsStripChar(q[1]); }
    StripAllStripChars(q);
  }

  /** Empty tokens survive: a trailing blank piece yields "". */
  lemma TrailingBlankPieceKept()
    ensures CleanCell("[a, ]") == ["a", ""]
  {
    assert "[a, ]" == "[a" + [Separator] + " ]";
    SplitTwo("[a", " ]");
    CleanPiecesExample();
  }

  /** A padded marker is not the marker, so it yields "". */
  lemma PaddedMarkerKept()
    ensures CleanCell(" []") == [""]
    ensures CleanCell("[ ]") == [""]
  {
    var a, b := " []", "[ ]";
    assert AllStripChars(a) by { assert IsStripChar(a[0]) && IsStripChar(a[1]) && IsStripChar(a[2]); }
    assert AllStripChars(b) by { assert IsStripChar(b[0]) && IsStripChar(b[1]) && IsStripChar(b[2]); }
    assert a != EmptyListMarker && b != EmptyListMarker by {
      assert |a| != |EmptyListMarker| && |b| != |EmptyListMarker|;
    }
    MarkerLikeCell(a);
    MarkerLikeCell(b);
  }
}
