/**
  The word list: every line of the word file is split at commas, every
  piece is trimmed and upper-cased and appended in order; the secret word is
  then drawn from the resulting list.
 */
module WordPool {
  import opened Text
  import opened Wrappers

  const SEPARATOR: char := ','

  /** The piece holds no comma. */
  predicate NoSeparator(p: string) { forall k :: 0 <= k < |p| ==> p[k] != SEPARATOR }

  // ---------------------------------------------------------------------
  // String.split(",")

  /** The index of the first comma at or after `i`, or |s| when there is none. */
  function NextSeparator(s: string, i: nat): (j: nat)
    requires i <= |s|
    ensures i <= j <= |s|
    ensures forall k :: i <= k < j ==> s[k] != SEPARATOR
    ensures j < |s| ==> s[j] == SEPARATOR
    decreases |s| - i
  {
    if i == |s| || s[i] == SEPARATOR then i else NextSeparator(s, i + 1)
  }

  /** The pieces of `s[i..]` between commas, empty ones included. */
  function PiecesFrom(s: string, i: nat): (r: seq<string>)
    requires i <= |s|
    ensures |r| >= 1
    decreases |s| - i
  {
    var j := NextSeparator(s, i);
    if j == |s| then [s[i..]] else [s[i..j]] + PiecesFrom(s, j + 1)
  }

  /** Every piece between commas, empty ones included (before String.split's clean-up). */
  function SplitAll(s: string): seq<string>
  {
    PiecesFrom(s, 0)
  }

  /** The pieces written back with commas between them. */
  function Join(pieces: seq<string>): string
    requires |pieces| >= 1
  {
    if |pieces| == 1 then pieces[0] else pieces[0] + [SEPARATOR] + Join(pieces[1..])
  }

  /** How many of the first `n` pieces remain once the empty pieces at the end are dropped. */
  function KeptPieces(pieces: seq<string>, n: nat): (m: nat)
    requires n <= |pieces|
    ensures m <= n
    ensures forall k :: m <= k < n ==> pieces[k] == ""
    ensures 0 < m ==> pieces[m - 1] != ""
  {
    if 0 < n && pieces[n - 1] == "" then KeptPieces(pieces, n - 1) else n
  }

  /**
    String.split(",") with the default limit: a line without a comma is
    returned whole (even when empty); otherwise the line is cut at every
    comma and the empty pieces at the end are dropped.
   */
  function Split(line: string): (r: seq<string>)
    ensures NoSeparator(line) ==> r == [line]
  {
    if NoSeparator(line) then [line]
    else
      var all := SplitAll(line);
      all[..KeptPieces(all, |all|)]
  }

  // ---------------------------------------------------------------------
  // Normalising and loading

  /** What one piece becomes in the list: trimmed, then upper-cased. */
  function NormalizeWord(piece: string): (w: string)
    ensures |w| <= |piece|
    ensures w == [] || (!IsBlank(w[0]) && !IsBlank(w[|w| - 1]))
  {
    ToUpper(Trim(piece))
  }

  function NormalizeAll(pieces: seq<string>): (r: seq<string>)
    ensures |r| == |pieces|
  {
    seq(|pieces|, k requires 0 <= k < |pieces| => NormalizeWord(pieces[k]))
  }

  /** The words one line contributes, in comma order. */
  function LineWords(line: string): (r: seq<string>)
    ensures |r| == |Split(line)|
  {
    NormalizeAll(Split(line))
  }

  /** The lists `f` gives for the elements of `xs`, one after the other. */
  function ConcatMap<T, U>(xs: seq<T>, f: T -> seq<U>): seq<U>
  {
    if xs == [] then [] else ConcatMap(xs[..|xs| - 1], f) + f(xs[|xs| - 1])
  }

  /** The whole list loaded from `lines`, in line order and then comma order. */
  function Loaded(lines: seq<string>): seq<string>
  {
    ConcatMap(lines, LineWords)
  }

  /** The reading loop of the loader, over lines already read from the file. */
  method LoadWords(lines: seq<string>) returns (words: seq<string>)
    ensures words == Loaded(lines)
  {
    words := [];
    var n := 0;
    while n < |lines|
      invariant 0 <= n <= |lines|
      invariant words == Loaded(lines[..n])
    {
      words := AddLine(words, lines[n]);
      ConcatMapSnoc(lines[..n], lines[n], LineWords);
      assert lines[..n] + [lines[n]] == lines[..n + 1];
      n := n + 1;
    }
    assert lines[..n] == lines;
  }

  /** One pass of the loader's inner loop: the line's words, appended in order. */
  method AddLine(words: seq<string>, line: string) returns (r: seq<string>)
    ensures r == words + LineWords(line)
  {
    ghost var added := LineWords(line);
    var pieces := Split(line);
    r := words;
    for j := 0 to |pieces|
      invariant r == words + added[..j]
    {
      assert added[..j + 1] == added[..j] + [NormalizeWord(pieces[j])];
      r := r + [NormalizeWord(pieces[j])];
    }
    assert added[..|pieces|] == added;
  }

  // ---------------------------------------------------------------------
  // Choosing the secret word

  /** Picks the entry at the drawn index; the draw is always in range. */
  function SelectWord(words: seq<string>, k: nat): (w: string)
    requires k < |words|
    ensures w in words
  {
    words[k]
  }

  /**
    Start-up: an empty list gives no secret word (the game is not started);
    otherwise the word at the drawn index is the secret.
   */
  function ChooseSecret(words: seq<string>, k: nat): (r: Option<string>)
    requires words != [] ==> k < |words|
    ensures r.None? <==> words == []
    ensures r.Some? ==> r.value in words
  {
    if words == [] then None else Some(SelectWord(words, k))
  }

  // ---------------------------------------------------------------------
  // Properties of splitting

  /** Splitting at every comma and joining again gives the text back. */
  lemma {:induction false} JoinPiecesFrom(s: string, i: nat)
    requires i <= |s|
    ensures Join(PiecesFrom(s, i)) == s[i..]
    decreases |s| - i
  {
    var j := NextSeparator(s, i);
    if j < |s| {
      JoinPiecesFrom(s, j + 1);
      assert PiecesFrom(s, i)[1..] == PiecesFrom(s, j + 1);
      assert s[i..] == s[i..j] + [SEPARATOR] + s[j + 1..];
    }
  }

  lemma JoinSplitAll(s: string)
    ensures Join(SplitAll(s)) == s
  {
    JoinPiecesFrom(s, 0);
  }

  /** No piece of a split holds a comma. */
  lemma {:induction false} PiecesNoSeparator(s: string, i: nat)
    requires i <= |s|
    ensures forall k :: 0 <= k < |PiecesFrom(s, i)| ==> NoSeparator(PiecesFrom(s, i)[k])
    decreases |s| - i
  {
    var j := NextSeparator(s, i);
    assert NoSeparator(s[i..j]);
    if j < |s| {
      PiecesNoSeparator(s, j + 1);
    }
  }

  lemma SplitNoSeparator(line: string)
    ensures forall k :: 0 <= k < |Split(line)| ==> NoSeparator(Split(line)[k])
  {
    PiecesNoSeparator(line, 0);
  }

  /** The search for the next comma does not depend on the text before the start. */
  lemma {:induction false} NextSeparatorShift(x: string, y: string, i: nat)
    requires i <= |y|
    ensures NextSeparator(x + y, |x| + i) == |x| + NextSeparator(y, i)
    decreases |y| - i
  {
    if i < |y| {
      assert (x + y)[|x| + i] == y[i];
      if y[i] != SEPARATOR {
        NextSeparatorShift(x, y, i + 1);
      }
    }
  }

  /** Splitting does not depend on the text before the start. */
  lemma {:induction false} PiecesShift(x: string, y: string, i: nat)
    requires i <= |y|
    ensures PiecesFrom(x + y, |x| + i) == PiecesFrom(y, i)
    decreases |y| - i
  {
    var j := NextSeparator(y, i);
    NextSeparatorShift(x, y, i);
    SliceShift(x, y, i, j);
    if j < |y| {
      PiecesShift(x, y, j + 1);
      assert PiecesFrom(x + y, |x| + i) == [y[i..j]] + PiecesFrom(y, j + 1);
    } else {
      assert PiecesFrom(x + y, |x| + i) == [y[i..]];
    }
  }

  /** A slice of `y` is the same slice, shifted by |x|, of `x + y`. */
  lemma SliceShift(x: string, y: string, a: nat, b: nat)
    requires a <= b <= |y|
    ensures (x + y)[|x| + a..|x| + b] == y[a..b]
    ensures (x + y)[|x| + a..] == y[a..]
  {
  }

  /** A comma-free piece followed by a comma splits off as one piece. */
  lemma SplitAllPiece(p: string, t: string)
    requires NoSeparator(p)
    ensures SplitAll(p + [SEPARATOR] + t) == [p] + SplitAll(t)
  {
    NextSeparatorShift(p, [SEPARATOR] + t, 0);
    assert p == p + [];
    NextSeparatorShift([], p, 0);
    assert NextSeparator(p, 0) == |p|;
    var s := p + [SEPARATOR] + t;
    assert s == p + ([SEPARATOR] + t);
    assert s[0..|p|] == p;
    assert s == (p + [SEPARATOR]) + t;
    PiecesShift(p + [SEPARATOR], t, 0);
  }

  /** A comma-free word splits to itself. */
  lemma SplitAllWhole(p: string)
    requires NoSeparator(p)
    ensures SplitAll(p) == [p]
  {
    assert NextSeparator(p, 0) == |p|;
    assert p[0..] == p;
  }

  /** Joining comma-free pieces and splitting again gives the pieces back. */
  lemma {:induction false} SplitAllJoin(pieces: seq<string>)
    requires |pieces| >= 1
    requires forall k :: 0 <= k < |pieces| ==> NoSeparator(pieces[k])
    ensures SplitAll(Join(pieces)) == pieces
  {
    if |pieces| == 1 {
      SplitAllWhole(pieces[0]);
    } else {
      SplitAllJoin(pieces[1..]);
      SplitAllPiece(pieces[0], Join(pieces[1..]));
    }
  }

  /** The last piece of a split is empty exactly when nothing is left or the text ends in a comma. */
  lemma {:induction false} LastPieceEmpty(s: string, i: nat)
    requires i <= |s|
    ensures var r := PiecesFrom(s, i); r[|r| - 1] == "" <==> i == |s| || s[|s| - 1] == SEPARATOR
    decreases |s| - i
  {
    var j := NextSeparator(s, i);
    if j < |s| {
      LastPieceEmpty(s, j + 1);
    } else if i < |s| {
      assert s[|s| - 1] != SEPARATOR;
    }
  }

  /**
    A line that does not end in a comma loses nothing to String.split: the
    pieces are exactly the full split and join back to the line.
   */
  lemma SplitKeepsUnterminated(line: string)
    requires line != [] && line[|line| - 1] != SEPARATOR
    ensures Split(line) == SplitAll(line)
    ensures Join(Split(line)) == line
  {
    if NoSeparator(line) {
      SplitAllWhole(line);
    } else {
      LastPieceEmpty(line, 0);
    }
    JoinSplitAll(line);
  }

  /**
    When the line has a comma, String.split's pieces followed by the empty
    pieces it dropped are the full split, so joining them gives the line.
   */
  lemma SplitDropsOnlyTrailingEmpties(line: string)
    requires !NoSeparator(line)
    ensures var r := Split(line); var all := SplitAll(line);
      && all == r + all[|r|..]
      && (forall k :: |r| <= k < |all| ==> all[k] == "")
      && (r == [] || r[|r| - 1] != "")
    ensures Join(SplitAll(line)) == line
  {
    JoinSplitAll(line);
  }

  // ---------------------------------------------------------------------
  // Properties of loading

  lemma ConcatMapSnoc<T, U>(xs: seq<T>, x: T, f: T -> seq<U>)
    ensures ConcatMap(xs + [x], f) == ConcatMap(xs, f) + f(x)
  {
    assert (xs + [x])[..|xs|] == xs;
  }

  lemma {:induction false} ConcatMapConcat<T, U>(a: seq<T>, b: seq<T>, f: T -> seq<U>)
    ensures ConcatMap(a + b, f) == ConcatMap(a, f) + ConcatMap(b, f)
  {
    if b == [] {
      assert a + b == a;
    } else {
      ConcatMapConcat(a, b[..|b| - 1], f);
      assert (a + b)[..|a + b| - 1] == a + b[..|b| - 1];
      assert (a + b)[|a + b| - 1] == b[|b| - 1];
    }
  }

  lemma {:induction false} ConcatMapMembership<T, U>(xs: seq<T>, f: T -> seq<U>, u: U)
    ensures u in ConcatMap(xs, f) <==> exists i :: 0 <= i < |xs| && u in f(xs[i])
  {
    if xs != [] {
      var init := xs[..|xs| - 1];
      ConcatMapMembership(init, f, u);
      if u in ConcatMap(xs, f) && u in ConcatMap(init, f) {
        var i :| 0 <= i < |init| && u in f(init[i]);
        assert xs[i] == init[i];
      }
      if exists i :: 0 <= i < |xs| && u in f(xs[i]) {
        var i :| 0 <= i < |xs| && u in f(xs[i]);
        if i < |init| {
          assert init[i] == xs[i];
        }
      }
    }
  }

  /** Loading two files' worth of lines equals loading each and concatenating. */
  lemma LoadedConcat(a: seq<string>, b: seq<string>)
    ensures Loaded(a + b) == Loaded(a) + Loaded(b)
  {
    ConcatMapConcat(a, b, LineWords);
  }

  /** One line contributes its own normalised pieces, nothing more. */
  lemma LoadedLine(line: string)
    ensures Loaded([line]) == LineWords(line)
  {
    ConcatMapSnoc([], line, LineWords);
    assert [] + [line] == [line];
  }

  /**
    Every loaded word comes from a piece of some line, and every piece of
    every line is loaded: nothing is filtered out, empty pieces included.
   */
  lemma LoadedMembership(lines: seq<string>, w: string)
    ensures w in Loaded(lines) <==>
      exists i, j :: 0 <= i < |lines| && 0 <= j < |Split(lines[i])| && w == NormalizeWord(Split(lines[i])[j])
  {
    ConcatMapMembership(lines, LineWords, w);
    if w in Loaded(lines) {
      var i :| 0 <= i < |lines| && w in LineWords(lines[i]);
      var j :| 0 <= j < |LineWords(lines[i])| && LineWords(lines[i])[j] == w;
    }
    if exists i, j :: 0 <= i < |lines| && 0 <= j < |Split(lines[i])| && w == NormalizeWord(Split(lines[i])[j]) {
      var i, j :| 0 <= i < |lines| && 0 <= j < |Split(lines[i])| && w == NormalizeWord(Split(lines[i])[j]);
      assert LineWords(lines[i])[j] == w;
    }
  }

  /** A normalised word is trimmed, has no lower-case ASCII letter, and gains no comma. */
  lemma NormalizedWordShape(p: string)
    ensures var w := NormalizeWord(p);
      (w == [] || (!IsBlank(w[0]) && !IsBlank(w[|w| - 1])))
      && (forall k :: 0 <= k < |w| ==> !IsLowerLetter(w[k]))
      && (NoSeparator(p) ==> NoSeparator(w))
  {
    var st := FirstNonBlank(p, 0);
    var t := p[st..EndNonBlank(p, st, |p|)];
    assert forall k :: 0 <= k < |t| ==> t[k] == p[st + k];
  }

  /** Every loaded word is trimmed, has no lower-case ASCII letter and no comma. */
  lemma LoadedWordsNormalized(lines: seq<string>, w: string)
    requires w in Loaded(lines)
    ensures NoSeparator(w)
    ensures w == [] || (!IsBlank(w[0]) && !IsBlank(w[|w| - 1]))
    ensures forall k :: 0 <= k < |w| ==> !IsLowerLetter(w[k])
  {
    LoadedMembership(lines, w);
    var i, j :| 0 <= i < |lines| && 0 <= j < |Split(lines[i])| && w == NormalizeWord(Split(lines[i])[j]);
    SplitNoSeparator(lines[i]);
    NormalizedWordShape(Split(lines[i])[j]);
  }

  /** A worked line: inner empty pieces stay, the empty pieces at the end go. */
  lemma SplitExample()
    ensures Split(" crane, ,Slate ,,") == [" crane", " ", "Slate "]
  {
    var line := " crane, ,Slate ,,";
    var pieces := [" crane", " ", "Slate ", "", ""];
    assert line == Join(pieces);
    SplitAllJoin(pieces);
    assert line[6] == SEPARATOR;
    assert KeptPieces(pieces, 5) == 3;
  }

  /** A worked piece: the blanks go and the letters are upper-cased. */
  lemma NormalizeExample()
    ensures NormalizeWord(" crane ") == "CRANE"
  {
    assert " crane " == " " + "crane" + " ";
    TrimBetweenBlanks(" ", "crane", " ");
    assert ToUpper("crane") == "CRANE";
  }

  /** A blank piece becomes the empty word, which the loader keeps. */
  lemma NormalizeBlankPiece()
    ensures NormalizeWord(" ") == ""
  {
    assert FirstNonBlank(" ", 0) == 1;
  }
}
