/**
  The two string normalisations the game applies to every word and every
  guess: upper-casing (String.toUpperCase, over ASCII) and trimming
  (String.trim, which strips every character at or below U+0020 from both
  ends).
 */
module Text {

  /** String.trim counts every character up to and including the space as blank. */
  predicate IsBlank(c: char) { c <= ' ' }

  predicate AllBlank(s: string) { forall i :: 0 <= i < |s| ==> IsBlank(s[i]) }

  predicate IsUpperLetter(c: char) { 'A' <= c <= 'Z' }

  predicate IsLowerLetter(c: char) { 'a' <= c <= 'z' }

  predicate IsLetter(c: char) { IsUpperLetter(c) || IsLowerLetter(c) }

  /** Upper-cases one character; only the ASCII letters a-z change. */
  function UpperChar(c: char): (u: char)
    ensures IsLowerLetter(c) ==> IsUpperLetter(u) && u as int - 'A' as int == c as int - 'a' as int
    ensures !IsLowerLetter(c) ==> u == c
    ensures !IsLowerLetter(u)
  {
    if IsLowerLetter(c) then (c as int - 'a' as int + 'A' as int) as char else c
  }

  function ToUpper(s: string): (r: string)
    ensures |r| == |s|
  {
    seq(|s|, i requires 0 <= i < |s| => UpperChar(s[i]))
  }

  /** The first index at or after `i` that is not blank (or |s|): String.trim's forward scan. */
  function FirstNonBlank(s: string, i: nat): (st: nat)
    requires i <= |s|
    ensures i <= st <= |s|
    ensures forall k :: i <= k < st ==> IsBlank(s[k])
    ensures st < |s| ==> !IsBlank(s[st])
    decreases |s| - i
  {
    if i < |s| && IsBlank(s[i]) then FirstNonBlank(s, i + 1) else i
  }

  /** The end of `s[st..len]` once trailing blanks are dropped: String.trim's backward scan. */
  function EndNonBlank(s: string, st: nat, len: nat): (e: nat)
    requires st <= len <= |s|
    ensures st <= e <= len
    ensures forall k :: e <= k < len ==> IsBlank(s[k])
    ensures st < e ==> !IsBlank(s[e - 1])
  {
    if st < len && IsBlank(s[len - 1]) then EndNonBlank(s, st, len - 1) else len
  }

  /** String.trim: the blank characters at both ends are removed. */
  function Trim(s: string): (r: string)
    ensures |r| <= |s|
    ensures r == [] || (!IsBlank(r[0]) && !IsBlank(r[|r| - 1]))
  {
    var st := FirstNonBlank(s, 0);
    s[st..EndNonBlank(s, st, |s|)]
  }

  /** Upper-casing distributes over concatenation. */
  lemma UpperConcat(a: string, b: string)
    ensures ToUpper(a + b) == ToUpper(a) + ToUpper(b)
  {
    assert forall i :: 0 <= i < |a + b| ==> ToUpper(a + b)[i] == (ToUpper(a) + ToUpper(b))[i];
  }

  /**
    Trim's independent characterisation: whatever is left between two blank
    runs, when it neither starts nor ends with a blank, is what Trim returns.
   */
  lemma TrimBetweenBlanks(pre: string, x: string, post: string)
    requires AllBlank(pre) && AllBlank(post)
    requires x == [] || (!IsBlank(x[0]) && !IsBlank(x[|x| - 1]))
    ensures Trim(pre + x + post) == x
  {
    var s := pre + x + post;
    var st := FirstNonBlank(s, 0);
    var e := EndNonBlank(s, st, |s|);
    if x == [] {
      assert st == |s|;
    } else {
      assert s[|pre|] == x[0];
      assert st == |pre|;
      assert s[|pre| + |x| - 1] == x[|x| - 1];
      assert e == |pre| + |x|;
      assert s[st..e] == x;
    }
  }

  /**
    The word list trims before upper-casing, the guess field upper-cases
    before trimming; over ASCII the two orders agree.
   */
  lemma TrimUpperCommute(s: string)
    ensures Trim(ToUpper(s)) == ToUpper(Trim(s))
  {
    var u := ToUpper(s);
    assert forall k :: 0 <= k < |s| ==> (IsBlank(u[k]) <==> IsBlank(s[k]));
    var st := FirstNonBlank(s, 0);
    var e := EndNonBlank(s, st, |s|);
    assert FirstNonBlank(u, 0) == st;
    assert EndNonBlank(u, st, |u|) == e;
    UpperSlice(s, st, e);
  }

  /** Upper-casing commutes with taking a slice. */
  lemma UpperSlice(s: string, a: nat, b: nat)
    requires a <= b <= |s|
    ensures ToUpper(s)[a..b] == ToUpper(s[a..b])
  {
    var u := ToUpper(s);
    assert forall k :: 0 <= k < b - a ==> u[a..b][k] == UpperChar(s[a + k]);
  }
}
