/**
 Book titles and the whitespace trimming applied to them before they are
 stored. Trimming follows Python's `str.strip()` with no argument: it removes
 every leading and trailing character that `str.isspace()` accepts.
 */
module Titles {

  /** A title is its own key: a plain string. */
  type Title = string

  /** The characters Python's `str.isspace()` accepts: the Unicode
      White_Space characters plus the ASCII separators U+001C..U+001F. */
  predicate IsSpace(c: char) {
    || ('\t' <= c <= '\r')
    || ('\U{1C}' <= c <= ' ')
    || c == '\U{85}'
    || c == '\U{A0}'
    || c == '\U{1680}'
    || ('\U{2000}' <= c <= '\U{200A}')
    || c == '\U{2028}'
    || c == '\U{2029}'
    || c == '\U{202F}'
    || c == '\U{205F}'
    || c == '\U{3000}'
  }

  predicate AllSpace(s: string) {
    forall k :: 0 <= k < |s| ==> IsSpace(s[k])
  }

  /** The left scan of `strip`: from `i`, the first position that does not
      hold whitespace, or `|s|` when there is none. */
  function SkipLeft(s: string, i: nat): (j: nat)
    requires i <= |s|
    ensures i <= j <= |s|
    ensures forall k :: i <= k < j ==> IsSpace(s[k])
    ensures j < |s| ==> !IsSpace(s[j])
    decreases |s| - i
  {
    if i < |s| && IsSpace(s[i]) then SkipLeft(s, i + 1) else i
  }

  /** The right scan of `strip`: moving down from `j` but not below `lo`, the
      end of the last position before `j` that does not hold whitespace. */
  function SkipRight(s: string, lo: nat, j: nat): (e: nat)
    requires lo <= j <= |s|
    ensures lo <= e <= j
    ensures forall k :: e <= k < j ==> IsSpace(s[k])
    ensures e > lo ==> !IsSpace(s[e - 1])
    decreases j
  {
    if j > lo && IsSpace(s[j - 1]) then SkipRight(s, lo, j - 1) else j
  }

  /** Where the trimmed text starts in `s`. */
  function TrimStart(s: string): nat {
    SkipLeft(s, 0)
  }

  /** Where the trimmed text ends in `s`. */
  function TrimEnd(s: string): (e: nat)
    ensures TrimStart(s) <= e <= |s|
  {
    SkipRight(s, TrimStart(s), |s|)
  }

  /** Python's `title.strip()`: the text between the two scans. */
  function Trim(s: string): (r: string)
    ensures |r| <= |s|
    ensures r == [] || (!IsSpace(r[0]) && !IsSpace(r[|r| - 1]))
  {
    s[TrimStart(s)..TrimEnd(s)]
  }

  /** Trimming cuts whitespace only: the result is the infix of `s` between
      two positions, and every character outside them is whitespace. */
  lemma TrimCutsOnlyWhitespace(s: string)
    ensures Trim(s) == s[TrimStart(s)..TrimEnd(s)]
    ensures forall k :: 0 <= k < TrimStart(s) ==> IsSpace(s[k])
    ensures forall k :: TrimEnd(s) <= k < |s| ==> IsSpace(s[k])
  {
  }

  /** A title as it is stored: non-empty and already trimmed. */
  predicate IsTitle(t: string) {
    t != [] && Trim(t) == t
  }

  /** Trimming twice is trimming once. */
  lemma TrimIdempotent(s: string)
    ensures Trim(Trim(s)) == Trim(s)
  {
    var r := Trim(s);
    if r != [] {
      assert TrimStart(r) == 0;
      assert TrimEnd(r) == |r|;
      assert r[0..|r|] == r;
    }
  }

  /** A trimmed input that is not empty is a well-formed stored title. */
  lemma TrimmedIsTitle(s: string)
    requires Trim(s) != []
    ensures IsTitle(Trim(s))
  {
    TrimIdempotent(s);
  }

  /** Trimming yields the empty string exactly for all-whitespace input. */
  lemma TrimEmptyIffAllSpace(s: string)
    ensures Trim(s) == [] <==> AllSpace(s)
  {
    var a, b := TrimStart(s), TrimEnd(s);
    if Trim(s) == [] {
      assert a == b;
      forall k | 0 <= k < |s|
        ensures IsSpace(s[k])
      {
        if k >= a {
          assert b <= k;
        }
      }
    }
    if AllSpace(s) {
      assert a == |s|;
    }
  }

  /** A stored title with whitespace on either side trims back to itself:
      `"  Dune "` and `"Dune"` are the same title on input. */
  lemma TrimPadded(front: string, t: string, back: string)
    requires AllSpace(front) && AllSpace(back)
    requires IsTitle(t)
    ensures Trim(front + t + back) == t
  {
    var s := front + t + back;
    var a := TrimStart(s);
    var e := |front| + |t|;
    assert s[|front|] == t[0];
    assert s[e - 1] == t[|t| - 1];
    assert forall k :: 0 <= k < |front| ==> s[k] == front[k];
    assert forall k :: e <= k < |s| ==> s[k] == back[k - e];
    assert a == |front|;
    assert TrimEnd(s) == e;
    assert s[|front|..e] == t;
  }
}
