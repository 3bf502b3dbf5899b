/**
 * The string operations the pipeline relies on: substring containment
 * (Python's `in` on strings), lower-casing and stripping (pandas'
 * `.str.lower()` and `.str.strip()`), and the normalisation built from them.
 * Characters are restricted to their ASCII behaviour: `lower` maps only
 * 'A'..'Z', and `strip` removes exactly the ASCII characters for which
 * Python's `str.isspace()` holds.
 */
module Text {

  /** Python's `str.isspace()` on the ASCII range: TAB, LF, VT, FF, CR, the four separators 0x1C..0x1F, and SPACE. */
  predicate IsSpace(c: char) {
    9 <= c as int <= 13 || 28 <= c as int <= 32
  }

  predicate IsUpper(c: char) {
    'A' <= c <= 'Z'
  }

  predicate IsDigit(c: char) {
    '0' <= c <= '9'
  }

  predicate AllDigits(s: string) {
    forall i :: 0 <= i < |s| ==> IsDigit(s[i])
  }

  function LowerChar(c: char): (d: char)
    ensures !IsUpper(d)
    ensures IsUpper(c) ==> d as int == c as int + 32
    ensures !IsUpper(c) ==> d == c
  {
    if IsUpper(c) then (c as int + 32) as char else c
  }

  /** `str.lower()` on ASCII letters. */
  function Lower(s: string): (r: string)
  {
    seq(|s|, i requires 0 <= i < |s| => LowerChar(s[i]))
  }

  /** The first character not removed by `lstrip()`: everything before it is whitespace. */
  function StripStart(s: string): (r: string)
    ensures |r| <= |s| && r == s[|s| - |r|..]
    ensures forall k :: 0 <= k < |s| - |r| ==> IsSpace(s[k])
    ensures r == [] || !IsSpace(r[0])
  {
    if |s| > 0 && IsSpace(s[0]) then StripStart(s[1..]) else s
  }

  /** `rstrip()`: drops the longest all-whitespace suffix. */
  function StripEnd(s: string): (r: string)
    ensures |r| <= |s| && r == s[..|r|]
    ensures forall k :: |r| <= k < |s| ==> IsSpace(s[k])
    ensures r == [] || !IsSpace(r[|r| - 1])
  {
    if |s| > 0 && IsSpace(s[|s| - 1]) then StripEnd(s[..|s| - 1]) else s
  }

  /** `r` sits at offset `i` of `s` and everything around it is whitespace. */
  ghost predicate SurroundedBySpace(s: string, r: string, i: int) {
    0 <= i <= i + |r| <= |s| && r == s[i..i + |r|] &&
    (forall k :: 0 <= k < i ==> IsSpace(s[k])) &&
    (forall k :: i + |r| <= k < |s| ==> IsSpace(s[k]))
  }

  lemma SliceOfSlice(s: string, i: nat, n: nat)
    requires i + n <= |s|
    ensures s[i..][..n] == s[i..i + n]
  {
  }

  /** `strip()`: `s` is `r` surrounded by whitespace, and `r` neither starts nor ends with whitespace. */
  function Strip(s: string): (r: string)
    ensures exists i :: SurroundedBySpace(s, r, i)
    ensures r == [] || (!IsSpace(r[0]) && !IsSpace(r[|r| - 1]))
  {
    StripSurrounded(s);
    StripEnd(StripStart(s))
  }

  /** Whitespace after offset `n` of the suffix `s[i..]` is whitespace after offset `i + n` of `s`. */
  lemma TrailingSpace(s: string, i: nat, n: nat)
    requires i + n <= |s|
    requires forall k :: n <= k < |s| - i ==> IsSpace(s[i..][k])
    ensures forall k :: i + n <= k < |s| ==> IsSpace(s[k])
  {
    forall k | i + n <= k < |s| ensures IsSpace(s[k]) {
      assert s[i..][k - i] == s[k];
    }
  }

  lemma StripSurrounded(s: string)
    ensures SurroundedBySpace(s, StripEnd(StripStart(s)), |s| - |StripStart(s)|)
  {
    var t := StripStart(s);
    var r := StripEnd(t);
    var i := |s| - |t|;
    assert t == s[i..];
    SliceOfSlice(s, i, |r|);
    TrailingSpace(s, i, |r|);
    assert r == s[i..i + |r|];
  }

  /** The join key of both tables: lower-case first, then strip. */
  function Normalize(s: string): string {
    Strip(Lower(s))
  }

  /** True when `pre` is a prefix of `s`. */
  predicate StartsWith(s: string, pre: string) {
    |pre| <= |s| && s[..|pre|] == pre
  }

  /** Python's `pat in s`, searching position by position. */
  predicate Contains(s: string, pat: string)
    decreases |s|
  {
    StartsWith(s, pat) || (|s| > 0 && Contains(s[1..], pat))
  }

  /** The window of `s` at offset `i` equals `pat`. */
  ghost predicate OccursAt(s: string, pat: string, i: int) {
    0 <= i && i + |pat| <= |s| && s[i..i + |pat|] == pat
  }

  /** Reference definition of containment: some window of `s` equals `pat`. */
  ghost predicate OccursIn(s: string, pat: string) {
    exists i :: OccursAt(s, pat, i)
  }

  /** The positional search agrees with the reference definition, in both directions. */
  lemma {:induction false} ContainsIffOccurs(s: string, pat: string)
    ensures Contains(s, pat) <==> OccursIn(s, pat)
    decreases |s|
  {
    if |s| > 0 {
      ContainsIffOccurs(s[1..], pat);
      if OccursIn(s[1..], pat) {
        var i :| OccursAt(s[1..], pat, i);
        assert i + 1 + |pat| <= |s|;
        forall k | 0 <= k < |pat| ensures s[i + 1..i + 1 + |pat|][k] == pat[k] {
          assert s[1..][i..i + |pat|][k] == pat[k];
        }
        assert OccursAt(s, pat, i + 1);
      }
      if StartsWith(s, pat) {
        assert OccursAt(s, pat, 0);
      }
      if OccursIn(s, pat) && !StartsWith(s, pat) {
        var i :| OccursAt(s, pat, i);
        assert i != 0;
        assert s[1..][i - 1..i - 1 + |pat|] == pat;
        assert OccursAt(s[1..], pat, i - 1);
      }
    } else {
      if StartsWith(s, pat) {
        assert OccursAt(s, pat, 0);
      }
      if OccursIn(s, pat) {
        var i :| OccursAt(s, pat, i);
        assert s[..|pat|] == pat;
      }
    }
  }

  /** Lower-casing twice is lower-casing once. */
  lemma LowerIdempotent(s: string)
    ensures Lower(Lower(s)) == Lower(s)
  {
  }

  /** Lower-casing leaves a string with no upper-case letter unchanged. */
  lemma LowerOfLower(s: string)
    requires forall i :: 0 <= i < |s| ==> !IsUpper(s[i])
    ensures Lower(s) == s
  {
  }

  /** Stripping a string that neither starts nor ends with whitespace changes nothing. */
  lemma StripOfStripped(s: string)
    requires s == [] || (!IsSpace(s[0]) && !IsSpace(s[|s| - 1]))
    ensures Strip(s) == s
  {
  }

  /** A normalised key holds no upper-case letter. */
  lemma NormalizedHasNoUpper(s: string)
    ensures forall k :: 0 <= k < |Normalize(s)| ==> !IsUpper(Normalize(s)[k])
  {
    var l := Lower(s);
    var n := Strip(l);
    var i :| SurroundedBySpace(l, n, i);
    forall k | 0 <= k < |n| ensures !IsUpper(n[k]) {
      assert n[k] == l[i + k];
    }
  }

  /** Normalisation is idempotent, so normalising an already normalised key is harmless. */
  lemma NormalizeIdempotent(s: string)
    ensures Normalize(Normalize(s)) == Normalize(s)
  {
    var n := Normalize(s);
    NormalizedHasNoUpper(s);
    LowerOfLower(n);
    StripOfStripped(n);
  }

  /** Lower-casing "Jane Doe" gives "jane doe", which stripping keeps. */
  lemma NormalizeJaneDoe()
    ensures Normalize("Jane Doe") == "jane doe"
  {
    var l := Lower("Jane Doe");
    assert l[0] == 'j' && l[1] == 'a' && l[2] == 'n' && l[3] == 'e';
    assert l[4] == ' ' && l[5] == 'd' && l[6] == 'o' && l[7] == 'e';
    assert l == "jane doe";
    StripOfStripped("jane doe");
  }

  /** One space on either side of a string that neither starts nor ends with whitespace is stripped away. */
  lemma StripPadded(t: string)
    requires t != [] && !IsSpace(t[0]) && !IsSpace(t[|t| - 1])
    ensures Strip([' '] + t + [' ']) == t
  {
    var s, u := [' '] + t + [' '], t + [' '];
    assert s[0] == ' ' && s[1..] == u;
    assert u[0] == t[0];
    assert StripStart(u) == u;
    assert u[|u| - 1] == ' ' && u[..|u| - 1] == t;
    assert StripEnd(t) == t;
  }

  /** Stripping " jane doe " gives "jane doe", which lower-casing keeps. */
  lemma NormalizePaddedJaneDoe()
    ensures Normalize(" jane doe ") == "jane doe"
  {
    LowerOfLower(" jane doe ");
    assert " jane doe " == [' '] + "jane doe" + [' '];
    StripPadded("jane doe");
  }

  lemma LowerJohnSmith()
    ensures Lower("John Smith") == "john smith"
  {
    var l := Lower("John Smith");
    assert l[0] == 'j' && l[1] == 'o' && l[2] == 'h' && l[3] == 'n' && l[4] == ' ';
    assert l[5] == 's' && l[6] == 'm' && l[7] == 'i' && l[8] == 't' && l[9] == 'h';
  }

  /** "John Smith" and "john smith" both normalise to "john smith". */
  lemma NormalizeJohnSmith()
    ensures Normalize("John Smith") == "john smith"
    ensures Normalize("john smith") == "john smith"
  {
    LowerJohnSmith();
    LowerOfLower("john smith");
    StripOfStripped("john smith");
  }
}
