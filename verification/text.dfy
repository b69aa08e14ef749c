/** Character-level text helpers: Foundation's `whitespacesAndNewlines`
    character set, `trimmingCharacters(in:)`, and the substring test behind
    `String.contains`. Strings are sequences of Unicode scalar values; Swift's
    grapheme clusters are not modelled. */
module Text {

  /** Membership in `CharacterSet.whitespacesAndNewlines`: Unicode general
      category Z (space, line and paragraph separators), tab, U+000A through
      U+000D, and U+0085. */
  predicate IsWhitespaceOrNewline(c: char)
  {
    || c == ' ' || c == '\t' || c == '\n' || c == '\U{000B}' || c == '\U{000C}' || c == '\r'
    || c == '\U{0085}' || c == '\U{00A0}' || c == '\U{1680}'
    || ('\U{2000}' <= c <= '\U{200A}')
    || c == '\U{2028}' || c == '\U{2029}' || c == '\U{202F}' || c == '\U{205F}'
    || c == '\U{3000}'
  }

  /** Every character of `s` is whitespace or a newline (true of ""). */
  predicate IsBlank(s: string)
  {
    forall i :: 0 <= i < |s| ==> IsWhitespaceOrNewline(s[i])
  }

  /** Length of the longest all-whitespace prefix of `s`. */
  function LeadingBlanks(s: string): (n: nat)
    ensures n <= |s|
    ensures forall i :: 0 <= i < n ==> IsWhitespaceOrNewline(s[i])
    ensures n < |s| ==> !IsWhitespaceOrNewline(s[n])
  {
    if |s| == 0 || !IsWhitespaceOrNewline(s[0]) then 0
    else 1 + LeadingBlanks(s[1..])
  }

  /** Length of the longest all-whitespace suffix of `s`. */
  function TrailingBlanks(s: string): (n: nat)
    ensures n <= |s|
    ensures forall i :: |s| - n <= i < |s| ==> IsWhitespaceOrNewline(s[i])
    ensures n < |s| ==> !IsWhitespaceOrNewline(s[|s| - n - 1])
  {
    if |s| == 0 || !IsWhitespaceOrNewline(s[|s| - 1]) then 0
    else 1 + TrailingBlanks(s[..|s| - 1])
  }

  /** `s.trimmingCharacters(in: .whitespacesAndNewlines)`: `s` without its
      leading and trailing whitespace. */
  function Trim(s: string): (r: string)
    ensures |r| <= |s|
    // a middle slice of `s` with only whitespace cut off either side ...
    ensures exists i, j :: 0 <= i <= j <= |s| && r == s[i..j] && IsBlank(s[..i]) && IsBlank(s[j..])
    // ... and no whitespace left at either end
    ensures |r| > 0 ==> !IsWhitespaceOrNewline(r[0]) && !IsWhitespaceOrNewline(r[|r| - 1])
  {
    var i := LeadingBlanks(s);
    var t := s[i..];
    var m := TrailingBlanks(t);
    var r := t[..|t| - m];
    BlankPrefix(s, i);
    BlankSuffix(s, i, |s| - m);
    assert r == s[i..|s| - m];
    assert |r| > 0 ==> r[0] == s[i] && r[|r| - 1] == t[|t| - m - 1];
    r
  }

  /** The leading blanks form a blank prefix. */
  lemma BlankPrefix(s: string, n: nat)
    requires n == LeadingBlanks(s)
    ensures IsBlank(s[..n])
  {
    forall k | 0 <= k < n ensures IsWhitespaceOrNewline(s[..n][k]) {
      assert s[..n][k] == s[k];
    }
  }

  /** The trailing blanks of `s[i..]` form a blank suffix of `s`. */
  lemma BlankSuffix(s: string, i: nat, j: nat)
    requires i <= |s| && j == |s| - TrailingBlanks(s[i..])
    ensures i <= j && IsBlank(s[j..])
  {
    var t := s[i..];
    forall k | 0 <= k < |s| - j ensures IsWhitespaceOrNewline(s[j..][k]) {
      assert s[j..][k] == t[|t| - TrailingBlanks(t) + k];
    }
  }

  /** The two ends of `Trim` pin it down: a slice `s[i..j]` with only
      whitespace outside it and none at its ends is the trimmed text. */
  lemma TrimCharacterised(s: string, i: int, j: int)
    requires 0 <= i <= j <= |s| && IsBlank(s[..i]) && IsBlank(s[j..])
    requires i < j ==> !IsWhitespaceOrNewline(s[i]) && !IsWhitespaceOrNewline(s[j - 1])
    ensures Trim(s) == s[i..j]
  {
    var n := LeadingBlanks(s);
    var t := s[n..];
    var m := TrailingBlanks(t);
    forall k | 0 <= k < i ensures IsWhitespaceOrNewline(s[k]) {
      assert s[k] == s[..i][k];
    }
    forall k | j <= k < |s| ensures IsWhitespaceOrNewline(s[k]) {
      assert s[k] == s[j..][k - j];
    }
    if i < j {
      assert n == i;
      assert t[j - 1 - n] == s[j - 1];
      assert m < |t|;
      assert t[|t| - m - 1] == s[|s| - m - 1];
      assert |s| - m == j;
    } else {
      assert IsBlank(s);
      TrimEmptyIffBlank(s);
    }
  }

  /** The trimmed text is empty exactly when the text is blank, so the guard
      of `performSearch` rejects exactly the whitespace-only queries. */
  lemma TrimEmptyIffBlank(s: string)
    ensures |Trim(s)| == 0 <==> IsBlank(s)
  {
    var n := LeadingBlanks(s);
    var t := s[n..];
    if n < |s| {
      assert !IsWhitespaceOrNewline(t[0]);
      assert TrailingBlanks(t) < |t|;
    }
  }

  /** `needle` occurs in `hay` starting at index `i`. */
  predicate OccursAt(hay: string, needle: string, i: nat)
  {
    i + |needle| <= |hay| && hay[i..i + |needle|] == needle
  }

  /** `hay.contains(needle)`: some position of `hay` starts a copy of `needle`. */
  function Contains(hay: string, needle: string): (r: bool)
    ensures r <==> exists i: nat :: OccursAt(hay, needle, i)
  {
    if needle <= hay then
      assert OccursAt(hay, needle, 0);
      true
    else if |hay| == 0 then
      assert forall i: nat :: !OccursAt(hay, needle, i);
      false
    else
      var r := Contains(hay[1..], needle);
      assert forall i: nat :: OccursAt(hay, needle, i + 1) <==> OccursAt(hay[1..], needle, i) by {
        forall i: nat ensures OccursAt(hay, needle, i + 1) <==> OccursAt(hay[1..], needle, i) {
          if i + 1 + |needle| <= |hay| {
            assert hay[i + 1..i + 1 + |needle|] == hay[1..][i..i + |needle|];
          }
        }
      }
      assert !OccursAt(hay, needle, 0);
      assert r ==> exists i: nat :: OccursAt(hay, needle, i) by {
        if r {
          var i: nat :| OccursAt(hay[1..], needle, i);
          assert OccursAt(hay, needle, i + 1);
        }
      }
      assert (exists i: nat :: OccursAt(hay, needle, i)) ==> r by {
        if exists i: nat :: OccursAt(hay, needle, i) {
          var i: nat :| OccursAt(hay, needle, i);
          assert i != 0;
          assert OccursAt(hay[1..], needle, i - 1);
        }
      }
      r
  }
}
