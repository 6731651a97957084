/**
 * The string primitives the store uses: `String.prototype.trim`,
 * `String.prototype.toLowerCase` (for ASCII letters) and
 * `String.prototype.includes`.
 */
module Text {

  /** ECMAScript's WhiteSpace and LineTerminator code points, the set `trim` strips. */
  predicate IsWhitespace(c: char)
  {
    || c == '\t' || c == '\n' || c == '\U{000B}' || c == '\U{000C}' || c == '\r' || c == ' '
    || c == '\U{00A0}' || c == '\U{1680}' || ('\U{2000}' <= c <= '\U{200A}')
    || c == '\U{2028}' || c == '\U{2029}' || c == '\U{202F}' || c == '\U{205F}'
    || c == '\U{3000}' || c == '\U{FEFF}'
  }

  ghost predicate AllWhitespace(s: string)
  {
    forall i :: 0 <= i < |s| ==> IsWhitespace(s[i])
  }

  /** Neither the first nor the last character is whitespace. */
  ghost predicate IsTrimmed(s: string)
  {
    s == [] || (!IsWhitespace(s[0]) && !IsWhitespace(s[|s| - 1]))
  }

  /** `r` sits at `lo` in `s` with only whitespace around it. */
  ghost predicate PaddedAt(s: string, r: string, lo: int)
  {
    0 <= lo && lo + |r| <= |s| && s[lo..lo + |r|] == r
    && AllWhitespace(s[..lo]) && AllWhitespace(s[lo + |r|..])
  }

  /** How many whitespace characters `s` starts with. */
  function LeadingSpace(s: string): (n: nat)
    ensures n <= |s|
    ensures forall i :: 0 <= i < n ==> IsWhitespace(s[i])
    ensures n < |s| ==> !IsWhitespace(s[n])
  {
    if s != [] && IsWhitespace(s[0]) then 1 + LeadingSpace(s[1..]) else 0
  }

  /** How many whitespace characters `s` ends with. */
  function TrailingSpace(s: string): (n: nat)
    ensures n <= |s|
    ensures forall i :: |s| - n <= i < |s| ==> IsWhitespace(s[i])
    ensures n < |s| ==> !IsWhitespace(s[|s| - n - 1])
  {
    if s != [] && IsWhitespace(s[|s| - 1]) then 1 + TrailingSpace(s[..|s| - 1]) else 0
  }

  /** `trim`: `s` with its leading and trailing whitespace removed. */
  function Trim(s: string): string
  {
    var lo, hi := LeadingSpace(s), |s| - TrailingSpace(s);
    if lo < hi then s[lo..hi] else []
  }

  lemma TrimIsTrimmed(s: string)
    ensures IsTrimmed(Trim(s))
  {
  }

  lemma TrimPadded(s: string)
    ensures PaddedAt(s, Trim(s), LeadingSpace(s))
  {
    var lo, hi := LeadingSpace(s), |s| - TrailingSpace(s);
    if lo < hi {
      assert AllWhitespace(s[hi..]);
    } else {
      assert lo == |s|;
    }
  }

  /** What `trim` returns has no whitespace at either end and only whitespace around it in `s`. */
  lemma TrimSpec(s: string)
    ensures IsTrimmed(Trim(s))
    ensures exists lo :: PaddedAt(s, Trim(s), lo)
  {
    TrimIsTrimmed(s);
    TrimPadded(s);
  }

  /** The whitespace count is fixed by where the first other character sits. */
  lemma LeadingSpaceIs(s: string, n: nat)
    requires n <= |s| && (forall i :: 0 <= i < n ==> IsWhitespace(s[i]))
    requires n < |s| ==> !IsWhitespace(s[n])
    ensures LeadingSpace(s) == n
  {
  }

  lemma TrailingSpaceIs(s: string, n: nat)
    requires n <= |s| && (forall i :: |s| - n <= i < |s| ==> IsWhitespace(s[i]))
    requires n < |s| ==> !IsWhitespace(s[|s| - n - 1])
    ensures TrailingSpace(s) == n
  {
  }

  /** An all-whitespace string trims to the empty string. */
  lemma TrimBlank(s: string)
    requires AllWhitespace(s)
    ensures Trim(s) == []
  {
    LeadingSpaceIs(s, |s|);
  }

  /** The padding in front of a trimmed, nonempty middle is exactly what `trim` skips. */
  lemma LeadingPadding(a: string, m: string, b: string)
    requires AllWhitespace(a) && m != [] && !IsWhitespace(m[0])
    ensures LeadingSpace(a + m + b) == |a|
  {
    var s := a + m + b;
    assert forall i :: 0 <= i < |a| ==> s[i] == a[i];
    assert s[|a|] == m[0];
    LeadingSpaceIs(s, |a|);
  }

  /** The padding behind a trimmed, nonempty middle is exactly what `trim` drops. */
  lemma TrailingPadding(a: string, m: string, b: string)
    requires AllWhitespace(b) && m != [] && !IsWhitespace(m[|m| - 1])
    ensures TrailingSpace(a + m + b) == |b|
  {
    var s := a + m + b;
    var k := |a| + |m|;
    assert forall i :: k <= i < |s| ==> s[i] == b[i - k];
    assert s[k - 1] == m[|m| - 1];
    TrailingSpaceIs(s, |b|);
  }

  /**
   * `Trim` is determined by its contract: whatever trimmed string sits inside
   * whitespace padding is what `trim` returns.
   */
  lemma TrimUnique(a: string, m: string, b: string)
    requires AllWhitespace(a) && IsTrimmed(m) && AllWhitespace(b)
    ensures Trim(a + m + b) == m
  {
    var s := a + m + b;
    if m == [] {
      assert AllWhitespace(s) by {
        assert forall i :: 0 <= i < |a| ==> s[i] == a[i];
        assert forall i :: |a| <= i < |s| ==> s[i] == b[i - |a|];
      }
      TrimBlank(s);
    } else {
      LeadingPadding(a, m, b);
      TrailingPadding(a, m, b);
      assert s[|a|..|s| - |b|] == m;
    }
  }

  /** Trimming twice is trimming once. */
  lemma TrimIdempotent(s: string)
    ensures Trim(Trim(s)) == Trim(s)
  {
    var r := Trim(s);
    TrimSpec(s);
    assert [] + r + [] == r;
    TrimUnique([], r, []);
  }

  /** `trim` yields the empty string exactly for all-whitespace input. */
  lemma TrimEmptyIffBlank(s: string)
    ensures Trim(s) == [] <==> AllWhitespace(s)
  {
    if AllWhitespace(s) {
      assert s + [] + [] == s;
      TrimUnique(s, [], []);
    }
  }

  /** `toLowerCase` on one character, for the ASCII letters. */
  function LowerChar(c: char): char
  {
    if 'A' <= c <= 'Z' then (c as int + 32) as char else c
  }

  /** `toLowerCase`, character by character. */
  function ToLower(s: string): (r: string)
    ensures |r| == |s|
    ensures forall i :: 0 <= i < |s| ==> r[i] == LowerChar(s[i])
    ensures forall i :: 0 <= i < |r| ==> !('A' <= r[i] <= 'Z')
  {
    if s == [] then [] else [LowerChar(s[0])] + ToLower(s[1..])
  }

  /** Lower-casing twice is lower-casing once. */
  lemma ToLowerIdempotent(s: string)
    ensures ToLower(ToLower(s)) == ToLower(s)
  {
  }

  /** `needle` occurs in `hay` starting at position `k`. */
  ghost predicate OccursAt(hay: string, needle: string, k: int)
  {
    0 <= k && k + |needle| <= |hay| && hay[k..k + |needle|] == needle
  }

  /** An occurrence in `hay` past its first character is an occurrence in `hay[1..]`, one place earlier. */
  lemma OccursShift(hay: string, needle: string, k: int)
    requires hay != [] && 0 <= k
    ensures OccursAt(hay[1..], needle, k) <==> OccursAt(hay, needle, k + 1)
  {
    if 0 <= k && k + 1 + |needle| <= |hay| {
      assert hay[1..][k..k + |needle|] == hay[k + 1..k + 1 + |needle|];
    }
  }

  /** `includes`: whether `needle` occurs somewhere in `hay`. */
  function Contains(hay: string, needle: string): (r: bool)
    ensures r <==> exists k :: OccursAt(hay, needle, k)
  {
    if |needle| <= |hay| && hay[..|needle|] == needle then
      assert OccursAt(hay, needle, 0);
      true
    else if hay == [] then
      false
    else
      var r := Contains(hay[1..], needle);
      assert r ==> exists k :: OccursAt(hay, needle, k) by {
        if r {
          var k :| OccursAt(hay[1..], needle, k);
          OccursShift(hay, needle, k);
        }
      }
      assert (exists k :: OccursAt(hay, needle, k)) ==> r by {
        if exists k :: OccursAt(hay, needle, k) {
          var k :| OccursAt(hay, needle, k);
          assert k != 0;
          OccursShift(hay, needle, k - 1);
        }
      }
      r
  }
}
