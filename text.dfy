/**
 * The two string operations the player relies on: `str.lower()` for
 * playlist keys and search terms, and the `in` test for substrings.
 */
module Text {

  /** ASCII lower-casing of one character; every other character is kept. */
  function LowerChar(c: char): (r: char)
    ensures !('A' <= r <= 'Z')
    ensures !('A' <= c <= 'Z') ==> r == c
  {
    if 'A' <= c <= 'Z' then (c as int + 32) as char else c
  }

  /** Lower-casing of a whole string, character by character. */
  function Lower(s: string): (r: string)
    ensures |r| == |s|
  {
    seq(|s|, i requires 0 <= i < |s| => LowerChar(s[i]))
  }

  /** The lower-cased string has no upper-case ASCII letter and keeps every other character. */
  lemma LowerLowers(s: string)
    ensures forall i :: 0 <= i < |s| ==> !('A' <= Lower(s)[i] <= 'Z')
    ensures forall i :: 0 <= i < |s| && !('A' <= s[i] <= 'Z') ==> Lower(s)[i] == s[i]
  {
  }

  /** Python's `needle in hay` on strings: `needle` occurs somewhere in `hay`. */
  predicate IsSubstring(needle: string, hay: string)
    ensures IsSubstring(needle, hay) ==> |needle| <= |hay|
    ensures needle <= hay ==> IsSubstring(needle, hay)
    decreases |hay|
  {
    needle <= hay || (hay != [] && IsSubstring(needle, hay[1..]))
  }

  /** `needle` occurs in `hay` starting at position `i`. */
  predicate OccursAt(needle: string, hay: string, i: nat) {
    i + |needle| <= |hay| && hay[i..i + |needle|] == needle
  }

  /** An occurrence in the tail of `hay` is an occurrence in `hay`, one position later. */
  lemma OccursAtShift(needle: string, hay: string, i: nat)
    requires hay != []
    ensures OccursAt(needle, hay[1..], i) <==> OccursAt(needle, hay, i + 1)
  {
    if i + 1 + |needle| <= |hay| {
      assert hay[1..][i..i + |needle|] == hay[i + 1..i + 1 + |needle|];
    }
  }

  /** The scan above finds `needle` exactly when it occurs at some position of `hay`. */
  lemma {:induction false} IsSubstringAt(needle: string, hay: string)
    ensures IsSubstring(needle, hay) <==> exists i: nat :: OccursAt(needle, hay, i)
    decreases |hay|
  {
    if IsSubstring(needle, hay) {
      if needle <= hay {
        assert OccursAt(needle, hay, 0);
      } else {
        IsSubstringAt(needle, hay[1..]);
        var i: nat :| OccursAt(needle, hay[1..], i);
        OccursAtShift(needle, hay, i);
      }
    }
    if exists i: nat :: OccursAt(needle, hay, i) {
      var i: nat :| OccursAt(needle, hay, i);
      if i == 0 {
        assert needle <= hay;
      } else {
        OccursAtShift(needle, hay, i - 1);
        IsSubstringAt(needle, hay[1..]);
      }
    }
  }

  /** A term whose first character never appears in `hay` does not occur in it. */
  lemma {:induction false} FirstCharAbsent(needle: string, hay: string)
    requires needle != [] && needle[0] !in hay
    ensures !IsSubstring(needle, hay)
    decreases |hay|
  {
    if hay != [] {
      assert hay[0] in hay;
      FirstCharAbsent(needle, hay[1..]);
    }
  }
}
