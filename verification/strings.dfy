/** The two string operations the cleanup code relies on: `str.lower()` and the
    substring test `needle in hay`. */
module Strings {

  predicate IsUpperAscii(c: char) {
    'A' <= c <= 'Z'
  }

  /** Lower-cases one character; only the ASCII letters 'A'..'Z' change. */
  function LowerChar(c: char): char {
    if IsUpperAscii(c) then (c as int + 32) as char else c
  }

  /** `s.lower()`, restricted to ASCII letters. */
  function Lower(s: string): (r: string)
    ensures |r| == |s|
    ensures forall i :: 0 <= i < |s| ==> r[i] == LowerChar(s[i])
  {
    if s == [] then [] else [LowerChar(s[0])] + Lower(s[1..])
  }

  /** A lower-cased string has no upper-case ASCII letter left, and every
      other character is where it was. */
  lemma LowerMeaning(s: string)
    ensures forall i :: 0 <= i < |s| ==> !IsUpperAscii(Lower(s)[i])
    ensures forall i :: 0 <= i < |s| && !IsUpperAscii(s[i]) ==> Lower(s)[i] == s[i]
  {
  }

  /** `Lower` is fixed by its characters: a string lower-cases to `r` exactly
      when `r` is its character-by-character lower-casing. */
  lemma LowerByChars(s: string, r: string)
    requires |r| == |s| && forall i :: 0 <= i < |s| ==> r[i] == LowerChar(s[i])
    ensures Lower(s) == r
  {
  }

  predicate StartsWith(s: string, prefix: string) {
    |prefix| <= |s| && s[..|prefix|] == prefix
  }

  /** Python's `needle in hay` for strings: some suffix of `hay` starts with `needle`. */
  predicate Contains(hay: string, needle: string)
    decreases |hay|
  {
    StartsWith(hay, needle) || (|hay| > 0 && Contains(hay[1..], needle))
  }

  /** The reference meaning of a substring: `needle` sits in `hay` at offset `i`. */
  ghost predicate OccursAt(hay: string, needle: string, i: int) {
    0 <= i && i + |needle| <= |hay| && hay[i..i + |needle|] == needle
  }

  /** `needle` occurs somewhere in `hay`. */
  ghost predicate Occurs(hay: string, needle: string) {
    exists i :: OccursAt(hay, needle, i)
  }

  /** `Contains` holds exactly when `needle` occurs at some offset of `hay`. */
  lemma {:induction false} ContainsIffOccurs(hay: string, needle: string)
    ensures Contains(hay, needle) <==> Occurs(hay, needle)
    decreases |hay|
  {
    if |hay| > 0 {
      ContainsIffOccurs(hay[1..], needle);
      if StartsWith(hay, needle) {
        assert OccursAt(hay, needle, 0);
      }
      if Contains(hay[1..], needle) {
        var i :| OccursAt(hay[1..], needle, i);
        assert hay[1..][i..i + |needle|] == hay[i + 1..i + 1 + |needle|];
        assert OccursAt(hay, needle, i + 1);
      }
      if exists i :: OccursAt(hay, needle, i) {
        var i :| OccursAt(hay, needle, i);
        if i > 0 {
          assert hay[1..][i - 1..i - 1 + |needle|] == hay[i..i + |needle|];
          assert OccursAt(hay[1..], needle, i - 1);
        } else {
          assert StartsWith(hay, needle);
        }
      }
    } else {
      if Contains(hay, needle) {
        assert OccursAt(hay, needle, 0);
      }
      if exists i :: OccursAt(hay, needle, i) {
        var i :| OccursAt(hay, needle, i);
        assert StartsWith(hay, needle);
      }
    }
  }

  /** Every string contains the empty string and itself. */
  lemma ContainsTrivial(s: string)
    ensures Contains(s, "")
    ensures Contains(s, s)
  {
    assert StartsWith(s, "");
    assert StartsWith(s, s);
  }
}
