/**
 Ordinal substring search, the meaning given here to `string.Contains` in the
 product search filter (collation and case folding of the database are not
 modelled), and the length of a text as .NET strings and `nvarchar` columns
 count it.
 */
module Text {

  /** True iff `pattern` occurs as a contiguous run of characters somewhere in `text`. */
  predicate Contains(text: string, pattern: string)
    decreases |text|
  {
    pattern <= text || (text != [] && Contains(text[1..], pattern))
  }

  /** Reference definition: `pattern` sits in `text` starting at offset `i`. */
  ghost predicate OccursAt(text: string, pattern: string, i: int)
  {
    0 <= i && i + |pattern| <= |text| && text[i..i + |pattern|] == pattern
  }

  /** A slice of a text's tail is the slice of the text one position further on. */
  lemma TailSlice(text: string, i: nat, n: nat)
    requires 1 <= |text| && i + n <= |text| - 1
    ensures text[1..][i..i + n] == text[i + 1..i + 1 + n]
  {
    var shifted, direct := text[1..][i..i + n], text[i + 1..i + 1 + n];
    assert forall k :: 0 <= k < n ==> shifted[k] == direct[k];
  }

  /** `Contains` agrees with the offset-based definition, in both directions. */
  lemma {:induction false} ContainsIffOccurs(text: string, pattern: string)
    ensures Contains(text, pattern) <==> exists i :: OccursAt(text, pattern, i)
    decreases |text|
  {
    if Contains(text, pattern) {
      if pattern <= text {
        assert OccursAt(text, pattern, 0);
      } else {
        ContainsIffOccurs(text[1..], pattern);
        var i :| OccursAt(text[1..], pattern, i);
        TailSlice(text, i, |pattern|);
        assert OccursAt(text, pattern, i + 1);
      }
    }
    if i :| OccursAt(text, pattern, i) {
      if i == 0 {
        assert pattern <= text;
      } else {
        TailSlice(text, i - 1, |pattern|);
        assert OccursAt(text[1..], pattern, i - 1);
        ContainsIffOccurs(text[1..], pattern);
      }
    }
  }

  /** A character of the pattern that the text lacks rules out a match. */
  lemma {:induction false} MissingCharRulesOut(text: string, pattern: string, c: char)
    requires c in pattern && c !in text
    ensures !Contains(text, pattern)
    decreases |text|
  {
    if text != [] {
      assert c !in text[1..];
      MissingCharRulesOut(text[1..], pattern, c);
    }
  }

  /** The first code point outside the Basic Multilingual Plane; from it on, UTF-16 needs two code units. */
  const FirstSupplementary: int := 0x1_0000

  /** True iff `c` takes two UTF-16 code units (a surrogate pair). */
  predicate IsSupplementary(c: char)
  {
    c as int >= FirstSupplementary
  }

  /**
   The length of a text in UTF-16 code units, as `string.Length` and an
   `nvarchar(n)` column count it: one unit per character of the Basic
   Multilingual Plane, two for every other character.
   */
  function Utf16Length(s: string): (n: nat)
    ensures |s| <= n <= 2 * |s|
  {
    if s == [] then 0 else (if IsSupplementary(s[0]) then 2 else 1) + Utf16Length(s[1..])
  }

  /** A text's UTF-16 length equals its character count exactly when no character needs a surrogate pair. */
  lemma {:induction false} Utf16LengthIsCountIffBmp(s: string)
    ensures Utf16Length(s) == |s| <==> forall i :: 0 <= i < |s| ==> !IsSupplementary(s[i])
    decreases |s|
  {
    if s != [] {
      Utf16LengthIsCountIffBmp(s[1..]);
      assert forall i :: 1 <= i < |s| ==> s[i] == s[1..][i - 1];
    }
  }
}
