/** The string operations the data layer and the validators rely on. */
module Strings {

  /** `term` occurs in `s` starting at index `i`. */
  predicate OccursAt(s: string, term: string, i: int) {
    0 <= i && i + |term| <= |s| && s[i..i + |term|] == term
  }

  predicate IsPrefix(p: string, s: string) {
    |p| <= |s| && s[..|p|] == p
  }

  /** Substring test: `String.contains`, and SQL `s LIKE '%' || term || '%'` for a term
      free of LIKE metacharacters. Scans the start positions of `s` left to right. */
  function Contains(s: string, term: string): bool
    decreases |s|
  {
    if IsPrefix(term, s) then true
    else if |s| == 0 then false
    else Contains(s[1..], term)
  }

  /** The scan finds `term` exactly when it occurs somewhere in `s`. */
  lemma {:induction false} ContainsIffOccurs(s: string, term: string)
    ensures Contains(s, term) <==> exists i :: OccursAt(s, term, i)
    decreases |s|
  {
    if IsPrefix(term, s) {
      assert OccursAt(s, term, 0);
    } else if |s| > 0 {
      ContainsIffOccurs(s[1..], term);
      forall i | 1 <= i
        ensures OccursAt(s, term, i) <==> OccursAt(s[1..], term, i - 1)
      {
        if i + |term| <= |s| {
          assert s[1..][i - 1..i - 1 + |term|] == s[i..i + |term|];
        }
      }
      if Contains(s[1..], term) {
        var j :| OccursAt(s[1..], term, j);
        assert OccursAt(s, term, j + 1);
      }
      if exists i :: OccursAt(s, term, i) {
        var i :| OccursAt(s, term, i);
        assert OccursAt(s[1..], term, i - 1);
      }
    }
  }

  /** The characters `String.trim` removes: every code unit at or below U+0020. */
  predicate IsTrimmed(c: char) {
    c <= ' '
  }

  function TrimLeading(s: string): string
    decreases |s|
  {
    if |s| > 0 && IsTrimmed(s[0]) then TrimLeading(s[1..]) else s
  }

  function TrimTrailing(s: string): string
    decreases |s|
  {
    if |s| > 0 && IsTrimmed(s[|s| - 1]) then TrimTrailing(s[..|s| - 1]) else s
  }

  /** `String.trim`. */
  function Trim(s: string): string {
    TrimTrailing(TrimLeading(s))
  }

  /** Bean Validation's `@NotBlank` test on a non-null string fails on these:
      nothing is left once the string is trimmed. */
  predicate IsBlank(s: string) {
    |Trim(s)| == 0
  }

  lemma {:induction false} TrimLeadingEmpty(s: string)
    ensures |TrimLeading(s)| == 0 <==> forall i :: 0 <= i < |s| ==> IsTrimmed(s[i])
    ensures |TrimLeading(s)| > 0 ==> !IsTrimmed(TrimLeading(s)[0])
    decreases |s|
  {
    if |s| > 0 && IsTrimmed(s[0]) {
      TrimLeadingEmpty(s[1..]);
      if forall i :: 0 <= i < |s[1..]| ==> IsTrimmed(s[1..][i]) {
        forall i | 0 <= i < |s| ensures IsTrimmed(s[i]) {
          if i > 0 { assert s[i] == s[1..][i - 1]; }
        }
      }
    }
  }

  lemma {:induction false} TrimTrailingKeepsFirst(s: string)
    requires |s| > 0 && !IsTrimmed(s[0])
    ensures |TrimTrailing(s)| > 0
    decreases |s|
  {
    if IsTrimmed(s[|s| - 1]) {
      var t := s[..|s| - 1];
      assert |t| > 0 && t[0] == s[0];
      TrimTrailingKeepsFirst(t);
    }
  }

  /** A string is blank exactly when each of its characters is one `trim` removes,
      so the empty string is blank and any string holding a character above U+0020 is not. */
  lemma BlankIffAllTrimmed(s: string)
    ensures IsBlank(s) <==> forall i :: 0 <= i < |s| ==> IsTrimmed(s[i])
  {
    TrimLeadingEmpty(s);
    if |TrimLeading(s)| > 0 {
      TrimTrailingKeepsFirst(TrimLeading(s));
    }
  }

  /** Characters outside the Basic Multilingual Plane: Java stores each as a surrogate pair. */
  predicate IsSupplementary(c: char) {
    c as int >= 0x1_0000
  }

  /** `String.length`: the number of UTF-16 code units, two for each supplementary character. */
  function Utf16Length(s: string): (n: nat)
    ensures |s| <= n <= 2 * |s|
  {
    if |s| == 0 then 0
    else (if IsSupplementary(s[0]) then 2 else 1) + Utf16Length(s[1..])
  }

  /** The UTF-16 length equals the character count exactly when no character is supplementary. */
  lemma {:induction false} Utf16LengthBmp(s: string)
    ensures Utf16Length(s) == |s| <==> forall i :: 0 <= i < |s| ==> !IsSupplementary(s[i])
  {
    if |s| > 0 {
      Utf16LengthBmp(s[1..]);
      assert forall i :: 1 <= i < |s| ==> s[i] == s[1..][i - 1];
    }
  }

  /** The UTF-16 length is twice the character count exactly when every character is supplementary. */
  lemma {:induction false} Utf16LengthAllSupplementary(s: string)
    ensures Utf16Length(s) == 2 * |s| <==> forall i :: 0 <= i < |s| ==> IsSupplementary(s[i])
  {
    if |s| > 0 {
      Utf16LengthAllSupplementary(s[1..]);
      assert forall i :: 1 <= i < |s| ==> s[i] == s[1..][i - 1];
    }
  }
}
