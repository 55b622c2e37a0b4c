/**
 * Substring containment (`str::contains` with a `&str` pattern) and the
 * lower-case fold used by the case-insensitive search (`str::to_lowercase`,
 * restricted here to ASCII letters).
 */
module Text {

  /** pat occurs in text starting at index i. */
  predicate OccursAt(text: string, pat: string, i: int)
  {
    0 <= i <= |text| - |pat| && text[i..i + |pat|] == pat
  }

  /** `text.contains(pat)`: pat occurs in text as a contiguous run of characters. */
  predicate Contains(text: string, pat: string)
    ensures Contains(text, pat) ==> |pat| <= |text|
  {
    exists i :: 0 <= i <= |text| - |pat| && OccursAt(text, pat, i)
  }

  predicate IsPrefix(pat: string, text: string)
  {
    |pat| <= |text| && text[..|pat|] == pat
  }

  /** Reference definition: try every start position from the left. */
  predicate ScanContains(text: string, pat: string)
    decreases |text|
  {
    IsPrefix(pat, text) || (|text| > 0 && ScanContains(text[1..], pat))
  }

  /** The positional definition and the left-to-right scan agree. */
  lemma {:induction false} ContainsIff(text: string, pat: string)
    ensures Contains(text, pat) <==> ScanContains(text, pat)
    decreases |text|
  {
    if Contains(text, pat) {
      var i :| 0 <= i <= |text| - |pat| && OccursAt(text, pat, i);
      if i == 0 {
        assert IsPrefix(pat, text);
      } else {
        assert text[1..][i - 1..i - 1 + |pat|] == text[i..i + |pat|];
        assert OccursAt(text[1..], pat, i - 1);
        ContainsIff(text[1..], pat);
      }
    }
    if ScanContains(text, pat) {
      if IsPrefix(pat, text) {
        assert OccursAt(text, pat, 0);
      } else {
        ContainsIff(text[1..], pat);
        var i :| 0 <= i <= |text[1..]| - |pat| && OccursAt(text[1..], pat, i);
        assert text[1..][i..i + |pat|] == text[i + 1..i + 1 + |pat|];
        assert OccursAt(text, pat, i + 1);
      }
    }
  }

  /** Every text contains the empty pattern. */
  lemma ContainsEmpty(text: string)
    ensures Contains(text, "")
  {
    assert OccursAt(text, "", 0);
  }

  /** A pattern holding a character the text lacks does not occur in it. */
  lemma AbsentCharNotContained(text: string, pat: string, c: char)
    requires c in pat && c !in text
    ensures !Contains(text, pat)
  {
  }

  /** An occurrence cannot start inside a prefix lacking the pattern's first character. */
  lemma ContainsSkipsPrefix(a: string, b: string, pat: string)
    requires pat != [] && pat[0] !in a
    requires Contains(a + b, pat)
    ensures Contains(b, pat)
  {
    var i :| 0 <= i <= |a + b| - |pat| && OccursAt(a + b, pat, i);
    assert (a + b)[i..i + |pat|][0] == (a + b)[i];
    assert (a + b)[i..i + |pat|] == b[i - |a|..i - |a| + |pat|];
    assert OccursAt(b, pat, i - |a|);
  }

  predicate IsUpper(c: char)
  {
    'A' <= c <= 'Z'
  }

  /** Lower-case fold of one character: ASCII 'A'..'Z' to 'a'..'z', everything else unchanged. */
  function LowerChar(c: char): (d: char)
    ensures !IsUpper(d)
    ensures d == c || (IsUpper(c) && d as int - c as int == 'a' as int - 'A' as int)
  {
    if IsUpper(c) then (c as int - 'A' as int + 'a' as int) as char else c
  }

  /** `s.to_lowercase()`, character by character. */
  function Lower(s: string): (r: string)
    ensures |r| == |s|
    ensures forall i :: 0 <= i < |s| ==> r[i] == LowerChar(s[i])
    ensures forall i :: 0 <= i < |r| ==> !IsUpper(r[i])
  {
    seq(|s|, i requires 0 <= i < |s| => LowerChar(s[i]))
  }

  /** Folding leaves text without upper-case letters as it is. */
  lemma LowerUnchanged(s: string)
    requires forall c :: c in s ==> !IsUpper(c)
    ensures Lower(s) == s
  {
    forall i | 0 <= i < |s|
      ensures Lower(s)[i] == s[i]
    {
      assert s[i] in s;
    }
  }

  /** Exact containment implies containment after folding both sides. */
  lemma ContainsLowered(text: string, pat: string)
    requires Contains(text, pat)
    ensures Contains(Lower(text), Lower(pat))
  {
    var i :| 0 <= i <= |text| - |pat| && OccursAt(text, pat, i);
    assert Lower(text)[i..i + |pat|] == Lower(pat) by {
      forall k | 0 <= k < |pat|
        ensures Lower(text)[i..i + |pat|][k] == Lower(pat)[k]
      {
        assert text[i..i + |pat|][k] == text[i + k];
      }
    }
    assert OccursAt(Lower(text), Lower(pat), i);
  }

  /** ContainsLowered for every text at once. */
  lemma ContainsLoweredEverywhere(pat: string)
    ensures forall text :: Contains(text, pat) ==> Contains(Lower(text), Lower(pat))
  {
    forall text | Contains(text, pat)
      ensures Contains(Lower(text), Lower(pat))
    {
      ContainsLowered(text, pat);
    }
  }
}
