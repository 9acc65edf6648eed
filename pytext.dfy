/** The pieces of Python's `str` that the services use: `strip()`, `replace()`,
    the `in` test for substrings, and the decimal text of an integer. */
module PyText {

  /** `str.isspace()` for one character: the ASCII whitespace and separator
      controls and the Unicode space separators. */
  predicate IsSpace(c: char) {
    c == ' ' || c == '\t' || c == '\n' || c == '\r' || c == '\U{0B}' || c == '\U{0C}'
    || ('\U{1C}' <= c <= '\U{1F}') || c == '\U{85}' || c == '\U{A0}' || c == '\U{1680}'
    || ('\U{2000}' <= c <= '\U{200A}') || c == '\U{2028}' || c == '\U{2029}'
    || c == '\U{202F}' || c == '\U{205F}' || c == '\U{3000}'
  }

  predicate AllSpace(s: string) {
    forall i :: 0 <= i < |s| ==> IsSpace(s[i])
  }

  /** The index of the first character that is not whitespace (|s| if none). */
  function LeadingEnd(s: string): (i: nat)
    ensures i <= |s| && AllSpace(s[..i])
    ensures i < |s| ==> !IsSpace(s[i])
  {
    if s == [] || !IsSpace(s[0]) then 0
    else
      var k := LeadingEnd(s[1..]);
      assert AllSpace(s[..k + 1]) by {
        forall m | 0 <= m < k + 1 ensures IsSpace(s[m]) {
          if m > 0 { assert s[m] == s[1..][..k][m - 1]; }
        }
      }
      k + 1
  }

  /** The index just past the last character of s[lo..] that is not
      whitespace (lo if none). */
  function TrailingStart(s: string, lo: nat): (j: nat)
    requires lo <= |s|
    ensures lo <= j <= |s| && AllSpace(s[j..])
    ensures j > lo ==> !IsSpace(s[j - 1])
    decreases |s|
  {
    if |s| == lo || !IsSpace(s[|s| - 1]) then |s|
    else
      var init := s[..|s| - 1];
      var j := TrailingStart(init, lo);
      assert forall m :: 0 <= m < |s| - 1 - j ==> s[j..][m] == init[j..][m];
      j
  }

  /** `str.strip()`: the text left after removing leading and trailing
      whitespace. What is removed is whitespace, and what is left neither
      starts nor ends with whitespace. */
  function Strip(s: string): (r: string)
    ensures r == s[LeadingEnd(s)..TrailingStart(s, LeadingEnd(s))]
    ensures AllSpace(s[..LeadingEnd(s)]) && AllSpace(s[TrailingStart(s, LeadingEnd(s))..])
    ensures r == [] || (!IsSpace(r[0]) && !IsSpace(r[|r| - 1]))
  {
    var i := LeadingEnd(s);
    var j := TrailingStart(s, i);
    assert i < j ==> !IsSpace(s[i]) by {
      if i == |s| { } else { }
    }
    s[i..j]
  }

  /** A prompt strips to nothing exactly when it is all whitespace. */
  lemma StripEmptyIff(s: string)
    ensures Strip(s) == [] <==> AllSpace(s)
  {
    var i := LeadingEnd(s);
    var j := TrailingStart(s, i);
    if Strip(s) == [] {
      assert i == j;
      assert i == |s|;
      forall k | 0 <= k < |s| ensures IsSpace(s[k]) {
        assert s[k] == s[..i][k];
      }
    }
    assert AllSpace(s) ==> i == |s|;
  }

  /** Stripping twice is stripping once. */
  lemma StripIdempotent(s: string)
    ensures Strip(Strip(s)) == Strip(s)
  {
    var r := Strip(s);
    if r != [] {
      assert LeadingEnd(r) == 0;
      assert TrailingStart(r, 0) == |r|;
      assert r[0..|r|] == r;
    }
  }

  /** `pat` occurs in `s` at position `i`. */
  predicate OccursAt(s: string, pat: string, i: int) {
    0 <= i && i + |pat| <= |s| && s[i..i + |pat|] == pat
  }

  /** The `in` operator on strings. */
  predicate Contains(s: string, pat: string) {
    exists i :: 0 <= i <= |s| && OccursAt(s, pat, i)
  }

  /** `str.replace(pat, rep)`: leftmost, non-overlapping occurrences. */
  function Replace(s: string, pat: string, rep: string): string
    requires pat != []
    decreases |s|
  {
    if |s| < |pat| then s
    else if s[..|pat|] == pat then rep + Replace(s[|pat|..], pat, rep)
    else [s[0]] + Replace(s[1..], pat, rep)
  }

  /** An occurrence in `c + t` is at the front or is an occurrence in `t`. */
  lemma ContainsCons(c: string, t: string, pat: string)
    requires Contains(c + t, pat)
    ensures (exists i :: 0 <= i < |c| && OccursAt(c + t, pat, i)) || Contains(t, pat)
  {
    var i :| 0 <= i <= |c + t| && OccursAt(c + t, pat, i);
    assert 0 <= i && i + |pat| <= |c + t|;
    if i >= |c| {
      assert (c + t)[i..i + |pat|] == t[i - |c|..i - |c| + |pat|];
      assert OccursAt(t, pat, i - |c|);
    }
  }

  /** A text that does not contain the pattern is left alone, so the guard
      `if "nan" in d` before `d.replace("nan", ...)` changes nothing. */
  lemma {:induction false} ReplaceAbsent(s: string, pat: string, rep: string)
    requires pat != [] && !Contains(s, pat)
    ensures Replace(s, pat, rep) == s
    decreases |s|
  {
    if |s| >= |pat| {
      assert !OccursAt(s, pat, 0);
      assert s[..|pat|] != pat;
      assert !Contains(s[1..], pat) by {
        if Contains(s[1..], pat) {
          var i :| 0 <= i <= |s[1..]| && OccursAt(s[1..], pat, i);
          assert s[1..][i..i + |pat|] == s[i + 1..i + 1 + |pat|];
          assert OccursAt(s, pat, i + 1);
        }
      }
      ReplaceAbsent(s[1..], pat, rep);
      assert [s[0]] + s[1..] == s;
    }
  }

  /** Removing commas (`replace(",", "")`) leaves no comma. */
  lemma {:induction false} RemoveCommasNone(s: string)
    ensures forall k :: 0 <= k < |Replace(s, ",", "")| ==> Replace(s, ",", "")[k] != ','
    decreases |s|
  {
    if |s| >= 1 {
      RemoveCommasNone(s[1..]);
      if s[..1] != "," {
        assert s[0] != ',';
      }
    }
  }

  /** If the replaced text starts with a character that is not in `rep`, that
      character was copied from the input, which did not start with `pat`. */
  lemma ReplaceHead(t: string, pat: string, rep: string)
    requires pat != [] && rep != []
    requires |Replace(t, pat, rep)| > 0 && Replace(t, pat, rep)[0] !in rep
    ensures |t| > 0 && t[0] == Replace(t, pat, rep)[0]
    ensures |t| >= |pat| ==> Replace(t, pat, rep) == [t[0]] + Replace(t[1..], pat, rep)
    ensures |t| < |pat| ==> Replace(t, pat, rep) == t
  {
  }

  /** "nan" cannot occur in a text that starts with "N/A" unless it occurs
      in the rest. */
  lemma NanAfterNA(t: string)
    ensures Contains("N/A" + t, "nan") ==> Contains(t, "nan")
  {
    forall i | 0 <= i < 3 ensures !OccursAt("N/A" + t, "nan", i) {
      assert ("N/A" + t)[i] != 'n';
    }
    if Contains("N/A" + t, "nan") {
      ContainsCons("N/A", t, "nan");
    }
  }

  /** After `replace("nan", "N/A")` no "nan" is left: "N/A" shares no
      character with "nan", so no new occurrence can form. */
  lemma {:induction false} ReplaceNanGone(s: string)
    ensures !Contains(Replace(s, "nan", "N/A"), "nan")
    decreases |s|
  {
    var r := Replace(s, "nan", "N/A");
    if |s| < 3 {
      assert |r| < 3;
    } else if s[..3] == "nan" {
      ReplaceNanGone(s[3..]);
      NanAfterNA(Replace(s[3..], "nan", "N/A"));
    } else {
      ReplaceNanGone(s[1..]);
      var tail := Replace(s[1..], "nan", "N/A");
      assert r == [s[0]] + tail;
      if Contains(r, "nan") {
        ContainsCons([s[0]], tail, "nan");
        assert OccursAt(r, "nan", 0);
        NanAtFront(s);
      }
    }
  }

  /** An occurrence of "nan" at the front of the replaced text comes from one
      at the front of the input. */
  lemma NanAtFront(s: string)
    requires |s| >= 3
    requires OccursAt([s[0]] + Replace(s[1..], "nan", "N/A"), "nan", 0)
    ensures s[..3] == "nan"
  {
    var tail := Replace(s[1..], "nan", "N/A");
    var r := [s[0]] + tail;
    assert r[0..3] == "nan";
    assert r[0] == 'n' && r[1] == 'a' && r[2] == 'n';
    assert tail[0] == 'a' && tail[1] == 'n';
    ReplaceHead(s[1..], "nan", "N/A");
    if |s[1..]| >= 3 {
      assert tail == [s[1]] + Replace(s[2..], "nan", "N/A");
      ReplaceHead(s[2..], "nan", "N/A");
    }
  }

  predicate IsDigit(c: char) {
    '0' <= c <= '9'
  }

  predicate AllDigits(s: string) {
    forall i :: 0 <= i < |s| ==> IsDigit(s[i])
  }

  function DigitChar(d: nat): (c: char)
    requires d < 10
    ensures IsDigit(c)
  {
    "0123456789"[d]
  }

  function DigitValue(c: char): (d: nat)
    requires IsDigit(c)
    ensures d < 10
  {
    (c as int - '0' as int) as nat
  }

  /** The value of a string of decimal digits (read left to right). */
  function DigitsValue(s: string): nat
    requires AllDigits(s)
  {
    if s == [] then 0 else DigitsValue(s[..|s| - 1]) * 10 + DigitValue(s[|s| - 1])
  }

  /** The decimal digits of a natural number, without leading zeros. */
  function NatText(n: nat): (s: string)
    ensures s != [] && AllDigits(s)
    ensures |s| > 1 ==> s[0] != '0'
  {
    if n < 10 then [DigitChar(n)] else NatText(n / 10) + [DigitChar(n % 10)]
  }

  /** Reading the digits back gives the number: text and value are inverse. */
  lemma {:induction false} NatTextRoundTrip(n: nat)
    ensures DigitsValue(NatText(n)) == n
  {
    var s := NatText(n);
    if n < 10 {
      assert DigitValue(DigitChar(n)) == n;
    } else {
      NatTextRoundTrip(n / 10);
      assert s[..|s| - 1] == NatText(n / 10);
      assert DigitValue(DigitChar(n % 10)) == n % 10;
    }
  }

  /** `str(i)` for an int. */
  function IntText(i: int): (s: string)
    ensures s != []
  {
    if i < 0 then "-" + NatText(-i) else NatText(i)
  }
}
