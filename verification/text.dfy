/**
 The string operations the recommender relies on: Python's `str.strip()` with
 no argument, the whitespace test it uses, and `str.upper()` restricted to ASCII.
 */
module Text {

  /** The code points Python's `str.isspace` (and hence `str.strip()`) treats
      as whitespace: the ASCII controls TAB..CR and FS..US, SPACE, NEL, NBSP,
      and the Unicode space separators and line/paragraph separators. */
  predicate IsSpace(c: char) {
    var n := c as int;
    || (9 <= n <= 13)
    || (28 <= n <= 32)
    || n == 0x85
    || n == 0xA0
    || n == 0x1680
    || (0x2000 <= n <= 0x200A)
    || n == 0x2028
    || n == 0x2029
    || n == 0x202F
    || n == 0x205F
    || n == 0x3000
  }

  /** Every character is whitespace (the empty string included). */
  predicate IsBlank(s: string) {
    forall i :: 0 <= i < |s| ==> IsSpace(s[i])
  }

  /** Scanning forward from `i`, the position of the first character that is
      not whitespace, or `|s|` if there is none. */
  function ContentStart(s: string, i: nat): (lo: nat)
    requires i <= |s|
    ensures i <= lo <= |s|
    ensures forall j :: i <= j < lo ==> IsSpace(s[j])
    ensures lo < |s| ==> !IsSpace(s[lo])
    decreases |s| - i
  {
    if i < |s| && IsSpace(s[i]) then ContentStart(s, i + 1) else i
  }

  /** Scanning backward from `hi` but not below `lo`, the position just after
      the last character that is not whitespace, or `lo` if there is none. */
  function ContentEnd(s: string, lo: nat, hi: nat): (end: nat)
    requires lo <= hi <= |s|
    ensures lo <= end <= hi
    ensures forall j :: end <= j < hi ==> IsSpace(s[j])
    ensures end > lo ==> !IsSpace(s[end - 1])
    decreases hi
  {
    if hi > lo && IsSpace(s[hi - 1]) then ContentEnd(s, lo, hi - 1) else hi
  }

  /** The number of whitespace characters `s` starts with. */
  function LeadingSpaces(s: string): nat
    ensures LeadingSpaces(s) <= |s|
  {
    ContentStart(s, 0)
  }

  /** Python's `s.strip()`: the infix of `s` left once whitespace is removed
      from both ends. It starts after the leading whitespace, everything cut
      off on either side is whitespace, it neither starts nor ends with
      whitespace, and it is empty exactly when `s` is blank. */
  function Strip(s: string): (r: string)
    ensures IsBlank(s) <==> r == []
    ensures r != [] ==> !IsSpace(r[0]) && !IsSpace(r[|r| - 1])
    ensures var lo := LeadingSpaces(s);
            && lo + |r| <= |s| && r == s[lo..lo + |r|]
            && (forall j :: 0 <= j < lo ==> IsSpace(s[j]))
            && (forall j :: lo + |r| <= j < |s| ==> IsSpace(s[j]))
  {
    var lo := ContentStart(s, 0);
    var hi := ContentEnd(s, lo, |s|);
    assert hi > lo ==> !IsBlank(s) by {
      if hi > lo { assert !IsSpace(s[lo]); }
    }
    s[lo..hi]
  }

  /** The contract of `Strip` determines its result: an infix of `s` with
      only whitespace around it, which neither starts nor ends with
      whitespace, is `Strip(s)`. */
  lemma StripUnique(s: string, lo: nat, r: string)
    requires lo + |r| <= |s| && r == s[lo..lo + |r|]
    requires forall j :: 0 <= j < lo ==> IsSpace(s[j])
    requires forall j :: lo + |r| <= j < |s| ==> IsSpace(s[j])
    requires r != [] ==> !IsSpace(r[0]) && !IsSpace(r[|r| - 1])
    ensures Strip(s) == r
  {
    var t := Strip(s);
    if r == [] {
      assert IsBlank(s);
    } else {
      var start := LeadingSpaces(s);
      assert !IsSpace(s[lo]) by { assert s[lo] == r[0]; }
      assert t != [];
      assert !IsSpace(s[start]) by { assert s[start] == t[0]; }
      assert start <= lo && lo <= start;
      var e, f := lo + |r|, start + |t|;
      assert !IsSpace(s[e - 1]) by { assert s[e - 1] == r[|r| - 1]; }
      assert !IsSpace(s[f - 1]) by { assert s[f - 1] == t[|t| - 1]; }
      assert e <= f && f <= e;
    }
  }

  /** Whitespace in front of a string does not change its strip. */
  lemma StripBlankPrefix(p: string, s: string)
    requires IsBlank(p)
    ensures Strip(p + s) == Strip(s)
  {
    var joined := p + s;
    var r, start := Strip(s), LeadingSpaces(s);
    var lo := |p| + start;
    assert forall i :: 0 <= i < |s| ==> joined[|p| + i] == s[i];
    assert r == joined[lo..lo + |r|] by {
      assert forall k :: 0 <= k < |r| ==> r[k] == s[start + k];
    }
    forall k | 0 <= k < lo ensures IsSpace(joined[k]) {
      if k < |p| {
        assert joined[k] == p[k];
      } else {
        assert joined[k] == s[k - |p|];
      }
    }
    forall k | lo + |r| <= k < |joined| ensures IsSpace(joined[k]) {
      assert joined[k] == s[k - |p|];
    }
    StripUnique(joined, lo, r);
  }

  /** Whitespace after a string does not change its strip. */
  lemma StripBlankSuffix(s: string, p: string)
    requires IsBlank(p)
    ensures Strip(s + p) == Strip(s)
  {
    var joined := s + p;
    var r, lo := Strip(s), LeadingSpaces(s);
    assert forall i :: 0 <= i < |s| ==> joined[i] == s[i];
    assert r == joined[lo..lo + |r|];
    forall k | lo + |r| <= k < |joined| ensures IsSpace(joined[k]) {
      if k >= |s| {
        assert joined[k] == p[k - |s|];
      }
    }
    StripUnique(joined, lo, r);
  }

  /** A string that neither starts nor ends with whitespace is its own strip. */
  lemma StripOfStripped(s: string)
    requires s != [] ==> !IsSpace(s[0]) && !IsSpace(s[|s| - 1])
    ensures Strip(s) == s
  {
  }

  /** Stripping twice is stripping once. */
  lemma StripIdempotent(s: string)
    ensures Strip(Strip(s)) == Strip(s)
  {
    StripOfStripped(Strip(s));
  }

  /** A blank-joined pair `a + " " + b` is blank exactly when both parts are. */
  lemma BlankJoin(a: string, b: string)
    ensures IsBlank(a + " " + b) <==> IsBlank(a) && IsBlank(b)
  {
    var j := a + " " + b;
    assert forall i :: 0 <= i < |a| ==> j[i] == a[i];
    assert forall i :: 0 <= i < |b| ==> j[|a| + 1 + i] == b[i];
    assert j[|a|] == ' ';
  }

  /** ASCII upper-casing of one character. */
  function UpperChar(c: char): char {
    if 'a' <= c <= 'z' then (c as int - 32) as char else c
  }

  /** Python's `s.upper()` restricted to the ASCII letters. */
  function Upper(s: string): (r: string)
    ensures |r| == |s|
  {
    seq(|s|, i requires 0 <= i < |s| => UpperChar(s[i]))
  }

  /** Upper-casing turns each lower-case ASCII letter into its capital,
      leaves no lower-case ASCII letter, changes no other character, and is
      idempotent. */
  lemma UpperCharacterised(s: string)
    ensures forall i :: 0 <= i < |s| && 'a' <= s[i] <= 'z' ==>
              'A' <= Upper(s)[i] <= 'Z' && Upper(s)[i] as int - 'A' as int == s[i] as int - 'a' as int
    ensures forall i :: 0 <= i < |s| ==> !('a' <= Upper(s)[i] <= 'z')
    ensures forall i :: 0 <= i < |s| && !('a' <= s[i] <= 'z') ==> Upper(s)[i] == s[i]
    ensures Upper(Upper(s)) == Upper(s)
  {
  }

  /** The strings whose upper-case form is exactly "NA" are the four
      spellings of "na"; any surrounding character (whitespace included)
      makes the upper-case form differ. */
  lemma SentinelSpellings(s: string)
    ensures Upper(s) == "NA" <==> s in {"NA", "Na", "nA", "na"}
  {
    if Upper(s) == "NA" {
      assert |s| == 2;
      assert Upper(s)[0] == UpperChar(s[0]) && Upper(s)[1] == UpperChar(s[1]);
      assert UpperChar(s[0]) == 'N' && UpperChar(s[1]) == 'A';
      assert s[0] in {'N', 'n'} && s[1] in {'A', 'a'};
      assert s == [s[0], s[1]];
    }
  }
}
