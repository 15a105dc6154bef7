/** The two java.lang.String operations the scorer relies on: trim(), which
    strips every leading and trailing character at or below U+0020, and
    equalsIgnoreCase(), modelled with ASCII case mapping. */
module JavaStrings {

  /** The characters trim() removes: every code point at or below U+0020. */
  predicate IsTrimmed(c: char) {
    c <= ' '
  }

  predicate AllTrimmed(s: string) {
    forall k :: 0 <= k < |s| ==> IsTrimmed(s[k])
  }

  /** How many characters trim() skips at the front of s. */
  function LeadingCount(s: string): (n: nat)
    ensures n <= |s|
    ensures AllTrimmed(s[..n])
    ensures n < |s| ==> !IsTrimmed(s[n])
  {
    if s == [] || !IsTrimmed(s[0]) then 0
    else
      var n := 1 + LeadingCount(s[1..]);
      assert s[..n] == [s[0]] + s[1..][..n - 1];
      n
  }

  /** How many characters trim() drops at the back of s. */
  function TrailingCount(s: string): (n: nat)
    ensures n <= |s|
    ensures AllTrimmed(s[|s| - n..])
    ensures n < |s| ==> !IsTrimmed(s[|s| - 1 - n])
  {
    if s == [] || !IsTrimmed(s[|s| - 1]) then 0
    else
      var init := s[..|s| - 1];
      var n := 1 + TrailingCount(init);
      assert s[|s| - n..] == init[|init| - (n - 1)..] + [s[|s| - 1]];
      n
  }

  /** String.trim(): skip the leading characters, then the trailing ones of what is left. */
  function Trim(s: string): (t: string)
    ensures |t| <= |s|
    ensures t == [] || (!IsTrimmed(t[0]) && !IsTrimmed(t[|t| - 1]))
  {
    var rest := s[LeadingCount(s)..];
    rest[..|rest| - TrailingCount(rest)]
  }

  /** Trim removes only trimmable characters, and only at the two ends:
      s is the leading run, then Trim(s), then the trailing run. */
  lemma TrimRemovesOnlyOuterSpace(s: string)
    ensures LeadingCount(s) + |Trim(s)| <= |s|
    ensures s == s[..LeadingCount(s)] + Trim(s) + s[LeadingCount(s) + |Trim(s)|..]
    ensures AllTrimmed(s[..LeadingCount(s)])
    ensures AllTrimmed(s[LeadingCount(s) + |Trim(s)|..])
  {
    var i := LeadingCount(s);
    var rest := s[i..];
    var n := TrailingCount(rest);
    var j := |rest| - n;
    var t := rest[..j];
    assert Trim(s) == t;
    assert t == s[i..i + j];
    assert rest[j..] == s[i + j..];
    assert AllTrimmed(s[i + j..]);
    assert t + s[i + j..] == rest;
    assert s == s[..i] + rest;
    SplitThree(s, i, j);
  }

  lemma SplitThree(s: string, i: nat, j: nat)
    requires i + j <= |s|
    ensures s == s[..i] + s[i..i + j] + s[i + j..]
  {
  }

  /** Trimming twice is the same as trimming once. */
  lemma TrimIdempotent(s: string)
    ensures Trim(Trim(s)) == Trim(s)
  {
    var t := Trim(s);
    if t != [] {
      assert LeadingCount(t) == 0;
      assert t[0..] == t;
      assert TrailingCount(t) == 0;
    }
  }

  /** Character.toUpperCase restricted to ASCII letters. */
  function ToUpper(c: char): (u: char)
    ensures !('a' <= u <= 'z')
  {
    if 'a' <= c <= 'z' then (c as int - 32) as char else c
  }

  /** Character.toLowerCase restricted to ASCII letters. */
  function ToLower(c: char): (l: char)
    ensures !('A' <= l <= 'Z')
  {
    if 'A' <= c <= 'Z' then (c as int + 32) as char else c
  }

  /** The two mappings agree on which characters are the same letter: each is
      idempotent, and either one undoes the other up to case. */
  lemma CaseMappingLaws(c: char)
    ensures ToUpper(ToUpper(c)) == ToUpper(c) && ToLower(ToLower(c)) == ToLower(c)
    ensures ToUpper(ToLower(c)) == ToUpper(c) && ToLower(ToUpper(c)) == ToLower(c)
  {
  }

  /** The per-character test of String.regionMatches with ignoreCase set:
      equal, or equal in upper case, or equal in lower case after upper-casing. */
  predicate CharEqualsIgnoreCase(c1: char, c2: char) {
    c1 == c2 || ToUpper(c1) == ToUpper(c2) || ToLower(ToUpper(c1)) == ToLower(ToUpper(c2))
  }

  /** String.equalsIgnoreCase with a non-null argument: same length, and every
      pair of characters at the same position passes CharEqualsIgnoreCase. */
  predicate EqualsIgnoreCase(a: string, b: string) {
    |a| == |b| && forall k :: 0 <= k < |a| ==> CharEqualsIgnoreCase(a[k], b[k])
  }

  /** The whole string in upper case. */
  function UpperCase(s: string): (u: string)
    ensures |u| == |s|
  {
    if s == [] then [] else [ToUpper(s[0])] + UpperCase(s[1..])
  }

  lemma {:induction false} UpperCaseAt(s: string, k: nat)
    requires k < |s|
    ensures UpperCase(s)[k] == ToUpper(s[k])
  {
    if k > 0 {
      UpperCaseAt(s[1..], k - 1);
    }
  }

  /** The three-way character test collapses to comparing upper cases. */
  lemma CharEqualsIgnoreCaseIsUpperEquality(c1: char, c2: char)
    ensures CharEqualsIgnoreCase(c1, c2) <==> ToUpper(c1) == ToUpper(c2)
  {
    var u1, u2 := ToUpper(c1), ToUpper(c2);
    if ToLower(u1) == ToLower(u2) {
      assert !('a' <= u1 <= 'z') && !('a' <= u2 <= 'z');
    }
  }

  /** Reference definition: two strings are equal ignoring case exactly when
      their upper-case forms are equal. */
  lemma EqualsIgnoreCaseIsUpperCaseEquality(a: string, b: string)
    ensures EqualsIgnoreCase(a, b) <==> UpperCase(a) == UpperCase(b)
  {
    if |a| == |b| {
      forall k | 0 <= k < |a|
        ensures CharEqualsIgnoreCase(a[k], b[k]) <==> UpperCase(a)[k] == UpperCase(b)[k]
      {
        UpperCaseAt(a, k);
        UpperCaseAt(b, k);
        CharEqualsIgnoreCaseIsUpperEquality(a[k], b[k]);
      }
    }
  }
}
