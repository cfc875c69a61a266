/** The string operations the catalog relies on: Python's `str.lower`,
    `str.strip` and the substring test `q in s`, restricted to ASCII. */
module Text {

  /** Python's `str.isspace` on the ASCII range: tab, line feed, vertical
      tab, form feed, carriage return, the four information separators
      (0x1C to 0x1F) and space. */
  predicate IsSpace(c: char) {
    9 <= c as int <= 13 || 28 <= c as int <= 32
  }

  predicate IsUpper(c: char) {
    'A' <= c <= 'Z'
  }

  /** `r` is the slice `s[i..j]`, every character outside that slice is
      whitespace, and a non-empty `r` neither starts nor ends with
      whitespace. */
  ghost predicate StrippedAt(s: string, r: string, i: int, j: int) {
    0 <= i <= j <= |s| && r == s[i..j] &&
    (forall k :: 0 <= k < i ==> IsSpace(s[k])) &&
    (forall k :: j <= k < |s| ==> IsSpace(s[k])) &&
    (i < j ==> !IsSpace(s[i]) && !IsSpace(s[j - 1]))
  }

  /** `r` is `s` with its leading and trailing whitespace removed and
      nothing else. */
  ghost predicate IsStripOf(s: string, r: string) {
    exists i, j :: StrippedAt(s, r, i, j)
  }

  /** The end of the run of whitespace that starts at position `i`. */
  function SkipSpaces(s: string, i: nat): (j: nat)
    requires i <= |s|
    ensures i <= j <= |s|
    ensures forall k :: i <= k < j ==> IsSpace(s[k])
    ensures j == |s| || !IsSpace(s[j])
    decreases |s| - i
  {
    if i < |s| && IsSpace(s[i]) then SkipSpaces(s, i + 1) else i
  }

  /** The start of the run of whitespace that ends just before position
      `j`, going back no further than `lo`. */
  function SkipSpacesBack(s: string, lo: nat, j: nat): (i: nat)
    requires lo <= j <= |s|
    ensures lo <= i <= j
    ensures forall k :: i <= k < j ==> IsSpace(s[k])
    ensures i == lo || !IsSpace(s[i - 1])
    decreases j - lo
  {
    if lo < j && IsSpace(s[j - 1]) then SkipSpacesBack(s, lo, j - 1) else j
  }

  /** Python's `s.strip()`: the slice between the leading and the trailing
      run of whitespace. */
  function Strip(s: string): (r: string)
    ensures IsStripOf(s, r)
  {
    var i := SkipSpaces(s, 0);
    var j := SkipSpacesBack(s, i, |s|);
    assert StrippedAt(s, s[i..j], i, j);
    s[i..j]
  }

  /** Stripping is determined: two strings that are both `s` stripped are
      the same string. */
  lemma StripUnique(s: string, r1: string, r2: string)
    requires IsStripOf(s, r1) && IsStripOf(s, r2)
    ensures r1 == r2
  {
    var i1, j1 :| StrippedAt(s, r1, i1, j1);
    var i2, j2 :| StrippedAt(s, r2, i2, j2);
    if i1 < j1 && i2 < j2 {
      assert i1 == i2 && j1 == j2;
    }
  }

  /** Stripping twice is stripping once. */
  lemma StripIdempotent(s: string)
    ensures Strip(Strip(s)) == Strip(s)
  {
    var r := Strip(s);
    assert StrippedAt(r, r, 0, |r|) by {
      var i, j :| StrippedAt(s, r, i, j);
      assert r == r[0..|r|];
      assert i < j ==> r[0] == s[i] && r[|r| - 1] == s[j - 1];
    }
    StripUnique(r, Strip(r), r);
  }

  function LowerChar(c: char): char {
    if IsUpper(c) then (c as int + 32) as char else c
  }

  /** Python's `s.lower()` on ASCII: every capital letter A-Z becomes its
      small letter, every other character is kept. */
  function Lower(s: string): (r: string)
    ensures |r| == |s|
  {
    seq(|s|, k requires 0 <= k < |s| => LowerChar(s[k]))
  }

  /** Lower-casing leaves no capital letter, and it changes a string
      exactly when the string holds a capital letter. */
  lemma LowerMeaning(s: string)
    ensures forall k :: 0 <= k < |s| ==> !IsUpper(Lower(s)[k])
    ensures Lower(s) == s <==> forall k :: 0 <= k < |s| ==> !IsUpper(s[k])
  {
    if forall k :: 0 <= k < |s| ==> !IsUpper(s[k]) {
      assert forall k :: 0 <= k < |s| ==> Lower(s)[k] == s[k];
    }
  }

  /** Lower-casing a lower-cased string changes nothing, so a query typed
      in any mix of cases searches the same as its lower-case form. */
  lemma LowerIdempotent(s: string)
    ensures Lower(Lower(s)) == Lower(s)
  {
  }

  /** Python's `q in s`: `q` occurs in `s` as a contiguous run. */
  predicate Contains(s: string, q: string) {
    exists i :: 0 <= i <= |s| - |q| && OccursAt(s, q, i)
  }

  predicate OccursAt(s: string, q: string, i: int)
    requires 0 <= i <= |s| - |q|
  {
    s[i..i + |q|] == q
  }

  /** The empty string occurs in every string. */
  lemma ContainsEmpty(s: string)
    ensures Contains(s, [])
  {
    assert OccursAt(s, [], 0);
  }
}
