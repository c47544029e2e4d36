/**
 * The four JavaScript string operations the voice command is built from:
 * `toLowerCase`, `includes`, `replace` with a string pattern and an empty
 * replacement, and `trim`.  Only the ASCII letters are case-mapped; the
 * whitespace set is the one ECMAScript's `String.prototype.trim` strips
 * (its WhiteSpace and LineTerminator code points).
 */
module JsString {
  import opened Wrappers

  /** An ASCII capital letter. */
  predicate IsUpper(c: char) {
    'A' <= c <= 'Z'
  }

  predicate NoUpper(s: string) {
    forall i :: 0 <= i < |s| ==> !IsUpper(s[i])
  }

  function LowerChar(c: char): (r: char)
    ensures !IsUpper(r)
    ensures !IsUpper(c) ==> r == c
    ensures IsUpper(c) ==> 'a' <= r <= 'z' && r as int - 'a' as int == c as int - 'A' as int
  {
    if IsUpper(c) then (c as int - 'A' as int + 'a' as int) as char else c
  }

  /** `s.toLowerCase()`, restricted to ASCII. */
  function Lower(s: string): (r: string)
    ensures |r| == |s|
    ensures NoUpper(r)
    ensures forall i :: 0 <= i < |s| && !IsUpper(s[i]) ==> r[i] == s[i]
    ensures forall i :: 0 <= i < |s| && IsUpper(s[i]) ==>
      'a' <= r[i] <= 'z' && r[i] as int - 'a' as int == s[i] as int - 'A' as int
  {
    seq(|s|, i requires 0 <= i < |s| => LowerChar(s[i]))
  }

  /** Lower-casing changes exactly the strings that hold a capital letter. */
  lemma LowerFixesExactlyLowercase(s: string)
    ensures Lower(s) == s <==> NoUpper(s)
  {
  }

  lemma LowerIdempotent(s: string)
    ensures Lower(Lower(s)) == Lower(s)
  {
  }

  /** `pat` appears in `s` starting at index `k`. */
  predicate OccursAt(s: string, pat: string, k: int) {
    0 <= k && k + |pat| <= |s| && s[k..k + |pat|] == pat
  }

  /** An occurrence at `k` spells out `pat` character by character. */
  lemma OccursAtChars(s: string, pat: string, k: int)
    ensures OccursAt(s, pat, k) ==> forall i :: 0 <= i < |pat| ==> s[k + i] == pat[i]
  {
    if OccursAt(s, pat, k) {
      forall i | 0 <= i < |pat| ensures s[k + i] == pat[i] {
        assert s[k..k + |pat|][i] == s[k + i];
      }
    }
  }

  /** The first index at or after `from` where `pat` occurs in `s`. */
  function IndexFrom(s: string, pat: string, from: nat): (r: Option<nat>)
    decreases |s| - from
    ensures r.Some? ==> from <= r.value && OccursAt(s, pat, r.value)
    ensures r.Some? ==> forall j :: from <= j < r.value ==> !OccursAt(s, pat, j)
    ensures r.None? ==> forall j :: from <= j ==> !OccursAt(s, pat, j)
  {
    if from + |pat| > |s| then None
    else if s[from..from + |pat|] == pat then Some(from)
    else IndexFrom(s, pat, from + 1)
  }

  /** `s.indexOf(pat)`: the first occurrence, or None where JavaScript gives -1. */
  function IndexOf(s: string, pat: string): (r: Option<nat>)
    ensures r.Some? <==> exists k :: OccursAt(s, pat, k)
    ensures r.Some? ==> OccursAt(s, pat, r.value)
    ensures r.Some? ==> forall j :: 0 <= j < r.value ==> !OccursAt(s, pat, j)
  {
    IndexFrom(s, pat, 0)
  }

  /** `s.includes(pat)`. */
  predicate Includes(s: string, pat: string)
    ensures Includes(s, pat) <==> exists k :: OccursAt(s, pat, k)
  {
    IndexOf(s, pat).Some?
  }

  /** `s.replace(pat, '')`: the first occurrence of `pat` is cut out, if there is one. */
  function RemoveFirst(s: string, pat: string): (r: string)
    ensures !Includes(s, pat) ==> r == s
    ensures Includes(s, pat) ==> |r| == |s| - |pat|
    ensures NoUpper(s) ==> NoUpper(r)
  {
    match IndexOf(s, pat)
    case None => s
    case Some(k) => s[..k] + s[k + |pat|..]
  }

  /** Cutting the first occurrence keeps what precedes it and what follows it. */
  lemma RemoveFirstSplit(a: string, pat: string, b: string)
    requires forall j :: 0 <= j < |a| ==> !OccursAt(a + pat + b, pat, j)
    ensures Includes(a + pat + b, pat)
    ensures RemoveFirst(a + pat + b, pat) == a + b
  {
    var s := a + pat + b;
    assert s[|a|..|a| + |pat|] == pat;
    assert OccursAt(s, pat, |a|);
    var k := IndexOf(s, pat).value;
    assert k == |a|;
    assert s[..k] == a;
    assert s[k + |pat|..] == b;
  }

  /** The characters `trim` removes: ECMAScript WhiteSpace and LineTerminator. */
  predicate IsWhitespace(c: char) {
    c == '\t' || c == '\n' || c == '\U{000B}' || c == '\U{000C}' || c == '\r'
    || c == ' ' || c == '\U{00A0}' || c == '\U{1680}'
    || ('\U{2000}' <= c <= '\U{200A}')
    || c == '\U{2028}' || c == '\U{2029}' || c == '\U{202F}' || c == '\U{205F}'
    || c == '\U{3000}' || c == '\U{FEFF}'
  }

  predicate AllWhitespace(s: string) {
    forall i :: 0 <= i < |s| ==> IsWhitespace(s[i])
  }

  /** No whitespace at either end. */
  predicate Trimmed(s: string) {
    s == [] || (!IsWhitespace(s[0]) && !IsWhitespace(s[|s| - 1]))
  }

  /** The index of the first non-whitespace character at or after `from`, or `|s|`. */
  function SkipBlanks(s: string, from: nat): (i: nat)
    requires from <= |s|
    decreases |s| - from
    ensures from <= i <= |s|
    ensures forall k :: from <= k < i ==> IsWhitespace(s[k])
    ensures i < |s| ==> !IsWhitespace(s[i])
  {
    if from < |s| && IsWhitespace(s[from]) then SkipBlanks(s, from + 1) else from
  }

  /** The end of `s[lo..hi]` once trailing whitespace is dropped. */
  function SkipBlanksBack(s: string, lo: nat, hi: nat): (j: nat)
    requires lo <= hi <= |s|
    decreases hi - lo
    ensures lo <= j <= hi
    ensures forall k :: j <= k < hi ==> IsWhitespace(s[k])
    ensures lo < j ==> !IsWhitespace(s[j - 1])
  {
    if lo < hi && IsWhitespace(s[hi - 1]) then SkipBlanksBack(s, lo, hi - 1) else hi
  }

  /** `r` is a slice of `s` with only whitespace around it. */
  ghost predicate WhitespaceAround(r: string, s: string) {
    exists i :: 0 <= i <= i + |r| <= |s| && s[i..i + |r|] == r
      && AllWhitespace(s[..i]) && AllWhitespace(s[i + |r|..])
  }

  /** The slice bounds `trim` finds: blanks before `i` and from `j` on, none at either end. */
  ghost predicate TrimBounds(s: string, i: nat, j: nat) {
    i <= j <= |s|
    && (forall k :: 0 <= k < i ==> IsWhitespace(s[k]))
    && (forall k :: j <= k < |s| ==> IsWhitespace(s[k]))
    && (i < |s| ==> !IsWhitespace(s[i]))
    && (i < j ==> !IsWhitespace(s[j - 1]))
  }

  lemma TrimBoundsAround(s: string, i: nat, j: nat)
    requires TrimBounds(s, i, j)
    ensures WhitespaceAround(s[i..j], s)
  {
    assert s[i..i + (j - i)] == s[i..j];
    assert AllWhitespace(s[..i]) && AllWhitespace(s[j..]);
  }

  lemma TrimBoundsBlank(s: string, i: nat, j: nat)
    requires TrimBounds(s, i, j)
    ensures Trimmed(s[i..j])
    ensures s[i..j] == [] <==> AllWhitespace(s)
  {
  }

  lemma SliceNoUpper(s: string, i: nat, j: nat)
    requires i <= j <= |s|
    ensures NoUpper(s) ==> NoUpper(s[i..j])
  {
  }

  /** `s.trim()`. */
  function Trim(s: string): (r: string)
    ensures WhitespaceAround(r, s)
    ensures Trimmed(r)
    ensures r == [] <==> AllWhitespace(s)
    ensures NoUpper(s) ==> NoUpper(r)
  {
    var i := SkipBlanks(s, 0);
    var j := SkipBlanksBack(s, i, |s|);
    TrimBoundsAround(s, i, j);
    TrimBoundsBlank(s, i, j);
    SliceNoUpper(s, i, j);
    s[i..j]
  }

  /** Whitespace, then a trimmed middle, then whitespace: `trim` gives the middle. */
  lemma TrimUnique(a: string, m: string, b: string)
    requires AllWhitespace(a) && AllWhitespace(b) && Trimmed(m)
    ensures Trim(a + m + b) == m
  {
    var s := a + m + b;
    assert forall k :: 0 <= k < |a| ==> s[k] == a[k];
    assert forall k :: 0 <= k < |m| ==> s[|a| + k] == m[k];
    assert forall k :: |a| + |m| <= k < |s| ==> s[k] == b[k - |a| - |m|];
    var i := SkipBlanks(s, 0);
    if m == [] {
      assert i == |s|;
    } else {
      assert !IsWhitespace(s[|a|]) && !IsWhitespace(s[|a| + |m| - 1]);
      assert i == |a|;
      var j := SkipBlanksBack(s, i, |s|);
      assert j == |a| + |m|;
      assert s[i..j] == m;
    }
  }

  /** Trimming twice is trimming once. */
  lemma TrimIdempotent(s: string)
    ensures Trim(Trim(s)) == Trim(s)
  {
  }
}
