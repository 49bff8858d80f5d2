/** The numbered-heading test of process_pdfs.py: the regular expression
    `^\(?[0-9a-zA-Z]+\)?[.)]?\s+[A-Z]`, matched at the start of the line,
    written out as a scan over the string. */
module Numbering {
  import opened Text

  /** Length of the run of ASCII letters and digits that starts the string. */
  function AlnumRun(s: string): (n: nat)
    ensures n <= |s|
    ensures forall p :: 0 <= p < n ==> IsAlnum(s[p])
    ensures n < |s| ==> !IsAlnum(s[n])
  {
    if |s| > 0 && IsAlnum(s[0]) then 1 + AlnumRun(s[1..]) else 0
  }

  /** What `\)?[.)]?` can match. */
  predicate IsCloser(t: string) {
    t == "" || t == ")" || t == "." || t == "))" || t == ")."
  }

  lemma CloserChars(t: string)
    requires IsCloser(t)
    ensures forall q :: 0 <= q < |t| ==> t[q] == ')' || t[q] == '.'
  {
    if t == "))" {
      assert t[0] == ')' && t[1] == ')';
    } else if t == ")." {
      assert t[0] == ')' && t[1] == '.';
    }
  }

  /** The whole token matches `\(?[0-9a-zA-Z]+\)?[.)]?`. */
  predicate IsNumberToken(t: string) {
    var a := if |t| > 0 && t[0] == '(' then t[1..] else t;
    var n := AlnumRun(a);
    n >= 1 && IsCloser(a[n..])
  }

  /** The line starts with a number token, then whitespace, then an upper-case
      letter. No part of the token can match whitespace, so the token is exactly
      the text before the first whitespace character, and `\s+` has to take the
      whole whitespace run for `[A-Z]` to match. */
  predicate IsNumbered(s: string) {
    var k := FirstSpace(s);
    && k < |s|
    && IsNumberToken(s[..k])
    && var m := k + LeadingSpaces(s[k..]);
       m < |s| && IsUpper(s[m])
  }

  /** One way the pattern can match `s`: an optional "(" before `i`, letters and
      digits on `[i, j)`, a closer on `[j, k)`, whitespace on `[k, m)` and an
      upper-case letter at `m`. */
  ghost predicate MatchesAt(s: string, i: int, j: int, k: int, m: int) {
    && 0 <= i < j <= k < m < |s|
    && (i == 0 || (i == 1 && s[0] == '('))
    && (forall p :: i <= p < j ==> IsAlnum(s[p]))
    && IsCloser(s[j..k])
    && (forall p :: k <= p < m ==> IsSpace(s[p]))
    && IsUpper(s[m])
  }

  /** Where the parts of a number token lie. */
  lemma TokenParts(t: string) returns (i: int, j: int)
    requires IsNumberToken(t)
    ensures 0 <= i < j <= |t|
    ensures i == 0 || (i == 1 && t[0] == '(')
    ensures forall p :: i <= p < j ==> IsAlnum(t[p])
    ensures IsCloser(t[j..])
  {
    i := if |t| > 0 && t[0] == '(' then 1 else 0;
    var a := if |t| > 0 && t[0] == '(' then t[1..] else t;
    assert a == t[i..];
    var n := AlnumRun(a);
    j := i + n;
    assert a[n..] == t[j..];
    assert forall p :: i <= p < j ==> t[p] == a[p - i];
  }

  /** The whitespace run that starts at `k`. */
  lemma SpaceRun(s: string, k: int) returns (m: int)
    requires 0 <= k < |s| && IsSpace(s[k])
    ensures m == k + LeadingSpaces(s[k..])
    ensures k < m <= |s|
    ensures forall p :: k <= p < m ==> IsSpace(s[p])
  {
    var l := LeadingSpaces(s[k..]);
    LeadingSpacesShape(s[k..]);
    m := k + l;
    assert forall p :: k <= p < m ==> s[p] == s[k..][..l][p - k];
  }

  lemma NumberedGivesMatch(s: string) returns (i: int, j: int, k: int, m: int)
    requires IsNumbered(s)
    ensures MatchesAt(s, i, j, k, m)
  {
    k := FirstSpace(s);
    var t := s[..k];
    i, j := TokenParts(t);
    assert t[j..] == s[j..k];
    assert forall p :: 0 <= p < k ==> t[p] == s[p];
    m := SpaceRun(s, k);
  }

  lemma {:induction false} AlnumRunIs(s: string, n: nat)
    requires n <= |s|
    requires forall p :: 0 <= p < n ==> IsAlnum(s[p])
    requires n < |s| ==> !IsAlnum(s[n])
    ensures AlnumRun(s) == n
  {
    if n > 0 {
      AlnumRunIs(s[1..], n - 1);
    }
  }

  lemma {:induction false} LeadingSpacesIs(s: string, n: nat)
    requires n < |s| && !IsSpace(s[n])
    requires forall p :: 0 <= p < n ==> IsSpace(s[p])
    ensures LeadingSpaces(s) == n
  {
    if n > 0 {
      LeadingSpacesIs(s[1..], n - 1);
    }
  }

  /** Under a match the token ends at the first whitespace character. */
  lemma MatchTokenEnd(s: string, i: int, j: int, k: int, m: int)
    requires MatchesAt(s, i, j, k, m)
    ensures FirstSpace(s) == k
  {
    var closer := s[j..k];
    CloserChars(closer);
    assert forall p :: j <= p < k ==> s[p] == closer[p - j];
    assert forall p :: 0 <= p < k ==> !IsSpace(s[p]);
    FirstSpaceIs(s, k);
  }

  /** Under a match the text before the whitespace is a number token. */
  lemma MatchToken(s: string, i: int, j: int, k: int, m: int)
    requires MatchesAt(s, i, j, k, m)
    ensures IsNumberToken(s[..k])
  {
    var closer := s[j..k];
    CloserChars(closer);
    var t := s[..k];
    assert |t| > 0 && t[0] == '(' <==> i == 1;
    var a := if |t| > 0 && t[0] == '(' then t[1..] else t;
    assert a == s[i..k];
    assert forall p :: 0 <= p < j - i ==> IsAlnum(a[p]);
    assert j - i < |a| ==> a[j - i] == closer[0];
    AlnumRunIs(a, j - i);
    assert a[j - i..] == closer;
  }

  /** Under a match `\s+` takes the whole whitespace run. */
  lemma MatchSpaces(s: string, i: int, j: int, k: int, m: int)
    requires MatchesAt(s, i, j, k, m)
    ensures k + LeadingSpaces(s[k..]) == m
  {
    var rest := s[k..];
    assert forall p :: 0 <= p < m - k ==> IsSpace(rest[p]);
    assert !IsSpace(rest[m - k]);
    LeadingSpacesIs(rest, m - k);
  }

  lemma MatchGivesNumbered(s: string, i: int, j: int, k: int, m: int)
    requires MatchesAt(s, i, j, k, m)
    ensures IsNumbered(s)
  {
    MatchTokenEnd(s, i, j, k, m);
    MatchToken(s, i, j, k, m);
    MatchSpaces(s, i, j, k, m);
  }

  /** The hand-written scan accepts exactly the strings the pattern matches. */
  lemma NumberedIffMatch(s: string)
    ensures IsNumbered(s) <==> exists i, j, k, m :: MatchesAt(s, i, j, k, m)
  {
    if IsNumbered(s) {
      var i, j, k, m := NumberedGivesMatch(s);
    }
    if exists i, j, k, m :: MatchesAt(s, i, j, k, m) {
      var i, j, k, m :| MatchesAt(s, i, j, k, m);
      MatchGivesNumbered(s, i, j, k, m);
    }
  }
}
