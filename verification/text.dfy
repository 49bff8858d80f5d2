/** Character classes and string operations used by the heading heuristics.
    Python's `str.isspace`, `str.lower`, `str.islower` and `str.isalpha` are
    given their ASCII meaning; every other character is uncased, not a
    letter and not whitespace. */
module Text {

  /** `str.isspace` on ASCII: space, \t \n \v \f \r and the separators 0x1C-0x1F.
      The same class is `\s` in a `re` pattern and what `str.strip()` removes. */
  predicate IsSpace(c: char) {
    c == ' ' || (9 <= c as int <= 13) || (28 <= c as int <= 31)
  }

  predicate IsUpper(c: char) { 'A' <= c <= 'Z' }

  predicate IsLowerChar(c: char) { 'a' <= c <= 'z' }

  predicate IsAlpha(c: char) { IsUpper(c) || IsLowerChar(c) }

  predicate IsDigit(c: char) { '0' <= c <= '9' }

  predicate IsAlnum(c: char) { IsAlpha(c) || IsDigit(c) }

  function ToLower(c: char): (r: char)
    ensures !IsUpper(r)
    ensures IsAlpha(r) <==> IsAlpha(c)
  {
    if IsUpper(c) then (c as int + 32) as char else c
  }

  /** `s.lower()` */
  function Lower(s: string): string {
    seq(|s|, i requires 0 <= i < |s| => ToLower(s[i]))
  }

  /** `s.islower()`: some cased character, and every cased one lower-case. */
  predicate IsLowercase(s: string) {
    (exists i :: 0 <= i < |s| && IsLowerChar(s[i])) && forall i :: 0 <= i < |s| ==> !IsUpper(s[i])
  }

  /** `any(c.isalpha() for c in s)` */
  predicate HasAlpha(s: string) {
    exists i :: 0 <= i < |s| && IsAlpha(s[i])
  }

  predicate EndsWith(s: string, c: char) {
    |s| > 0 && s[|s| - 1] == c
  }

  predicate AllSpace(s: string) {
    forall i :: 0 <= i < |s| ==> IsSpace(s[i])
  }

  /** Length of the run of whitespace that starts the string. */
  function LeadingSpaces(s: string): (n: nat)
    ensures n <= |s|
  {
    if |s| > 0 && IsSpace(s[0]) then 1 + LeadingSpaces(s[1..]) else 0
  }

  /** The leading run is whitespace and ends at a non-blank character. */
  lemma {:induction false} LeadingSpacesShape(s: string)
    ensures AllSpace(s[..LeadingSpaces(s)])
    ensures LeadingSpaces(s) < |s| ==> !IsSpace(s[LeadingSpaces(s)])
  {
    if |s| > 0 && IsSpace(s[0]) {
      LeadingSpacesShape(s[1..]);
      assert forall i :: 1 <= i < LeadingSpaces(s) ==> s[..LeadingSpaces(s)][i] == s[1..][..LeadingSpaces(s[1..])][i - 1];
    }
  }

  /** Length of the run of whitespace that ends the string. */
  function TrailingSpaces(s: string): (n: nat)
    ensures n <= |s|
  {
    if |s| > 0 && IsSpace(s[|s| - 1]) then 1 + TrailingSpaces(s[..|s| - 1]) else 0
  }

  /** The trailing run is whitespace and starts after a non-blank character. */
  lemma {:induction false} TrailingSpacesShape(s: string)
    ensures AllSpace(s[|s| - TrailingSpaces(s)..])
    ensures TrailingSpaces(s) < |s| ==> !IsSpace(s[|s| - TrailingSpaces(s) - 1])
  {
    if |s| > 0 && IsSpace(s[|s| - 1]) {
      var u := s[..|s| - 1];
      TrailingSpacesShape(u);
      var n := TrailingSpaces(u);
      assert s[|s| - TrailingSpaces(s)..] == u[|u| - n..] + [s[|s| - 1]];
    }
  }

  /** `r` is `s` with whitespace-only pieces `s[..i]` and `s[j..]` cut off. */
  ghost predicate StrippedAt(s: string, r: string, i: int, j: int) {
    0 <= i <= j <= |s| && r == s[i..j] && AllSpace(s[..i]) && AllSpace(s[j..])
  }

  /** `s.strip()`: the slice of `s` between its leading and its trailing whitespace. */
  function Strip(s: string): (r: string)
    ensures |r| <= |s|
  {
    var i := LeadingSpaces(s);
    var t := s[i..];
    t[..|t| - TrailingSpaces(t)]
  }

  /** What `Strip` removes is whitespace at the two ends, and all of it. */
  lemma StripIsSlice(s: string) returns (i: int, j: int)
    ensures StrippedAt(s, Strip(s), i, j)
    ensures |Strip(s)| > 0 ==> !IsSpace(Strip(s)[0]) && !IsSpace(Strip(s)[|Strip(s)| - 1])
  {
    i := LeadingSpaces(s);
    var t := s[i..];
    LeadingSpacesShape(s);
    TrailingSpacesShape(t);
    var n := |t| - TrailingSpaces(t);
    j := i + n;
    var r := Strip(s);
    assert r == t[..n];
    assert t[n..] == s[j..];
    assert t[..n] == s[i..j];
    if |r| > 0 {
      assert r[0] == s[i];
      assert r[|r| - 1] == t[n - 1];
    }
  }

  /** The non-whitespace characters of `s`, in order. */
  function NonSpace(s: string): string {
    if |s| == 0 then [] else (if IsSpace(s[0]) then [] else [s[0]]) + NonSpace(s[1..])
  }

  lemma {:induction false} NonSpaceAppend(a: string, b: string)
    ensures NonSpace(a + b) == NonSpace(a) + NonSpace(b)
    decreases |a|
  {
    if |a| == 0 {
      assert a + b == b;
    } else {
      assert (a + b)[0] == a[0];
      assert (a + b)[1..] == a[1..] + b;
      NonSpaceAppend(a[1..], b);
    }
  }

  lemma {:induction false} NonSpaceOfSpaces(s: string)
    requires AllSpace(s)
    ensures NonSpace(s) == []
    decreases |s|
  {
    if |s| > 0 {
      NonSpaceOfSpaces(s[1..]);
    }
  }

  predicate NoDoubleSpace(s: string) {
    forall k :: 0 <= k < |s| - 1 ==> !(IsSpace(s[k]) && IsSpace(s[k + 1]))
  }

  predicate OnlyPlainSpaces(s: string) {
    forall k :: 0 <= k < |s| ==> IsSpace(s[k]) ==> s[k] == ' '
  }

  /** A collapsed string: single plain spaces between non-blank characters only. */
  predicate IsCollapsed(s: string) {
    && (|s| > 0 ==> !IsSpace(s[0]) && !IsSpace(s[|s| - 1]))
    && NoDoubleSpace(s)
    && OnlyPlainSpaces(s)
  }

  /** `re.sub(r"\s+", " ", s)`: every maximal whitespace run becomes one space. */
  function Squeeze(s: string): string
    decreases |s|
  {
    if |s| == 0 then []
    else if IsSpace(s[0]) then " " + Squeeze(s[LeadingSpaces(s)..])
    else [s[0]] + Squeeze(s[1..])
  }

  /** After the substitution no two whitespace characters are adjacent, each is a
      plain space, and the non-blank characters are those of the input. */
  lemma {:induction false} SqueezeSpacing(s: string)
    ensures NoDoubleSpace(Squeeze(s)) && OnlyPlainSpaces(Squeeze(s))
    ensures NonSpace(Squeeze(s)) == NonSpace(s)
    ensures |Squeeze(s)| == 0 <==> |s| == 0
    ensures |Squeeze(s)| > 0 ==> (IsSpace(Squeeze(s)[0]) <==> IsSpace(s[0]))
    decreases |s|
  {
    if |s| > 0 {
      var r := Squeeze(s);
      if IsSpace(s[0]) {
        var n := LeadingSpaces(s);
        LeadingSpacesShape(s);
        var rest := Squeeze(s[n..]);
        SqueezeSpacing(s[n..]);
        NonSpaceSkip(s, n);
        assert r == " " + rest;
        assert r[1..] == rest;
        NonSpaceAppend(" ", rest);
      } else {
        var rest := Squeeze(s[1..]);
        SqueezeSpacing(s[1..]);
        assert r == [s[0]] + rest;
        assert r[1..] == rest;
      }
    }
  }

  lemma {:induction false} NonSpaceSkip(s: string, n: nat)
    requires n <= |s| && AllSpace(s[..n])
    ensures NonSpace(s) == NonSpace(s[n..])
  {
    assert s == s[..n] + s[n..];
    NonSpaceAppend(s[..n], s[n..]);
    NonSpaceOfSpaces(s[..n]);
  }

  /** Cutting whitespace-only pieces off both ends keeps the non-blank content. */
  lemma StripKeepsContent(q: string, r: string, i: int, j: int)
    requires StrippedAt(q, r, i, j)
    ensures NonSpace(r) == NonSpace(q)
  {
    assert q == q[..i] + (q[i..j] + q[j..]);
    NonSpaceAppend(q[..i], q[i..j] + q[j..]);
    NonSpaceAppend(q[i..j], q[j..]);
    NonSpaceOfSpaces(q[..i]);
    NonSpaceOfSpaces(q[j..]);
  }

  /** A slice keeps the spacing properties of the whole. */
  lemma SliceKeepsSpacing(q: string, i: int, j: int)
    requires 0 <= i <= j <= |q|
    ensures NoDoubleSpace(q) ==> NoDoubleSpace(q[i..j])
    ensures OnlyPlainSpaces(q) ==> OnlyPlainSpaces(q[i..j])
  {
    assert forall k :: 0 <= k < j - i ==> q[i..j][k] == q[i + k];
  }

  /** `re.sub(r"\s+", " ", s).strip()` */
  function Collapse(s: string): string {
    Strip(Squeeze(s))
  }

  /** The cleaned text is collapsed and keeps every non-blank character of the input. */
  lemma CollapseIsCollapsed(s: string)
    ensures IsCollapsed(Collapse(s))
    ensures NonSpace(Collapse(s)) == NonSpace(s)
  {
    var q := Squeeze(s);
    SqueezeSpacing(s);
    var i, j := StripIsSlice(q);
    StripKeepsContent(q, Strip(q), i, j);
    SliceKeepsSpacing(q, i, j);
  }

  lemma {:induction false} SqueezeKeepsCollapsed(s: string)
    requires NoDoubleSpace(s) && OnlyPlainSpaces(s)
    ensures Squeeze(s) == s
    decreases |s|
  {
    if |s| > 0 {
      if IsSpace(s[0]) {
        assert LeadingSpaces(s) == 1 by {
          if |s| > 1 { assert !IsSpace(s[1]); }
        }
      }
      SqueezeKeepsCollapsed(s[1..]);
    }
  }

  /** Collapsing leaves a collapsed string alone, so collapsing is idempotent. */
  lemma {:induction false} CollapseFixesCollapsed(s: string)
    requires IsCollapsed(s)
    ensures Collapse(s) == s
  {
    SqueezeKeepsCollapsed(s);
    assert LeadingSpaces(s) == 0;
    assert TrailingSpaces(s) == 0;
    assert s[0..][..|s|] == s;
  }

  lemma CollapseIdempotent(s: string)
    ensures Collapse(Collapse(s)) == Collapse(s)
  {
    CollapseIsCollapsed(s);
    CollapseFixesCollapsed(Collapse(s));
  }

  /** Index of the first whitespace character, or `|s|` when there is none. */
  function FirstSpace(s: string): (k: nat)
    ensures k <= |s|
    ensures forall p :: 0 <= p < k ==> !IsSpace(s[p])
    ensures k < |s| ==> IsSpace(s[k])
  {
    if |s| == 0 || IsSpace(s[0]) then 0 else 1 + FirstSpace(s[1..])
  }

  lemma {:induction false} FirstSpaceIs(s: string, k: nat)
    requires k <= |s| && (k < |s| ==> IsSpace(s[k]))
    requires forall p :: 0 <= p < k ==> !IsSpace(s[p])
    ensures FirstSpace(s) == k
  {
    if k > 0 {
      FirstSpaceIs(s[1..], k - 1);
    }
  }

  /** `" ".join(parts)` */
  function JoinWithSpace(parts: seq<string>): string {
    if |parts| == 0 then ""
    else if |parts| == 1 then parts[0]
    else parts[0] + " " + JoinWithSpace(parts[1..])
  }

  /** `s.split()`: the maximal runs of non-blank characters, in order. */
  function Words(s: string): (ws: seq<string>)
    decreases |s|
  {
    if |s| == 0 then []
    else if IsSpace(s[0]) then Words(s[1..])
    else
      var k := FirstSpace(s);
      [s[..k]] + Words(s[k..])
  }

  /** Every word is non-empty and blank-free. */
  lemma {:induction false} WordsShape(s: string)
    ensures forall w :: w in Words(s) ==> |w| > 0 && NonSpace(w) == w
    decreases |s|
  {
    if |s| > 0 {
      if IsSpace(s[0]) {
        WordsShape(s[1..]);
      } else {
        var k := FirstSpace(s);
        WordsShape(s[k..]);
        BlankFree(s[..k]);
      }
    }
  }

  lemma {:induction false} BlankFree(w: string)
    requires forall p :: 0 <= p < |w| ==> !IsSpace(w[p])
    ensures NonSpace(w) == w
    decreases |w|
  {
    if |w| > 0 {
      BlankFree(w[1..]);
    }
  }

  /** Leading whitespace does not change the words. */
  lemma {:induction false} WordsSkip(s: string, n: nat)
    requires n <= |s| && AllSpace(s[..n])
    ensures Words(s) == Words(s[n..])
  {
    if n > 0 {
      assert IsSpace(s[..n][0]);
      assert s[1..][..n - 1] == s[..n][1..];
      WordsSkip(s[1..], n - 1);
      assert s[1..][n - 1..] == s[n..];
    }
  }

  /** A blank-free start ends no later than a whitespace-only tail begins, and
      cutting the tail off leaves the first blank where it was. */
  lemma FirstSpaceBefore(s: string, m: nat) returns (k: nat)
    requires 0 < |s| && !IsSpace(s[0])
    requires m <= |s| && AllSpace(s[m..])
    ensures k == FirstSpace(s) && 0 < k <= m
    ensures FirstSpace(s[..m]) == k
  {
    k := FirstSpace(s);
    if m < |s| {
      assert IsSpace(s[m..][0]);
    } else {
      assert s[..m] == s;
    }
    FirstSpaceIs(s[..m], k);
  }

  /** Trailing whitespace does not change the words. */
  lemma {:induction false} WordsTrim(s: string, m: nat)
    requires m <= |s| && AllSpace(s[m..])
    ensures Words(s) == Words(s[..m])
    decreases |s|
  {
    if |s| == 0 {
    } else if IsSpace(s[0]) {
      if m == 0 {
        WordsSkip(s, |s|);
        assert s[|s|..] == [];
      } else {
        assert s[..m][0] == s[0];
        assert s[1..][m - 1..] == s[m..];
        WordsTrim(s[1..], m - 1);
        assert s[..m][1..] == s[1..][..m - 1];
      }
    } else {
      var k := FirstSpaceBefore(s, m);
      assert s[..m][..k] == s[..k];
      assert s[k..][m - k..] == s[m..];
      WordsTrim(s[k..], m - k);
      assert s[..m][k..] == s[k..][..m - k];
    }
  }

  /** Stripping does not change the words. */
  lemma WordsStrip(s: string)
    ensures Words(Strip(s)) == Words(s)
  {
    var i, j := StripIsSlice(s);
    var u := s[i..];
    WordsSkip(s, i);
    assert AllSpace(u[j - i..]) by {
      assert u[j - i..] == s[j..];
    }
    WordsTrim(u, j - i);
    assert u[..j - i] == Strip(s);
  }

  /** Joining with a space keeps the words of the two sides apart. */
  lemma {:induction false} WordsSpaceJoin(a: string, b: string)
    ensures Words(a + " " + b) == Words(a) + Words(b)
    decreases |a|
  {
    var x := a + " " + b;
    if |a| == 0 {
      assert x[1..] == b;
    } else if IsSpace(a[0]) {
      assert x[1..] == a[1..] + " " + b;
      WordsSpaceJoin(a[1..], b);
    } else {
      var k := FirstSpace(a);
      FirstSpaceIs(x, k);
      assert x[..k] == a[..k];
      assert x[k..] == a[k..] + " " + b;
      WordsSpaceJoin(a[k..], b);
    }
  }

  /** A word followed by nothing or by whitespace is the first word. */
  lemma WordsWordFirst(w: string, z: string)
    requires |w| > 0 && forall p :: 0 <= p < |w| ==> !IsSpace(w[p])
    requires |z| > 0 ==> IsSpace(z[0])
    ensures Words(w + z) == [w] + Words(z)
  {
    var x := w + z;
    FirstSpaceIs(x, |w|);
    assert x[..|w|] == w && x[|w|..] == z;
  }

  /** The substitution keeps the text before the first whitespace character. */
  lemma {:induction false} SqueezeWord(s: string)
    ensures Squeeze(s) == s[..FirstSpace(s)] + Squeeze(s[FirstSpace(s)..])
    decreases |s|
  {
    if |s| > 0 && !IsSpace(s[0]) {
      SqueezeWord(s[1..]);
      assert s[1..][..FirstSpace(s[1..])] == s[1..FirstSpace(s)];
      assert s[1..][FirstSpace(s[1..])..] == s[FirstSpace(s)..];
    }
  }

  /** The substitution keeps the words. */
  lemma {:induction false} WordsSqueeze(s: string)
    ensures Words(Squeeze(s)) == Words(s)
    decreases |s|
  {
    if |s| == 0 {
    } else if IsSpace(s[0]) {
      var n := LeadingSpaces(s);
      LeadingSpacesShape(s);
      var y := Squeeze(s[n..]);
      assert (" " + y)[1..] == y;
      WordsSqueeze(s[n..]);
      WordsSkip(s, n);
    } else {
      var k := FirstSpace(s);
      SqueezeWord(s);
      var z := Squeeze(s[k..]);
      SqueezeSpacing(s[k..]);
      WordsWordFirst(s[..k], z);
      WordsSqueeze(s[k..]);
    }
  }

  lemma JoinCons(w: string, ws: seq<string>)
    requires |ws| > 0
    ensures JoinWithSpace([w] + ws) == w + " " + JoinWithSpace(ws)
  {
    assert ([w] + ws)[1..] == ws;
  }

  /** In a collapsed string the first blank is a single plain space followed
      by a collapsed rest. */
  lemma CollapsedSplit(c: string) returns (k: nat)
    requires IsCollapsed(c) && FirstSpace(c) < |c|
    ensures k == FirstSpace(c) && 0 < k < |c| - 1
    ensures c == c[..k] + " " + c[k + 1..]
    ensures IsCollapsed(c[k + 1..]) && |c[k + 1..]| > 0
    ensures Words(c) == [c[..k]] + Words(c[k + 1..])
  {
    k := FirstSpace(c);
    assert c[k] == ' ' && !IsSpace(c[k + 1]);
    var r := c[k + 1..];
    SliceKeepsSpacing(c, k + 1, |c|);
    assert c[k + 1..|c|] == r;
    assert c[k..][1..] == r;
  }

  /** A collapsed string is its words joined by single spaces. */
  lemma {:induction false} CollapsedIsJoinedWords(c: string)
    requires IsCollapsed(c)
    ensures c == JoinWithSpace(Words(c))
    decreases |c|
  {
    if |c| > 0 {
      if FirstSpace(c) == |c| {
        assert c[|c|..] == [];
      } else {
        var k := CollapsedSplit(c);
        var r := c[k + 1..];
        CollapsedIsJoinedWords(r);
        JoinCons(c[..k], Words(r));
      }
    }
  }

  /** The cleaned text is the words of the line joined by single spaces:
      `" ".join(s.split())`. */
  lemma CollapseIsJoinedWords(s: string)
    ensures Words(Collapse(s)) == Words(s)
    ensures Collapse(s) == JoinWithSpace(Words(s))
  {
    WordsSqueeze(s);
    WordsStrip(Squeeze(s));
    CollapseIsCollapsed(s);
    CollapsedIsJoinedWords(Collapse(s));
  }

  /** `needle` occurs in `hay` starting at index `i`. */
  ghost predicate OccursAt(hay: string, needle: string, i: int) {
    0 <= i && i + |needle| <= |hay| && hay[i..i + |needle|] == needle
  }

  /** `needle in hay` for strings. */
  predicate Contains(hay: string, needle: string)
    decreases |hay|
  {
    if |hay| < |needle| then false
    else hay[..|needle|] == needle || Contains(hay[1..], needle)
  }

  lemma {:induction false} ContainsIff(hay: string, needle: string)
    ensures Contains(hay, needle) <==> exists i :: OccursAt(hay, needle, i)
    decreases |hay|
  {
    if |hay| < |needle| {
      assert forall i :: !OccursAt(hay, needle, i);
    } else if hay[..|needle|] == needle {
      assert OccursAt(hay, needle, 0);
    } else {
      ContainsIff(hay[1..], needle);
      forall i | OccursAt(hay[1..], needle, i)
        ensures OccursAt(hay, needle, i + 1)
      {
        assert hay[1..][i..i + |needle|] == hay[i + 1..i + 1 + |needle|];
      }
      forall i | OccursAt(hay, needle, i) && i > 0
        ensures OccursAt(hay[1..], needle, i - 1)
      {
        assert hay[1..][i - 1..i - 1 + |needle|] == hay[i..i + |needle|];
      }
    }
  }

  /** Python's `a < b` on strings: code-point lexicographic order, a proper prefix first. */
  predicate StrLt(a: string, b: string) {
    if |a| == 0 then |b| > 0
    else if |b| == 0 then false
    else if a[0] != b[0] then a[0] < b[0]
    else StrLt(a[1..], b[1..])
  }

  /** `a` and `b` agree on their first `k` characters, and `a` ends there while
      `b` goes on, or `a` has the smaller character at index `k`. */
  ghost predicate FirstDifferenceAt(a: string, b: string, k: int) {
    && 0 <= k <= |a| && k <= |b|
    && a[..k] == b[..k]
    && ((k == |a| && k < |b|) || (k < |a| && k < |b| && a[k] < b[k]))
  }

  /** The order `StrLt` decides, stated without recursion. */
  ghost predicate LexBefore(a: string, b: string) {
    exists k :: FirstDifferenceAt(a, b, k)
  }

  lemma {:induction false} DifferenceGivesStrLt(a: string, b: string, k: int)
    requires FirstDifferenceAt(a, b, k)
    ensures StrLt(a, b)
    decreases k
  {
    if k > 0 {
      assert a[0] == a[..k][0] == b[..k][0] == b[0];
      assert a[1..][..k - 1] == b[1..][..k - 1];
      DifferenceGivesStrLt(a[1..], b[1..], k - 1);
    }
  }

  lemma {:induction false} StrLtGivesDifference(a: string, b: string) returns (k: int)
    requires StrLt(a, b)
    ensures FirstDifferenceAt(a, b, k)
    decreases |a|
  {
    if |a| == 0 || a[0] != b[0] {
      k := 0;
    } else {
      var k' := StrLtGivesDifference(a[1..], b[1..]);
      k := k' + 1;
      assert a[..k] == [a[0]] + a[1..][..k'];
      assert b[..k] == [b[0]] + b[1..][..k'];
    }
  }

  /** `StrLt` is the lexicographic order of Python's string comparison. */
  lemma StrLtIsLexicographic(a: string, b: string)
    ensures StrLt(a, b) <==> LexBefore(a, b)
  {
    if StrLt(a, b) {
      var k := StrLtGivesDifference(a, b);
    }
    if LexBefore(a, b) {
      var k :| FirstDifferenceAt(a, b, k);
      DifferenceGivesStrLt(a, b, k);
    }
  }

  lemma {:induction false} StrLtTransitive(a: string, b: string, c: string)
    requires StrLt(a, b) && StrLt(b, c)
    ensures StrLt(a, c)
    decreases |a|
  {
    if |a| > 0 && |b| > 0 && |c| > 0 && a[0] == b[0] && b[0] == c[0] {
      StrLtTransitive(a[1..], b[1..], c[1..]);
    }
  }

  /** Any two distinct strings are ordered one way, and never both ways. */
  lemma {:induction false} StrLtTotal(a: string, b: string)
    ensures !StrLt(a, a)
    ensures a != b ==> StrLt(a, b) || StrLt(b, a)
    ensures !(StrLt(a, b) && StrLt(b, a))
    decreases |a|
  {
    if |a| > 0 {
      StrLtTotal(a[1..], a[1..]);
      if |b| > 0 {
        StrLtTotal(a[1..], b[1..]);
        if a[0] == b[0] && a != b {
          assert a == [a[0]] + a[1..] && b == [b[0]] + b[1..];
        }
      }
    }
  }
}
