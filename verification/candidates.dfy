/** Candidate extraction (`extract_heading_lines`): every line of every page,
    in reading order, is de-duplicated on its text, cleaned, filtered, matched
    against the heading heuristics and, when it passes, translated into a
    candidate carrying its size, font and 1-based page number. */
module Candidates {
  import opened Text
  import opened Layout
  import Numbering
  import Dedup

  /** `translate_with_apertium`: `run` stands for the translation subprocess and
      gives `None` when it raises. Empty output falls back to the input text;
      other output is stripped (and may strip down to nothing). */
  function Translate(run: string -> Option<string>, text: string): (r: string)
    ensures run(text).None? ==> r == text
    ensures run(text) == Some("") ==> r == text
  {
    match run(text)
    case None => text
    case Some(out) => if out == "" then text else Strip(out)
  }

  /** Non-empty output is used with its surrounding whitespace removed and
      nothing else changed: the result is the output between an all-blank
      prefix and an all-blank suffix, and it starts and ends with a non-blank
      character. */
  lemma TranslateKeepsOutput(run: string -> Option<string>, text: string) returns (i: int, j: int)
    requires run(text).Some? && run(text).value != ""
    ensures StrippedAt(run(text).value, Translate(run, text), i, j)
    ensures |Translate(run, text)| > 0 ==>
              !IsSpace(Translate(run, text)[0]) && !IsSpace(Translate(run, text)[|Translate(run, text)| - 1])
    ensures |Translate(run, text)| <= |run(text).value|
    ensures NonSpace(Translate(run, text)) == NonSpace(run(text).value)
  {
    var out := run(text).value;
    i, j := StripIsSlice(out);
    StripKeepsContent(out, Strip(out), i, j);
  }

  /** The translation subprocess when it cannot be started at all. */
  function Unavailable(text: string): Option<string> {
    None
  }

  function Tag(lines: seq<TextLine>, p: nat): (r: seq<Located>)
    ensures |r| == |lines|
    ensures forall k :: 0 <= k < |r| ==> r[k] == Located(lines[k], p)
  {
    seq(|lines|, k requires 0 <= k < |lines| => Located(lines[k], p))
  }

  /** The loops over pages and lines: every line, tagged with its page index, in
      page order and reading order within a page. */
  function Flatten(pages: seq<seq<TextLine>>): (locs: seq<Located>)
    ensures |locs| == Offset(pages, |pages|)
  {
    if |pages| == 0 then []
    else
      var n := |pages| - 1;
      OffsetPrefix(pages, n, n);
      Flatten(pages[..n]) + Tag(pages[n], n)
  }

  /** Every visited line is on the page it is tagged with, page indices never
      decrease, and every line of every page is visited. */
  lemma {:induction false} FlattenShape(pages: seq<seq<TextLine>>)
    ensures forall i :: 0 <= i < |Flatten(pages)| ==>
              Flatten(pages)[i].pageIndex < |pages| && Flatten(pages)[i].line in pages[Flatten(pages)[i].pageIndex]
    ensures forall i, j :: 0 <= i <= j < |Flatten(pages)| ==> Flatten(pages)[i].pageIndex <= Flatten(pages)[j].pageIndex
    ensures forall p, k :: 0 <= p < |pages| && 0 <= k < |pages[p]| ==> Located(pages[p][k], p) in Flatten(pages)
  {
    if |pages| > 0 {
      var n := |pages| - 1;
      FlattenShape(pages[..n]);
      var front := Flatten(pages[..n]);
      var last := Tag(pages[n], n);
      assert Flatten(pages) == front + last;
      assert forall p :: 0 <= p < n ==> pages[..n][p] == pages[p];
      assert forall k :: 0 <= k < |pages[n]| ==> Located(pages[n][k], n) == last[k];
    }
  }

  /** The number of lines on the pages before page `p`. */
  function Offset(pages: seq<seq<TextLine>>, p: nat): nat
    requires p <= |pages|
  {
    if p == 0 then 0 else Offset(pages, p - 1) + |pages[p - 1]|
  }

  lemma {:induction false} OffsetPrefix(pages: seq<seq<TextLine>>, m: nat, p: nat)
    requires p <= m <= |pages|
    ensures Offset(pages[..m], p) == Offset(pages, p)
  {
    if p > 0 {
      OffsetPrefix(pages, m, p - 1);
    }
  }

  lemma {:induction false} OffsetGrows(pages: seq<seq<TextLine>>, p: nat, q: nat)
    requires p <= q <= |pages|
    ensures Offset(pages, p) <= Offset(pages, q)
    decreases q
  {
    if p < q {
      OffsetGrows(pages, p, q - 1);
    }
  }

  /** Line `k` of page `p` sits at position `Offset(pages, p) + k` of the
      reading-order list. */
  ghost predicate PlacedAt(pages: seq<seq<TextLine>>, p: nat, k: nat)
    requires p < |pages| && k < |pages[p]|
  {
    Offset(pages, p) + k < |Flatten(pages)| && Flatten(pages)[Offset(pages, p) + k] == Located(pages[p][k], p)
  }

  lemma {:induction false} FlattenAt(pages: seq<seq<TextLine>>, p: nat, k: nat)
    requires p < |pages| && k < |pages[p]|
    ensures PlacedAt(pages, p, k)
  {
    var n := |pages| - 1;
    var front := Flatten(pages[..n]);
    var last := Tag(pages[n], n);
    var f := Flatten(pages);
    assert f == front + last;
    OffsetPrefix(pages, n, n);
    var i := Offset(pages, p) + k;
    if p < n {
      assert pages[..n][p] == pages[p];
      FlattenAt(pages[..n], p, k);
      OffsetPrefix(pages, n, p);
      OffsetGrows(pages, p + 1, n);
      assert i < |front|;
      assert front[i] == Located(pages[p][k], p);
      assert f[i] == front[i];
    } else {
      assert f[i] == last[k];
    }
  }

  /** The loops visit line `k` of page `p` at position `Offset(pages, p) + k`,
      and visit nothing else: reading order within a page, pages in order, each
      line once. */
  lemma FlattenPositions(pages: seq<seq<TextLine>>)
    ensures |Flatten(pages)| == Offset(pages, |pages|)
    ensures forall p: nat, k: nat :: p < |pages| && k < |pages[p]| ==> PlacedAt(pages, p, k)
  {
    forall p: nat, k: nat | p < |pages| && k < |pages[p]|
      ensures PlacedAt(pages, p, k)
    {
      FlattenAt(pages, p, k);
    }
  }

  /** `"bold" in font_name.lower()` */
  predicate IsBold(font: string) {
    Contains(Lower(font), "bold")
  }

  /** The rejections of process_pdfs.py lines 41-44: the title, fewer than three characters,
      all lower-case, no letter. */
  predicate PassesFilters(clean: string, title: string) {
    && Lower(clean) != Lower(title)
    && |clean| >= 3
    && !IsLowercase(clean)
    && HasAlpha(clean)
  }

  /** The heading heuristics of process_pdfs.py lines 45-46: numbered, bold first-span font, at
      least 12.0 points, or the raw text ending in a colon. */
  predicate LooksLikeHeading(line: TextLine, clean: string) {
    || Numbering.IsNumbered(clean)
    || IsBold(line.font)
    || line.sizeTenths >= 120
    || EndsWith(line.text, ':')
  }

  /** The line has spans and its joined text is not empty. */
  predicate HasText(l: Located) {
    l.line.hasSpans && l.line.text != ""
  }

  /** The line passes the filters and the heuristics. */
  predicate Admits(line: TextLine, title: string) {
    var clean := Collapse(line.text);
    PassesFilters(clean, title) && LooksLikeHeading(line, clean)
  }

  function MakeCandidate(run: string -> Option<string>, l: Located): (c: Candidate)
    ensures c.page == l.pageIndex + 1 && c.page >= 1
    ensures c.sizeTenths == l.line.sizeTenths && c.font == l.line.font
  {
    Candidate(Translate(run, Collapse(l.line.text)), l.line.sizeTenths, l.line.font, l.pageIndex + 1)
  }

  /** The body of the line loop with `seen` passed along: a text is added to
      `seen` before any filter looks at the line. */
  function Scan(locs: seq<Located>, title: string, seen: set<string>, run: string -> Option<string>)
    : (r: seq<Candidate>)
    ensures |r| <= |locs|
    decreases |locs|
  {
    if |locs| == 0 then []
    else
      var l := locs[0];
      if !HasText(l) || l.line.text in seen then
        Scan(locs[1..], title, seen, run)
      else
        (if Admits(l.line, title) then [MakeCandidate(run, l)] else [])
        + Scan(locs[1..], title, seen + {l.line.text}, run)
  }

  /** `extract_heading_lines(pdf, title)` over the pages as read. */
  function ExtractHeadingLines(pages: seq<seq<TextLine>>, title: string, run: string -> Option<string>)
    : (r: seq<Candidate>)
    ensures |r| <= |Flatten(pages)|
  {
    Scan(Flatten(pages), title, {}, run)
  }

  // The same computation described position by position.

  ghost function TextFlags(locs: seq<Located>): seq<bool> {
    seq(|locs|, i requires 0 <= i < |locs| => HasText(locs[i]))
  }

  ghost function Raws(locs: seq<Located>): seq<string> {
    seq(|locs|, i requires 0 <= i < |locs| => locs[i].line.text)
  }

  ghost function AdmitFlags(locs: seq<Located>, title: string): seq<bool> {
    seq(|locs|, i requires 0 <= i < |locs| => HasText(locs[i]) && Admits(locs[i].line, title))
  }

  /** Line `i` has text and no earlier line with text has the same text,
      whether or not that earlier line was accepted. */
  ghost predicate FirstSeen(locs: seq<Located>, i: int) {
    Dedup.FirstOccurrence(TextFlags(locs), Raws(locs), i)
  }

  /** The positions of the accepted lines, in order. */
  ghost function Accepted(locs: seq<Located>, title: string): seq<nat> {
    Dedup.Chosen(TextFlags(locs), Raws(locs), AdmitFlags(locs, title), 0)
  }

  ghost predicate ValidPicks(locs: seq<Located>, idx: seq<nat>) {
    forall a :: 0 <= a < |idx| ==> idx[a] < |locs|
  }

  ghost function Pick(run: string -> Option<string>, locs: seq<Located>, idx: seq<nat>): seq<Candidate>
    requires ValidPicks(locs, idx)
  {
    if |idx| == 0 then [] else [MakeCandidate(run, locs[idx[0]])] + Pick(run, locs, idx[1..])
  }

  lemma {:induction false} PickShape(run: string -> Option<string>, locs: seq<Located>, idx: seq<nat>)
    requires ValidPicks(locs, idx)
    ensures |Pick(run, locs, idx)| == |idx|
    ensures forall a :: 0 <= a < |idx| ==> Pick(run, locs, idx)[a] == MakeCandidate(run, locs[idx[a]])
  {
    if |idx| > 0 {
      var rest := Pick(run, locs, idx[1..]);
      PickShape(run, locs, idx[1..]);
      var head := MakeCandidate(run, locs[idx[0]]);
      assert Pick(run, locs, idx) == [head] + rest;
      forall a | 0 < a < |idx|
        ensures Pick(run, locs, idx)[a] == MakeCandidate(run, locs[idx[a]])
      {
        assert idx[1..][a - 1] == idx[a];
      }
    }
  }

  lemma ChosenValid(locs: seq<Located>, title: string, k: nat)
    requires k <= |locs|
    ensures ValidPicks(locs, Dedup.Chosen(TextFlags(locs), Raws(locs), AdmitFlags(locs, title), k))
  {
    var c := Dedup.Chosen(TextFlags(locs), Raws(locs), AdmitFlags(locs, title), k);
    Dedup.ChosenShape(TextFlags(locs), Raws(locs), AdmitFlags(locs, title), k);
  }

  /** From position `k` on, the scan with the seen set a loop holds at `k` takes
      exactly the first-seen admitted lines. */
  lemma {:induction false} ScanFrom(locs: seq<Located>, title: string, run: string -> Option<string>, k: nat)
    requires k <= |locs|
    ensures ValidPicks(locs, Dedup.Chosen(TextFlags(locs), Raws(locs), AdmitFlags(locs, title), k))
    ensures Scan(locs[k..], title, Dedup.SeenBefore(TextFlags(locs), Raws(locs), k), run)
            == Pick(run, locs, Dedup.Chosen(TextFlags(locs), Raws(locs), AdmitFlags(locs, title), k))
    decreases |locs| - k
  {
    ChosenValid(locs, title, k);
    if k < |locs| {
      var elig, keys, keep := TextFlags(locs), Raws(locs), AdmitFlags(locs, title);
      Dedup.SeenStep(elig, keys, k);
      ScanFrom(locs, title, run, k + 1);
      ChosenValid(locs, title, k + 1);
      assert locs[k..][0] == locs[k];
      assert locs[k..][1..] == locs[k + 1..];
      var rest := Dedup.Chosen(elig, keys, keep, k + 1);
      var seen := Dedup.SeenBefore(elig, keys, k);
      var l := locs[k];
      assert elig[k] == HasText(l) && keys[k] == l.line.text;
      assert keep[k] == (HasText(l) && Admits(l.line, title));
      var tail := Scan(locs[k + 1..], title, Dedup.SeenBefore(elig, keys, k + 1), run);
      if !HasText(l) {
        assert Dedup.SeenBefore(elig, keys, k + 1) == seen;
        assert Scan(locs[k..], title, seen, run) == tail;
        assert Dedup.Chosen(elig, keys, keep, k) == [] + rest == rest;
      } else if l.line.text in seen {
        assert Dedup.SeenBefore(elig, keys, k + 1) == seen + {l.line.text} == seen;
        assert Scan(locs[k..], title, seen, run) == tail;
        assert Dedup.Chosen(elig, keys, keep, k) == [] + rest == rest;
      } else if Admits(l.line, title) {
        assert Scan(locs[k..], title, seen, run) == [MakeCandidate(run, l)] + tail;
        assert Dedup.Chosen(elig, keys, keep, k) == [k] + rest;
        assert ([k] + rest)[1..] == rest;
      } else {
        assert Scan(locs[k..], title, seen, run) == [] + tail;
        assert Dedup.Chosen(elig, keys, keep, k) == [] + rest == rest;
      }
    }
  }

  /** Extraction takes, in order, exactly the lines that are seen first and
      admitted, and makes each one into a candidate. */
  /** The accepted positions increase and are exactly the first-seen lines
      that are admitted. */
  lemma AcceptedShape(locs: seq<Located>, title: string)
    ensures forall a, b :: 0 <= a < b < |Accepted(locs, title)| ==> Accepted(locs, title)[a] < Accepted(locs, title)[b]
    ensures forall i :: 0 <= i < |locs| ==>
              (i in Accepted(locs, title) <==> FirstSeen(locs, i) && Admits(locs[i].line, title))
  {
    var elig, keys, keep := TextFlags(locs), Raws(locs), AdmitFlags(locs, title);
    Dedup.ChosenShape(elig, keys, keep, 0);
    assert forall i :: 0 <= i < |locs| ==> elig[i] == HasText(locs[i]);
    assert forall i :: 0 <= i < |locs| ==> keep[i] == (HasText(locs[i]) && Admits(locs[i].line, title));
  }

  lemma ExtractionCharacterized(pages: seq<seq<TextLine>>, title: string, run: string -> Option<string>)
    ensures ValidPicks(Flatten(pages), Accepted(Flatten(pages), title))
    ensures ExtractHeadingLines(pages, title, run) == Pick(run, Flatten(pages), Accepted(Flatten(pages), title))
    ensures forall a, b :: 0 <= a < b < |Accepted(Flatten(pages), title)| ==>
              Accepted(Flatten(pages), title)[a] < Accepted(Flatten(pages), title)[b]
    ensures forall i :: 0 <= i < |Flatten(pages)| ==>
              (i in Accepted(Flatten(pages), title) <==> FirstSeen(Flatten(pages), i) && Admits(Flatten(pages)[i].line, title))
  {
    var locs := Flatten(pages);
    ScanFrom(locs, title, run, 0);
    assert locs[0..] == locs;
    assert Dedup.SeenBefore(TextFlags(locs), Raws(locs), 0) == {};
    AcceptedShape(locs, title);
  }

  /** Every candidate is on a page of the document, and candidates come in page order. */
  lemma CandidatePages(pages: seq<seq<TextLine>>, title: string, run: string -> Option<string>)
    ensures forall a :: 0 <= a < |ExtractHeadingLines(pages, title, run)| ==>
              1 <= ExtractHeadingLines(pages, title, run)[a].page <= |pages|
    ensures forall a, b :: 0 <= a <= b < |ExtractHeadingLines(pages, title, run)| ==>
              ExtractHeadingLines(pages, title, run)[a].page <= ExtractHeadingLines(pages, title, run)[b].page
  {
    var locs := Flatten(pages);
    var acc := Accepted(locs, title);
    FlattenShape(pages);
    ExtractionCharacterized(pages, title, run);
    PickShape(run, locs, acc);
    var r := ExtractHeadingLines(pages, title, run);
    forall a | 0 <= a < |r|
      ensures r[a].page == locs[acc[a]].pageIndex + 1 && 1 <= r[a].page <= |pages|
    {
      assert r[a] == MakeCandidate(run, locs[acc[a]]);
    }
    forall a, b | 0 <= a <= b < |r|
      ensures r[a].page <= r[b].page
    {
      assert acc[a] <= acc[b];
      assert locs[acc[a]].pageIndex <= locs[acc[b]].pageIndex;
    }
  }

  /** The text a candidate is made from: collapsed, at least three characters,
      with a letter, not all lower-case, and not the title in any casing. */
  ghost predicate CleanFor(clean: string, title: string) {
    IsCollapsed(clean) && PassesFilters(clean, title)
  }

  /** Each candidate is the translation of a clean text, with a line's size and font. */
  lemma CandidateTexts(pages: seq<seq<TextLine>>, title: string, run: string -> Option<string>)
    ensures forall a :: 0 <= a < |ExtractHeadingLines(pages, title, run)| ==>
              exists l :: l in Flatten(pages) && CleanFor(Collapse(l.line.text), title) &&
                ExtractHeadingLines(pages, title, run)[a]
                  == Candidate(Translate(run, Collapse(l.line.text)), l.line.sizeTenths, l.line.font, l.pageIndex + 1)
  {
    var locs := Flatten(pages);
    var acc := Accepted(locs, title);
    ExtractionCharacterized(pages, title, run);
    PickShape(run, locs, acc);
    var r := ExtractHeadingLines(pages, title, run);
    forall a | 0 <= a < |r|
      ensures exists l :: l in locs && CleanFor(Collapse(l.line.text), title) &&
                r[a] == Candidate(Translate(run, Collapse(l.line.text)), l.line.sizeTenths, l.line.font, l.pageIndex + 1)
    {
      var l := locs[acc[a]];
      assert acc[a] in acc;
      CollapseIsCollapsed(l.line.text);
      assert r[a] == MakeCandidate(run, l);
    }
  }

  /** When every translation attempt fails the candidates carry the clean texts. */
  lemma UntranslatedTexts(pages: seq<seq<TextLine>>, title: string, run: string -> Option<string>)
    requires forall t :: run(t).None?
    ensures forall c :: c in ExtractHeadingLines(pages, title, run) ==> CleanFor(c.text, title)
  {
    CandidateTexts(pages, title, run);
  }

  /** No two candidates come from lines with the same text, and a line with
      text blocks every later line with that text, accepted or not. */
  lemma CandidateSourcesDistinct(pages: seq<seq<TextLine>>, title: string)
    ensures forall a :: 0 <= a < |Accepted(Flatten(pages), title)| ==> Accepted(Flatten(pages), title)[a] < |Flatten(pages)|
    ensures forall a, b :: 0 <= a < b < |Accepted(Flatten(pages), title)| ==>
              Flatten(pages)[Accepted(Flatten(pages), title)[a]].line.text
                 != Flatten(pages)[Accepted(Flatten(pages), title)[b]].line.text
    ensures forall j, i ::
              (0 <= j < i < |Flatten(pages)| && HasText(Flatten(pages)[j]) &&
               Flatten(pages)[j].line.text == Flatten(pages)[i].line.text) ==> i !in Accepted(Flatten(pages), title)
  {
    var locs := Flatten(pages);
    var elig, keys, keep := TextFlags(locs), Raws(locs), AdmitFlags(locs, title);
    Dedup.ChosenKeysDistinct(elig, keys, keep);
    Dedup.ChosenShape(elig, keys, keep, 0);
    ExtractionCharacterized(pages, title, run := Unavailable);
    forall j, i | 0 <= j < i < |locs| && HasText(locs[j]) && locs[j].line.text == locs[i].line.text
      ensures i !in Accepted(locs, title)
    {
      assert elig[j] && keys[j] == keys[i];
    }
  }

  /** A line that is seen first and passes the filters becomes a candidate
      exactly when one of the four heuristics holds. */
  lemma HeadingIff(pages: seq<seq<TextLine>>, title: string, i: int)
    requires 0 <= i < |Flatten(pages)| && FirstSeen(Flatten(pages), i)
    requires PassesFilters(Collapse(Flatten(pages)[i].line.text), title)
    ensures var l := Flatten(pages)[i].line;
            i in Accepted(Flatten(pages), title) <==>
              || Numbering.IsNumbered(Collapse(l.text))
              || Contains(Lower(l.font), "bold")
              || l.sizeTenths >= 120
              || EndsWith(l.text, ':')
  {
    ExtractionCharacterized(pages, title, Unavailable);
  }

  /** A line whose text is already clean is never a candidate when it is the
      title in some casing. */
  lemma CleanTitleExcluded(line: TextLine, title: string)
    requires IsCollapsed(line.text) && Lower(line.text) == Lower(title)
    ensures !Admits(line, title)
  {
    CollapseFixesCollapsed(line.text);
  }

  /** The title is compared with the cleaned text, not with the raw one, so a
      title line with two adjacent blanks inside is not excluded: its cleaned
      text no longer equals the title in any casing. */
  lemma SpacedTitleNotExcluded(line: TextLine)
    requires !NoDoubleSpace(line.text)
    ensures Lower(Collapse(line.text)) != Lower(line.text)
  {
    var t := line.text;
    var k :| 0 <= k < |t| - 1 && IsSpace(t[k]) && IsSpace(t[k + 1]);
    assert IsSpace(Lower(t)[k]) && IsSpace(Lower(t)[k + 1]);
    var c := Collapse(t);
    CollapseIsCollapsed(t);
    if |c| == |t| {
      assert !(IsSpace(Lower(c)[k]) && IsSpace(Lower(c)[k + 1]));
    }
  }
}
