/** The values the heading inference works on: text lines as the page reader
    delivers them, heading candidates, and outline entries. */
module Layout {
  import opened Text

  datatype Option<T> = None | Some(value: T)

  /** One run of text on a line, with the name of its font. */
  datatype Span = Span(text: string, font: string)

  /** A physical line: its spans in reading order and the mean of their font
      sizes, rounded to one decimal and held as a whole number of tenths. */
  datatype Line = Line(spans: seq<Span>, sizeTenths: int)

  /** What the core sees of a line: whether it has spans, its joined text, its
      rounded size and the font of its first span. */
  datatype TextLine = TextLine(hasSpans: bool, text: string, sizeTenths: int, font: string)

  /** A line together with the 0-based index of the page it is on. */
  datatype Located = Located(line: TextLine, pageIndex: nat)

  /** A line accepted as a possible heading; `page` is 1-based. */
  datatype Candidate = Candidate(text: string, sizeTenths: int, font: string, page: int)

  datatype Level = H1 | H2 | H3

  datatype Entry = Entry(level: Level, text: string, page: int)

  function StrippedTexts(spans: seq<Span>): seq<string> {
    seq(|spans|, k requires 0 <= k < |spans| => Strip(spans[k].text))
  }

  /** The line's text: the stripped span texts joined by spaces, then stripped. */
  function Joined(line: Line): string {
    Strip(JoinWithSpace(StrippedTexts(line.spans)))
  }

  /** The words of each span, span after span. */
  function SpanWords(spans: seq<Span>): seq<string> {
    if |spans| == 0 then [] else Words(spans[0].text) + SpanWords(spans[1..])
  }

  lemma {:induction false} JoinedWords(spans: seq<Span>)
    ensures Words(JoinWithSpace(StrippedTexts(spans))) == SpanWords(spans)
    decreases |spans|
  {
    if |spans| > 0 {
      var parts := StrippedTexts(spans);
      WordsStrip(spans[0].text);
      if |spans| > 1 {
        assert parts[1..] == StrippedTexts(spans[1..]);
        JoinedWords(spans[1..]);
        WordsSpaceJoin(parts[0], JoinWithSpace(parts[1..]));
      } else {
        assert SpanWords(spans[1..]) == [];
      }
    }
  }

  /** A line's text neither starts nor ends with whitespace, and its words are
      the words of its spans in order: a span boundary always separates words,
      because the stripped span texts are joined with a space. */
  lemma JoinedIsStripped(line: Line)
    ensures |Joined(line)| > 0 ==> !IsSpace(Joined(line)[0]) && !IsSpace(Joined(line)[|Joined(line)| - 1])
    ensures Words(Joined(line)) == SpanWords(line.spans)
  {
    var q := JoinWithSpace(StrippedTexts(line.spans));
    var i, j := StripIsSlice(q);
    WordsStrip(q);
    JoinedWords(line.spans);
  }

  /** The per-line values `extract_title` and `extract_heading_lines` compute
      from the spans; a line without spans is marked and carries nothing. */
  function Read(line: Line): (t: TextLine)
    ensures t.hasSpans <==> |line.spans| > 0
    ensures !t.hasSpans ==> t.text == ""
    ensures t.hasSpans ==> t.text == Joined(line) && t.font == line.spans[0].font
    ensures t.sizeTenths == line.sizeTenths
  {
    if |line.spans| == 0 then TextLine(false, "", line.sizeTenths, "")
    else TextLine(true, Joined(line), line.sizeTenths, line.spans[0].font)
  }

  function ReadPage(page: seq<Line>): (r: seq<TextLine>)
    ensures |r| == |page|
    ensures forall k :: 0 <= k < |page| ==> r[k] == Read(page[k])
  {
    seq(|page|, k requires 0 <= k < |page| => Read(page[k]))
  }
}
