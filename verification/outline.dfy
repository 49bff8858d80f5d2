/** `parse_single_pdf`: the title of the first page, the candidates of all
    pages with that title excluded, and their outline. */
module Outline {
  import opened Layout
  import Title
  import Candidates
  import Levels

  datatype Document = Document(title: string, outline: seq<Entry>)

  /** Opening a document without pages fails where the first page is taken. */
  datatype Outcome = Parsed(doc: Document) | NoFirstPage

  /** The lines of every page as the reader gives them. */
  function ReadDocument(pages: seq<seq<Line>>): (r: seq<seq<TextLine>>)
    ensures |r| == |pages|
    ensures forall p :: 0 <= p < |pages| ==> r[p] == ReadPage(pages[p])
  {
    seq(|pages|, p requires 0 <= p < |pages| => ReadPage(pages[p]))
  }

  /** `parse_single_pdf(path)` with the document already read. */
  function ParseDocument(pages: seq<seq<Line>>, run: string -> Option<string>): (o: Outcome)
    ensures o.NoFirstPage? <==> |pages| == 0
    ensures o.Parsed? ==> |o.doc.title| >= 3
  {
    if |pages| == 0 then NoFirstPage
    else
      var doc := ReadDocument(pages);
      var title := Title.ExtractTitle(doc[0]);
      var headings := Candidates.ExtractHeadingLines(doc, title, run);
      Parsed(Document(title, Levels.DetermineLevels(headings)))
  }

  /** The title is the first page's title as characterized by `Title.IsTitleOf`;
      the outline points into the document in page order, with no (text, page)
      pair twice. */
  lemma DocumentShape(pages: seq<seq<Line>>, run: string -> Option<string>)
    requires |pages| > 0
    ensures Title.IsTitleOf(ReadPage(pages[0]), ParseDocument(pages, run).doc.title)
    ensures forall a :: 0 <= a < |ParseDocument(pages, run).doc.outline| ==>
              1 <= ParseDocument(pages, run).doc.outline[a].page <= |pages|
    ensures forall a, b :: 0 <= a <= b < |ParseDocument(pages, run).doc.outline| ==>
              ParseDocument(pages, run).doc.outline[a].page <= ParseDocument(pages, run).doc.outline[b].page
    ensures forall a, b :: 0 <= a < b < |ParseDocument(pages, run).doc.outline| ==>
              (ParseDocument(pages, run).doc.outline[a].text, ParseDocument(pages, run).doc.outline[a].page)
                != (ParseDocument(pages, run).doc.outline[b].text, ParseDocument(pages, run).doc.outline[b].page)
  {
    var doc := ReadDocument(pages);
    var title := Title.ExtractTitle(doc[0]);
    var headings := Candidates.ExtractHeadingLines(doc, title, run);
    Title.TitleIsATitle(doc[0]);
    Candidates.CandidatePages(doc, title, run);
    Levels.OutlinePages(headings, 1, |pages|);
    Levels.OutlineKeysUnique(headings);
  }

  /** When every translation attempt fails, every outline entry's text is a
      clean line text that is not the title in any casing. */
  lemma UntranslatedOutline(pages: seq<seq<Line>>, run: string -> Option<string>)
    requires |pages| > 0
    requires forall t :: run(t).None?
    ensures forall e :: e in ParseDocument(pages, run).doc.outline ==>
              Candidates.CleanFor(e.text, ParseDocument(pages, run).doc.title)
  {
    var doc := ReadDocument(pages);
    var title := Title.ExtractTitle(doc[0]);
    var headings := Candidates.ExtractHeadingLines(doc, title, run);
    Candidates.UntranslatedTexts(doc, title, run);
    Levels.OutlineFromCandidates(headings);
    var outline := Levels.DetermineLevels(headings);
    forall e | e in outline
      ensures Candidates.CleanFor(e.text, title)
    {
      var a :| 0 <= a < |outline| && outline[a] == e;
      var i :| 0 <= i < |headings| && headings[i].sizeTenths in Levels.LevelTable(Levels.CommonSizes(headings)) &&
               outline[a] == Entry(Levels.LevelTable(Levels.CommonSizes(headings))[headings[i].sizeTenths], headings[i].text, headings[i].page);
      assert headings[i] in headings;
    }
  }
}
