# Heading inference for PDF outlines

This project models the heading-inference core of `process_pdfs.py` in Dafny and proves properties of it. The script turns a PDF into a JSON document with a title and an outline of H1/H2/H3 headings. The model covers four steps:

- **Title selection** (`extract_title`, module `Title`). Among the first page's lines that have spans and at least three characters, the title is the text of the greatest `(size, text)` pair. When no line qualifies, the title is `"Untitled"`.
- **Candidate extraction** (`extract_heading_lines`, module `Candidates`). Every line of every page is read in order and de-duplicated on its joined text. The text counts as seen before any filter runs. The text is then cleaned: whitespace runs become one space and the ends are stripped. The line is rejected if it is the title (compared case-insensitively), is shorter than three characters, is all lower-case, or has no letter. It is kept if it is numbered, is set in a bold font, is at least 12 points, or ends in a colon. A kept line is passed through the translator and becomes a candidate with its 1-based page number.
- **Level assignment** (`determine_heading_levels`, modules `Counting` and `Levels`):
  - The three most common sizes are chosen as `Counter.most_common(3)` chooses them. Count ties keep the order in which the sizes were first seen.
  - Those sizes are sorted in descending order and mapped to H1, H2 and H3.
  - Each candidate whose size is mapped is emitted once per `(text, page)` pair.
- **The composition** (`parse_single_pdf`, module `Outline`). Title, candidates and outline are combined. A document with no pages fails where the first page is taken.

Supporting modules:

- `Text` holds the string operations the script relies on: `strip`, `lower`, `islower`, the `\s+` substitution, substring search and Python's string order. They are restricted to ASCII.
- `Numbering` holds the numbered-heading pattern `^\(?[0-9a-zA-Z]+\)?[.)]?\s+[A-Z]`.
- `Layout` holds the line records the page reader delivers.
- `Dedup` gives one characterisation of "keep the first occurrence of each key". Both the candidate pass and the emission pass use it.

Sizes are whole numbers of tenths of a point, because the script rounds every mean size to one decimal. The translation subprocess is a parameter `run: string -> Option<string>`, where `None` means that launching or talking to it raised.

Behaviours of the code that are easy to misread:

- **Title ties.** Lines of equal size are decided by the greater text, not by the earlier line, because the code sorts `(size, text)` tuples in reverse. `Title.TitleCharacterized` states this.
- **`most_common` ties.** Sizes with equal counts keep first-insertion order. They are not ordered by size. `Counting.MostCommonIsTop` states this through `Counting.Outranks`.
- **Title exclusion.** The title is compared with the cleaned text of each line, but the title itself is not cleaned. A title line with two adjacent blanks inside is therefore not excluded by that comparison, and it can become a heading candidate. `Candidates.SpacedTitleNotExcluded` states this.
- **Title length.** A title always has at least three characters. Shorter lines never qualify, and `"Untitled"` has eight.

## Model

| member | source | states |
|---|---|---|
| Text.StripIsSlice | process_pdfs.py:33 | `strip()` removes a whitespace-only prefix and suffix, and all of it: the result is a slice of the input that neither starts nor ends with whitespace |
| Text.CollapseIsCollapsed | process_pdfs.py:40 | the cleaned text has single plain spaces only between non-blank characters, and keeps every non-blank character of the line in order |
| Text.CollapseIsJoinedWords | process_pdfs.py:40 | the cleaned text is the words of the line, as `split()` gives them, joined by single spaces, so it has exactly the line's words |
| Text.WordsStrip | process_pdfs.py:33 | stripping a text does not change its words |
| Text.WordsSpaceJoin | process_pdfs.py:33 | joining two texts with a space gives the words of the first followed by the words of the second |
| Text.CollapseIdempotent | process_pdfs.py:40 | cleaning an already cleaned text changes nothing |
| Text.ContainsIff | process_pdfs.py:39 | the substring test used for "bold" holds exactly when the needle occurs at some index of the haystack |
| Text.StrLtIsLexicographic | process_pdfs.py:96 | the string comparison used when sorting title pairs is the code-point lexicographic order, with a proper prefix first |
| Text.StrLtTotal | process_pdfs.py:96 | that order is irreflexive and asymmetric, and it orders any two different strings |
| Layout.JoinedIsStripped | process_pdfs.py:33 | a line's joined text neither starts nor ends with whitespace, and its words are the words of its spans in span order, so a span boundary always separates two words |
| Layout.Read | process_pdfs.py:30-38 | a line is marked as having spans exactly when it has some; a line without spans carries no text; a line with spans carries its joined text and the font of its first span; the rounded size is kept |
| Numbering.NumberedIffMatch | process_pdfs.py:45 | the numbered-heading test accepts a cleaned text exactly when the pattern `^\(?[0-9a-zA-Z]+\)?[.)]?\s+[A-Z]` has a match on it, given by explicit match positions |
| Title.TitleKeys | process_pdfs.py:85-95 | the collected pairs are exactly the `(size, text)` pairs of first-page lines that have spans and at least three characters |
| Title.Greatest | process_pdfs.py:96-97 | the first pair after the reverse sort is one of the pairs, and no pair exceeds it |
| Title.ExtractTitle | process_pdfs.py:82-97 | the title has at least three characters |
| Title.TitleCharacterized | process_pdfs.py:82-97 | a text is the selected title exactly when it is "Untitled" and no line qualifies, or it is the text of a qualifying line whose pair no qualifying line exceeds; so a size tie goes to the greater text |
| Title.TitleFallback | process_pdfs.py:97 | "Untitled" is returned when no line qualifies; otherwise the title is the text of a qualifying line |
| Dedup.ChosenShape | process_pdfs.py:34-36 | first-occurrence selection picks, in increasing order, exactly the positions that are eligible, whose key was not seen earlier, and that pass the later test |
| Dedup.ChosenKeysDistinct | process_pdfs.py:69-74 | the positions chosen by first-occurrence selection have pairwise different keys |
| Candidates.Translate | process_pdfs.py:8-20 | when the translator raises, or prints nothing, the text comes back unchanged |
| Candidates.TranslateKeepsOutput | process_pdfs.py:18 | non-empty translator output is used without its surrounding whitespace: the result is the output between an all-blank prefix and an all-blank suffix, it neither starts nor ends with a blank, and it has the output's non-blank characters |
| Candidates.FlattenShape | process_pdfs.py:25-29 | the reading-order list of lines holds every line of every page with its page index, and page indices never decrease along it |
| Candidates.FlattenPositions | process_pdfs.py:25-29 | line k of page p is visited exactly at position k plus the number of lines on earlier pages, and the list is as long as the total number of lines, so each line is visited once and in order |
| Candidates.MakeCandidate | process_pdfs.py:48-54 | a candidate keeps its line's size and font, and its page number is the 0-based page index plus one |
| Candidates.ScanFrom | process_pdfs.py:22-55 | from any position on, the scan with the texts seen so far yields exactly the candidates built from the lines that are first seen and admitted there |
| Candidates.ExtractionCharacterized | process_pdfs.py:22-55 | the candidates are the accepted lines in reading order, each translated; a line is accepted exactly when it has text, its text was not seen on an earlier line, and it passes the filters and heuristics |
| Candidates.CandidatePages | process_pdfs.py:25-53 | every candidate's page is between 1 and the number of pages, and pages never decrease along the list |
| Candidates.CandidateTexts | process_pdfs.py:40-54 | each candidate is the translation of the cleaned text of some line that passes the filters, with that line's size, font and 1-based page |
| Candidates.UntranslatedTexts | process_pdfs.py:40-48 | when the translator never runs, every candidate text is cleaned, differs from the title ignoring case, has at least three characters, is not all lower-case and contains a letter |
| Candidates.CandidateSourcesDistinct | process_pdfs.py:33-36 | accepted lines have pairwise different raw texts, and a line is never accepted when an earlier line with spans had the same text, even if that earlier line was rejected |
| Candidates.CleanTitleExcluded | process_pdfs.py:40-42 | a line whose text is already clean is never a candidate when it equals the title ignoring case |
| Candidates.SpacedTitleNotExcluded | process_pdfs.py:40-42 | a line with two adjacent blanks inside no longer equals its own text after cleaning, even ignoring case, so the title filter does not stop the title line itself |
| Candidates.HeadingIff | process_pdfs.py:45-47 | a first-seen line that passes the filters is accepted exactly when it is numbered, bold, at least 12.0 points, or ends in a colon |
| Counting.FirstIndex | process_pdfs.py:59 | the first position holding a value: it holds the value and no earlier position does |
| Counting.KeysShape | process_pdfs.py:59 | the counter's keys are exactly the values of the list, each once, in order of first appearance |
| Counting.TallyCounts | process_pdfs.py:59 | the counter maps exactly the values of the list, each to its number of occurrences |
| Counting.BestIndex | process_pdfs.py:59 | the chosen key has the largest count, and every earlier key has a strictly smaller count |
| Counting.SelectIsTop | process_pdfs.py:59 | repeatedly taking the best remaining key ranks keys by count, with ties broken by first appearance |
| Counting.MostCommonIsTop | process_pdfs.py:59 | `most_common(n)` returns at most n values of the list, ordered by rank; each outranks every value left out, and all values are returned when there are fewer than n |
| Counting.MostCommonDistinct | process_pdfs.py:59 | `most_common(n)` returns pairwise different values |
| Counting.MostCommonLength | process_pdfs.py:59 | `most_common(n)` returns min(n, number of different values) values |
| Counting.KeysCount | process_pdfs.py:59 | there is at least one key exactly when the list is non-empty, at least two exactly when two values differ, and at least three exactly when three values differ pairwise |
| Levels.InsertKeepsOrder | process_pdfs.py:60 | inserting a new value into a strictly descending list keeps it strictly descending, and adds exactly that value |
| Levels.SortDescendingSorts | process_pdfs.py:60 | sorting repetition-free sizes in reverse gives a strictly descending list of the same values |
| Levels.CommonSizes | process_pdfs.py:58-60 | the common sizes are strictly descending and are the values `most_common(3)` returns for the candidate sizes |
| Levels.LevelTableShape | process_pdfs.py:61-67 | the table maps exactly the common sizes, and the size at position a gets the level of rank a |
| Levels.EmitFrom | process_pdfs.py:68-80 | from any position on, emission with the keys used so far yields exactly the entries of the candidates that are mapped and whose (text, page) was not emitted before |
| Levels.OutlineCharacterized | process_pdfs.py:57-80 | the outline is, in candidate order, one entry for each candidate whose size has a level and whose (text, page) pair did not occur on an earlier candidate with a mapped size |
| Levels.EmittedMembers | process_pdfs.py:70-74 | the emitted positions increase, and a position is emitted exactly when its size is mapped and no earlier mapped candidate has the same (text, page) |
| Levels.LevelsForTopThree | process_pdfs.py:58-67 | the sizes that get a level are exactly the three top-ranked sizes by count with first-appearance tie-breaking, or all sizes when there are fewer than three |
| Levels.LevelsFollowSizes | process_pdfs.py:60-67 | among sizes with a level, a larger size gets a strictly higher level |
| Levels.LevelsByDistinctSizes | process_pdfs.py:62-67 | a level is used exactly when there are more different sizes than its rank |
| Levels.LevelsPresent | process_pdfs.py:62-67 | H1 is used exactly when there is a candidate, H2 exactly when two candidates differ in size, and H3 exactly when three differ pairwise |
| Levels.OutlineKeysUnique | process_pdfs.py:69-74 | no (text, page) pair appears twice in the outline |
| Levels.OutlineFromCandidates | process_pdfs.py:70-79 | every outline entry is some candidate's text and page with the level its size is mapped to |
| Levels.OutlinePositions | process_pdfs.py:70-79 | the outline entries come from strictly increasing candidate positions, and copy their text and page |
| Levels.OutlinePages | process_pdfs.py:70-79 | page bounds and non-decreasing page order of the candidates carry over to the outline |
| Outline.ParseDocument | process_pdfs.py:99-104 | parsing fails exactly when the document has no pages, and a parsed title has at least three characters |
| Outline.DocumentShape | process_pdfs.py:99-104 | the title of a parsed document is the title of its first page; its outline pages lie within the document and never decrease; and no (text, page) pair repeats |
| Outline.UntranslatedOutline | process_pdfs.py:101-104 | when the translator never runs, every outline text is cleaned, passes the filters and differs from the document title ignoring case |

## Left out

- Opening the PDF and walking its blocks (lines 27-29 and 84-88) are out of scope. A page is given as its lines in block order, and each line as its spans and its rounded mean size.
- Span sizes, the floating-point mean and `round(..., 1)` (lines 37 and 94) are out of scope. A line carries the rounded mean as an integer number of tenths, so the 12-point threshold is 120.
- The apertium subprocess (lines 8-20) becomes the parameter `run`. The language pair, stderr and the process itself are out of scope. `Candidates.Unavailable` stands for a translator that always raises.
- Character classes are ASCII only: `isspace`, `isalpha`, `islower`, `lower` and `\s` are defined on ASCII characters. Non-ASCII letters and Unicode whitespace are out of scope.
- `process_all_pdfs` and the `__main__` entry (lines 106-118) read directories and write JSON files. They are out of scope.
- Exceptions other than a missing first page are out of scope, for example a damaged PDF or an I/O error.
- Candidates.Scan: its own contract is only a length bound. What it computes is stated by `Candidates.ScanFrom` and `Candidates.ExtractionCharacterized`.
- Levels.Emit: its own contract is only a length bound. What it computes is stated by `Levels.EmitFrom` and `Levels.OutlineCharacterized`.
- Counting.MostCommon: its own contract is only a length bound. What it returns is stated by `Counting.MostCommonIsTop`, `Counting.MostCommonDistinct` and `Counting.MostCommonLength`.
