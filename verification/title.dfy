/** Title selection (`extract_title`): among the first page's lines with spans
    and at least three characters of text, the one that comes last when the
    (size, text) pairs are sorted; "Untitled" when there is none. */
module Title {
  import opened Text
  import opened Layout

  const Untitled: string := "Untitled"

  /** A first-page line the title selection looks at. */
  predicate Qualifies(line: TextLine) {
    line.hasSpans && |line.text| >= 3
  }

  function KeyOf(line: TextLine): (int, string) {
    (line.sizeTenths, line.text)
  }

  /** Python's order on `(size, text)` tuples. */
  predicate KeyLt(a: (int, string), b: (int, string)) {
    a.0 < b.0 || (a.0 == b.0 && StrLt(a.1, b.1))
  }

  lemma KeyLtTransitive(a: (int, string), b: (int, string), c: (int, string))
    requires KeyLt(a, b) && KeyLt(b, c)
    ensures KeyLt(a, c)
  {
    if a.0 == b.0 && b.0 == c.0 {
      StrLtTransitive(a.1, b.1, c.1);
    }
  }

  lemma KeyLtTotal(a: (int, string), b: (int, string))
    ensures a != b ==> KeyLt(a, b) || KeyLt(b, a)
    ensures !(KeyLt(a, b) && KeyLt(b, a))
  {
    StrLtTotal(a.1, b.1);
  }

  /** The `(size, text)` pairs of the qualifying lines, in reading order. */
  function TitleKeys(page: seq<TextLine>): (r: seq<(int, string)>)
    ensures forall c :: c in r <==> exists l :: l in page && Qualifies(l) && c == KeyOf(l)
  {
    if |page| == 0 then []
    else
      var rest := TitleKeys(page[1..]);
      assert forall l :: l in page <==> l == page[0] || l in page[1..];
      (if Qualifies(page[0]) then [KeyOf(page[0])] else []) + rest
  }

  /** The first element after a descending sort: a greatest pair. */
  function Greatest(keys: seq<(int, string)>): (r: (int, string))
    requires |keys| > 0
    ensures r in keys
    ensures forall c :: c in keys ==> !KeyLt(r, c)
  {
    KeyLtTotal(keys[0], keys[0]);
    if |keys| == 1 then keys[0]
    else
      var b := Greatest(keys[1..]);
      assert forall c :: c in keys <==> c == keys[0] || c in keys[1..];
      if KeyLt(b, keys[0]) then
        assert forall c :: c in keys[1..] ==> !KeyLt(keys[0], c) by {
          forall c | c in keys[1..]
            ensures !KeyLt(keys[0], c)
          {
            if KeyLt(keys[0], c) {
              KeyLtTransitive(b, keys[0], c);
            }
          }
        }
        keys[0]
      else
        b
  }

  /** `extract_title` applied to the lines of the first page. */
  function ExtractTitle(page: seq<TextLine>): (t: string)
    ensures |t| >= 3
  {
    var keys := TitleKeys(page);
    if |keys| == 0 then Untitled else Greatest(keys).1
  }

  /** What a title is, without the selection procedure: "Untitled" when no line
      qualifies, otherwise the text of a qualifying line whose pair no other
      qualifying line's pair exceeds. */
  ghost predicate IsTitleOf(page: seq<TextLine>, t: string) {
    if forall l :: l in page ==> !Qualifies(l) then t == Untitled
    else exists l :: l in page && Qualifies(l) && t == l.text &&
           forall l' :: l' in page && Qualifies(l') ==> !KeyLt(KeyOf(l), KeyOf(l'))
  }

  lemma TitleIsATitle(page: seq<TextLine>)
    ensures IsTitleOf(page, ExtractTitle(page))
  {
    var keys := TitleKeys(page);
    if |keys| > 0 {
      var g := Greatest(keys);
      var lg :| lg in page && Qualifies(lg) && g == KeyOf(lg);
      assert forall l' :: l' in page && Qualifies(l') ==> KeyOf(l') in keys;
    } else {
      assert forall l :: l in page ==> !Qualifies(l) by {
        forall l | l in page && Qualifies(l)
          ensures KeyOf(l) in keys
        {
        }
      }
    }
  }

  lemma TitleIsTheOnlyTitle(page: seq<TextLine>, t: string)
    requires IsTitleOf(page, t)
    ensures t == ExtractTitle(page)
  {
    var keys := TitleKeys(page);
    if exists l :: l in page && Qualifies(l) {
      var l :| l in page && Qualifies(l) && t == l.text &&
               forall l' :: l' in page && Qualifies(l') ==> !KeyLt(KeyOf(l), KeyOf(l'));
      assert KeyOf(l) in keys;
      var g := Greatest(keys);
      var lg :| lg in page && Qualifies(lg) && g == KeyOf(lg);
      KeyLtTotal(KeyOf(l), g);
    }
  }

  /** The selection returns a title, and the only one: a size tie goes to the
      greater text, not to the earlier line. */
  lemma TitleCharacterized(page: seq<TextLine>, t: string)
    ensures ExtractTitle(page) == t <==> IsTitleOf(page, t)
  {
    TitleIsATitle(page);
    if IsTitleOf(page, t) {
      TitleIsTheOnlyTitle(page, t);
    }
  }

  /** "Untitled" is the fallback exactly when no first-page line qualifies; any
      other title is the text of a qualifying line. */
  lemma TitleFallback(page: seq<TextLine>)
    ensures (forall l :: l in page ==> !Qualifies(l)) ==> ExtractTitle(page) == Untitled
    ensures (exists l :: l in page && Qualifies(l)) ==>
              exists l :: l in page && Qualifies(l) && ExtractTitle(page) == l.text
  {
    TitleCharacterized(page, ExtractTitle(page));
  }
}
