/** `ContentConverter.add_ids_to_headings`: every bare `<h1>`, `<h2>` and
    `<h3>` element (no attributes) gets the slug of its text as `id` and the
    level's Tailwind classes; the text itself is left alone. The three
    passes run in the order h1, h2, h3, each under DOTALL. */
module Headings {
  import opened Text
  import opened Scan
  import opened Shapes
  import opened Slug

  datatype Level = H1 | H2 | H3

  function Tag(l: Level): (t: string)
    ensures |t| == 2 && t[0] == 'h'
  {
    match l
    case H1 => "h1"
    case H2 => "h2"
    case H3 => "h3"
  }

  function Open(l: Level): (o: string)
    ensures |o| == 4 && o[0] == '<' && o[3] == '>'
  {
    "<" + Tag(l) + ">"
  }

  function Close(l: Level): (c: string)
    ensures |c| == 5 && PrefixAt(c, 0, "</")
  {
    "</" + Tag(l) + ">"
  }

  /** The classes each level receives: the higher the level, the larger the
      text. */
  function Classes(l: Level): string
  {
    match l
    case H1 => "text-4xl font-bold text-gray-800 mb-4"
    case H2 => "text-3xl font-bold text-gray-800 mb-4"
    case H3 => "text-2xl font-bold text-gray-800 mb-4"
  }

  /** The opening tag up to the start of the id value. */
  function IdOpen(l: Level): (p: string)
    ensures |p| == 8
  {
    "<" + Tag(l) + " id=\""
  }

  /** The text between the id value and the heading's text. */
  function ClassPart(l: Level): (p: string)
    ensures |p| > 0 && p[0] == '"'
  {
    "\" class=\"" + Classes(l) + "\">"
  }

  /** A heading element of level `l` with the given id and inner text: the
      id sits between the first pair of quotes, the text just before the
      closing tag. */
  function Element(l: Level, id: string, text: string): (r: string)
    ensures |r| > 8 + |id| + |text| + 5
    ensures PrefixAt(r, 0, IdOpen(l)) && r[8..8 + |id|] == id && r[8 + |id|] == '"'
    ensures r[|r| - |text| - 5..] == text + Close(l)
  {
    ElementParts(IdOpen(l), id, ClassPart(l), text, Close(l));
    IdOpen(l) + id + ClassPart(l) + text + Close(l)
  }

  /** Where the pieces of an element sit once laid end to end. */
  lemma ElementParts(p: string, id: string, q: string, text: string, c: string)
    requires |p| == 8 && |q| > 0 && q[0] == '"' && |c| == 5
    ensures var r := p + id + q + text + c;
            && |r| > 8 + |id| + |text| + 5
            && PrefixAt(r, 0, p) && r[8..8 + |id|] == id && r[8 + |id|] == '"'
            && r[|r| - |text| - 5..] == text + c
  {
    var r := p + id + q + text + c;
    assert r[..8] == p;
    assert r[8..8 + |id|] == id;
    assert r[8 + |id|] == q[0];
    assert r[|r| - |text| - 5..] == text + c;
  }

  /** `r` is a level-`l` heading element with id `id` and content `text`:
      the opening tag, the id up to its closing quote, and the text just
      before the closing tag. */
  predicate ElementShape(l: Level, id: string, text: string, r: string)
  {
    && |r| > 8 + |id| + |text| + 5
    && PrefixAt(r, 0, IdOpen(l)) && r[8..8 + |id|] == id && r[8 + |id|] == '"'
    && r[|r| - |text| - 5..] == text + Close(l)
  }

  lemma ElementIsShaped(l: Level, id: string, text: string)
    ensures ElementShape(l, id, text, Element(l, id, text))
  {
  }

  /** `replace_hN(m)` for the captured text: the element whose id is the
      slug of the text. */
  function Heading(l: Level, text: string, word: char -> bool): (r: string)
    ensures ElementShape(l, Slugify(text, word), text, r)
  {
    ElementIsShaped(l, Slugify(text, word), text);
    Element(l, Slugify(text, word), text)
  }

  /** The id attribute is well formed: its value never holds a quote, so
      it ends at the first quote after `id="`. */
  lemma IdIsQuoted(l: Level, text: string, word: char -> bool)
    requires IsAsciiWordClass(word)
    ensures var id := Slugify(text, word);
            var r := Heading(l, text, word);
            && r[8..8 + |id|] == id
            && (forall k :: 0 <= k < |id| ==> id[k] != '"')
            && r[8 + |id|] == '"'
  {
    SlugHasNoQuote(text, word);
    assert Heading(l, text, word) == Element(l, Slugify(text, word), text);
  }

  lemma SlugHasNoQuote(text: string, word: char -> bool)
    requires IsAsciiWordClass(word)
    ensures forall k :: 0 <= k < |Slugify(text, word)| ==> Slugify(text, word)[k] != '"'
  {
    NoQuoteAllowed(Slugify(text, word), word);
  }

  /** `"` is neither a word character nor whitespace nor `-`. */
  lemma NoQuoteAllowed(id: string, word: char -> bool)
    requires IsAsciiWordClass(word)
    requires forall k :: 0 <= k < |id| ==> Allowed(word, id[k])
    ensures forall k :: 0 <= k < |id| ==> id[k] != '"'
  {
    assert !word('"') && !IsSpace('"');
  }

  function HeadingRepl(l: Level, word: char -> bool): (f: (string, string) -> string)
    ensures forall text: string, u: string :: f(text, u) == Heading(l, text, word)
  {
    (text: string, unused: string) => Heading(l, text, word)
  }

  /** `<hN>(.*?)</hN>` under DOTALL. */
  function HeadingPattern(l: Level): (m: Matcher)
    ensures Advances(m) && OpensWith(m, Open(l))
  {
    Span(Open(l), Close(l), true)
  }

  /** One level's `re.sub`. */
  function HeadingPass(l: Level, html: string, word: char -> bool): (r: string)
    ensures !Occurs(html, Open(l)) ==> r == html
  {
    var m := HeadingPattern(l);
    SubAbsent(m, Open(l), html, HeadingRepl(l, word));
    Sub(m, html, HeadingRepl(l, word))
  }

  /** `add_ids_to_headings(html)`. */
  function AddIds(html: string, word: char -> bool): (r: string)
    ensures !Occurs(html, Open(H1)) && !Occurs(html, Open(H2)) && !Occurs(html, Open(H3))
            ==> r == html
  {
    HeadingPass(H3, HeadingPass(H2, HeadingPass(H1, html, word), word), word)
  }

  /** The first bare heading of a level, closed at `e`, is rewritten with
      the slug of its text and its text unchanged; everything before it is
      kept and the pass continues after its closing tag. A heading that
      carries attributes (`<h2 id="x">`) does not start with `Open(l)` and
      so is never the first bare heading. */
  lemma FirstHeading(l: Level, s: string, i: nat, e: nat, word: char -> bool)
    requires PrefixAt(s, i, Open(l)) && i + 4 <= e && PrefixAt(s, e, Close(l))
    requires forall k :: 0 <= k < i ==> !PrefixAt(s, k, Open(l))
    requires forall k :: i + 4 <= k < e ==> !PrefixAt(s, k, Close(l))
    ensures HeadingPass(l, s, word)
            == s[..i] + Heading(l, s[i + 4..e], word) + SubFrom(HeadingPattern(l), s, e + 5, HeadingRepl(l, word))
  {
    var f := HeadingRepl(l, word);
    PassIsSub(l, s, word);
    OpenCloseSize(l);
    DotallSpanSub(Open(l), Close(l), s, i, e, f);
  }

  lemma OpenCloseSize(l: Level)
    ensures |Open(l)| == 4 && |Close(l)| == 5
  {
  }

  /** `SpanSub` for a DOTALL heading span, with its tag lengths fixed. */
  lemma DotallSpanSub(o: string, c: string, s: string, i: nat, e: nat, f: (string, string) -> string)
    requires |o| == 4 && |c| == 5
    requires PrefixAt(s, i, o) && i + 4 <= e && PrefixAt(s, e, c)
    requires forall k :: 0 <= k < i ==> !PrefixAt(s, k, o)
    requires forall k :: i + 4 <= k < e ==> !PrefixAt(s, k, c)
    ensures Sub(Span(o, c, true), s, f) == s[..i] + f(s[i + 4..e], "") + SubFrom(Span(o, c, true), s, e + 5, f)
  {
    SpanLeftmost(o, c, true, s, i, e);
    SubFirstAt(Span(o, c, true), s, i, s[i + 4..e], e + 5, f);
  }

  /** `SubFirst` for a first match that captures `g` and ends at `n`. */
  lemma SubFirstAt(m: Matcher, s: string, i: nat, g: string, n: nat, f: (string, string) -> string)
    requires Advances(m) && i <= |s|
    requires m(s, i) == Some(Match(n, g, ""))
    requires forall k :: 0 <= k < i ==> m(s, k).None?
    ensures n <= |s|
    ensures Sub(m, s, f) == s[..i] + f(g, "") + SubFrom(m, s, n, f)
  {
    SubFirst(m, s, i, Match(n, g, ""), f);
  }

  lemma PassIsSub(l: Level, html: string, word: char -> bool)
    ensures HeadingPass(l, html, word) == Sub(Span(Open(l), Close(l), true), html, HeadingRepl(l, word))
  {
  }
}
