/** The block markup of an `.mbs` document, as `convert_file` rewrites it
    into HTML: six `re.sub` passes over the document body, in this order:
    `#h2(...)`, `#text` lines (with `<:>...<:>` emphasis), `<a>text<:>url<a>`
    links, `#img`, `#code` and `#strong`. Each rule's output reuses the
    classes of the rest of the site. */
module Blocks {
  import opened Text
  import opened Scan
  import opened Shapes
  import opened Markup

  // ---- #h2(...) ----

  const H2Open: string := "<br>" + Decorated("h2", "text-3xl font-bold text-gray-800 mb-4")
  const H2Close: string := "</h2><br>"

  /** `#h2\((.*?)\)` */
  function SectionPattern(): (m: Matcher)
    ensures Advances(m) && OpensWith(m, "#h2(")
  {
    Span("#h2(", ")", false)
  }

  function Sections(content: string): (r: string)
    ensures !Occurs(content, "#h2(") ==> r == content
  {
    var m := SectionPattern();
    SubAbsent(m, "#h2(", content, Wrap(H2Open, H2Close));
    Sub(m, content, Wrap(H2Open, H2Close))
  }

  /** The first `#h2(` whose `)` follows on the same line becomes a section
      heading set off by line breaks, holding the text between the
      parentheses; what precedes it is kept. */
  lemma SectionFirst(s: string, i: nat, e: nat)
    requires PrefixAt(s, i, "#h2(") && i + 4 <= e && PrefixAt(s, e, ")")
    requires forall k :: 0 <= k < i ==> !PrefixAt(s, k, "#h2(")
    requires forall k :: i + 4 <= k < e ==> !PrefixAt(s, k, ")")
    requires forall k :: i + 4 <= k < e ==> s[k] != '\n'
    ensures Sections(s)
            == s[..i] + (H2Open + s[i + 4..e] + H2Close) + SubFrom(SectionPattern(), s, e + 1, Wrap(H2Open, H2Close))
  {
    WrapFirst("#h2(", ")", false, s, i, e, H2Open, H2Close);
  }

  // ---- #text lines and <:> emphasis ----

  const TextOpen: string := Decorated("p", "text-gray-700 mb-4")
  const BoldOpen: string := Decorated("b", "font-bold text-blue-600")

  /** `<:>(.*?)<:>` */
  function EmphasisPattern(): (m: Matcher)
    ensures Advances(m) && OpensWith(m, Sep)
  {
    Span(Sep, Sep, false)
  }

  /** Each pair of separators on a `#text` line encloses bold text. */
  function Emphasis(line: string): (r: string)
    ensures !Occurs(line, Sep) ==> r == line
  {
    var m := EmphasisPattern();
    SubAbsent(m, Sep, line, Wrap(BoldOpen, "</b>"));
    Sub(m, line, Wrap(BoldOpen, "</b>"))
  }

  /** The first two separators enclose the first bold run. */
  lemma EmphasisFirst(s: string, i: nat, e: nat)
    requires PrefixAt(s, i, Sep) && i + |Sep| <= e && PrefixAt(s, e, Sep)
    requires forall k :: 0 <= k < i ==> !PrefixAt(s, k, Sep)
    requires forall k :: i + |Sep| <= k < e ==> !PrefixAt(s, k, Sep)
    requires forall k :: i + |Sep| <= k < e ==> s[k] != '\n'
    ensures Emphasis(s)
            == s[..i] + (BoldOpen + s[i + |Sep|..e] + "</b>") + SubFrom(EmphasisPattern(), s, e + |Sep|, Wrap(BoldOpen, "</b>"))
  {
    EmphasisIsSub(s);
    WrapFirst(Sep, Sep, false, s, i, e, BoldOpen, "</b>");
  }

  lemma EmphasisIsSub(s: string)
    ensures Emphasis(s) == Sub(EmphasisPattern(), s, Wrap(BoldOpen, "</b>"))
  {
  }

  /** A separator without a partner is left as it is. */
  lemma LoneSeparatorKept(s: string, i: nat)
    requires PrefixAt(s, i, Sep)
    requires forall k :: 0 <= k <= |s| && k != i ==> !PrefixAt(s, k, Sep)
    ensures Emphasis(s) == s
  {
    var m := EmphasisPattern();
    forall k | 0 <= k <= |s| ensures m(s, k).None? {
      assert m(s, k) == SpanAt(Sep, Sep, false, s, k);
      if k == i {
        assert forall j :: i + 3 <= j <= |s| ==> !PrefixAt(s, j, Sep);
      }
    }
    assert s[0..] == s;
  }

  function TextRepl(): (f: (string, string) -> string)
    ensures forall g1: string, g2: string :: f(g1, g2) == TextOpen + Emphasis(g1) + "</p>"
  {
    (g1: string, g2: string) => TextOpen + Emphasis(g1) + "</p>"
  }

  function Paragraphs(content: string): (r: string)
    ensures !Occurs(content, "#text") ==> r == content
  {
    var m := RestOfLine("#text");
    SubAbsent(m, "#text", content, TextRepl());
    Sub(m, content, TextRepl())
  }

  /** The first `#text` becomes a paragraph of the next text after it
      (blank lines skipped) up to the end of that line, emphasis applied;
      the pass goes on from the end of that line. */
  lemma ParagraphFirst(s: string)
    requires Find(s, "#text", 0).Some?
    ensures var i := Find(s, "#text", 0).value;
            var b := SkipSpace(s, i + 5);
            var e := LineLimit(s, b, false);
            Paragraphs(s) == s[..i] + (TextOpen + Emphasis(s[b..e]) + "</p>") + SubFrom(RestOfLine("#text"), s, e, TextRepl())
  {
    RestOfLineFirst("#text", s);
    var i := Find(s, "#text", 0).value;
    var b := SkipSpace(s, i + 5);
    var e := LineLimit(s, b, false);
    SubFirst(RestOfLine("#text"), s, i, Match(e, s[b..e], ""), TextRepl());
  }

  // ---- <a>text<:>url<a> ----

  /** `<a>(.*?)<:>(.*?)<a>` */
  function AnchorPattern(): (m: Matcher)
    ensures Advances(m) && OpensWith(m, "<a>")
  {
    Span2("<a>", Sep, "<a>", false)
  }

  /** The link element: the same one the page's own link pass produces. */
  function AnchorRepl(): (f: (string, string) -> string)
    ensures forall text: string, href: string :: f(text, href) == LinkRepl()(href, text)
  {
    (text: string, href: string) => LinkRepl()(href, text)
  }

  function Anchors(content: string): (r: string)
    ensures !Occurs(content, "<a>") ==> r == content
  {
    var m := AnchorPattern();
    SubAbsent(m, "<a>", content, AnchorRepl());
    Sub(m, content, AnchorRepl())
  }

  /** A match is `<a>`, the text, the separator, the URL and `<a>` again;
      the two change places: the URL becomes the `href` and the text the
      link's content. */
  lemma AnchorSwapped(s: string, i: nat)
    requires AnchorPattern()(s, i).Some?
    ensures var t := AnchorPattern()(s, i).value;
            && i <= t.end <= |s|
            && s[i..t.end] == "<a>" + t.g1 + Sep + t.g2 + "<a>"
            && AnchorRepl()(t.g1, t.g2) == LinkOpen + t.g2 + LinkClass + t.g1 + "</a>"
  {
    assert AnchorPattern()(s, i) == Span2At("<a>", Sep, "<a>", false, s, i);
    Span2Text("<a>", Sep, "<a>", false, s, i, Span2At("<a>", Sep, "<a>", false, s, i).value);
  }

  // ---- #img src<:>alt ----

  const ImageOpen: string := Decorated("div", "image-container mb-4") + "<img src=\""
  const ImageMid: string := "\" alt=\""
  const ImageClose: string := "\" class=\"responsive-image\"></div>"

  function ImageRepl(): (f: (string, string) -> string)
    ensures forall src: string, alt: string :: f(src, alt) == ImageOpen + src + ImageMid + alt + ImageClose
  {
    (src: string, alt: string) => ImageOpen + src + ImageMid + alt + ImageClose
  }

  function Images(content: string): (r: string)
    ensures !Occurs(content, "#img") ==> r == content
  {
    var m := SplitLine("#img");
    SubAbsent(m, "#img", content, ImageRepl());
    Sub(m, content, ImageRepl())
  }

  /** An `#img` line: the source runs up to the line's first separator, the
      alt text to the end of the line, and the image gets both. */
  lemma ImageLine(s: string, i: nat)
    requires SplitLine("#img")(s, i).Some?
    ensures var t := SplitLine("#img")(s, i).value;
            && SplitLineShape("#img", s, i, t)
            && ImageRepl()(t.g1, t.g2) == ImageOpen + t.g1 + ImageMid + t.g2 + ImageClose
  {
    assert SplitLine("#img")(s, i) == SplitLineAt("#img", s, i);
    SplitLineText("#img", s, i, SplitLineAt("#img", s, i).value);
  }

  // ---- #code caption<:>body ----

  const SnippetMid: string := "</p><pre><code>"
  const SnippetClose: string := "</code></pre>" + CopyClose

  function SnippetRepl(): (f: (string, string) -> string)
    ensures forall caption: string, body: string ::
              f(caption, body) == CopyOpen + "<p>" + caption + SnippetMid + body + SnippetClose
  {
    (caption: string, body: string) => CopyOpen + "<p>" + caption + SnippetMid + body + SnippetClose
  }

  function Snippets(content: string): (r: string)
    ensures !Occurs(content, "#code") ==> r == content
  {
    var m := CodeSplit("#code");
    SubAbsent(m, "#code", content, SnippetRepl());
    Sub(m, content, SnippetRepl())
  }

  /** A `#code` block: the caption runs up to the first separator, the body
      from there up to the next `#` (or the end of the document), across
      lines; the body therefore never holds a `#`. */
  lemma SnippetBlock(s: string, i: nat)
    requires CodeSplit("#code")(s, i).Some?
    ensures var t := CodeSplit("#code")(s, i).value;
            && CodeSplitShape("#code", s, i, t)
            && SnippetRepl()(t.g1, t.g2) == CopyOpen + "<p>" + t.g1 + SnippetMid + t.g2 + SnippetClose
  {
    assert CodeSplit("#code")(s, i) == CodeSplitAt("#code", s, i);
    CodeSplitText("#code", s, i, CodeSplitAt("#code", s, i).value);
  }

  /** Without a separator anywhere, `#code` is left as it stands. */
  lemma SnippetNeedsSeparator(s: string)
    requires !Occurs(s, Sep)
    ensures Snippets(s) == s
  {
    var m := CodeSplit("#code");
    forall k | 0 <= k <= |s| ensures m(s, k).None? {
      assert m(s, k) == CodeSplitAt("#code", s, k);
      CodeSplitHasSep("#code", s, k);
    }
    assert s[0..] == s;
  }

  /** A `#code` match holds a separator. */
  lemma CodeSplitHasSep(o: string, s: string, i: nat)
    ensures CodeSplitAt(o, s, i).Some? ==> Occurs(s, Sep)
  {
    if CodeSplitAt(o, s, i).Some? {
      CodeSplitText(o, s, i, CodeSplitAt(o, s, i).value);
      var t := CodeSplitAt(o, s, i).value;
      var b := t.end - |t.g2| - |Sep| - |t.g1|;
      var p := b + |t.g1|;
      assert s[b..t.end] == t.g1 + Sep + t.g2;
      assert s[p..p + 3] == (t.g1 + Sep + t.g2)[|t.g1|..|t.g1| + 3];
      assert PrefixAt(s, p, Sep);
    }
  }

  // ---- #strong title<:>note ----

  const NoteOpen: string := Decorated("div", "note mb-4") + "<strong>"
  const NoteMid: string := "</strong> "
  const NoteClose: string := "</div>"

  function NoteRepl(): (f: (string, string) -> string)
    ensures forall head: string, text: string :: f(head, text) == NoteOpen + head + NoteMid + text + NoteClose
  {
    (head: string, text: string) => NoteOpen + head + NoteMid + text + NoteClose
  }

  function Notes(content: string): (r: string)
    ensures !Occurs(content, "#strong") ==> r == content
  {
    var m := SplitLine("#strong");
    SubAbsent(m, "#strong", content, NoteRepl());
    Sub(m, content, NoteRepl())
  }

  /** A `#strong` line: the bold head runs up to the line's first
      separator, the note to the end of the line. */
  lemma NoteLine(s: string, i: nat)
    requires SplitLine("#strong")(s, i).Some?
    ensures var t := SplitLine("#strong")(s, i).value;
            && SplitLineShape("#strong", s, i, t)
            && NoteRepl()(t.g1, t.g2) == NoteOpen + t.g1 + NoteMid + t.g2 + NoteClose
  {
    assert SplitLine("#strong")(s, i) == SplitLineAt("#strong", s, i);
    SplitLineText("#strong", s, i, SplitLineAt("#strong", s, i).value);
  }

  // ---- all rules ----


  /** A literal that starts with `c` occurs only where `c` does. */
  lemma OccursHead(s: string, o: string, c: char)
    requires |o| > 0 && o[0] == c && !Occurs(s, [c])
    ensures !Occurs(s, o)
  {
    forall p | 0 <= p <= |s| ensures !PrefixAt(s, p, o) {
      if p + |o| <= |s| {
        assert !PrefixAt(s, p, [c]);
        assert s[p..p + 1] == [s[p]];
        assert s[p..p + |o|][0] == s[p] != c;
      }
    }
  }

  /** The six rules in the order `convert_file` applies them. Text without
      `#` and without `<a>` is body text: every rule leaves it alone. */
  function Blocks(content: string): (r: string)
    ensures !Occurs(content, "#") && !Occurs(content, "<a>") ==> r == content
  {
    if !Occurs(content, "#") && !Occurs(content, "<a>") then
      OccursHead(content, "#h2(", '#');
      OccursHead(content, "#text", '#');
      OccursHead(content, "#img", '#');
      OccursHead(content, "#code", '#');
      OccursHead(content, "#strong", '#');
      Notes(Snippets(Images(Anchors(Paragraphs(Sections(content))))))
    else Notes(Snippets(Images(Anchors(Paragraphs(Sections(content))))))
  }
}
