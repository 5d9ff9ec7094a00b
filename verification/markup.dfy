/** `ContentConverter.convert_markdown`: the directive lines are dropped, the
    remote media fetched, the Markdown rendered (the renderer is a
    parameter), and the rendered HTML decorated pass by pass with the
    site's classes, copy buttons, media players and heading ids. */
module Markup {
  import opened Text
  import opened Scan
  import opened Shapes
  import opened Urls
  import opened Media
  import opened Slug
  import opened Headings

  // ---- directive lines ----

  /** `re.sub(name + r'\s.*?\n', '', content)`. */
  function DropDirective(name: string, content: string): (r: string)
    requires |name| > 0
    ensures !Occurs(content, name) ==> r == content
  {
    var m := DirectiveLine(name);
    SubAbsent(m, name, content, Const(""));
    Sub(m, content, Const(""))
  }

  /** Both directive passes, `#title` first. */
  function DropDirectives(content: string): (r: string)
    ensures !Occurs(content, "#title") && !Occurs(content, "#description") ==> r == content
  {
    DropDirective("#description", DropDirective("#title", content))
  }

  /** The first directive, at `i`, followed by whitespace and closed by the
      newline at `j`, disappears together with that newline; the text before
      it is kept. When the whitespace after the name is itself a newline,
      the line after the directive goes too. */
  lemma DirectiveDropped(name: string, s: string, i: nat, j: nat)
    requires |name| > 0 && PrefixAt(s, i, name) && i + |name| < j < |s|
    requires IsSpace(s[i + |name|]) && s[j] == '\n'
    requires forall k :: 0 <= k < i ==> !PrefixAt(s, k, name)
    requires forall k :: i + |name| < k < j ==> s[k] != '\n'
    ensures DropDirective(name, s) == s[..i] + SubFrom(DirectiveLine(name), s, j + 1, Const(""))
  {
    var m, f := DirectiveLine(name), Const("");
    calc {
      DropDirective(name, s);
    == { DropIsSub(name, s); }
      Sub(m, s, f);
    == { DirectiveLineFirst(name, s, i, j); FirstErased(m, s, i, j + 1, f); }
      s[..i] + SubFrom(m, s, j + 1, f);
    }
  }

  /** Erasing the leftmost match, which ends at `e`, keeps what precedes it. */
  lemma FirstErased(m: Matcher, s: string, i: nat, e: nat, f: (string, string) -> string)
    requires Advances(m) && i <= |s|
    requires m(s, i) == Some(Match(e, "", ""))
    requires forall k :: 0 <= k < i ==> m(s, k).None?
    requires forall a: string, b: string :: f(a, b) == ""
    ensures Sub(m, s, f) == s[..i] + SubFrom(m, s, e, f)
  {
    SubFirst(m, s, i, Match(e, "", ""), f);
    assert f("", "") == "";
    assert s[..i] + "" == s[..i];
  }

  lemma DropIsSub(name: string, content: string)
    requires |name| > 0
    ensures DropDirective(name, content) == Sub(DirectiveLine(name), content, Const(""))
  {
  }

  /** The match `DirectiveDropped` removes: the first one, up to and with
      the newline. */
  lemma DirectiveLineFirst(name: string, s: string, i: nat, j: nat)
    requires |name| > 0 && PrefixAt(s, i, name) && i + |name| < j < |s|
    requires IsSpace(s[i + |name|]) && s[j] == '\n'
    requires forall k :: 0 <= k < i ==> !PrefixAt(s, k, name)
    requires forall k :: i + |name| < k < j ==> s[k] != '\n'
    ensures DirectiveLine(name)(s, i) == Some(Match(j + 1, "", ""))
    ensures forall k :: 0 <= k < i ==> DirectiveLine(name)(s, k).None?
  {
    var m := DirectiveLine(name);
    DirectiveLineEnd(s, i + |name| + 1, j);
    assert m(s, i) == DirectiveLineAt(name, s, i);
    forall k | 0 <= k < i ensures m(s, k).None? {
      assert m(s, k) == DirectiveLineAt(name, s, k);
    }
  }

  lemma DirectiveLineEnd(s: string, a: nat, j: nat)
    requires a <= j < |s| && s[j] == '\n'
    requires forall k :: a <= k < j ==> s[k] != '\n'
    ensures CloseAt(s, a, "\n", false) == Some(j)
  {
    forall k | a <= k < j ensures !PrefixAt(s, k, "\n") {
      assert s[k..k + 1][0] == s[k];
    }
    assert s[j..j + 1] == "\n";
    CloseAtExact(s, a, j, "\n", false);
  }

  /** A directive on the last line, with no newline after it, stays: the
      pattern needs the newline. */
  lemma LastLineDirectiveKept(name: string, s: string)
    requires |name| > 0
    requires forall k :: 0 <= k < |s| ==> s[k] != '\n'
    ensures DropDirective(name, s) == s
  {
    var m := DirectiveLine(name);
    forall k | 0 <= k <= |s| ensures !PrefixAt(s, k, "\n") {
      if k + 1 <= |s| {
        assert s[k..k + 1][0] == s[k];
      }
    }
    forall k | 0 <= k <= |s| ensures m(s, k).None? {
      assert m(s, k) == DirectiveLineAt(name, s, k);
    }
  }

  // ---- the decoration passes ----

  /** `re.sub(o, rep, html)` for a literal tag `o`. */
  function LitPass(o: string, rep: string, html: string): (r: string)
    requires |o| > 0
    ensures !Occurs(html, o) ==> r == html
  {
    SubAbsent(Lit(o), o, html, Const(rep));
    Sub(Lit(o), html, Const(rep))
  }

  /** The replacement `decorated` + group 1 + `closing`. */
  function Wrap(decorated: string, closing: string): (f: (string, string) -> string)
    ensures forall g1: string, g2: string :: f(g1, g2) == decorated + g1 + closing
  {
    (g1: string, g2: string) => decorated + g1 + closing
  }

  /** `re.sub(o(.*?)c, decorated + r'\1' + closing, s)` at its first match. */
  lemma WrapFirst(o: string, c: string, dotall: bool, s: string, i: nat, e: nat, decorated: string, closing: string)
    requires |o| > 0
    requires PrefixAt(s, i, o) && i + |o| <= e && PrefixAt(s, e, c)
    requires forall k :: 0 <= k < i ==> !PrefixAt(s, k, o)
    requires forall k :: i + |o| <= k < e ==> !PrefixAt(s, k, c)
    requires !dotall ==> forall k :: i + |o| <= k < e ==> s[k] != '\n'
    ensures Sub(Span(o, c, dotall), s, Wrap(decorated, closing))
            == s[..i] + (decorated + s[i + |o|..e] + closing) + SubFrom(Span(o, c, dotall), s, e + |c|, Wrap(decorated, closing))
  {
    var m := Span(o, c, dotall);
    var f := Wrap(decorated, closing);
    var g := s[i + |o|..e];
    var rest := SubFrom(m, s, e + |c|, f);
    SpanSub(o, c, dotall, s, i, e, f);
    assert f(g, "") == decorated + g + closing;
  }

  /** `re.sub(o + '(.*?)' + c, decorated + r'\1' + c, html)`: the element gets
      a decorated opening tag and keeps its content. */
  function ClassPass(o: string, c: string, decorated: string, dotall: bool, html: string): (r: string)
    requires |o| > 0
    ensures !Occurs(html, o) ==> r == html
  {
    var m := Span(o, c, dotall);
    SubAbsent(m, o, html, Wrap(decorated, c));
    Sub(m, html, Wrap(decorated, c))
  }

  /** The first element of a class pass, closed at `e`, keeps its content
      under the decorated opening tag. */
  lemma ClassPassFirst(o: string, c: string, decorated: string, dotall: bool, s: string, i: nat, e: nat)
    requires |o| > 0
    requires PrefixAt(s, i, o) && i + |o| <= e && PrefixAt(s, e, c)
    requires forall k :: 0 <= k < i ==> !PrefixAt(s, k, o)
    requires forall k :: i + |o| <= k < e ==> !PrefixAt(s, k, c)
    requires !dotall ==> forall k :: i + |o| <= k < e ==> s[k] != '\n'
    ensures ClassPass(o, c, decorated, dotall, s)
            == s[..i] + (decorated + s[i + |o|..e] + c) + SubFrom(Span(o, c, dotall), s, e + |c|, Wrap(decorated, c))
  {
    WrapFirst(o, c, dotall, s, i, e, decorated, c);
  }

  const CopyOpen: string := "<div class=\"copyable mb-4\">"
  const CopyClose: string :=
    "<button onclick=\"copyToClipboard(this)\" class=\"bg-blue-600 hover:bg-blue-700 "
    + "text-white font-bold py-1 px-3 rounded\">コピー</button></div>"

  function CodeBlockRepl(): (f: (string, string) -> string)
    ensures forall g1: string, g2: string ::
              f(g1, g2) == CopyOpen + ("<pre><code" + g1 + ">" + g2 + "</code></pre>") + CopyClose
  {
    (g1: string, g2: string) => CopyOpen + ("<pre><code" + g1 + ">" + g2 + "</code></pre>") + CopyClose
  }

  /** `(<pre><code.*?>)(.*?)(</code></pre>)` under DOTALL. */
  function CodeBlockPattern(): (m: Matcher)
    ensures Advances(m) && OpensWith(m, "<pre><code")
  {
    Span2("<pre><code", ">", "</code></pre>", true)
  }

  /** Code blocks get a copy button. */
  function CodeBlocks(html: string): (r: string)
    ensures !Occurs(html, "<pre><code") ==> r == html
  {
    var m := CodeBlockPattern();
    SubAbsent(m, "<pre><code", html, CodeBlockRepl());
    Sub(m, html, CodeBlockRepl())
  }

  /** Each code block is wrapped as it stands: the replacement of a match is
      the matched text between the copy wrapper's two halves. */
  lemma CodeBlockWrapped(s: string, i: nat)
    requires CodeBlockPattern()(s, i).Some?
    ensures var t := CodeBlockPattern()(s, i).value;
            i <= t.end <= |s| && CodeBlockRepl()(t.g1, t.g2) == CopyOpen + s[i..t.end] + CopyClose
  {
    assert CodeBlockPattern()(s, i) == Span2At("<pre><code", ">", "</code></pre>", true, s, i);
    Span2Text("<pre><code", ">", "</code></pre>", true, s, i, Span2At("<pre><code", ">", "</code></pre>", true, s, i).value);
  }

  /** `<name class="cls">`: a tag carrying the site's classes. */
  function Decorated(name: string, cls: string): (r: string)
    ensures |r| == |name| + |cls| + 11
    ensures r[0] == '<' && r[1 + |name|] == ' '
    ensures forall j :: 0 <= j < |name| ==> r[1 + j] == name[j]
    ensures forall j :: 0 <= j < |cls| ==> r[9 + |name| + j] == cls[j]
  {
    var r := "<" + name + " class=\"" + cls + "\">";
    assert forall j :: 0 <= j < |cls| ==> r[9 + |name| + j] == cls[j];
    r
  }

  /** Apart from its first character, a decorated tag holds no `<` when its
      name and classes hold none. */
  lemma DecoratedPlain(name: string, cls: string)
    requires !Occurs(name, "<") && !Occurs(cls, "<")
    ensures forall j :: 1 <= j < |Decorated(name, cls)| ==> Decorated(name, cls)[j] != '<'
  {
    var r := Decorated(name, cls);
    forall j | 1 <= j < |r| ensures r[j] != '<' {
      if j < 1 + |name| {
        NoCharAt(name, '<', j - 1);
      } else if 9 + |name| <= j < 9 + |name| + |cls| {
        NoCharAt(cls, '<', j - 9 - |name|);
      } else {
        assert r == "<" + name + " class=\"" + cls + "\">";
      }
    }
  }

  /** A text free of the one-character string `[c]` holds no `c`. */
  lemma NoCharAt(s: string, c: char, j: nat)
    requires !Occurs(s, [c]) && j < |s|
    ensures s[j] != c
  {
    assert !PrefixAt(s, j, [c]);
    assert s[j..j + 1] == [s[j]];
  }

  /** A decorated tag of `name` never forms the bare tag of `bare`, alone or
      with its neighbours: the names differ at `j`, or they agree and the
      decorated tag has a space where the bare one closes. */
  lemma DecoratedInert(name: string, cls: string, bare: string, j: nat)
    requires !Occurs(name, "<") && !Occurs(cls, "<") && |bare| <= |name| + |cls| + 9
    requires (name == bare && j == |name|) || (j < |name| && j < |bare| && name[j] != bare[j])
    ensures Inert(Decorated(name, cls), "<" + bare + ">")
  {
    DecoratedPlain(name, cls);
    var r := Decorated(name, cls);
    var o := "<" + bare + ">";
    assert o[0] == '<';
    if name == bare {
      assert o[1 + j] == '>';
    } else {
      assert o[1 + j] == bare[j];
    }
    assert r[..|o|][1 + j] == r[1 + j];
  }

  const UlTag: string := Decorated("ul", "list-disc list-inside mb-4")
  const OlTag: string := Decorated("ol", "list-decimal list-inside mb-4")
  const TableTag: string := Decorated("table", "min-w-full table-auto mb-4 border")
  const ThTag: string := Decorated("th", "px-4 py-2 border")
  const TdTag: string := Decorated("td", "px-4 py-2 border")

  /** The `<ul>` and `<ol>` passes. */
  function Lists(html: string): (r: string)
    ensures !Occurs(html, "<ul>") && !Occurs(html, "<ol>") ==> r == html
  {
    LitPass("<ol>", OlTag, LitPass("<ul>", UlTag, html))
  }

  /** The `<table>`, `<th>` and `<td>` passes. */
  function Tables(html: string): (r: string)
    ensures !Occurs(html, "<table>") && !Occurs(html, "<th>") && !Occurs(html, "<td>") ==> r == html
  {
    LitPass("<td>", TdTag, LitPass("<th>", ThTag, LitPass("<table>", TableTag, html)))
  }

  /** The class lists hold no `<`. */
  lemma ClassesPlain()
    ensures !Occurs("list-disc list-inside mb-4", "<")
    ensures !Occurs("list-decimal list-inside mb-4", "<")
    ensures !Occurs("min-w-full table-auto mb-4 border", "<")
    ensures !Occurs("px-4 py-2 border", "<")
    ensures !Occurs("ul", "<") && !Occurs("ol", "<") && !Occurs("table", "<")
    ensures !Occurs("th", "<") && !Occurs("td", "<")
  {
    NoAngle("list-disc list-inside mb-4", "<");
    NoAngle("list-decimal list-inside mb-4", "<");
    NoAngle("min-w-full table-auto mb-4 border", "<");
    NoAngle("px-4 py-2 border", "<");
    NoAngle("ul", "<");
    NoAngle("ol", "<");
    NoAngle("table", "<");
    NoAngle("th", "<");
    NoAngle("td", "<");
  }

  /** A decorated list tag never forms a bare list tag. */
  lemma ListTagsInert()
    ensures HeadOnce("<ul>") && HeadOnce("<ol>")
    ensures Inert(UlTag, "<ul>") && Inert(UlTag, "<ol>")
    ensures Inert(OlTag, "<ul>") && Inert(OlTag, "<ol>")
  {
    ClassesPlain();
    DecoratedInert("ul", "list-disc list-inside mb-4", "ul", 2);
    DecoratedInert("ul", "list-disc list-inside mb-4", "ol", 0);
    DecoratedInert("ol", "list-decimal list-inside mb-4", "ul", 0);
    DecoratedInert("ol", "list-decimal list-inside mb-4", "ol", 2);
  }

  /** A decorated table tag never forms a bare table tag. */
  lemma TableTagsInert()
    ensures HeadOnce("<table>") && HeadOnce("<th>") && HeadOnce("<td>")
    ensures Inert(TableTag, "<table>") && Inert(TableTag, "<th>") && Inert(TableTag, "<td>")
    ensures Inert(ThTag, "<table>") && Inert(ThTag, "<th>") && Inert(ThTag, "<td>")
    ensures Inert(TdTag, "<table>") && Inert(TdTag, "<th>") && Inert(TdTag, "<td>")
  {
    TableInert();
    CellInert("th");
    CellInert("td");
  }

  lemma TableInert()
    ensures Inert(TableTag, "<table>") && Inert(TableTag, "<th>") && Inert(TableTag, "<td>")
  {
    var t := "min-w-full table-auto mb-4 border";
    NoAngle(t, "<");
    NoAngle("table", "<");
    DecoratedInert("table", t, "table", 5);
    DecoratedInert("table", t, "th", 1);
    DecoratedInert("table", t, "td", 1);
  }

  /** The header and data cell tags, which share their classes. */
  lemma CellInert(name: string)
    requires name == "th" || name == "td"
    ensures var tag := Decorated(name, "px-4 py-2 border");
            Inert(tag, "<table>") && Inert(tag, "<th>") && Inert(tag, "<td>")
  {
    var c := "px-4 py-2 border";
    NoAngle(c, "<");
    NoAngle(name, "<");
    DecoratedInert(name, c, "table", 1);
    DecoratedInert(name, c, "th", if name == "th" then 2 else 1);
    DecoratedInert(name, c, "td", if name == "td" then 2 else 1);
  }

  /** After the list passes no bare `<ul>` or `<ol>` remains. */
  lemma NoBareLists(html: string)
    ensures !Occurs(Lists(html), "<ul>") && !Occurs(Lists(html), "<ol>")
  {
    ListTagsInert();
    var a := LitPass("<ul>", UlTag, html);
    LitPassAbsent("<ul>", "<ul>", UlTag, html, 0);
    LitPassAbsent("<ol>", "<ol>", OlTag, a, 0);
    LitPassAbsent("<ul>", "<ol>", OlTag, a, 0);
  }

  /** After the table passes no bare `<table>`, `<th>` or `<td>` remains. */
  lemma NoBareTables(html: string)
    ensures var r := Tables(html);
            !Occurs(r, "<table>") && !Occurs(r, "<th>") && !Occurs(r, "<td>")
  {
    TableTagsInert();
    var a := LitPass("<table>", TableTag, html);
    var b := LitPass("<th>", ThTag, a);
    LitPassAbsent("<table>", "<table>", TableTag, html, 0);
    LitPassAbsent("<th>", "<th>", ThTag, a, 0);
    LitPassAbsent("<table>", "<th>", ThTag, a, 0);
    LitPassAbsent("<td>", "<td>", TdTag, b, 0);
    LitPassAbsent("<th>", "<td>", TdTag, b, 0);
    LitPassAbsent("<table>", "<td>", TdTag, b, 0);
  }

  // ---- media tags ----

  const VideoOpen: string :=
    "\n" + "<div class=\"video-container mb-4\">\n    <video controls class=\"responsive-media\">\n"
    + "        <source src=\""
  const VideoClose: string :=
    "\" type=\"video/mp4\">\n        Your browser does not support the video tag.\n"
    + "    </video>\n</div>\n"
  const ImgPrefix: string := "<img src=\""

  /** `os.path.splitext(src)[1].lower() == '.mp4'`. */
  predicate IsMp4(src: string)
  {
    Lower(SplitExt(src).1) == ".mp4"
  }

  /** The click handler of an image: it opens `src` in the modal viewer. */
  function OpenModal(src: string): string
  {
    "openModal('" + src + "', 'image')"
  }

  /** The video player for `src`. */
  function VideoTag(src: string): (r: string)
    ensures |r| >= |VideoOpen| + |src|
    ensures PrefixAt(r, 0, VideoOpen) && r[|VideoOpen|..|VideoOpen| + |src|] == src
  {
    var r := VideoOpen + src + VideoClose;
    assert r[..|VideoOpen|] == VideoOpen;
    r
  }

  /** The image for `src`, labelled `alt`, opening in the modal viewer. */
  function ImageTag(alt: string, src: string): (r: string)
    ensures |r| >= |ImgPrefix| + |src|
    ensures PrefixAt(r, 0, ImgPrefix) && r[|ImgPrefix|..|ImgPrefix| + |src|] == src
    ensures |r| >= |OpenModal(src)| + 3 && r[|r| - |OpenModal(src)| - 3..] == OpenModal(src) + "\"/>"
  {
    var head := ImgPrefix + src + "\" alt=\"" + alt + "\" class=\"responsive-media mb-4 cursor-pointer\" onclick=\"";
    var r := head + (OpenModal(src) + "\"/>");
    assert r[..|ImgPrefix|] == ImgPrefix;
    assert r[|ImgPrefix|..|ImgPrefix| + |src|] == src;
    r
  }

  /** `replace_media_tag`: a video player with a single source exactly when
      the source's extension is `.mp4` in any case, otherwise an image that
      opens in the modal viewer. */
  function MediaTag(alt: string, src: string): (r: string)
    ensures IsMp4(src) <==> PrefixAt(r, 0, VideoOpen)
    ensures IsMp4(src) ==> r == VideoTag(src)
    ensures !IsMp4(src) ==> r == ImageTag(alt, src)
  {
    if IsMp4(src) then VideoTag(src)
    else
      var r := ImageTag(alt, src);
      assert r[..|ImgPrefix|][0] == '<' && VideoOpen[0] == '\n';
      r
  }

  function MediaRepl(): (f: (string, string) -> string)
    ensures forall alt: string, src: string :: f(alt, src) == MediaTag(alt, src)
  {
    (alt: string, src: string) => MediaTag(alt, src)
  }

  // `<img\s+alt="(.*?)"\s+src="(.*?)"\s*/?>` rewritten by `replace_media_tag`.
  function MediaTags(html: string): (r: string)
    ensures !Occurs(html, ImgOpen) ==> r == html
  {
    var m := ImgTag();
    SubAbsent(m, ImgOpen, html, MediaRepl());
    Sub(m, html, MediaRepl())
  }

  /** The first image tag of the rendered HTML, written the way
      Python-Markdown writes `![A](S)`, is replaced by the media element for
      A and S, and the scan goes on right after the tag's `/>`. */
  lemma MediaTagFirst(s: string, i: nat, alt: string, src: string, e: nat)
    requires PrefixAt(s, i, ImgText(alt, src)) && Unquoted(alt) && Unquoted(src)
    requires e == i + |ImgText(alt, src)|
    requires forall k :: 0 <= k < i ==> !PrefixAt(s, k, ImgOpen)
    ensures MediaTags(s) == s[..i] + MediaTag(alt, src) + SubFrom(ImgTag(), s, e, MediaRepl())
  {
    var m := ImgTag();
    ImgTagMatch(s, i, alt, src, e);
    forall k | 0 <= k < i ensures m(s, k).None? {
      assert m(s, k).Some? ==> PrefixAt(s, k, ImgOpen);
    }
    SubFirst(m, s, i, Match(e, alt, src), MediaRepl());
    assert PrefixAt(s, i, ImgOpen) by { ImgTextSplit(s, i, alt, src); ImgHeadAt(s, i); }
  }

  /** A text whose only image tag is one rendered tag gets exactly that tag
      replaced by its media element. */
  lemma MediaTagOnly(s: string, i: nat, alt: string, src: string, e: nat)
    requires PrefixAt(s, i, ImgText(alt, src)) && Unquoted(alt) && Unquoted(src)
    requires e == i + |ImgText(alt, src)|
    requires forall k :: 0 <= k < i ==> !PrefixAt(s, k, ImgOpen)
    requires forall k :: e <= k <= |s| ==> !PrefixAt(s, k, ImgOpen)
    ensures MediaTags(s) == s[..i] + MediaTag(alt, src) + s[e..]
  {
    MediaTagFirst(s, i, alt, src, e);
    SubNoOpener(ImgTag(), ImgOpen, s, e, MediaRepl());
  }

  // ---- links ----

  const LinkOpen: string := "<a href=\""
  const LinkClass: string := "\" class=\"text-blue-600 hover:underline\">"

  function LinkRepl(): (f: (string, string) -> string)
    ensures forall href: string, text: string :: f(href, text) == LinkOpen + href + LinkClass + text + "</a>"
  {
    (href: string, text: string) => LinkOpen + href + LinkClass + text + "</a>"
  }

  /** `<a href="(.*?)">(.*?)</a>`. */
  function LinkPattern(): (m: Matcher)
    ensures Advances(m) && OpensWith(m, LinkOpen)
  {
    Span2(LinkOpen, "\">", "</a>", false)
  }

  function Links(html: string): (r: string)
    ensures !Occurs(html, LinkOpen) ==> r == html
  {
    var m := LinkPattern();
    SubAbsent(m, LinkOpen, html, LinkRepl());
    Sub(m, html, LinkRepl())
  }

  /** A link only gains the class attribute: the replacement is the matched
      text with the attribute inserted after the `href` value. */
  lemma LinkDecorated(s: string, i: nat)
    requires LinkPattern()(s, i).Some?
    ensures var t := LinkPattern()(s, i).value;
            var h := i + |LinkOpen| + |t.g1|;
            && i <= h <= t.end <= |s|
            && s[i..h] == LinkOpen + t.g1
            && s[h..t.end] == "\">" + t.g2 + "</a>"
            && LinkRepl()(t.g1, t.g2) == s[i..h] + LinkClass + t.g2 + "</a>"
  {
    var t := LinkPattern()(s, i).value;
    assert LinkPattern()(s, i) == Span2At(LinkOpen, "\">", "</a>", false, s, i);
    Span2Text(LinkOpen, "\">", "</a>", false, s, i, Span2At(LinkOpen, "\">", "</a>", false, s, i).value);
    var h := i + |LinkOpen| + |t.g1|;
    var w := LinkOpen + t.g1 + "\">" + t.g2 + "</a>";
    assert s[i..t.end] == w;
    SliceOfSlice(s, i, t.end, 0, h - i);
    SliceOfSlice(s, i, t.end, h - i, t.end - i);
    assert w[..h - i] == LinkOpen + t.g1;
    assert w[h - i..] == "\">" + t.g2 + "</a>";
  }

  // ---- the whole post-processing ----

  const BlockquoteTag: string := "<blockquote class=\"blockquote mb-4\">"
  const LiTag: string := "<li class=\"mb-2 text-gray-700\">"
  const PTag: string := "<p class=\"text-gray-700 mb-4\">"
  const CodeTag: string := "<code class=\"bg-gray-100 rounded-lg p-1\">"

  /** One post-processing pass of `convert_markdown`. */
  datatype Step =
    | CodeBlockStep
    | ClassStep(open: string, close: string, tag: string, dotall: bool)
    | ListStep
    | MediaStep
    | TableStep
    | LinkStep
    | HeadingStep

  predicate Runnable(p: Step)
  {
    p.ClassStep? ==> |p.open| > 0
  }

  /** The openers a pass looks for: without any of them in the text, the
      pass has nothing to do. */
  function Triggers(p: Step): seq<string>
  {
    match p
    case CodeBlockStep => ["<pre><code"]
    case ClassStep(o, _, _, _) => [o]
    case ListStep => ["<ul>", "<ol>"]
    case MediaStep => [ImgOpen]
    case TableStep => ["<table>", "<th>", "<td>"]
    case LinkStep => [LinkOpen]
    case HeadingStep => [Open(H1), Open(H2), Open(H3)]
  }

  function Run(p: Step, html: string, word: char -> bool): (r: string)
    requires Runnable(p)
  {
    match p
    case CodeBlockStep => CodeBlocks(html)
    case ClassStep(o, c, tag, dotall) => ClassPass(o, c, tag, dotall, html)
    case ListStep => Lists(html)
    case MediaStep => MediaTags(html)
    case TableStep => Tables(html)
    case LinkStep => Links(html)
    case HeadingStep => AddIds(html, word)
  }

  /** A pass finding none of its openers leaves the text alone. */
  lemma RunUntouched(p: Step, html: string, word: char -> bool)
    requires Runnable(p)
    requires forall t :: t in Triggers(p) ==> !Occurs(html, t)
    ensures Run(p, html, word) == html
  {
    var ts := Triggers(p);
    assert ts[0] in ts;
    if |ts| > 1 {
      assert ts[1] in ts;
    }
    if |ts| > 2 {
      assert ts[2] in ts;
    }
  }

  /** The passes one after the other, each on the output of the one before. */
  function RunAll(ps: seq<Step>, html: string, word: char -> bool): (r: string)
    requires forall p :: p in ps ==> Runnable(p)
    decreases |ps|
  {
    if ps == [] then html else RunAll(ps[1..], Run(ps[0], html, word), word)
  }

  /** Text holding none of the openers any of the passes looks for comes
      through all of them unchanged. */
  lemma {:induction false} RunAllUntouched(ps: seq<Step>, html: string, word: char -> bool)
    requires forall p :: p in ps ==> Runnable(p)
    requires forall p, t :: p in ps && t in Triggers(p) ==> !Occurs(html, t)
    ensures RunAll(ps, html, word) == html
    decreases |ps|
  {
    if ps != [] {
      assert ps[0] in ps;
      RunUntouched(ps[0], html, word);
      assert forall p :: p in ps[1..] ==> p in ps;
      RunAllUntouched(ps[1..], html, word);
    }
  }

  /** Every pass after the Markdown rendering, in the source's order. */
  const Steps: seq<Step> := [
    CodeBlockStep,
    ClassStep("<blockquote>", "</blockquote>", BlockquoteTag, true),
    ListStep,
    ClassStep("<li>", "</li>", LiTag, false),
    ClassStep("<p>", "</p>", PTag, false),
    MediaStep,
    TableStep,
    ClassStep("<code>", "</code>", CodeTag, false),
    LinkStep,
    HeadingStep
  ]

  /** Every opener the passes look for is a tag: it starts with `<`. */
  predicate TagOpeners(ps: seq<Step>)
  {
    forall p, t :: p in ps && t in Triggers(p) ==> |t| > 0 && t[0] == '<'
  }

  /** Every pass of the source can run: its opener is not empty. */
  lemma StepsRunnable()
    ensures forall p :: p in Steps ==> Runnable(p)
  {
  }

  /** Every opener of the source's passes is a tag. */
  lemma StepsOpenTags()
    ensures TagOpeners(Steps)
  {
    ClassOpeners();
    forall p, t | p in Steps && t in Triggers(p) ensures |t| > 0 && t[0] == '<' {
      if !p.ClassStep? {
        FixedStepOpensTag(p, t);
      }
    }
  }

  /** The element passes look for blockquotes, list items, paragraphs and
      inline code. */
  lemma ClassOpeners()
    ensures forall p :: p in Steps && p.ClassStep? ==> p.open in {"<blockquote>", "<li>", "<p>", "<code>"}
  {
  }

  /** The openers of the passes without parameters are tags. */
  lemma FixedStepOpensTag(p: Step, t: string)
    requires !p.ClassStep? && t in Triggers(p)
    ensures |t| > 0 && t[0] == '<'
  {
    assert ImgOpen[0] == '<' && LinkOpen[0] == '<';
  }

  /** A tag that opens with `<` cannot occur in text without one. */
  lemma NoAngle(s: string, o: string)
    requires |o| > 0 && o[0] == '<'
    requires forall k :: 0 <= k < |s| ==> s[k] != '<'
    ensures !Occurs(s, o)
  {
    forall p | 0 <= p <= |s| ensures !PrefixAt(s, p, o) {
      if p + |o| <= |s| {
        assert s[p..p + |o|][0] == s[p];
      }
    }
  }

  /** HTML without any tag comes through passes whose openers are all
      tags unchanged. */
  lemma AngleFreeUntouched(ps: seq<Step>, html: string, word: char -> bool)
    requires forall p :: p in ps ==> Runnable(p)
    requires TagOpeners(ps)
    requires forall k :: 0 <= k < |html| ==> html[k] != '<'
    ensures RunAll(ps, html, word) == html
  {
    forall p, t | p in ps && t in Triggers(p) ensures !Occurs(html, t) {
      NoAngle(html, t);
    }
    RunAllUntouched(ps, html, word);
  }

  /** The ten decoration passes of `convert_markdown`, in order. HTML
      without any tag is left exactly as it is. */
  function Decorate(html: string, word: char -> bool): (r: string)
    ensures (forall k :: 0 <= k < |html| ==> html[k] != '<') ==> r == html
  {
    StepsRunnable();
    if forall k :: 0 <= k < |html| ==> html[k] != '<' then
      StepsOpenTags();
      AngleFreeUntouched(Steps, html, word);
      RunAll(Steps, html, word)
    else RunAll(Steps, html, word)
  }

  /** The Markdown renderer, taken as given. */
  type Renderer = string -> string

  /** `convert_markdown(content, output_dir)`: the HTML and the directory
      after the downloads, or None when a media source makes `urlparse`
      raise. */
  function ConvertMarkdown(content: string, dir: Dir, fetch: Fetch, markdown: Renderer,
                           word: char -> bool): (r: Option<(string, Dir)>)
    ensures r.None? <==> Localize(DropDirectives(content), dir, fetch).None?
    ensures r.Some? ==> dir.files <= r.value.1.files
    ensures r.Some? ==> r.value.0 == Decorate(markdown(Localize(DropDirectives(content), dir, fetch).value.0), word)
  {
    match Localize(DropDirectives(content), dir, fetch)
    case None => None
    case Some(p) => Some((Decorate(markdown(p.0), word), p.1))
  }

  /** Content, once its directive lines are dropped, whose image references
      are all local and whose rendering has no tag in it comes out exactly as
      the renderer produced it, and the directory is left alone. */
  lemma LocalPlainConverted(content: string, dir: Dir, fetch: Fetch, markdown: Renderer, word: char -> bool)
    requires forall k :: 0 <= k <= |DropDirectives(content)| ==> LocalAt(DropDirectives(content), k)
    requires forall k :: 0 <= k < |markdown(DropDirectives(content))| ==> markdown(DropDirectives(content))[k] != '<'
    ensures ConvertMarkdown(content, dir, fetch, markdown, word) == Some((markdown(DropDirectives(content)), dir))
  {
    var c := DropDirectives(content);
    LocalUnchanged(c, 0, dir, fetch);
    assert c[0..] == c;
  }

  /** The files a conversion adds to the output directory are the pass's
      new files: none existed before, and no two share a name. */
  lemma ConvertedFilesFresh(content: string, dir: Dir, fetch: Fetch, markdown: Renderer, word: char -> bool)
    requires ConvertMarkdown(content, dir, fetch, markdown, word).Some?
    ensures FreshNames(Created(DropDirectives(content), 0, dir, fetch), dir.files,
                       ConvertMarkdown(content, dir, fetch, markdown, word).value.1.files)
  {
    CreatedFresh(DropDirectives(content), 0, dir, fetch);
  }
}
