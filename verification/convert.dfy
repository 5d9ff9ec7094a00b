/** `convert_file(file_path, html_content)`: the command-line converter. It
    looks for the `<here>...</here>` span of an existing page; if there is
    one, it writes the `#title` and `#description` directives of the `.mbs`
    document into the page's head and header, dates the `og:image` and
    `og:url` tags, rewrites the document's block markup, puts the result
    where the span was and names the output after the document. */
module Convert {
  import opened Text
  import opened Scan
  import opened Shapes
  import opened Dates
  import opened Metadata
  import opened Urls
  import opened Escapes
  import opened Markup
  import opened Blocks

  // ---- the splice of a directive's value into the page ----

  /** Every match of `m` replaced by `before + value + after`, the value
      taken as it stands. This is what the title and description
      replacements are meant to do; `SpliceAsWritten` is what they do. */
  function Splice(m: Matcher, s: string, before: string, value: string, after: string): (r: string)
    requires Advances(m)
    ensures (forall k :: 0 <= k <= |s| ==> m(s, k).None?) ==> r == s
  {
    assert s[0..] == s;
    Sub(m, s, Const(before + value + after))
  }

  /** The first match is replaced by exactly the value between `before` and
      `after`, whatever characters the value holds. */
  lemma SpliceFirst(m: Matcher, s: string, i: nat, before: string, value: string, after: string)
    requires Advances(m) && i <= |s| && m(s, i).Some?
    requires forall k :: 0 <= k < i ==> m(s, k).None?
    ensures Splice(m, s, before, value, after)
            == s[..i] + (before + value + after) + SubFrom(m, s, m(s, i).value.end, Const(before + value + after))
  {
    var t := m(s, i).value;
    SubFirst(m, s, i, t, Const(before + value + after));
  }

  /** Where neither the value nor the text around it holds a backslash, the
      code as written does what was meant. */
  lemma SpliceAgrees(m: Matcher, s: string, before: string, value: string, after: string)
    requires Advances(m)
    requires NoBackslash(before) && NoBackslash(value) && NoBackslash(after)
    ensures SpliceAsWritten(m, s, before, value, after) == Done(Splice(m, s, before, value, after))
  {
    VerbatimWithoutBackslash(before, value, after);
  }

  /** A value holding `\t` (`C:\temp` as a title): at the place where the
      intended splice has the backslash, the code as written puts a tab. */
  lemma BackslashTBecomesTab(m: Matcher, s: string, i: nat, before: string, p: string, q: string, after: string)
    requires Advances(m) && i <= |s| && m(s, i).Some?
    requires forall k :: 0 <= k < i ==> m(s, k).None?
    requires NoBackslash(before) && NoBackslash(p) && NoBackslash(q) && NoBackslash(after)
    ensures var value := p + "\\t" + q;
            var w := SpliceAsWritten(m, s, before, value, after);
            var intended := Splice(m, s, before, value, after);
            var at := i + |before| + |p|;
            && w.Done?
            && at < |w.text| && w.text[at] == '\t'
            && at < |intended| && intended[at] == '\\'
  {
    var value := p + "\\t" + q;
    TabInValue(before, p, q, after);
    var lit := before + p + "\t" + q + after;
    var t := m(s, i).value;
    SubFirst(m, s, i, t, Const(lit));
    SpliceFirst(m, s, i, before, value, after);
    var at := i + |before| + |p|;
    assert lit[|before| + |p|] == '\t';
    assert (before + value + after)[|before| + |p|] == '\\';
  }

  // ---- the page's head and header ----

  const TitleHeading: string := Decorated("h1", "text-4xl font-bold text-gray-800")
  const LeadOpen: string := Decorated("p", "text-md text-gray-600")
  const MetaClose: string := "\" />"

  function MetaOpen(property: string): (o: string)
    ensures |o| > 0
  {
    "<meta property=\"og:" + property + "\" content=\""
  }

  // `<meta property="og:P" content=".*?"\s*/>`
  function MetaPattern(property: string): (m: Matcher)
    ensures Advances(m) && OpensWith(m, MetaOpen(property))
  {
    MetaContent(MetaOpen(property))
  }

  /** Every `og:P` tag gets `value` as its content. */
  function SetMeta(property: string, value: string, html: string): (r: string)
    ensures !Occurs(html, MetaOpen(property)) ==> r == html
  {
    var m := MetaPattern(property);
    SubAbsent(m, MetaOpen(property), html, Const(MetaOpen(property) + value + MetaClose));
    Splice(m, html, MetaOpen(property), value, MetaClose)
  }

  /** The first complete `og:P` tag, at `i`, now carries `value`; the text
      before it is kept. */
  lemma MetaFilled(property: string, value: string, html: string, i: nat)
    requires MetaPattern(property)(html, i).Some?
    requires forall k :: 0 <= k < i ==> MetaPattern(property)(html, k).None?
    ensures var m := MetaPattern(property);
            var tag := MetaOpen(property) + value + MetaClose;
            && i <= |html|
            && SetMeta(property, value, html)
               == html[..i] + tag + SubFrom(m, html, m(html, i).value.end, Const(tag))
  {
    SpliceFirst(MetaPattern(property), html, i, MetaOpen(property), value, MetaClose);
  }

  /** A splice over a one-line span whose opener is absent changes
      nothing. */
  lemma SpanSpliceUntouched(o: string, c: string, s: string, before: string, value: string, after: string)
    requires |o| > 0
    ensures !Occurs(s, o) ==> Splice(Span(o, c, false), s, before, value, after) == s
  {
    SubAbsent(Span(o, c, false), o, s, Const(before + value + after));
  }

  /** The title goes into the `og:title` tag, the page heading and the
      `<title>` element; a page with none of the three is left alone.
      HeadFill.TitleFills says what it does to a page that has them. */
  function SetTitle(title: string, html: string): (r: string)
    ensures !Occurs(html, MetaOpen("title")) && !Occurs(html, TitleHeading) && !Occurs(html, "<title>")
            ==> r == html
  {
    var h1 := SetMeta("title", title, html);
    var h2 := Splice(Span(TitleHeading, "</h1>", false), h1, TitleHeading, title, "</h1>");
    SpanSpliceUntouched(TitleHeading, "</h1>", h1, TitleHeading, title, "</h1>");
    SpanSpliceUntouched("<title>", "</title>", h2, "<title>", title, "</title>");
    Splice(Span("<title>", "</title>", false), h2, "<title>", title, "</title>")
  }

  /** The description goes into the `og:description` tag and the lead
      paragraph under the heading; a page with neither is left alone.
      HeadFill.DescriptionFills says what it does to a page that has them. */
  function SetDescription(description: string, html: string): (r: string)
    ensures !Occurs(html, MetaOpen("description")) && !Occurs(html, LeadOpen) ==> r == html
  {
    var h := SetMeta("description", description, html);
    SpanSpliceUntouched(LeadOpen, "</p>", h, LeadOpen, description, "</p>");
    Splice(Span(LeadOpen, "</p>", false), h, LeadOpen, description, "</p>")
  }

  /** `og:image` gets the day's card and `og:url` the day's page; a page
      with neither tag is left alone. HeadFill.DatesFill says what it does
      to a page that has them. */
  function SetDates(html: string, today: Date): (r: string)
    requires ValidDate(today)
    ensures !Occurs(html, MetaOpen("image")) && !Occurs(html, MetaOpen("url")) ==> r == html
  {
    SetMeta("url", PageUrl(today), SetMeta("image", CardUrl(today), html))
  }

  // ---- the directives ----

  /** `re.search(name + r'\s*(.*)', content).group(1)`: unlike the web
      application, the converter does not strip it. */
  function RawDirective(content: string, name: string): (r: Option<string>)
    requires |name| > 0
    ensures r.None? <==> !Occurs(content, name)
    ensures r.Some? ==> Find(content, name, 0).Some?
    ensures r.Some? ==> r.value == LineAfter(content, Find(content, name, 0).value, name)
  {
    RestOfLineFind(name, content);
    FindOccurs(content, name);
    var r := Search(RestOfLine(name), content);
    if r.None? then None
    else
      GroupIsLineAfter(content, name);
      Some(r.value.1.g1)
  }

  /** The web application reads the same directive and strips it. */
  lemma AppStripsDirective(content: string, name: string)
    requires |name| > 0
    ensures RawDirective(content, name).None? <==> Directive(content, name).None?
    ensures RawDirective(content, name).Some? ==>
              Directive(content, name) == Some(Strip(RawDirective(content, name).value))
  {
    DirectiveValue(content, name);
  }

  /** `re.sub(name + r'\s*(.*)', '', content)`: every directive is removed
      from its name to the end of the line its value is on. */
  function DropLines(name: string, content: string): (r: string)
    requires |name| > 0
    ensures !Occurs(content, name) ==> r == content
  {
    var m := RestOfLine(name);
    SubAbsent(m, name, content, Const(""));
    Sub(m, content, Const(""))
  }

  predicate NoNewline(t: string)
  {
    forall k :: 0 <= k < |t| ==> t[k] != '\n'
  }

  /** Two texts free of a one-line literal, the second empty or starting a
      new line, are free of it when joined. */
  lemma JoinAtNewline(a: string, b: string, o: string)
    requires |o| > 0 && NoNewline(o)
    requires !Occurs(a, o) && !Occurs(b, o)
    requires b == [] || b[0] == '\n'
    ensures !Occurs(a + b, o)
  {
    var r := a + b;
    var n := |o|;
    forall p | 0 <= p <= |r| ensures !PrefixAt(r, p, o) {
      if p + n <= |r| {
        var w := r[p..p + n];
        if p + n <= |a| {
          assert w == a[p..p + n];
          assert !PrefixAt(a, p, o);
        } else if p < |a| {
          var j := |a| - p;
          assert w[j] == r[|a|] == b[0] == '\n';
          assert o[j] != '\n';
        } else {
          var q := p - |a|;
          assert w == b[q..q + n];
          assert !PrefixAt(b, q, o);
        }
      }
    }
  }

  /** Up to the next directive there is no `o`, when every `o` starts a
      directive. */
  lemma AbsentBeforeDirective(name: string, o: string, s: string, from: nat, i: nat)
    requires |name| > 0 && |o| > 0 && from <= i <= |s|
    requires forall k :: from <= k <= |s| && PrefixAt(s, k, o) ==> PrefixAt(s, k, name)
    requires forall k :: from <= k < i ==> RestOfLine(name)(s, k).None?
    ensures !Occurs(s[from..i], o)
  {
    var a := s[from..i];
    forall p | 0 <= p <= |a| ensures !PrefixAt(a, p, o) {
      if p + |o| <= |a| {
        SliceOfSlice(s, from, i, p, p + |o|);
        assert RestOfLine(name)(s, from + p) == RestOfLineAt(name, s, from + p);
        assert !PrefixAt(s, from + p, name);
      }
    }
  }

  /** After the directives are dropped from `from` on, no `o` is left when
      every `o` started a directive, and a text that began a new line still
      does. */
  lemma {:induction false} DropFromKeepsAbsent(name: string, o: string, s: string, from: nat)
    requires |name| > 0 && NoNewline(name) && |o| > 0 && NoNewline(o) && from <= |s|
    requires forall k :: from <= k <= |s| && PrefixAt(s, k, o) ==> PrefixAt(s, k, name)
    ensures var r := SubFrom(RestOfLine(name), s, from, Const(""));
            && !Occurs(r, o)
            && (from == |s| || s[from] == '\n' ==> r == [] || r[0] == '\n')
    decreases |s| - from
  {
    var m := RestOfLine(name);
    var f := FindFrom(m, s, from);
    if from < |s| && s[from] == '\n' {
      assert name[0] != '\n';
      if from + |name| <= |s| {
        assert s[from..from + |name|][0] == s[from];
      }
      assert !PrefixAt(s, from, name);
      assert m(s, from) == RestOfLineAt(name, s, from);
    }
    if f.None? {
      AbsentBeforeDirective(name, o, s, from, |s|);
      assert s[from..|s|] == s[from..];
    } else {
      var i := f.value;
      var e := DropStep(name, s, from, i);
      DropFromKeepsAbsent(name, o, s, e);
      var rest := SubFrom(m, s, e, Const(""));
      AbsentBeforeDirective(name, o, s, from, i);
      JoinAtNewline(s[from..i], rest, o);
    }
  }

  /** Dropping the first directive from `from` on: the text before it is
      kept and the rest is dropped from the end of its line, where a new
      line starts or the text ends. */
  lemma DropStep(name: string, s: string, from: nat, i: nat) returns (e: nat)
    requires |name| > 0 && from <= i <= |s| && RestOfLine(name)(s, i).Some?
    requires forall k :: from <= k < i ==> RestOfLine(name)(s, k).None?
    ensures e == RestOfLine(name)(s, i).value.end && i < e <= |s|
    ensures e == |s| || s[e] == '\n'
    ensures SubFrom(RestOfLine(name), s, from, Const(""))
            == s[from..i] + SubFrom(RestOfLine(name), s, e, Const(""))
  {
    var m := RestOfLine(name);
    var f := Const("");
    var t := m(s, i).value;
    e := t.end;
    SubStep(m, s, from, i, f);
    assert f(t.g1, t.g2) == "";
    assert s[from..i] + "" == s[from..i];
    assert m(s, i) == RestOfLineAt(name, s, i);
    RestOfLineMatch(name, s, i);
  }

  /** No directive of the name survives its removal, and no other one-line
      literal that was absent appears. */
  lemma DropLinesKeepsAbsent(name: string, o: string, content: string)
    requires |name| > 0 && NoNewline(name) && |o| > 0 && NoNewline(o)
    requires o == name || !Occurs(content, o)
    ensures !Occurs(DropLines(name, content), o)
  {
    DropFromKeepsAbsent(name, o, content, 0);
  }

  // ---- the whole conversion ----

  lemma NameLines()
    ensures NoNewline("#title") && NoNewline("#description")
  {
  }

  /** The title step: with a `#title` directive, the page gets the rest of
      its line, unstripped, and the document loses every `#title` line;
      without one, nothing changes. */
  function TitleStep(html: string, content: string): (r: (string, string))
    ensures !Occurs(content, "#title") ==> r == (html, content)
    ensures Occurs(content, "#title") ==>
              r.0 == SetTitle(LineAfter(content, Find(content, "#title", 0).value, "#title"), html)
    ensures !Occurs(r.1, "#title")
  {
    NameLines();
    match RawDirective(content, "#title")
    case None => (html, content)
    case Some(title) =>
      DropLinesKeepsAbsent("#title", "#title", content);
      (SetTitle(title, html), DropLines("#title", content))
  }

  /** The description step, on what the title step left: the same for
      `#description`, and a document already free of `#title` stays so. */
  function DescriptionStep(html: string, content: string): (r: (string, string))
    ensures !Occurs(content, "#description") ==> r == (html, content)
    ensures Occurs(content, "#description") ==>
              r.0 == SetDescription(LineAfter(content, Find(content, "#description", 0).value, "#description"), html)
    ensures !Occurs(r.1, "#description")
    ensures !Occurs(content, "#title") ==> !Occurs(r.1, "#title")
  {
    NameLines();
    match RawDirective(content, "#description")
    case None => (html, content)
    case Some(description) =>
      DropLinesKeepsAbsent("#description", "#description", content);
      var r := (SetDescription(description, html), DropLines("#description", content));
      if Occurs(content, "#title") then r
      else
        DropLinesKeepsAbsent("#description", "#title", content);
        r
  }

  /** Everything `convert_file` does to the page before the body goes in,
      and the body the rules then rewrite, which holds neither directive. A
      document without directives leaves the page's title and description
      alone: only the two dated tags change, and the body is the document
      itself. HeadFill.HeadFilled gives the filled page of a document with
      directives. */
  function Head(html: string, content: string, today: Date): (r: (string, string))
    requires ValidDate(today)
    ensures !Occurs(r.1, "#title") && !Occurs(r.1, "#description")
    ensures !Occurs(content, "#title") && !Occurs(content, "#description")
            ==> r == (SetDates(html, today), content)
  {
    var (h1, c1) := TitleStep(html, content);
    var (h2, c2) := DescriptionStep(h1, c1);
    (SetDates(h2, today), c2)
  }

  /** `os.path.splitext(file_path)[0] + '.html'`: the document's path with
      its extension, if any, replaced by `.html`. */
  function OutputPath(path: string): (r: string)
    ensures |r| >= 5 && r[|r| - 5..] == ".html"
    ensures |r| - 5 <= |path| && r[..|r| - 5] == path[..|r| - 5]
    ensures var ext := path[|r| - 5..];
            ext == [] || (ext[0] == '.' && forall k :: 1 <= k < |ext| ==> ext[k] != '.' && ext[k] != '/')
  {
    var (stem, ext) := SplitExt(path);
    assert path[..|stem|] == stem && path[|stem|..] == ext;
    stem + ".html"
  }

  /** `<here>(.*?)</here>` under DOTALL. */
  function HerePattern(): (m: Matcher)
    ensures Advances(m) && OpensWith(m, "<here>")
  {
    Span("<here>", "</here>", true)
  }

  datatype Output = Output(path: string, html: string)

  /** `convert_file`: nothing when the page has no `<here>` span; otherwise
      the page with its head filled in and the rewritten body in place of
      the span's text. */
  function ConvertFile(path: string, html: string, content: string, today: Date): (r: Option<Output>)
    requires ValidDate(today)
    ensures r.None? <==> Search(HerePattern(), html).None?
    ensures !Occurs(html, "<here>") ==> r.None?
    ensures r.Some? ==> r.value.path == OutputPath(path)
  {
    var head := Head(html, content, today);
    Assemble(path, html, head.0, Blocks.Blocks(head.1))
  }

  /** The last step of `convert_file`: `html_content.replace(here,
      converted)`, where `here` is the text of the first `<here>` span of
      the page as read and the replacement happens in the page with its
      head filled in. */
  function Assemble(path: string, html: string, page: string, converted: string): (r: Option<Output>)
    ensures r.None? <==> Search(HerePattern(), html).None?
    ensures r.Some? ==> r.value.path == OutputPath(path)
  {
    match Search(HerePattern(), html)
    case None => None
    case Some(found) =>
      var i := found.0;
      var e := found.1.end;
      assert HerePattern()(html, i).Some?;
      Some(Output(OutputPath(path), ReplaceAll(page, html[i..e], converted)))
  }

  /** A document without directives: the page keeps its title and
      description, gets the two dated tags, and has the span's text replaced
      by the document with its block markup rewritten. */
  lemma ConvertFileWithoutDirectives(path: string, html: string, content: string, today: Date, i: nat, t: Match)
    requires ValidDate(today)
    requires Search(HerePattern(), html) == Some((i, t)) && i < t.end <= |html|
    requires !Occurs(content, "#title") && !Occurs(content, "#description")
    ensures ConvertFile(path, html, content, today)
            == Some(Output(OutputPath(path), ReplaceAll(SetDates(html, today), html[i..t.end], Blocks.Blocks(content))))
  {
    AssembleAt(path, html, SetDates(html, today), Blocks.Blocks(content), i, t, html[i..t.end]);
  }

  /** Where the span's text occurs just once in the filled-in page, the
      output is that page with the converted body in its place. */
  lemma BodyInPlace(path: string, html: string, page: string, converted: string, i: nat, t: Match,
                    body: string, p: nat)
    requires Search(HerePattern(), html) == Some((i, t)) && i < t.end <= |html|
    requires body == html[i..t.end]
    requires PrefixAt(page, p, body)
    requires forall k :: 0 <= k <= |page| && k != p ==> !PrefixAt(page, k, body)
    ensures Assemble(path, html, page, converted)
            == Some(Output(OutputPath(path), page[..p] + converted + page[p + |body|..]))
  {
    AssembleAt(path, html, page, converted, i, t, body);
    ReplaceOnce(page, body, converted, p);
  }

  lemma AssembleAt(path: string, html: string, page: string, converted: string, i: nat, t: Match, body: string)
    requires Search(HerePattern(), html) == Some((i, t)) && i < t.end <= |html|
    requires body == html[i..t.end]
    ensures Assemble(path, html, page, converted)
            == Some(Output(OutputPath(path), ReplaceAll(page, body, converted)))
  {
  }
}
