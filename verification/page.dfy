/** The page `ContentConverter.convert_content` writes: `HTML_TEMPLATE`, a
    `string.Template`, filled with the metadata and the converted body.
    The template is modelled as its placeholders and the literal text
    between them; the style sheet and scripts in the head and the share
    buttons and scripts after the body are parameters. */
module Pages {
  import opened Text
  import opened Dates
  import opened Metadata
  import opened Media
  import opened Markup

  // ---- string.Template ----

  /** How `Template.substitute` ends: the text, a `KeyError` for a
      placeholder missing from the mapping, or the `ValueError` for a `$`
      that starts no placeholder. */
  datatype Substituted = Filled(text: string) | MissingKey(key: string) | InvalidPlaceholder

  /** Characters of an identifier under `(?a:[_a-z][_a-z0-9]*)` with
      `re.IGNORECASE`. */
  predicate IdStart(c: char)
  {
    c == '_' || IsAsciiLetter(c)
  }

  predicate IdChar(c: char)
  {
    IdStart(c) || IsDigit(c)
  }

  /** The end of the greedy identifier run starting at `i`. */
  function IdEnd(t: string, i: nat): (n: nat)
    requires i <= |t|
    ensures i <= n <= |t|
    ensures forall k :: i <= k < n ==> IdChar(t[k])
    ensures n == |t| || !IdChar(t[n])
    decreases |t| - i
  {
    if i < |t| && IdChar(t[i]) then IdEnd(t, i + 1) else i
  }

  function Prepend(p: string, r: Substituted): (q: Substituted)
    ensures r.Filled? <==> q.Filled?
    ensures q.Filled? ==> q.text == p + r.text
    ensures !r.Filled? ==> q == r
  {
    if r.Filled? then Filled(p + r.text) else r
  }

  /** The value of placeholder `name`, then the rest of the template. */
  function Lookup(name: string, vars: map<string, string>, rest: Substituted): (q: Substituted)
  {
    if name in vars then Prepend(vars[name], rest) else MissingKey(name)
  }

  /** `Template(t).substitute(vars)`: one left-to-right pass in which `$$`
      stands for `$`, `$name` and `${name}` for the value of `name`, and any
      other `$` is an error. Values are inserted as they are and never
      scanned again. */
  function Substitute(t: string, vars: map<string, string>): (r: Substituted)
    ensures (forall k :: 0 <= k < |t| ==> t[k] != '$') ==> r == Filled(t)
    decreases |t|
  {
    if |t| == 0 then Filled("")
    else if t[0] != '$' then Prepend([t[0]], Substitute(t[1..], vars))
    else if |t| >= 2 && t[1] == '$' then Prepend("$", Substitute(t[2..], vars))
    else if |t| >= 2 && IdStart(t[1]) then
      var n := IdEnd(t, 1);
      Lookup(t[1..n], vars, Substitute(t[n..], vars))
    else if |t| >= 3 && t[1] == '{' && IdStart(t[2]) && IdEnd(t, 2) < |t| && t[IdEnd(t, 2)] == '}' then
      var n := IdEnd(t, 2);
      Lookup(t[2..n], vars, Substitute(t[n + 1..], vars))
    else InvalidPlaceholder
  }

  predicate NoDollar(t: string)
  {
    forall j :: 0 <= j < |t| ==> t[j] != '$'
  }

  /** A character other than `$` is copied through. */
  lemma PlainHead(t: string, vars: map<string, string>)
    requires |t| > 0 && t[0] != '$'
    ensures Substitute(t, vars) == Prepend([t[0]], Substitute(t[1..], vars))
  {
  }

  /** Text free of `$` is copied through. */
  lemma {:induction false} PlainPrefix(a: string, b: string, vars: map<string, string>)
    requires NoDollar(a)
    ensures Substitute(a + b, vars) == Prepend(a, Substitute(b, vars))
    decreases |a|
  {
    if |a| == 0 {
      assert a + b == b;
      PrependPrepend([], [], Substitute(b, vars));
    } else {
      var t := a + b;
      assert t[0] == a[0] && t[1..] == a[1..] + b;
      PlainHead(t, vars);
      PlainPrefix(a[1..], b, vars);
      PrependPrepend([a[0]], a[1..], Substitute(b, vars));
      assert [a[0]] + a[1..] == a;
    }
  }

  lemma PrependPrepend(p: string, q: string, r: Substituted)
    ensures Prepend(p, Prepend(q, r)) == Prepend(p + q, r)
  {
    if r.Filled? {
      assert p + (q + r.text) == (p + q) + r.text;
    }
  }

  /** `$name` followed by a character that cannot continue the name is
      replaced by the value of `name`. */
  lemma NamedPlaceholder(name: string, b: string, vars: map<string, string>)
    requires |name| > 0 && IdStart(name[0]) && forall k :: 0 <= k < |name| ==> IdChar(name[k])
    requires |b| == 0 || !IdChar(b[0])
    ensures Substitute("$" + name + b, vars) == Lookup(name, vars, Substitute(b, vars))
  {
    var t := "$" + name + b;
    assert t[0] == '$' && t[1] == name[0];
    IdEndOver(t, 1, |name| + 1);
    assert t[1..|name| + 1] == name;
    assert t[|name| + 1..] == b;
  }

  lemma {:induction false} IdEndOver(t: string, i: nat, n: nat)
    requires i <= n <= |t|
    requires forall k :: i <= k < n ==> IdChar(t[k])
    requires n == |t| || !IdChar(t[n])
    ensures IdEnd(t, i) == n
    decreases n - i
  {
    if i < n {
      IdEndOver(t, i + 1, n);
    }
  }

  // ---- templates as pieces ----

  /** A template is literal text and placeholders, in order. */
  datatype Piece = Chunk(text: string) | Slot(name: string)

  /** The template text: each placeholder written `$name`. */
  function Source(ps: seq<Piece>): string
  {
    if |ps| == 0 then "" else
      match ps[0]
      case Chunk(t) => t + Source(ps[1..])
      case Slot(n) => "$" + n + Source(ps[1..])
  }

  /** The text a piece stands for once the placeholders have values. */
  function Value(p: Piece, vars: map<string, string>): string
    requires p.Slot? ==> p.name in vars
  {
    match p
    case Chunk(t) => t
    case Slot(n) => vars[n]
  }

  predicate Bound(ps: seq<Piece>, vars: map<string, string>)
  {
    forall k :: 0 <= k < |ps| && ps[k].Slot? ==> ps[k].name in vars
  }

  /** The values of the pieces, in order. */
  function Values(ps: seq<Piece>, vars: map<string, string>): (vs: seq<string>)
    requires Bound(ps, vars)
    ensures |vs| == |ps| && forall k :: 0 <= k < |ps| ==> vs[k] == Value(ps[k], vars)
  {
    if |ps| == 0 then [] else [Value(ps[0], vars)] + Values(ps[1..], vars)
  }

  /** The parts, concatenated. */
  function Join(parts: seq<string>): (r: string)
    ensures (forall k :: 0 <= k < |parts| ==> NoDollar(parts[k])) ==> NoDollar(r)
  {
    if |parts| == 0 then ""
    else
      var r := parts[0] + Join(parts[1..]);
      assert forall j :: |parts[0]| <= j < |r| ==> r[j] == Join(parts[1..])[j - |parts[0]|];
      r
  }

  /** The template with each placeholder replaced by its value. */
  function Fill(ps: seq<Piece>, vars: map<string, string>): string
    requires Bound(ps, vars)
  {
    Join(Values(ps, vars))
  }

  predicate IsName(n: string)
  {
    |n| > 0 && IdStart(n[0]) && forall k :: 0 <= k < |n| ==> IdChar(n[k])
  }

  /** Piece `k` is literal text without `$`, or a placeholder named by an
      identifier and followed by text that cannot be read as more of the
      name. */
  predicate GoodAt(ps: seq<Piece>, k: nat)
    requires k < |ps|
  {
    match ps[k]
    case Chunk(t) => NoDollar(t)
    case Slot(n) =>
      && IsName(n)
      && k + 1 < |ps| && ps[k + 1].Chunk? && |ps[k + 1].text| > 0 && !IdChar(ps[k + 1].text[0])
  }

  predicate WellFormed(ps: seq<Piece>)
  {
    forall k :: 0 <= k < |ps| ==> GoodAt(ps, k)
  }

  lemma WellFormedRest(ps: seq<Piece>, vars: map<string, string>)
    requires |ps| > 0 && WellFormed(ps) && Bound(ps, vars)
    ensures WellFormed(ps[1..]) && Bound(ps[1..], vars)
  {
    forall k | 0 <= k < |ps| - 1 ensures GoodAt(ps[1..], k) {
      assert GoodAt(ps, k + 1);
      assert ps[1..][k] == ps[k + 1];
      if k + 2 < |ps| {
        assert ps[1..][k + 1] == ps[k + 2];
      }
    }
    forall k | 0 <= k < |ps| - 1 && ps[1..][k].Slot? ensures ps[1..][k].name in vars {
      assert ps[1..][k] == ps[k + 1];
    }
  }

  /** Substituting a well-formed template whose placeholders all have values
      gives exactly the filled template. */
  lemma {:induction false} SubstituteFills(ps: seq<Piece>, vars: map<string, string>)
    requires WellFormed(ps) && Bound(ps, vars)
    ensures Substitute(Source(ps), vars) == Filled(Fill(ps, vars))
    decreases |ps|
  {
    if |ps| > 0 {
      WellFormedRest(ps, vars);
      SubstituteFills(ps[1..], vars);
      assert Values(ps, vars)[1..] == Values(ps[1..], vars);
      assert Fill(ps, vars) == Value(ps[0], vars) + Fill(ps[1..], vars);
      assert GoodAt(ps, 0);
      match ps[0]
      case Chunk(t) =>
        PlainPrefix(t, Source(ps[1..]), vars);
      case Slot(n) =>
        var rest := Source(ps[1..]);
        assert GoodAt(ps, 1);
        assert rest == ps[1].text + Source(ps[2..]);
        NamedPlaceholder(n, rest, vars);
        assert "$" + n + rest == Source(ps);
    }
  }

  /** A well-formed template with a placeholder the mapping lacks fails
      with `KeyError` for the first such placeholder. */
  lemma {:induction false} SubstituteMissing(ps: seq<Piece>, vars: map<string, string>, i: nat)
    requires WellFormed(ps) && i < |ps| && ps[i].Slot? && ps[i].name !in vars
    requires forall k :: 0 <= k < i && ps[k].Slot? ==> ps[k].name in vars
    ensures Substitute(Source(ps), vars) == MissingKey(ps[i].name)
    decreases |ps|
  {
    assert WellFormed(ps[1..]) by {
      forall k | 0 <= k < |ps| - 1 ensures GoodAt(ps[1..], k) {
        assert GoodAt(ps, k + 1);
        assert ps[1..][k] == ps[k + 1];
        if k + 2 < |ps| {
          assert ps[1..][k + 1] == ps[k + 2];
        }
      }
    }
    assert GoodAt(ps, 0);
    match ps[0]
    case Chunk(t) =>
      assert ps[1..][i - 1] == ps[i];
      SubstituteMissing(ps[1..], vars, i - 1);
      PlainPrefix(t, Source(ps[1..]), vars);
    case Slot(n) =>
      assert GoodAt(ps, 1);
      var rest := Source(ps[1..]);
      assert rest == ps[1].text + Source(ps[2..]);
      NamedPlaceholder(n, rest, vars);
      assert "$" + n + rest == Source(ps);
      if i > 0 {
        assert ps[1..][i - 1] == ps[i];
        SubstituteMissing(ps[1..], vars, i - 1);
      }
  }

  // ---- HTML_TEMPLATE ----

  // The literal text between the placeholders, in short runs.
  const HeadStart: string :=
    "<!DOCTYPE html>\n"
    + "<html lang=\"ja\">\n"
    + "<head>\n"
    + "    <meta charset=\"UTF-8\">\n"
    + "    <meta name=\"viewport\" "
    + "content=\"width=device-width, "
    + "initial-scale=1.0\">\n"
    + "    <meta property=\"og:title\" "
    + "content=\""
  const AfterTitleMeta: string :=
    "\" />\n"
    + "    <meta property="
    + "\"og:description\" "
    + "content=\""
  const AfterDescriptionMeta: string :=
    "\" />\n"
    + "    <meta property="
    + "\"og:image\" content=\""
  const AfterImageMeta: string :=
    "\" />\n"
    + "    <meta property="
    + "\"og:url\" content=\""
  const AfterUrlMeta: string :=
    "\" />\n"
    + "    <meta name=\"twitter:card\" "
    + "content=\"summary_large_image\" />\n"
    + "    <title>"
  const HeaderTitle: string :=
    "            <h1 class="
    + "\"text-4xl font-bold "
    + "text-gray-800\">"
  const AfterHeaderTitle: string :=
    "</h1>\n"
    + "            <br>\n"
    + "            <p class="
    + "\"text-md text-gray-600\">"
  const AfterHeaderDescription: string :=
    "</p>\n"
    + "        </header>\n"
    + "\n"
    + "        "

  /** `HTML_TEMPLATE` with its line endings read as `\n`. `style` stands for
      the scripts and style sheet from after `<title>` up to the heading of
      the header; `tail` for everything after `$content`. Text and
      placeholders alternate, every placeholder names a key of the mapping,
      and the body comes last, before the tail. */
  function PageTemplate(style: string, tail: string): (ps: seq<Piece>)
    ensures |ps| == 17
    ensures forall k :: 0 <= k < |ps| ==> (ps[k].Slot? <==> k % 2 == 1)
    ensures forall k :: 0 <= k < |ps| && ps[k].Slot? ==>
              ps[k].name in {"title", "description", "og_image", "og_url", "content"}
    ensures forall k :: 0 <= k < |ps| && ps[k] == Slot("content") ==> k == |ps| - 2
    ensures ps[|ps| - 1] == Chunk(tail)
  {
    [ Chunk(HeadStart), Slot("title"),
      Chunk(AfterTitleMeta), Slot("description"),
      Chunk(AfterDescriptionMeta), Slot("og_image"),
      Chunk(AfterImageMeta), Slot("og_url"),
      Chunk(AfterUrlMeta), Slot("title"),
      Chunk("</title>\n" + style + HeaderTitle), Slot("title"),
      Chunk(AfterHeaderTitle), Slot("description"),
      Chunk(AfterHeaderDescription), Slot("content"),
      Chunk(tail) ]
  }

  /** The chrome is plain text: no `$`, and the part after the body cannot
      be read as more of the `content` placeholder. */
  predicate PlainChrome(style: string, tail: string)
  {
    NoDollar(style) && NoDollar(tail) && |tail| > 0 && !IdChar(tail[0])
  }

  /** The mapping passed to `substitute`. */
  function Vars(meta: Meta, body: string): (vars: map<string, string>)
    ensures vars.Keys == {"title", "description", "og_image", "og_url", "content"}
    ensures vars["title"] == meta.title && vars["description"] == meta.description
    ensures vars["og_image"] == meta.ogImage && vars["og_url"] == meta.ogUrl
    ensures vars["content"] == body
  {
    map["title" := meta.title, "description" := meta.description, "og_image" := meta.ogImage,
        "og_url" := meta.ogUrl, "content" := body]
  }

  /** Two texts free of `$` make one. */
  lemma PlainJoin(a: string, b: string)
    requires NoDollar(a) && NoDollar(b)
    ensures NoDollar(a + b)
  {
    assert forall j :: |a| <= j < |a + b| ==> (a + b)[j] == b[j - |a|];
  }

  lemma PlainThen(a: string, b: string) returns (r: string)
    requires NoDollar(a) && NoDollar(b)
    ensures r == a + b && NoDollar(r)
  {
    PlainJoin(a, b);
    r := a + b;
  }

  lemma HeadStartPlain()
    ensures NoDollar(HeadStart)
  {
    var t := "<!DOCTYPE html>\n";
    t := PlainThen(t, "<html lang=\"ja\">\n");
    t := PlainThen(t, "<head>\n");
    t := PlainThen(t, "    <meta charset=\"UTF-8\">\n");
    t := PlainThen(t, "    <meta name=\"viewport\" ");
    t := PlainThen(t, "content=\"width=device-width, ");
    t := PlainThen(t, "initial-scale=1.0\">\n");
    t := PlainThen(t, "    <meta property=\"og:title\" ");
    t := PlainThen(t, "content=\"");
    assert t == HeadStart;
  }

  lemma AfterTitleMetaPlain()
    ensures NoDollar(AfterTitleMeta)
  {
    var t := "\" />\n";
    t := PlainThen(t, "    <meta property=");
    t := PlainThen(t, "\"og:description\" ");
    t := PlainThen(t, "content=\"");
    assert t == AfterTitleMeta;
  }

  lemma AfterDescriptionMetaPlain()
    ensures NoDollar(AfterDescriptionMeta)
  {
    var t := "\" />\n";
    t := PlainThen(t, "    <meta property=");
    t := PlainThen(t, "\"og:image\" content=\"");
    assert t == AfterDescriptionMeta;
  }

  lemma AfterImageMetaPlain()
    ensures NoDollar(AfterImageMeta)
  {
    var t := "\" />\n";
    t := PlainThen(t, "    <meta property=");
    t := PlainThen(t, "\"og:url\" content=\"");
    assert t == AfterImageMeta;
  }

  lemma AfterUrlMetaPlain()
    ensures NoDollar(AfterUrlMeta)
  {
    var t := "\" />\n";
    t := PlainThen(t, "    <meta name=\"twitter:card\" ");
    t := PlainThen(t, "content=\"summary_large_image\" />\n");
    t := PlainThen(t, "    <title>");
    assert t == AfterUrlMeta;
  }

  lemma HeaderTitlePlain()
    ensures NoDollar(HeaderTitle)
  {
    var t := "            <h1 class=";
    t := PlainThen(t, "\"text-4xl font-bold ");
    t := PlainThen(t, "text-gray-800\">");
    assert t == HeaderTitle;
  }

  lemma AfterHeaderTitlePlain()
    ensures NoDollar(AfterHeaderTitle)
  {
    var t := "</h1>\n";
    t := PlainThen(t, "            <br>\n");
    t := PlainThen(t, "            <p class=");
    t := PlainThen(t, "\"text-md text-gray-600\">");
    assert t == AfterHeaderTitle;
  }

  lemma AfterHeaderDescriptionPlain()
    ensures NoDollar(AfterHeaderDescription)
  {
    var t := "</p>\n";
    t := PlainThen(t, "        </header>\n");
    t := PlainThen(t, "\n");
    t := PlainThen(t, "        ");
    assert t == AfterHeaderDescription;
  }

  /** The fixed text of the template holds no `$`. */
  lemma ChunksPlain()
    ensures NoDollar(HeadStart) && NoDollar(AfterTitleMeta)
    ensures NoDollar(AfterDescriptionMeta) && NoDollar(AfterImageMeta)
    ensures NoDollar(AfterUrlMeta) && NoDollar(HeaderTitle)
    ensures NoDollar(AfterHeaderTitle) && NoDollar(AfterHeaderDescription)
  {
    HeadStartPlain();
    AfterTitleMetaPlain();
    AfterDescriptionMetaPlain();
    AfterImageMetaPlain();
    AfterUrlMetaPlain();
    HeaderTitlePlain();
    AfterHeaderTitlePlain();
    AfterHeaderDescriptionPlain();
  }

  /** Each placeholder of the template is followed by a quote or a tag. */
  lemma ChunksOpen(style: string)
    ensures |AfterTitleMeta| > 0 && AfterTitleMeta[0] == '"'
    ensures |AfterDescriptionMeta| > 0 && AfterDescriptionMeta[0] == '"'
    ensures |AfterImageMeta| > 0 && AfterImageMeta[0] == '"'
    ensures |AfterUrlMeta| > 0 && AfterUrlMeta[0] == '"'
    ensures |AfterHeaderTitle| > 0 && AfterHeaderTitle[0] == '<'
    ensures |AfterHeaderDescription| > 0 && AfterHeaderDescription[0] == '<'
    ensures ("</title>\n" + style + HeaderTitle)[0] == '<'
  {
  }

  lemma StylePlain(style: string)
    requires NoDollar(style)
    ensures NoDollar("</title>\n" + style + HeaderTitle)
  {
    HeaderTitlePlain();
    PlainJoin("</title>\n", style);
    PlainJoin("</title>\n" + style, HeaderTitle);
  }

  lemma PageTemplateWellFormed(style: string, tail: string)
    requires PlainChrome(style, tail)
    ensures WellFormed(PageTemplate(style, tail))
  {
    var ps := PageTemplate(style, tail);
    ChunksPlain();
    ChunksOpen(style);
    StylePlain(style);
    assert IsName("title") && IsName("description") && IsName("og_image") && IsName("og_url");
    assert IsName("content");
    forall k | 0 <= k < 17 ensures GoodAt(ps, k) { }
  }

  lemma PageTemplateBound(meta: Meta, body: string, style: string, tail: string)
    ensures Bound(PageTemplate(style, tail), Vars(meta, body))
  {
  }

  /** The page: the template filled with the metadata and the body. */
  function Page(meta: Meta, body: string, style: string, tail: string): (r: string)
    requires PlainChrome(style, tail)
    ensures Substitute(Source(PageTemplate(style, tail)), Vars(meta, body)) == Filled(r)
  {
    PageTemplateWellFormed(style, tail);
    PageTemplateBound(meta, body, style, tail);
    SubstituteFills(PageTemplate(style, tail), Vars(meta, body));
    Fill(PageTemplate(style, tail), Vars(meta, body))
  }

  /** The page shows the title in `og:title`, in `<title>` and in the
      header, the description in `og:description` and under the title, the
      two URLs in their `og:` tags and the body after the header, each
      exactly as given: a `$` in a value is not read as a placeholder. */
  lemma PageLayout(meta: Meta, body: string, style: string, tail: string)
    requires PlainChrome(style, tail)
    ensures Page(meta, body, style, tail)
            == Join([HeadStart, meta.title, AfterTitleMeta, meta.description,
                     AfterDescriptionMeta, meta.ogImage, AfterImageMeta, meta.ogUrl,
                     AfterUrlMeta, meta.title, "</title>\n" + style + HeaderTitle,
                     meta.title, AfterHeaderTitle, meta.description,
                     AfterHeaderDescription, body, tail])
  {
    PageTemplateBound(meta, body, style, tail);
    PageValues(meta, body, style, tail);
  }

  lemma PageValues(meta: Meta, body: string, style: string, tail: string)
    ensures Bound(PageTemplate(style, tail), Vars(meta, body))
    ensures Values(PageTemplate(style, tail), Vars(meta, body))
            == [HeadStart, meta.title, AfterTitleMeta, meta.description,
                AfterDescriptionMeta, meta.ogImage, AfterImageMeta, meta.ogUrl,
                AfterUrlMeta, meta.title, "</title>\n" + style + HeaderTitle,
                meta.title, AfterHeaderTitle, meta.description,
                AfterHeaderDescription, body, tail]
  {
    PageTemplateBound(meta, body, style, tail);
    var vs := Values(PageTemplate(style, tail), Vars(meta, body));
    var want := [HeadStart, meta.title, AfterTitleMeta, meta.description,
                 AfterDescriptionMeta, meta.ogImage, AfterImageMeta, meta.ogUrl,
                 AfterUrlMeta, meta.title, "</title>\n" + style + HeaderTitle,
                 meta.title, AfterHeaderTitle, meta.description,
                 AfterHeaderDescription, body, tail];
    var ps := PageTemplate(style, tail);
    assert ps == [ Chunk(HeadStart), Slot("title"),
      Chunk(AfterTitleMeta), Slot("description"),
      Chunk(AfterDescriptionMeta), Slot("og_image"),
      Chunk(AfterImageMeta), Slot("og_url"),
      Chunk(AfterUrlMeta), Slot("title"),
      Chunk("</title>\n" + style + HeaderTitle), Slot("title"),
      Chunk(AfterHeaderTitle), Slot("description"),
      Chunk(AfterHeaderDescription), Slot("content"),
      Chunk(tail) ];
    forall k | 0 <= k < 9 ensures vs[k] == want[k] { }
    forall k | 9 <= k < 17 ensures vs[k] == want[k] { }
  }

  // ---- convert_content ----

  /** `convert_content(md)` with `today` the converter's date, fixed when
      the converter was built (for the server, at start-up): the page, and
      the output directory with the downloaded media, or None when a media
      source makes `urlparse` raise. */
  function ConvertContent(content: string, today: Date, dir: Dir, fetch: Fetch, markdown: Renderer,
                          word: char -> bool, style: string, tail: string): (r: Option<(string, Dir)>)
    requires ValidDate(today) && PlainChrome(style, tail)
    ensures var md := ConvertMarkdown(content, dir, fetch, markdown, word);
            && (r.None? <==> md.None?)
            && (r.Some? ==> r.value == (Page(GetMetadata(content, today), md.value.0, style, tail), md.value.1))
  {
    PageOf(GetMetadata(content, today), ConvertMarkdown(content, dir, fetch, markdown, word), style, tail)
  }

  /** The page around a converted body, when there is one. */
  function PageOf(meta: Meta, body: Option<(string, Dir)>, style: string, tail: string): (r: Option<(string, Dir)>)
    requires PlainChrome(style, tail)
    ensures r.None? <==> body.None?
    ensures r.Some? ==> r.value == (Page(meta, body.value.0, style, tail), body.value.1)
  {
    match body
    case None => None
    case Some(b) => Some((Page(meta, b.0, style, tail), b.1))
  }

  /** A converted page carries the `#title` line's text, stripped, in
      `og:title`, in `<title>` and in the header (the default title when the
      content has none), the `#description` line's text in `og:description`
      and under the title, the two URLs of the day, and the converted body. */
  lemma ConvertedPageLayout(content: string, today: Date, dir: Dir, fetch: Fetch, markdown: Renderer,
                            word: char -> bool, style: string, tail: string)
    requires ValidDate(today) && PlainChrome(style, tail)
    requires ConvertContent(content, today, dir, fetch, markdown, word, style, tail).Some?
    ensures var title := if Occurs(content, "#title")
                         then Strip(LineAfter(content, Find(content, "#title", 0).value, "#title"))
                         else DefaultTitle;
            var description := if Occurs(content, "#description")
                               then Strip(LineAfter(content, Find(content, "#description", 0).value, "#description"))
                               else DefaultDescription;
            var body := ConvertMarkdown(content, dir, fetch, markdown, word).value.0;
            ConvertContent(content, today, dir, fetch, markdown, word, style, tail).value.0
            == Join([HeadStart, title, AfterTitleMeta, description,
                     AfterDescriptionMeta, CardUrl(today), AfterImageMeta, PageUrl(today),
                     AfterUrlMeta, title, "</title>\n" + style + HeaderTitle,
                     title, AfterHeaderTitle, description,
                     AfterHeaderDescription, body, tail])
  {
    var meta := GetMetadata(content, today);
    PageLayout(meta, ConvertMarkdown(content, dir, fetch, markdown, word).value.0, style, tail);
  }
}
