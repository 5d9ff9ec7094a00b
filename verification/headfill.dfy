/** The head and header `convert_file` fills in, seen as text and the seven
    tags whose contents it replaces. When each of those tags occurs once and
    the text around them holds none of their openers, the title, description
    and date passes replace exactly those contents and keep every other
    character of the page. */
module HeadFill {
  import opened Text
  import opened Scan
  import opened Shapes
  import opened Dates
  import opened Metadata
  import opened Convert
  import Markup

  // ---- the page as text and fields ----

  /** The tags of the page whose contents the converter replaces. */
  datatype HeadTag = OgTitle | Heading | TitleElement | OgDescription | Lead | OgImage | OgUrl

  predicate IsMeta(t: HeadTag)
  {
    t in {OgTitle, OgDescription, OgImage, OgUrl}
  }

  /** The `og:` property of a meta tag. */
  function Property(t: HeadTag): string
  {
    match t
    case OgTitle => "title"
    case OgDescription => "description"
    case OgImage => "image"
    case OgUrl => "url"
    case _ => ""
  }

  function OpenOf(t: HeadTag): (o: string)
    ensures |o| > 0
  {
    match t
    case Heading => TitleHeading
    case TitleElement => "<title>"
    case Lead => LeadOpen
    case _ => MetaOpen(Property(t))
  }

  function CloseOf(t: HeadTag): string
  {
    match t
    case Heading => "</h1>"
    case TitleElement => "</title>"
    case Lead => "</p>"
    case _ => MetaClose
  }

  /** The pattern `convert_file` rewrites the tag with. */
  function Pass(t: HeadTag): (m: Matcher)
    ensures Advances(m) && OpensWith(m, OpenOf(t))
  {
    var o := OpenOf(t);
    if IsMeta(t) then
      assert o == MetaOpen(Property(t));
      MetaPattern(Property(t))
    else
      Span(o, CloseOf(t), false)
  }

  /** A piece of the page: text kept as it is, or one of the tags, whose
      content a pass replaces. */
  datatype Segment = Verbatim(text: string) | Field(tag: HeadTag, content: string)

  function Render(g: Segment): string
  {
    match g
    case Verbatim(t) => t
    case Field(t, x) => OpenOf(t) + x + CloseOf(t)
  }

  function Html(gs: seq<Segment>): string
  {
    if gs == [] then "" else Render(gs[0]) + Html(gs[1..])
  }

  /** The content of the field at `j` replaced by `v`. */
  function Put(gs: seq<Segment>, j: nat, v: string): (r: seq<Segment>)
    ensures |r| == |gs|
    ensures forall k :: 0 <= k < |gs| && k != j ==> r[k] == gs[k]
    ensures j < |gs| && gs[j].Field? ==> r[j] == Field(gs[j].tag, v)
  {
    if j < |gs| && gs[j].Field? then gs[j := Field(gs[j].tag, v)] else gs
  }

  // ---- where an opener can start ----

  predicate AngleFree(x: string)
  {
    forall k :: 0 <= k < |x| ==> x[k] != '<'
  }

  /** A tag opener or closer: `<` first and nowhere else. */
  predicate OneAngle(w: string)
  {
    |w| > 0 && w[0] == '<' && AngleFree(w[1..])
  }

  /** Neither text is a prefix of the other. */
  predicate Apart(a: string, o: string)
  {
    && !(|a| <= |o| && o[..|a|] == a)
    && !(|o| <= |a| && a[..|o|] == o)
  }

  /** A piece of markup in which no occurrence of `o` can start. */
  predicate Unit(w: string, o: string)
  {
    AngleFree(w) || (OneAngle(w) && Apart(w, o))
  }

  /** No occurrence of `o` in `w + rest` starts inside `w`. */
  predicate NoStart(w: string, rest: string, o: string)
  {
    forall k :: 0 <= k < |w| ==> !PrefixAt(w + rest, k, o)
  }

  /** The segment at `k` holds no start of `o`, whatever follows it: text
      without `o` that ends the page or is followed by a tag, or a tag with
      another opener, a closer that cannot start `o`, and content without
      `<`. */
  predicate Harmless(gs: seq<Segment>, k: nat, o: string)
    requires k < |gs|
  {
    match gs[k]
    case Verbatim(t) => !Occurs(t, o) && (k + 1 == |gs| || gs[k + 1].Field?)
    case Field(t, x) => Unit(OpenOf(t), o) && AngleFree(x) && Unit(CloseOf(t), o)
  }

  /** The field at `j` holds the only occurrence of its opener in the
      page. */
  predicate Sole(gs: seq<Segment>, j: nat)
  {
    && j < |gs| && gs[j].Field? && AngleFree(gs[j].content)
    && forall k :: 0 <= k < |gs| && k != j ==> Harmless(gs, k, OpenOf(gs[j].tag))
  }

  /** What the pattern of a tag needs of its content to match the tag
      whole: no `<` and no newline, and no quote inside a meta tag. */
  predicate Fits(t: HeadTag, x: string)
  {
    AngleFree(x) && (if IsMeta(t) then Unquoted(x) else NoNewline(x))
  }

  /** The field at `j` is tag `t`, its pattern matches it whole, and its
      opener occurs nowhere else. */
  predicate Ready(gs: seq<Segment>, j: nat, t: HeadTag)
  {
    Sole(gs, j) && gs[j].tag == t && Fits(t, gs[j].content)
  }

  // ---- the openers and closers ----

  /** Every opener is a tag, and the seven differ in their second character
      or, among the meta tags, in the first letter of the property. */
  lemma OpenShape(t: HeadTag)
    ensures OneAngle(OpenOf(t)) && |OpenOf(t)| > 1
    ensures OpenOf(t)[1] == (match t
                             case Heading => 'h'
                             case TitleElement => 't'
                             case Lead => 'p'
                             case _ => 'm')
    ensures IsMeta(t) ==> |OpenOf(t)| > 19 && OpenOf(t)[19] == Property(t)[0]
  {
    match t
    case Heading => DecoratedShape("h1", "text-4xl font-bold text-gray-800");
    case TitleElement => assert "<title>"[1..] == "title>";
    case Lead => DecoratedShape("p", "text-md text-gray-600");
    case OgTitle => MetaShape("title");
    case OgDescription => MetaShape("description");
    case OgImage => MetaShape("image");
    case OgUrl => MetaShape("url");
  }

  lemma DecoratedShape(name: string, cls: string)
    requires |name| > 0 && AngleFree(name) && AngleFree(cls)
    ensures OneAngle(Markup.Decorated(name, cls)) && Markup.Decorated(name, cls)[1] == name[0]
  {
    Markup.NoAngle(name, "<");
    Markup.NoAngle(cls, "<");
    Markup.DecoratedPlain(name, cls);
    TailFree(Markup.Decorated(name, cls));
  }

  lemma MetaShape(q: string)
    requires |q| > 0 && AngleFree(q)
    ensures OneAngle(MetaOpen(q)) && |MetaOpen(q)| > 19
    ensures MetaOpen(q)[1] == 'm' && MetaOpen(q)[19] == q[0]
  {
    var rest := "meta property=\"og:" + q + "\" content=\"";
    assert MetaOpen(q) == "<" + rest;
    AngleFreeCat("meta property=\"og:", q, "\" content=\"");
    assert MetaOpen(q)[1..] == rest;
  }

  lemma TailFree(w: string)
    requires |w| > 0 && w[0] == '<'
    requires forall j :: 1 <= j < |w| ==> w[j] != '<'
    ensures OneAngle(w)
  {
    assert forall k :: 0 <= k < |w[1..]| ==> w[1..][k] == w[1 + k];
  }

  lemma CloseShape(t: HeadTag)
    ensures IsMeta(t) ==> AngleFree(CloseOf(t))
    ensures !IsMeta(t) ==> OneAngle(CloseOf(t)) && |CloseOf(t)| > 1 && CloseOf(t)[1] == '/'
  {
  }

  /** Two texts that differ at a position both reach are apart. */
  lemma ApartAt(a: string, o: string, d: nat)
    requires d < |a| && d < |o| && a[d] != o[d]
    ensures Apart(a, o)
  {
    if |a| <= |o| { assert o[..|a|][d] == o[d]; }
    if |o| <= |a| { assert a[..|o|][d] == a[d]; }
  }

  lemma OpenersApart(t: HeadTag, u: HeadTag)
    requires t != u
    ensures Apart(OpenOf(t), OpenOf(u))
  {
    OpenShape(t);
    OpenShape(u);
    if OpenOf(t)[1] != OpenOf(u)[1] {
      ApartAt(OpenOf(t), OpenOf(u), 1);
    } else {
      ApartAt(OpenOf(t), OpenOf(u), 19);
    }
  }

  /** No opener can start inside another tag's opener, or inside any
      closer. */
  lemma Units(t: HeadTag, u: HeadTag)
    ensures t != u ==> Unit(OpenOf(t), OpenOf(u))
    ensures Unit(CloseOf(t), OpenOf(u))
  {
    OpenShape(t);
    OpenShape(u);
    CloseShape(t);
    if t != u {
      OpenersApart(t, u);
    }
    if !IsMeta(t) {
      ApartAt(CloseOf(t), OpenOf(u), 1);
    }
  }

  // ---- no opener where none can start ----

  lemma PrefixChar(s: string, k: nat, o: string, d: nat)
    ensures PrefixAt(s, k, o) && d < |o| ==> k + d < |s| && s[k + d] == o[d]
  {
    if PrefixAt(s, k, o) && d < |o| {
      assert s[k..k + |o|][d] == s[k + d];
    }
  }

  /** Past the end of `a`, an occurrence in `a + b` is one in `b`. */
  lemma PrefixShift(a: string, b: string, k: nat, o: string)
    requires |a| <= k
    ensures PrefixAt(a + b, k, o) <==> PrefixAt(b, k - |a|, o)
  {
    if k + |o| <= |a + b| {
      assert (a + b)[k..k + |o|] == b[k - |a|..k - |a| + |o|];
    }
  }

  /** An opener can start inside a tag only at its `<`, and there only if
      one of the two is a prefix of the other. */
  lemma HeadApart(w: string, rest: string, o: string)
    ensures Apart(w, o) ==> !PrefixAt(w + rest, 0, o)
  {
    var s := w + rest;
    if PrefixAt(s, 0, o) {
      if |o| <= |w| {
        assert s[0..|o|] == w[..|o|];
      } else {
        assert s[0..|o|][..|w|] == w;
      }
    }
  }

  lemma UnitNoStart(w: string, rest: string, o: string)
    requires OneAngle(o) && Unit(w, o)
    ensures NoStart(w, rest, o)
  {
    var s := w + rest;
    forall k | 0 <= k < |w| ensures !PrefixAt(s, k, o) {
      PrefixChar(s, k, o, 0);
      if k > 0 {
        assert w[1..][k - 1] == w[k];
      }
      HeadApart(w, rest, o);
    }
  }

  /** Text without `o`, followed by nothing or by a tag: no `o` starts in
      it, since `o` holds no second `<`. */
  lemma TextNoStart(t: string, rest: string, o: string)
    requires OneAngle(o) && !Occurs(t, o)
    requires rest == [] || rest[0] == '<'
    ensures NoStart(t, rest, o)
  {
    var s := t + rest;
    forall k | 0 <= k < |t| ensures !PrefixAt(s, k, o) {
      if k + |o| <= |t| {
        assert s[k..k + |o|] == t[k..k + |o|];
        assert !PrefixAt(t, k, o);
      } else if k + |o| <= |s| {
        var d := |t| - k;
        assert s[k + d] == rest[0];
        assert o[1..][d - 1] == o[d];
        PrefixChar(s, k, o, d);
      }
    }
  }

  lemma NoStartCat(u: string, v: string, rest: string, o: string)
    requires NoStart(u, v + rest, o) && NoStart(v, rest, o)
    ensures NoStart(u + v, rest, o)
  {
    assert (u + v) + rest == u + (v + rest);
    forall k | |u| <= k < |u + v| ensures !PrefixAt(u + (v + rest), k, o) {
      PrefixShift(u, v + rest, k, o);
    }
  }

  lemma TagNoStart(a: string, x: string, c: string, rest: string, o: string)
    requires OneAngle(o) && Unit(a, o) && AngleFree(x) && Unit(c, o)
    ensures NoStart(a + x + c, rest, o)
  {
    UnitNoStart(c, rest, o);
    UnitNoStart(x, c + rest, o);
    NoStartCat(x, c, rest, o);
    UnitNoStart(a, (x + c) + rest, o);
    NoStartCat(a, x + c, rest, o);
    assert a + (x + c) == a + x + c;
  }

  /** A page starting with a field starts with `<`. */
  lemma HtmlStart(gs: seq<Segment>)
    requires gs != [] && gs[0].Field?
    ensures |Html(gs)| > 0 && Html(gs)[0] == '<'
  {
    OpenShape(gs[0].tag);
    assert Render(gs[0])[0] == OpenOf(gs[0].tag)[0];
  }

  lemma HarmlessTail(gs: seq<Segment>, o: string)
    requires gs != []
    requires forall k :: 0 <= k < |gs| ==> Harmless(gs, k, o)
    ensures forall k :: 0 <= k < |gs[1..]| ==> Harmless(gs[1..], k, o)
  {
    forall k | 0 <= k < |gs[1..]| ensures Harmless(gs[1..], k, o) {
      assert Harmless(gs, k + 1, o);
    }
  }

  /** A harmless segment holds no start of `o` when text without `o` is
      followed by nothing or by a tag. */
  lemma SegmentNoStart(g: Segment, after: string, o: string)
    requires OneAngle(o)
    requires g.Verbatim? ==> !Occurs(g.text, o) && (after == [] || after[0] == '<')
    requires g.Field? ==> Unit(OpenOf(g.tag), o) && AngleFree(g.content) && Unit(CloseOf(g.tag), o)
    ensures NoStart(Render(g), after, o)
  {
    match g
    case Verbatim(t) => TextNoStart(t, after, o);
    case Field(t, x) => TagNoStart(OpenOf(t), x, CloseOf(t), after, o);
  }

  /** Where every segment is harmless, no `o` starts in the page. */
  lemma {:induction false} NoStartIn(gs: seq<Segment>, rest: string, o: string)
    requires OneAngle(o)
    requires forall k :: 0 <= k < |gs| ==> Harmless(gs, k, o)
    requires rest == [] || rest[0] == '<'
    ensures NoStart(Html(gs), rest, o)
    decreases |gs|
  {
    if gs != [] {
      var tail := gs[1..];
      HarmlessTail(gs, o);
      NoStartIn(tail, rest, o);
      var b := Html(tail);
      assert Harmless(gs, 0, o);
      if tail == [] {
        assert b + rest == rest;
      } else if tail[0].Field? {
        HtmlStart(tail);
        assert (b + rest)[0] == b[0];
      }
      SegmentNoStart(gs[0], b + rest, o);
      NoStartCat(Render(gs[0]), b, rest, o);
    }
  }

  // ---- the page around one field ----

  lemma {:induction false} HtmlAppend(a: seq<Segment>, b: seq<Segment>)
    ensures Html(a + b) == Html(a) + Html(b)
    decreases |a|
  {
    if a == [] {
      assert a + b == b;
    } else {
      assert (a + b)[0] == a[0] && (a + b)[1..] == a[1..] + b;
      HtmlAppend(a[1..], b);
      AppendAssoc(Render(a[0]), Html(a[1..]), Html(b));
    }
  }

  lemma HtmlAround(gs: seq<Segment>, j: nat)
    requires j < |gs|
    ensures Html(gs) == Html(gs[..j]) + Render(gs[j]) + Html(gs[j + 1..])
  {
    TakeDrop(gs, j);
    HtmlAppend(gs[..j], gs[j..]);
    DropOne(gs, j);
    AppendAssoc(Html(gs[..j]), Render(gs[j]), Html(gs[j + 1..]));
  }

  lemma TakeDrop<T>(xs: seq<T>, j: nat)
    requires j <= |xs|
    ensures xs == xs[..j] + xs[j..]
  {
  }

  lemma DropOne<T>(xs: seq<T>, j: nat)
    requires j < |xs|
    ensures xs[j..] != [] && xs[j..][0] == xs[j] && xs[j..][1..] == xs[j + 1..]
  {
  }

  lemma PrefixMiddle(a: string, r: string, b: string)
    ensures PrefixAt(a + r + b, |a|, r)
  {
    assert (a + r + b)[|a|..|a| + |r|] == r;
  }

  /** An `o` that can start neither before `r`, nor inside it after its
      first character, nor after it, starts only where `r` does. */
  lemma OnlyAt(a: string, r: string, b: string, o: string)
    requires |r| > 0 && |o| > 0
    requires NoStart(a, r + b, o) && NoStart(r[1..], b, o) && NoStart(b, [], o)
    ensures forall k :: 0 <= k <= |a + r + b| && k != |a| ==> !PrefixAt(a + r + b, k, o)
  {
    var s := a + r + b;
    assert s == a + (r + b);
    assert s == (a + r[..1]) + (r[1..] + b);
    assert s == (a + r) + (b + []);
    forall k | 0 <= k <= |s| && k != |a| ensures !PrefixAt(s, k, o) {
      if |a| < k < |a| + |r| {
        PrefixShift(a + r[..1], r[1..] + b, k, o);
      } else if |a| + |r| <= k {
        PrefixShift(a + r, b + [], k, o);
      }
    }
  }

  lemma HarmlessBefore(gs: seq<Segment>, j: nat, o: string)
    requires j <= |gs|
    requires forall k :: 0 <= k < j ==> Harmless(gs, k, o)
    ensures forall k :: 0 <= k < |gs[..j]| ==> Harmless(gs[..j], k, o)
  {
    forall k | 0 <= k < |gs[..j]| ensures Harmless(gs[..j], k, o) {
      assert Harmless(gs, k, o);
    }
  }

  lemma HarmlessFrom(gs: seq<Segment>, n: nat, o: string)
    requires n <= |gs|
    requires forall k :: n <= k < |gs| ==> Harmless(gs, k, o)
    ensures forall k :: 0 <= k < |gs[n..]| ==> Harmless(gs[n..], k, o)
  {
    forall k | 0 <= k < |gs[n..]| ensures Harmless(gs[n..], k, o) {
      assert Harmless(gs, n + k, o);
    }
  }

  /** No opener of the sole field starts before it... */
  lemma SoleBefore(gs: seq<Segment>, j: nat)
    requires Sole(gs, j)
    ensures NoStart(Html(gs[..j]), Render(gs[j]) + Html(gs[j + 1..]), OpenOf(gs[j].tag))
  {
    var o := OpenOf(gs[j].tag);
    OpenShape(gs[j].tag);
    HarmlessBefore(gs, j, o);
    assert (Render(gs[j]) + Html(gs[j + 1..]))[0] == o[0];
    NoStartIn(gs[..j], Render(gs[j]) + Html(gs[j + 1..]), o);
  }

  /** ... nor inside it after its `<` ... */
  lemma SoleInside(gs: seq<Segment>, j: nat)
    requires Sole(gs, j)
    ensures NoStart(Render(gs[j])[1..], Html(gs[j + 1..]), OpenOf(gs[j].tag))
  {
    FieldInside(gs[j].tag, gs[j].content, Html(gs[j + 1..]));
  }

  /** A tag's own opener does not start inside the tag after its `<`, when
      the content holds no `<`. */
  lemma FieldInside(t: HeadTag, x: string, rest: string)
    requires AngleFree(x)
    ensures NoStart(Render(Field(t, x))[1..], rest, OpenOf(t))
  {
    var o := OpenOf(t);
    OpenShape(t);
    Units(t, t);
    assert Render(Field(t, x))[1..] == o[1..] + x + CloseOf(t);
    TagNoStart(o[1..], x, CloseOf(t), rest, o);
  }

  /** ... nor after it. */
  lemma SoleAfter(gs: seq<Segment>, j: nat)
    requires Sole(gs, j)
    ensures NoStart(Html(gs[j + 1..]), [], OpenOf(gs[j].tag))
  {
    var o := OpenOf(gs[j].tag);
    OpenShape(gs[j].tag);
    HarmlessFrom(gs, j + 1, o);
    NoStartIn(gs[j + 1..], [], o);
  }

  /** The sole field's opener starts where the field does, and nowhere
      else. */
  lemma SoleAt(gs: seq<Segment>, j: nat)
    requires Sole(gs, j)
    ensures var s := Html(gs);
            var i := |Html(gs[..j])|;
            && i + |Render(gs[j])| <= |s|
            && PrefixAt(s, i, Render(gs[j]))
            && forall k :: 0 <= k <= |s| && k != i ==> !PrefixAt(s, k, OpenOf(gs[j].tag))
  {
    var a := Html(gs[..j]);
    var r := Render(gs[j]);
    var b := Html(gs[j + 1..]);
    HtmlAround(gs, j);
    PrefixMiddle(a, r, b);
    SoleBefore(gs, j);
    SoleInside(gs, j);
    SoleAfter(gs, j);
    OnlyAt(a, r, b, OpenOf(gs[j].tag));
  }

  // ---- one pass over a sole field ----

  /** When the pattern matches the sole field whole, the splice replaces
      its content and keeps the rest of the page. */
  lemma SoleSplice(m: Matcher, gs: seq<Segment>, j: nat, v: string)
    requires Sole(gs, j) && Advances(m) && OpensWith(m, OpenOf(gs[j].tag))
    requires var i := |Html(gs[..j])|;
             m(Html(gs), i).Some? && m(Html(gs), i).value.end == i + |Render(gs[j])|
    ensures Splice(m, Html(gs), OpenOf(gs[j].tag), v, CloseOf(gs[j].tag)) == Html(Put(gs, j, v))
  {
    var s := Html(gs);
    var t := gs[j].tag;
    var o := OpenOf(t);
    var c := CloseOf(t);
    var i := |Html(gs[..j])|;
    var e := i + |Render(gs[j])|;
    SoleAt(gs, j);
    HtmlAround(gs, j);
    forall k | 0 <= k < i ensures m(s, k).None? {
      assert m(s, k).Some? ==> PrefixAt(s, k, o);
    }
    SpliceFirst(m, s, i, o, v, c);
    forall k | e <= k <= |s| ensures !PrefixAt(s, k, o) {
    }
    SubNoOpener(m, o, s, e, Const(o + v + c));
    var p := Put(gs, j, v);
    HtmlAround(p, j);
    assert p[..j] == gs[..j] && p[j + 1..] == gs[j + 1..];
    assert s[..i] == Html(gs[..j]) && s[e..] == Html(gs[j + 1..]);
  }

  /** Segment `j` is rendered right after the ones before it. */
  lemma SegmentAt(gs: seq<Segment>, j: nat)
    requires j < |gs|
    ensures PrefixAt(Html(gs), |Html(gs[..j])|, Render(gs[j]))
  {
    HtmlAround(gs, j);
    PrefixMiddle(Html(gs[..j]), Render(gs[j]), Html(gs[j + 1..]));
  }

  /** A field rendered at `i`, with fitting content: the pattern of its tag
      matches it whole and captures the content. */
  lemma SegmentMatch(g: Segment, s: string, i: nat)
    requires g.Field? && Fits(g.tag, g.content) && PrefixAt(s, i, Render(g))
    ensures Pass(g.tag)(s, i) == Some(Match(i + |Render(g)|, g.content, ""))
  {
    TagMatch(g.tag, OpenOf(g.tag), g.content, CloseOf(g.tag), s, i);
  }

  /** The tag written out at `i`, with fitting content: its pattern matches
      it whole and captures the content. */
  lemma TagMatch(t: HeadTag, o: string, x: string, c: string, s: string, i: nat)
    requires o == OpenOf(t) && c == CloseOf(t)
    requires PrefixAt(s, i, o + x + c) && Fits(t, x)
    ensures Pass(t)(s, i) == Some(Match(i + |o + x + c|, x, ""))
  {
    if IsMeta(t) {
      MetaTagMatch(t, o, x, c, s, i);
    } else {
      SpanTagMatch(t, o, x, c, s, i);
    }
  }

  lemma MetaTagMatch(t: HeadTag, o: string, x: string, c: string, s: string, i: nat)
    requires IsMeta(t) && o == OpenOf(t) && c == CloseOf(t)
    requires PrefixAt(s, i, o + x + c) && Unquoted(x)
    ensures Pass(t)(s, i) == Some(Match(i + |o + x + c|, x, ""))
  {
    PassMetaAt(t, s, i);
    MetaClosed(t);
    MetaWhole(Pass(t), o, x, c, s, i);
  }

  /** A matcher that runs the `og:` pattern for opener `o` at `i`, where the
      tag is written out with quote- and newline-free content: it matches the
      tag whole. */
  lemma MetaWhole(m: Matcher, o: string, x: string, c: string, s: string, i: nat)
    requires m(s, i) == MetaContentAt(o, s, i)
    requires c == MetaClose && PrefixAt(s, i, o + x + c) && Unquoted(x)
    ensures m(s, i) == Some(Match(i + |o + x + c|, x, ""))
  {
    MetaContentMatch(o, s, i, x);
  }

  lemma SpanTagMatch(t: HeadTag, o: string, x: string, c: string, s: string, i: nat)
    requires !IsMeta(t) && o == OpenOf(t) && c == CloseOf(t)
    requires PrefixAt(s, i, o + x + c) && AngleFree(x) && NoNewline(x)
    ensures Pass(t)(s, i) == Some(Match(i + |o + x + c|, x, ""))
  {
    PassSpan(t);
    SpanFieldMatch(o, x, c, s, i);
  }

  lemma PassMetaAt(t: HeadTag, s: string, i: nat)
    requires IsMeta(t)
    ensures Pass(t)(s, i) == MetaContentAt(OpenOf(t), s, i)
  {
    assert Pass(t) == MetaPattern(Property(t));
  }

  lemma MetaClosed(t: HeadTag)
    requires IsMeta(t)
    ensures CloseOf(t) == MetaClose
  {
  }

  lemma PassSpan(t: HeadTag)
    requires !IsMeta(t)
    ensures Pass(t) == Span(OpenOf(t), CloseOf(t), false)
    ensures |CloseOf(t)| > 0 && CloseOf(t)[0] == '<'
  {
    CloseShape(t);
  }

  lemma SpanFieldMatch(o: string, x: string, c: string, s: string, i: nat)
    requires PrefixAt(s, i, o + x + c) && AngleFree(x) && NoNewline(x)
    requires |o| > 0 && |c| > 0 && c[0] == '<'
    ensures Span(o, c, false)(s, i) == Some(Match(i + |o + x + c|, x, ""))
  {
    var a := i + |o|;
    var e := a + |x|;
    PrefixCat(s, i, o + x, c);
    PrefixCat(s, i, o, x);
    assert s[a..e] == x;
    forall k | a <= k < e ensures !PrefixAt(s, k, c) && s[k] != '\n' {
      assert s[k] == x[k - a];
      PrefixChar(s, k, c, 0);
    }
    SpanMatch(o, c, false, s, i, e);
    assert Span(o, c, false)(s, i) == SpanAt(o, c, false, s, i);
  }

  /** One pass of a ready field: its content becomes `v`, nothing else
      changes. */
  lemma PassFills(gs: seq<Segment>, j: nat, t: HeadTag, v: string)
    requires Ready(gs, j, t)
    ensures Step(t, v, Html(gs)) == Html(Put(gs, j, v))
  {
    SegmentAt(gs, j);
    SegmentMatch(gs[j], Html(gs), |Html(gs[..j])|);
    SoleSplice(Pass(t), gs, j, v);
  }

  /** Filling another field with text free of `<` leaves a field ready. */
  lemma ReadyPut(gs: seq<Segment>, j: nat, t: HeadTag, i: nat, v: string)
    requires Ready(gs, j, t) && i != j && AngleFree(v)
    ensures Ready(Put(gs, i, v), j, t)
  {
    var p := Put(gs, i, v);
    forall k | 0 <= k < |p| && k != j ensures Harmless(p, k, OpenOf(t)) {
      assert Harmless(gs, k, OpenOf(t));
    }
  }

  /** One pass of the tag's pattern, its content replaced by `v`. */
  function Step(t: HeadTag, v: string, html: string): string
  {
    Splice(Pass(t), html, OpenOf(t), v, CloseOf(t))
  }

  lemma MetaStep(q: string, t: HeadTag, v: string, html: string)
    requires IsMeta(t) && q == Property(t)
    ensures SetMeta(q, v, html) == Step(t, v, html)
  {
    assert Pass(t) == MetaPattern(q);
  }

  lemma SpanStep(t: HeadTag, o: string, c: string, v: string, html: string)
    requires !IsMeta(t) && o == OpenOf(t) && c == CloseOf(t)
    ensures Splice(Span(o, c, false), html, o, v, c) == Step(t, v, html)
  {
    assert Pass(t) == Span(o, c, false);
  }

  /** A meta tag's pass, as `convert_file` writes it, over a ready field. */
  lemma MetaFills(gs: seq<Segment>, j: nat, t: HeadTag, q: string, v: string)
    requires Ready(gs, j, t) && IsMeta(t) && q == Property(t)
    ensures SetMeta(q, v, Html(gs)) == Html(Put(gs, j, v))
  {
    PassFills(gs, j, t, v);
    MetaStep(q, t, v, Html(gs));
  }

  /** A one-line span's pass, as `convert_file` writes it, over a ready
      field. */
  lemma SpanFills(gs: seq<Segment>, j: nat, t: HeadTag, o: string, c: string, v: string)
    requires Ready(gs, j, t) && !IsMeta(t) && o == OpenOf(t) && c == CloseOf(t)
    ensures Splice(Span(o, c, false), Html(gs), o, v, c) == Html(Put(gs, j, v))
  {
    PassFills(gs, j, t, v);
    SpanStep(t, o, c, v, Html(gs));
  }

  // ---- the three replacements ----

  /** `#title`: the `og:title` content, the heading and the `<title>`
      element all become the title, and nothing else changes, provided the
      title holds no `<`. */
  lemma TitleFills(title: string, gs: seq<Segment>, a: nat, b: nat, c: nat)
    requires Ready(gs, a, OgTitle) && Ready(gs, b, Heading) && Ready(gs, c, TitleElement)
    requires AngleFree(title)
    ensures SetTitle(title, Html(gs)) == Html(Put(Put(Put(gs, a, title), b, title), c, title))
  {
    var g1 := Put(gs, a, title);
    var g2 := Put(g1, b, title);
    MetaFills(gs, a, OgTitle, "title", title);
    ReadyPut(gs, b, Heading, a, title);
    SpanFills(g1, b, Heading, TitleHeading, "</h1>", title);
    ReadyPut(gs, c, TitleElement, a, title);
    ReadyPut(g1, c, TitleElement, b, title);
    SpanFills(g2, c, TitleElement, "<title>", "</title>", title);
  }

  /** `#description`: the `og:description` content and the lead paragraph
      become the description, and nothing else changes. */
  lemma DescriptionFills(description: string, gs: seq<Segment>, a: nat, b: nat)
    requires Ready(gs, a, OgDescription) && Ready(gs, b, Lead)
    requires AngleFree(description)
    ensures SetDescription(description, Html(gs)) == Html(Put(Put(gs, a, description), b, description))
  {
    MetaFills(gs, a, OgDescription, "description", description);
    LeadAfterMeta(gs, a, b, description);
  }

  /** The lead paragraph's pass after the `og:description` one. */
  lemma LeadAfterMeta(gs: seq<Segment>, a: nat, b: nat, description: string)
    requires Ready(gs, a, OgDescription) && Ready(gs, b, Lead) && AngleFree(description)
    ensures Splice(Span(LeadOpen, "</p>", false), Html(Put(gs, a, description)), LeadOpen, description, "</p>")
            == Html(Put(Put(gs, a, description), b, description))
  {
    ReadyPut(gs, b, Lead, a, description);
    SpanFills(Put(gs, a, description), b, Lead, LeadOpen, "</p>", description);
  }

  lemma UrlsAngleFree(d: Date)
    requires ValidDate(d)
    ensures AngleFree(CardUrl(d)) && AngleFree(PageUrl(d))
  {
    var f := FormatDate(d);
    assert AngleFree(f);
    assert AngleFree(CardPrefix) && AngleFree(CardSuffix);
    assert AngleFree(PagePrefix) && AngleFree(PageSuffix);
    AngleFreeCat(CardPrefix, f, CardSuffix);
    AngleFreeCat(PagePrefix, f, PageSuffix);
    assert CardUrl(d) == CardPrefix + f + CardSuffix;
    assert PageUrl(d) == PagePrefix + f + PageSuffix;
  }

  lemma AngleFreeCat(a: string, b: string, c: string)
    requires AngleFree(a) && AngleFree(b) && AngleFree(c)
    ensures AngleFree(a + b + c)
  {
  }

  /** The date: `og:image` carries the day's card and `og:url` the day's
      page, and nothing else changes. */
  lemma DatesFill(gs: seq<Segment>, a: nat, b: nat, today: Date)
    requires Ready(gs, a, OgImage) && Ready(gs, b, OgUrl) && ValidDate(today)
    ensures SetDates(Html(gs), today) == Html(Put(Put(gs, a, CardUrl(today)), b, PageUrl(today)))
  {
    UrlsAngleFree(today);
    DatesPair(gs, a, b, CardUrl(today), PageUrl(today));
  }

  /** The two dated passes with any two values free of `<`. */
  lemma DatesPair(gs: seq<Segment>, a: nat, b: nat, card: string, page: string)
    requires Ready(gs, a, OgImage) && Ready(gs, b, OgUrl) && AngleFree(card)
    ensures SetMeta("url", page, SetMeta("image", card, Html(gs))) == Html(Put(Put(gs, a, card), b, page))
  {
    MetaFills(gs, a, OgImage, "image", card);
    UrlAfterImage(gs, a, b, card, page);
  }

  /** The `og:url` pass after the `og:image` one. */
  lemma UrlAfterImage(gs: seq<Segment>, a: nat, b: nat, card: string, page: string)
    requires Ready(gs, a, OgImage) && Ready(gs, b, OgUrl) && AngleFree(card)
    ensures SetMeta("url", page, Html(Put(gs, a, card))) == Html(Put(Put(gs, a, card), b, page))
  {
    ReadyPut(gs, b, OgUrl, a, card);
    MetaFills(Put(gs, a, card), b, OgUrl, "url", page);
  }

  // ---- the whole head ----

  /** Where the seven tags sit in the page. */
  datatype HeadTags = HeadTags(ogTitle: nat, heading: nat, title: nat, ogDescription: nat,
                               lead: nat, ogImage: nat, ogUrl: nat)

  function At(h: HeadTags, t: HeadTag): nat
  {
    match t
    case OgTitle => h.ogTitle
    case Heading => h.heading
    case TitleElement => h.title
    case OgDescription => h.ogDescription
    case Lead => h.lead
    case OgImage => h.ogImage
    case OgUrl => h.ogUrl
  }

  /** Text in which none of the seven openers occurs. */
  predicate Clean(x: string)
  {
    forall t: HeadTag :: !Occurs(x, OpenOf(t))
  }

  /** The page as the template lays it out: each of the seven tags once, at
      its place, with content its pattern matches whole, and between them
      text that holds none of their openers. */
  predicate Layout(gs: seq<Segment>, h: HeadTags)
  {
    && (forall t: HeadTag ::
          At(h, t) < |gs| && gs[At(h, t)].Field? && gs[At(h, t)].tag == t && Fits(t, gs[At(h, t)].content))
    && (forall k :: 0 <= k < |gs| && gs[k].Field? ==> k == At(h, gs[k].tag))
    && (forall k :: 0 <= k < |gs| && gs[k].Verbatim? ==> Clean(gs[k].text) && (k + 1 == |gs| || gs[k + 1].Field?))
  }

  /** Every tag of `ts` is ready at its place. */
  predicate ReadyAll(gs: seq<Segment>, h: HeadTags, ts: set<HeadTag>)
  {
    forall t :: t in ts ==> Ready(gs, At(h, t), t)
  }

  const TitleTags: set<HeadTag> := {OgTitle, Heading, TitleElement}
  const DescriptionTags: set<HeadTag> := {OgDescription, Lead}
  const DateTags: set<HeadTag> := {OgImage, OgUrl}

  /** In a page laid out as the template is, each tag is ready. */
  lemma LayoutReady(gs: seq<Segment>, h: HeadTags, t: HeadTag)
    requires Layout(gs, h)
    ensures Ready(gs, At(h, t), t)
  {
    var j := At(h, t);
    var o := OpenOf(t);
    forall k | 0 <= k < |gs| && k != j ensures Harmless(gs, k, o) {
      match gs[k]
      case Verbatim(x) =>
        assert Clean(x);
        assert !Occurs(x, o);
      case Field(u, x) =>
        assert k == At(h, u);
        Units(u, t);
        assert Fits(u, gs[At(h, u)].content);
    }
  }

  lemma LayoutAllReady(gs: seq<Segment>, h: HeadTags)
    requires Layout(gs, h)
    ensures ReadyAll(gs, h, TitleTags + DescriptionTags + DateTags)
  {
    forall t | t in TitleTags + DescriptionTags + DateTags ensures Ready(gs, At(h, t), t) {
      LayoutReady(gs, h, t);
    }
  }

  /** Filling a tag outside `ts` keeps every tag of `ts` ready. */
  lemma ReadyKept(gs: seq<Segment>, h: HeadTags, ts: set<HeadTag>, i: nat, v: string)
    requires ReadyAll(gs, h, ts) && i < |gs| && gs[i].Field? && gs[i].tag !in ts && AngleFree(v)
    ensures ReadyAll(Put(gs, i, v), h, ts)
  {
    forall t | t in ts ensures Ready(Put(gs, i, v), At(h, t), t) {
      ReadyPut(gs, At(h, t), t, i, v);
    }
  }

  /** The page once the title, if there is one, is in its three places. */
  function FillTitle(gs: seq<Segment>, h: HeadTags, title: Option<string>): seq<Segment>
  {
    match title
    case None => gs
    case Some(v) => Put(Put(Put(gs, h.ogTitle, v), h.heading, v), h.title, v)
  }

  /** The page once the description, if there is one, is in its two
      places. */
  function FillDescription(gs: seq<Segment>, h: HeadTags, description: Option<string>): seq<Segment>
  {
    match description
    case None => gs
    case Some(v) => Put(Put(gs, h.ogDescription, v), h.lead, v)
  }

  function FillDates(gs: seq<Segment>, h: HeadTags, today: Date): seq<Segment>
    requires ValidDate(today)
  {
    Put(Put(gs, h.ogImage, CardUrl(today)), h.ogUrl, PageUrl(today))
  }

  predicate AngleFreeValue(v: Option<string>)
  {
    v.Some? ==> AngleFree(v.value)
  }

  /** A title with no `<` goes into the three title tags. */
  lemma TitlePage(gs: seq<Segment>, h: HeadTags, v: string)
    requires Ready(gs, h.ogTitle, OgTitle) && Ready(gs, h.heading, Heading) && Ready(gs, h.title, TitleElement)
    requires AngleFree(v)
    ensures SetTitle(v, Html(gs)) == Html(FillTitle(gs, h, Some(v)))
  {
    TitleFills(v, gs, h.ogTitle, h.heading, h.title);
  }

  /** Filling the title tags leaves the other four ready. */
  lemma TitleKept(gs: seq<Segment>, h: HeadTags, v: string)
    requires ReadyAll(gs, h, TitleTags + DescriptionTags + DateTags) && AngleFree(v)
    ensures ReadyAll(FillTitle(gs, h, Some(v)), h, DescriptionTags + DateTags)
  {
    var ts := DescriptionTags + DateTags;
    assert ReadyAll(gs, h, ts);
    assert Ready(gs, h.ogTitle, OgTitle) && Ready(gs, h.heading, Heading) && Ready(gs, h.title, TitleElement);
    var g1 := Put(gs, h.ogTitle, v);
    ReadyKept(gs, h, ts, h.ogTitle, v);
    var g2 := Put(g1, h.heading, v);
    ReadyKept(g1, h, ts, h.heading, v);
    ReadyKept(g2, h, ts, h.title, v);
  }

  /** A description with no `<` goes into the two description tags. */
  lemma DescriptionPage(gs: seq<Segment>, h: HeadTags, v: string)
    requires Ready(gs, h.ogDescription, OgDescription) && Ready(gs, h.lead, Lead) && AngleFree(v)
    ensures SetDescription(v, Html(gs)) == Html(FillDescription(gs, h, Some(v)))
  {
    DescriptionFills(v, gs, h.ogDescription, h.lead);
  }

  /** Filling the description tags leaves the dated ones ready. */
  lemma DescriptionKept(gs: seq<Segment>, h: HeadTags, v: string)
    requires ReadyAll(gs, h, DescriptionTags + DateTags) && AngleFree(v)
    ensures ReadyAll(FillDescription(gs, h, Some(v)), h, DateTags)
  {
    assert ReadyAll(gs, h, DateTags);
    assert Ready(gs, h.ogDescription, OgDescription) && Ready(gs, h.lead, Lead);
    ReadyKept(gs, h, DateTags, h.ogDescription, v);
    ReadyKept(Put(gs, h.ogDescription, v), h, DateTags, h.lead, v);
  }

  /** The title step fills the three title tags and leaves the others
      ready. */
  lemma TitleStepFills(gs: seq<Segment>, h: HeadTags, content: string)
    requires ReadyAll(gs, h, TitleTags + DescriptionTags + DateTags)
    requires AngleFreeValue(RawDirective(content, "#title"))
    ensures TitleStep(Html(gs), content).0 == Html(FillTitle(gs, h, RawDirective(content, "#title")))
    ensures ReadyAll(FillTitle(gs, h, RawDirective(content, "#title")), h, DescriptionTags + DateTags)
  {
    match RawDirective(content, "#title")
    case None =>
      assert ReadyAll(gs, h, DescriptionTags + DateTags);
    case Some(v) =>
      assert Ready(gs, h.ogTitle, OgTitle) && Ready(gs, h.heading, Heading) && Ready(gs, h.title, TitleElement);
      TitlePage(gs, h, v);
      TitleKept(gs, h, v);
  }

  /** The description step fills the two description tags and leaves the
      dated ones ready. */
  lemma DescriptionStepFills(gs: seq<Segment>, h: HeadTags, content: string)
    requires ReadyAll(gs, h, DescriptionTags + DateTags)
    requires AngleFreeValue(RawDirective(content, "#description"))
    ensures DescriptionStep(Html(gs), content).0
            == Html(FillDescription(gs, h, RawDirective(content, "#description")))
    ensures ReadyAll(FillDescription(gs, h, RawDirective(content, "#description")), h, DateTags)
  {
    match RawDirective(content, "#description")
    case None =>
      assert ReadyAll(gs, h, DateTags);
    case Some(v) =>
      assert Ready(gs, h.ogDescription, OgDescription) && Ready(gs, h.lead, Lead);
      DescriptionPage(gs, h, v);
      DescriptionKept(gs, h, v);
  }

  /** Everything `convert_file` does to a page laid out as the template is,
      directives or not: the title, if the document has one, in its three
      places, then the description, if it has one, in its two, then the
      day's card and page in `og:image` and `og:url`; every other character
      of the page is kept. It holds whenever the values hold no `<`. */
  lemma HeadFilled(gs: seq<Segment>, h: HeadTags, content: string, today: Date)
    requires Layout(gs, h) && ValidDate(today)
    requires AngleFreeValue(RawDirective(content, "#title"))
    requires AngleFreeValue(RawDirective(TitleStep(Html(gs), content).1, "#description"))
    ensures var title := RawDirective(content, "#title");
            var description := RawDirective(TitleStep(Html(gs), content).1, "#description");
            Head(Html(gs), content, today).0
            == Html(FillDates(FillDescription(FillTitle(gs, h, title), h, description), h, today))
  {
    var title := RawDirective(content, "#title");
    var c1 := TitleStep(Html(gs), content).1;
    var description := RawDirective(c1, "#description");
    LayoutAllReady(gs, h);
    TitleStepFills(gs, h, content);
    var g1 := FillTitle(gs, h, title);
    DescriptionStepFills(g1, h, c1);
    var g2 := FillDescription(g1, h, description);
    assert Ready(g2, h.ogImage, OgImage) && Ready(g2, h.ogUrl, OgUrl);
    DatesFill(g2, h.ogImage, h.ogUrl, today);
  }

  /** The seven tags side by side, one after another, form a page laid out
      as the template is; so `HeadFilled` speaks of real pages. */
  lemma SevenTagsLaidOut(x: string)
    requires AngleFree(x) && Unquoted(x) && NoNewline(x)
    ensures Layout([Field(OgTitle, x), Field(Heading, x), Field(TitleElement, x), Field(OgDescription, x),
                    Field(Lead, x), Field(OgImage, x), Field(OgUrl, x)], HeadTags(0, 1, 2, 3, 4, 5, 6))
  {
    var gs := [Field(OgTitle, x), Field(Heading, x), Field(TitleElement, x), Field(OgDescription, x),
               Field(Lead, x), Field(OgImage, x), Field(OgUrl, x)];
    var h := HeadTags(0, 1, 2, 3, 4, 5, 6);
    forall t: HeadTag ensures At(h, t) < |gs| && gs[At(h, t)] == Field(t, x) && Fits(t, x) {
      match t
      case OgTitle => case Heading => case TitleElement => case OgDescription =>
      case Lead => case OgImage => case OgUrl =>
    }
    forall k | 0 <= k < |gs| ensures gs[k].Field? && k == At(h, gs[k].tag) {
      if k == 0 {} else if k == 1 {} else if k == 2 {} else if k == 3 {}
      else if k == 4 {} else if k == 5 {} else {}
    }
  }
}
