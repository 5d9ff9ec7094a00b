/** `ContentConverter.get_metadata`: the page title and description taken
    from the `#title` and `#description` directive lines, and the share-card
    and page URLs taken from the conversion date. */
module Metadata {
  import opened Text
  import opened Scan
  import opened Shapes
  import opened Dates

  const BaseUrl: string := "https://mizuame.works/blog"
  const DefaultTitle: string := "ここはタイトルです。"
  const DefaultDescription: string := "ここは一言コメントです。"
  const CardPrefix: string := BaseUrl + "/Card/Card_"
  const CardSuffix: string := ".png"
  const PagePrefix: string := BaseUrl + "/"
  const PageSuffix: string := "/index.html"

  datatype Meta = Meta(title: string, description: string, ogImage: string, ogUrl: string)

  /** The share-card image of the day: the date can be read back from it. */
  function CardUrl(d: Date): (u: string)
    requires ValidDate(d)
    ensures |u| == |CardPrefix| + 10 + |CardSuffix|
    ensures u[..|CardPrefix|] == CardPrefix && u[|CardPrefix| + 10..] == CardSuffix
    ensures ParseDate(u[|CardPrefix|..|CardPrefix| + 10]) == Some(d)
  {
    var f := FormatDate(d);
    var u := CardPrefix + f + CardSuffix;
    assert u[|CardPrefix|..|CardPrefix| + 10] == f;
    ParseFormat(d);
    u
  }

  /** The canonical URL of the day's page: the date can be read back from it. */
  function PageUrl(d: Date): (u: string)
    requires ValidDate(d)
    ensures |u| == |PagePrefix| + 10 + |PageSuffix|
    ensures u[..|PagePrefix|] == PagePrefix && u[|PagePrefix| + 10..] == PageSuffix
    ensures ParseDate(u[|PagePrefix|..|PagePrefix| + 10]) == Some(d)
  {
    var f := FormatDate(d);
    var u := PagePrefix + f + PageSuffix;
    assert u[|PagePrefix|..|PagePrefix| + 10] == f;
    ParseFormat(d);
    u
  }

  /** What `name\s*(.*)` captures at an occurrence `i` of `name`: after the
      whitespace that follows the name (newlines included), the rest of that
      line. */
  function LineAfter(s: string, i: nat, name: string): (r: string)
    requires PrefixAt(s, i, name)
    ensures |r| <= |s|
    ensures forall k :: 0 <= k < |r| ==> r[k] != '\n'
  {
    var b := SkipSpace(s, i + |name|);
    var e := LineLimit(s, b, false);
    assert forall k :: 0 <= k < e - b ==> s[b..e][k] == s[b + k];
    s[b..e]
  }

  /** The stripped value of the first `name` directive (`re.search(name +
      r'\s*(.*)', content)`), if there is one: there is exactly when the name
      occurs. */
  function Directive(content: string, name: string): (r: Option<string>)
    requires |name| > 0
    ensures r.None? <==> !Occurs(content, name)
  {
    RestOfLineFind(name, content);
    FindOccurs(content, name);
    var r := Search(RestOfLine(name), content);
    if r.None? then None else Some(Strip(r.value.1.g1))
  }

  /** The group `(.*)` of the first match is the line after the name. */
  lemma GroupIsLineAfter(s: string, name: string)
    requires |name| > 0 && Find(s, name, 0).Some?
    ensures Search(RestOfLine(name), s).Some?
    ensures Search(RestOfLine(name), s).value.1.g1 == LineAfter(s, Find(s, name, 0).value, name)
  {
    RestOfLineFirst(name, s);
  }

  /** The directive's value is the line after the first occurrence of its
      name, stripped. */
  lemma DirectiveValue(content: string, name: string)
    requires |name| > 0
    ensures Occurs(content, name) <==> Find(content, name, 0).Some?
    ensures Occurs(content, name) ==>
              Directive(content, name)
              == Some(Strip(LineAfter(content, Find(content, name, 0).value, name)))
  {
    FindOccurs(content, name);
    if Occurs(content, name) {
      GroupIsLineAfter(content, name);
    }
  }

  /** `get_metadata(content)`, with `today` the date the converter was
      built with. */
  function GetMetadata(content: string, today: Date): (m: Meta)
    requires ValidDate(today)
    ensures !Occurs(content, "#title") ==> m.title == DefaultTitle
    ensures Occurs(content, "#title")
            ==> m.title == Strip(LineAfter(content, Find(content, "#title", 0).value, "#title"))
    ensures !Occurs(content, "#description") ==> m.description == DefaultDescription
    ensures Occurs(content, "#description")
            ==> m.description == Strip(LineAfter(content, Find(content, "#description", 0).value, "#description"))
    ensures m.ogImage == CardUrl(today) && m.ogUrl == PageUrl(today)
  {
    var title := match Directive(content, "#title")
                 case None => DefaultTitle
                 case Some(t) => t;
    var description := match Directive(content, "#description")
                       case None => DefaultDescription
                       case Some(t) => t;
    DirectiveValue(content, "#title");
    DirectiveValue(content, "#description");
    Meta(title, description, CardUrl(today), PageUrl(today))
  }

  /** The two URLs depend on the date alone, and different dates give
      different URLs. */
  lemma UrlsDependOnDateOnly(c1: string, c2: string, d1: Date, d2: Date)
    requires ValidDate(d1) && ValidDate(d2)
    ensures GetMetadata(c1, d1).ogImage == GetMetadata(c2, d2).ogImage <==> d1 == d2
    ensures GetMetadata(c1, d1).ogUrl == GetMetadata(c2, d2).ogUrl <==> d1 == d2
  {
    var m1 := GetMetadata(c1, d1);
    var m2 := GetMetadata(c2, d2);
    if m1.ogImage == m2.ogImage {
      assert m1.ogImage[|CardPrefix|..|CardPrefix| + 10] == m2.ogImage[|CardPrefix|..|CardPrefix| + 10];
    }
    if m1.ogUrl == m2.ogUrl {
      assert m1.ogUrl[|PagePrefix|..|PagePrefix| + 10] == m2.ogUrl[|PagePrefix|..|PagePrefix| + 10];
    }
  }

  /** A title is never padded with whitespace, and a directive whose line is
      blank yields the empty title rather than the default. */
  lemma TitleTrimmed(content: string, today: Date)
    requires ValidDate(today)
    ensures var t := GetMetadata(content, today).title;
            t == [] || (!IsSpace(t[0]) && !IsSpace(t[|t| - 1]))
  {
    if !Occurs(content, "#title") {
      DefaultTitleTrimmed();
    }
  }

  lemma DefaultTitleTrimmed()
    ensures DefaultTitle != [] && !IsSpace(DefaultTitle[0]) && !IsSpace(DefaultTitle[|DefaultTitle| - 1])
  {
    assert DefaultTitle[0] == 'こ' && DefaultTitle[|DefaultTitle| - 1] == '。';
  }
}
