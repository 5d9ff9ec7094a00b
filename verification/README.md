# mbs_converter in Dafny

A model of the two converters of the blog tool `mbs_converter`, with proofs
about them.

- `ContentConverter` (app.py) takes a Markdown post and makes the page. It:
  - reads the `#title` and `#description` directives;
  - downloads remote images into the output directory under collision-free
    names;
  - renders the Markdown;
  - decorates the HTML with the site's Tailwind classes, copy buttons,
    video players and heading ids;
  - fills `HTML_TEMPLATE`.
- `convert_file` (convert.py) handles an `.mbs` document. It writes the
  directives into an existing page's head, dates the share tags, rewrites
  the document's block markup (`#h2(...)`, `#text`, `<a>text<:>url<a>`,
  `#img`, `#code`, `#strong`), and puts the result where the page's
  `<here>...</here>` span was.

Every regular expression the two files use is modelled as an exact
backtracking matcher. Module Shapes holds the patterns; module Scan holds the
engine behind `re.search` and `re.sub`. The modelled behaviour is:

- a lazy group tries the shortest run first;
- a greedy whitespace run tries the longest first;
- `.` stops at a newline unless DOTALL is set;
- `\s` is Python's `str.isspace`.

Each `re.sub` pass is modelled on the pattern the source gives it. Its
contracts say three things:

- what the first match becomes;
- that text without the pass's opener comes back unchanged;
- what the rewritten pieces consist of.

Modules, in dependency order:

| module | file | models |
|---|---|---|
| Text | text.dfy | `str.find`, `str.replace`, `strip`, `lower`, `str(int)` |
| Scan | scan.dfy | `re.search` / `re.sub` over any matcher; lazy and greedy runs |
| Shapes | shapes.dfy | the pattern shapes of both files and their facts |
| Dates | dates.dfy | `strftime("%Y-%m-%d")` |
| Slug | slug.dfy | `slugify` |
| Headings | headings.dfy | `add_ids_to_headings` |
| Escapes | escapes.dfy | how `re.sub` reads a replacement string |
| Metadata | metadata.dfy | `get_metadata` |
| Urls | urls.dfy | `urlparse`, `os.path.basename`, `os.path.splitext` |
| Media | media.dfy | `download_media` |
| Markup | markup.dfy | `convert_markdown`: directive removal and the decoration passes |
| Blocks | blocks.dfy | the block-markup passes of `convert_file` |
| Pages | page.dfy | `string.Template.substitute`, `HTML_TEMPLATE`, `convert_content` |
| Convert | convert.dfy | `convert_file` |
| HeadFill | headfill.dfy | the page `convert_file` writes into, as text around seven tags, and what its head passes do to them |

Outside effects are parameters:

- the network is a `Fetch` oracle that says how the n-th download ends;
- the output directory is a `Dir`: a set of names and a fetch count;
- the Markdown renderer is a `Renderer` function;
- the date is a `Date`. For the web converter it is the date the
  `ContentConverter` was built (app.py:409), which is once, when the server
  module loads (app.py:648), so every page of a server run carries the start
  date. `convert_file` reads the clock on each call (convert.py:34);
- which characters `\w` accepts is a predicate `word`, fixed on ASCII.

## Model

| member | source | states |
|---|---|---|
| Text.ReplaceAll | convert.py:61 | `str.replace` of a literal: text without the literal comes back unchanged |
| Text.ReplaceOnce | convert.py:61 | a literal that occurs exactly once is replaced there, and the text on both sides is kept |
| Text.Strip | app.py:422 | `strip()`: the result neither starts nor ends with whitespace, and it is a slice of the input with only whitespace on either side |
| Text.Lower | app.py:472 | `lower()` maps each character on its own and keeps the length |
| Text.NatToStringValue | app.py:445 | the counter printed in a renamed file reads back as the same number |
| Text.NatToStringInjective | app.py:445 | different counters print differently |
| Scan.LineLimit | app.py:420 | `.` runs to the first newline, or to the end under DOTALL |
| Scan.Lazy | app.py:465 | a lazy group takes the shortest run the rest of the pattern accepts, and never crosses a newline without DOTALL |
| Scan.Spaces | app.py:560 | a greedy `\s*` / `\s+` takes the longest whitespace run after which the rest matches |
| Scan.LazyAt | app.py:560 | a lazy `(.*?)` stops exactly at the first position where the rest of the pattern succeeds, provided no newline comes first |
| Scan.SpacesAt | app.py:560 | a greedy whitespace run that covers all the whitespace up to a position where the rest succeeds ends exactly there |
| Scan.Search | app.py:420 | `re.search` returns the leftmost match, and returns nothing exactly when no position matches |
| Scan.SubFrom | app.py:466 | `re.sub` returns text unchanged when no position matches |
| Scan.SubFirst | app.py:466 | `re.sub` keeps the text before the leftmost match, replaces that match, and resumes after it |
| Scan.SubNoOpener | app.py:535 | text in which the pattern's opener never occurs is returned unchanged |
| Scan.SubReproduces | app.py:466 | when every replacement equals the text it matched, `re.sub` is the identity |
| Shapes.CloseAt | app.py:528 | `(.*?)close` stops at the first reachable `close`; without DOTALL it never crosses a newline |
| Shapes.SpanMatch | app.py:495 | `open(.*?)close` at an opener captures the text up to the first closer |
| Shapes.SpanSub | app.py:495-497 | `re.sub` of a span pattern keeps the text before the first span and hands the captured text to the replacement |
| Shapes.Span2Text | app.py:465 | a two-group match is exactly the opener, group 1, the middle, group 2 and the closer |
| Shapes.RestOfLineMatch | app.py:420 | `name\s*(.*)` skips whitespace, newlines included, and captures the rest of that line |
| Shapes.RestOfLineFind | app.py:420-421 | that pattern is found exactly where `str.find` finds the name |
| Shapes.RestOfLineFirst | app.py:420-422 | the first match, expressed through `str.find` |
| Shapes.SplitLineText | convert.py:52 | a `#img` / `#strong` match is: opener, whitespace, group 1 without a separator, the first `<:>`, and the rest of the line |
| Shapes.CodeSplitText | convert.py:55 | a `#code` match is: opener, whitespace, caption, first separator, and a body holding no `#` that ends at a `#` or at the end |
| Shapes.NoStraddle | app.py:535-536 | an inserted decorated tag cannot form the bare tag together with its neighbours |
| Shapes.LitPassAbsent | app.py:535-536 | after replacing a bare tag, no bare tag of that kind is left, and a bare tag that was absent stays absent |
| Shapes.MetaContentMatch | convert.py:19 | `<meta property="og:P" content="(.*?)"\s*/>` matches a written-out `og:P` tag whole and captures its content, when that holds no quote or newline |
| Shapes.ImgTagMatch | app.py:560 | `<img\s+alt="(.*?)"\s+src="(.*?)"\s*/?>` matches a rendered `<img alt="A" src="S" />` whole, capturing A and S, when neither holds a quote or a newline |
| Dates.FormatDate | app.py:417 | `%Y-%m-%d` gives ten characters: digits, with dashes at positions 4 and 7 |
| Dates.ParseFormat | app.py:417-418 | parsing the rendered date gives the date back |
| Dates.FormatParse | app.py:417-418 | a text that parses is the rendering of its date |
| Dates.FormatInjective | app.py:417-418 | two days never share a rendering |
| Metadata.CardUrl | app.py:417 | the card URL is the base, the date and `.png`, and the date can be read back from it |
| Metadata.PageUrl | app.py:418 | the page URL is the base, the date and `/index.html`, and the date can be read back from it |
| Metadata.LineAfter | app.py:420 | the captured value never holds a newline |
| Metadata.Directive | app.py:420-426 | a directive has a value exactly when its name occurs |
| Metadata.DirectiveValue | app.py:420-426 | the value is the stripped line after the first occurrence of the name |
| Metadata.GetMetadata | app.py:412-428 | the title and description fall back to the Japanese defaults when the directive is absent and are the stripped directive line otherwise; the URLs are the day's |
| Metadata.UrlsDependOnDateOnly | app.py:417-418 | the two URLs depend on the date alone, and they agree exactly when the dates do |
| Metadata.TitleTrimmed | app.py:420-422 | the title never starts or ends with whitespace |
| Slug.Keep | app.py:473 | `[^\w\s-]` deletion keeps only allowed characters, and keeps all of them when all are allowed |
| Slug.KeepCounts | app.py:473 | every allowed character survives as often as it occurred; every other character is gone |
| Slug.KeepConcat | app.py:473 | deletion distributes over concatenation |
| Slug.SpacesToHyphens | app.py:474 | each space becomes a hyphen; everything else is kept in place |
| Slug.SpacesToHyphensIsReplace | app.py:474 | that is exactly `str.replace(' ', '-')` |
| Slug.CollapseHyphens | app.py:475 | `-+` to `-`: no double hyphen remains; text without one is unchanged; a leading hyphen is kept |
| Slug.CollapseKeepsText | app.py:475 | collapsing only touches hyphens: every other character survives, in order |
| Slug.Slugify | app.py:469-476 | a slug holds no space and no double hyphen, and only word characters, whitespace and hyphens |
| Slug.HelloWorld | app.py:469-476 | `Hello, World!` becomes `hello-world` |
| Headings.Element | app.py:483 | the heading element carries the id between the first quotes and the text before the closing tag |
| Headings.Heading | app.py:480-493 | the heading element opens with the id attribute, holds the slug of its text up to the closing quote, and ends with the text and the closing tag |
| Headings.IdIsQuoted | app.py:482-483 | a slug never holds `"`, so the id attribute ends where it should |
| Headings.HeadingPass | app.py:495 | a level's pass leaves HTML without its bare opening tag unchanged |
| Headings.AddIds | app.py:478-498 | the three passes leave HTML without bare headings unchanged |
| Headings.FirstHeading | app.py:480-495 | the first bare heading becomes the element with the slug of its text, the text itself kept; text before it is kept |
| Escapes.SpliceAsWritten | convert.py:19-21 | the f-string replacement is read as a template, and `re.sub` raises exactly when that reading fails |
| Escapes.PlainThenParse | convert.py:19 | text without a backslash is read as it stands |
| Escapes.Parse | convert.py:19 | reading a replacement template never makes it longer, and only a backslash can make it fail |
| Escapes.VerbatimWithoutBackslash | convert.py:19 | a template free of backslashes is its own text |
| Escapes.TabInValue | convert.py:18-19 | a value `C:\temp` reaches the page with a tab instead of `\t`, one character shorter |
| Escapes.BadEscapeRaises | convert.py:18-19 | a value holding `\d` makes `re.sub` raise |
| Urls.CleanUrl | app.py:436 | the text `urlparse` splits holds no tab, carriage return or line feed |
| Urls.SplitScheme | app.py:436 | a scheme is split at the first `:` after a letter-led run of scheme characters, and is lower-cased |
| Urls.SplitSchemeExact | app.py:436 | a scheme is split off exactly when some `:` ends a letter-led run of scheme characters, and it is that run lower-cased |
| Urls.SplitNetloc | app.py:436 | the authority runs from `//` to the first `/`, `?` or `#`, and the text splits back into its parts |
| Urls.SplitParams | app.py:436 | `;parameters` start at the first `;` after the last `/` |
| Urls.UrlParse | app.py:436 | `urlparse` raises `ValueError` for an authority with unbalanced brackets, the one check modelled (others under Left out); a path holds no `#` or `?` |
| Urls.RecomposeParse | app.py:436 | putting the parts back together gives the cleaned URL: splitting loses nothing |
| Urls.Basename | app.py:437 | the basename is the suffix after the last `/` |
| Urls.SplitExt | app.py:444 | `splitext` splits the path into stem and extension; the extension is empty, or starts with its only dot and holds no `/` |
| Media.Blocked | app.py:443 | `os.path.exists` is true for every file, and for the empty name, `.` and `..` |
| Media.IsRemote | app.py:439 | a reference is downloaded exactly when its scheme is `http` or `https`; a URL without a scheme is not |
| Media.RemoteExactlyHttp | app.py:436-439 | a source is downloaded exactly when its cleaned text begins with a scheme that reads `http` or `https` in any letter case |
| Media.Candidate | app.py:444-445 | the k-th name tried is the basename for k = 0, otherwise `name_k` plus the original extension |
| Media.CandidateInjective | app.py:443-446 | the loop never tries the same name twice |
| Media.TriedStep | app.py:443-446 | each step of the loop leaves fewer existing names untried, so the loop ends |
| Media.FirstFree | app.py:443-446 | the loop stops at the first name that does not exist; all earlier names exist |
| Media.FreeName | app.py:441-446 | the chosen local name does not exist and is one of the candidates |
| Media.FreeNameTaken | app.py:443-446 | a name that already exists is never chosen again; a numbered name is taken instead |
| Media.SecondCopyNumbered | app.py:441-446 | for two downloads of `p.png`, the first is saved as `p.png` and the second as `p_1.png` |
| Media.ChooseLocalName | app.py:441-446 | the `while` loop as written returns that name |
| Media.RewriteParsed | app.py:433-463 | a non-http(s) reference is kept. A remote one costs one fetch and is pointed at a fresh local name when saved; otherwise it keeps its URL. A file is left behind unless the fetch failed before opening it. Files are never removed |
| Media.RewriteRef | app.py:433-463 | `urlparse` raising is the only failure |
| Media.MediaRefText | app.py:465 | a match of `!\[(.*?)\]\((.*?)\)` spans exactly the reference it captured |
| Media.LocalizeFirst | app.py:433-466 | at the first reference the text before it is kept, the reference becomes what `replace_media_link` returns, and the rest is processed with the directory that call left, so a saved name is taken for every later reference; a source `urlparse` rejects fails the whole pass |
| Media.LocalizeFrom | app.py:465-467 | rewriting the references left to right never removes a file and never lowers the fetch count (the order and freshness of the rewrites: LocalizeFirst, CreatedFresh) |
| Media.RewriteNewFile | app.py:439-458 | one reference adds at most one file, under a name that did not exist before, and nothing else |
| Media.CreatedFresh | app.py:441-466 | the files a successful pass creates had names that did not exist before the pass, no two share a name, and they are exactly what the directory gained |
| Media.Localize | app.py:430-467 | the files in the directory only grow; no download removes one |
| Media.LocalUnchanged | app.py:459-466 | content whose references are all local comes back unchanged, and nothing is fetched |
| Markup.DropDirective | app.py:507 | text without the directive name is unchanged |
| Markup.DropDirectives | app.py:507-508 | text without either directive is unchanged |
| Markup.DirectiveDropped | app.py:507 | the first directive line disappears with its newline; the text before it is kept |
| Markup.LastLineDirectiveKept | app.py:507 | a directive with no newline after it is not removed |
| Markup.LitPass | app.py:535 | a bare-tag pass leaves text without the tag unchanged |
| Markup.WrapFirst | app.py:537 | `o(.*?)c` to decorated + `\1` + closing, at the first element |
| Markup.ClassPass | app.py:527-532 | an element pass leaves text without the opener unchanged |
| Markup.ClassPassFirst | app.py:537-540 | the first element keeps its content under the decorated opening tag |
| Markup.CodeBlocks | app.py:517-524 | HTML without `<pre><code` is unchanged |
| Markup.CodeBlockWrapped | app.py:517-524 | each code block is kept as it stands, between the copy wrapper's two halves |
| Markup.DecoratedInert | app.py:535-568 | an opening tag with a class attribute cannot contain a bare tag, or form one with its neighbours, whether the bare tag has the same name or a different one |
| Markup.ListTagsInert | app.py:535-536 | the list tags the passes insert are inert for both list passes |
| Markup.TableTagsInert | app.py:566-568 | the table tags the passes insert are inert for all three table passes |
| Markup.Lists | app.py:535-536 | HTML without bare list tags is unchanged |
| Markup.NoBareLists | app.py:535-536 | after the list passes, no bare `<ul>` or `<ol>` remains |
| Markup.Tables | app.py:566-568 | HTML without bare table tags is unchanged |
| Markup.NoBareTables | app.py:566-568 | after the table passes, no bare `<table>`, `<th>` or `<td>` remains |
| Markup.VideoTag | app.py:548-555 | the player starts with the fixed opening and carries the source |
| Markup.ImageTag | app.py:557 | the image carries the source in `src` and in the modal handler at its end |
| Markup.MediaTag | app.py:543-557 | a video exactly when the extension, lower-cased, is `.mp4`; an image otherwise |
| Markup.MediaTags | app.py:559-563 | HTML without `<img` is unchanged |
| Markup.MediaTagFirst | app.py:559-563 | the first rendered image tag becomes the media element of its alt text and source (a player for `.mp4`), the text before it is kept and the scan resumes after `/>` |
| Markup.MediaTagOnly | app.py:559-563 | HTML whose only image tag is one rendered tag gets exactly that tag replaced; everything around it is kept |
| Markup.Links | app.py:578-582 | HTML without `<a href="` is unchanged |
| Markup.LinkDecorated | app.py:578-582 | a link only gains the class attribute after its `href` value |
| Markup.RunUntouched | app.py:516-585 | a pass that finds none of its openers leaves the text alone |
| Markup.RunAllUntouched | app.py:516-585 | text holding no opener of any pass comes through all of them unchanged |
| Markup.StepsRunnable | app.py:516-585 | every pass has a non-empty opener, so every substitution moves forward |
| Markup.StepsOpenTags | app.py:516-585 | every opener of the ten passes is a tag starting with `<` |
| Markup.ClassOpeners | app.py:527-575 | the element passes look for `<blockquote>`, `<li>`, `<p>` and `<code>` |
| Markup.AngleFreeUntouched | app.py:516-585 | passes that only look for tags leave HTML without `<` unchanged |
| Markup.Decorate | app.py:516-585 | the ten passes in the order of the source; HTML without `<` is left exactly as it is |
| Markup.ConvertMarkdown | app.py:500-586 | fails exactly when the download step does. Otherwise the body is the decorated rendering of the content, taken with its directives removed and its media made local. The directory only grows |
| Markup.LocalPlainConverted | app.py:500-586 | content whose references are all local and whose rendering holds no tag becomes the rendering of the content without its directives, and the directory is unchanged |
| Markup.ConvertedFilesFresh | app.py:500-511 | the files a conversion adds had names that did not exist before, no two share a name, and they are exactly what the directory gained |
| Blocks.Sections | convert.py:43 | text without `#h2(` is unchanged |
| Blocks.SectionFirst | convert.py:43 | the first `#h2(...)` on one line becomes a section heading between line breaks, holding the text between the parentheses |
| Blocks.Emphasis | convert.py:46 | a line without `<:>` is unchanged |
| Blocks.EmphasisFirst | convert.py:46 | the first two separators enclose bold text |
| Blocks.LoneSeparatorKept | convert.py:46 | a separator without a partner is left as it is |
| Blocks.Paragraphs | convert.py:46 | text without `#text` is unchanged |
| Blocks.ParagraphFirst | convert.py:46 | the first `#text` becomes a paragraph of the next text up to the end of its line, with emphasis applied |
| Blocks.Anchors | convert.py:49 | text without `<a>` is unchanged |
| Blocks.AnchorSwapped | convert.py:49 | text and URL change places: the URL becomes the `href` and the text the link's content |
| Blocks.Images | convert.py:52 | text without `#img` is unchanged |
| Blocks.ImageLine | convert.py:52 | the source runs to the first separator on the line and the alt text to the end of the line |
| Blocks.Snippets | convert.py:55 | text without `#code` is unchanged |
| Blocks.SnippetBlock | convert.py:55 | the caption runs to the first separator; the body runs across lines up to the next `#` |
| Blocks.SnippetNeedsSeparator | convert.py:55 | without a separator anywhere, `#code` is left as it stands |
| Blocks.Notes | convert.py:58 | text without `#strong` is unchanged |
| Blocks.NoteLine | convert.py:58 | the bold head runs to the first separator and the note to the end of the line |
| Blocks.Blocks | convert.py:43-58 | the six rules in the order of the source; text without `#` and `<a>` passes through them unchanged |
| Pages.Substitute | app.py:609-615 | a template without `$` substitutes to itself |
| Pages.PlainPrefix | app.py:609-615 | text without `$` is copied through |
| Pages.NamedPlaceholder | app.py:609-615 | `$name` before a non-identifier character becomes the value of `name` |
| Pages.SubstituteFills | app.py:609-615 | a well-formed template whose placeholders all have values substitutes to the filled template; values are never rescanned |
| Pages.SubstituteMissing | app.py:609-615 | the first placeholder without a value raises `KeyError` for that name |
| Pages.Vars | app.py:609-615 | the mapping has exactly the five keys, bound to the metadata and the body |
| Pages.PageTemplateWellFormed | app.py:18-288 | `HTML_TEMPLATE` is well formed once its style and scripts are free of `$` |
| Pages.PageTemplate | app.py:18-288 | text and placeholders alternate, seventeen pieces; every placeholder is one of the five keys, and `$content` comes once, last, before the tail |
| Pages.Page | app.py:609-615 | `substitute` on the template succeeds and gives the page |
| Pages.PageLayout | app.py:18-288 | the page shows the title three times, the description twice, the two URLs and the body, each exactly as given |
| Pages.ConvertContent | app.py:588-615 | the page is the filled template of the day's metadata and the converted body; fails exactly when the conversion does |
| Pages.ConvertedPageLayout | app.py:588-615 | the saved page, piece by piece: the stripped title (or the default) in `og:title`, `<title>` and the header, the description twice, the day's two URLs, then the converted body and the tail |
| Convert.Splice | convert.py:19-21 | the intended splice: every match is replaced by the value taken as it stands |
| Convert.SpliceFirst | convert.py:19 | the first match is replaced by exactly `before + value + after`, whatever the value holds |
| Convert.SpliceAgrees | convert.py:19-21 | without a backslash the code as written does what was meant |
| Convert.BackslashTBecomesTab | convert.py:18-21 | with `\t` in the title, the code as written puts a tab where the intended splice has a backslash |
| Convert.SetMeta | convert.py:36 | a page without the `og:` tag is unchanged |
| Convert.MetaFilled | convert.py:36-40 | the first `og:` tag gets the value as its content; text before it is kept |
| Convert.SetTitle | convert.py:19-21 | a page without the `og:title` tag, the title heading and `<title>` is unchanged; what it does to a page that has them is HeadFill.TitleFills |
| Convert.SetDescription | convert.py:29-30 | a page without the `og:description` tag and the lead paragraph is unchanged; what it does to a page that has them is HeadFill.DescriptionFills |
| Convert.SetDates | convert.py:34-40 | a page without the `og:image` and `og:url` tags is unchanged; what it does to a page that has them is HeadFill.DatesFill |
| Convert.RawDirective | convert.py:15-18 | the directive value is the line after the first name, unstripped; there is none exactly when the name is absent |
| Convert.AppStripsDirective | convert.py:15-18 | the web application reads the same value and strips it |
| Convert.DropLines | convert.py:22 | a document without the name is unchanged |
| Convert.DropStep | convert.py:22 | each removal runs from the name to the end of its value's line |
| Convert.DropLinesKeepsAbsent | convert.py:22 | no directive of the name survives, and no absent one-line literal appears |
| Convert.TitleStep | convert.py:15-22 | without `#title` nothing changes; with one, the page gets the rest of its line, unstripped, and no `#title` is left in the document |
| Convert.DescriptionStep | convert.py:25-31 | the same for `#description`; a document without `#title` stays without one |
| Convert.Head | convert.py:14-40 | the body reaching the rules holds neither directive; without directives only the two dated tags change and the body is the document. With directives, the filled page is HeadFill.HeadFilled |
| Convert.OutputPath | convert.py:63 | the output is the path with its extension, if any, replaced by `.html` |
| Convert.ConvertFile | convert.py:5-67 | the whole conversion fails exactly when the page as read has no `<here>` span, so in particular when `<here>` never occurs; otherwise the output is named after the document. The steps in order (head, then the six rules, then the splice) are stated by ConvertFileWithoutDirectives |
| Convert.ConvertFileWithoutDirectives | convert.py:5-61 | a document without directives ends up, rendered by the six rules, in place of the first `<here>` span of the page, whose two dated tags are filled |
| Convert.Assemble | convert.py:61-63 | the last step alone: whether there is output depends only on the page as read, not on the filled page or the body, and the path gets `.html` |
| Convert.AssembleAt | convert.py:61-63 | the text of the first `<here>` span of the page as read is replaced, at every occurrence in the filled page, by the converted body |
| Convert.BodyInPlace | convert.py:61 | where the span occurs once in the filled page, the converted body takes its place and everything else is kept |
| HeadFill.OpenersApart | convert.py:19-40 | no opener of the seven head patterns is a prefix of another, so a match of one can never start where another tag starts |
| HeadFill.SoleAt | convert.py:19 | a tag that is the only place its opener can start: the page holds it whole at its offset and no occurrence of the opener begins anywhere else |
| HeadFill.SegmentMatch | convert.py:19-40 | a head pattern matches its written-out tag whole and captures the tag's content, when that content holds no `<` and no newline (and no quote in a meta tag) |
| HeadFill.SoleSplice | convert.py:19 | a `re.sub` whose pattern matches a tag that is alone with its opener replaces exactly that tag's content and keeps every other character of the page |
| HeadFill.ReadyPut | convert.py:19-40 | filling one tag with text free of `<` leaves every other tag alone with its opener, so the later passes still find exactly their tag |
| HeadFill.TitleFills | convert.py:19-21 | the three title passes put the title into the `og:title` content, the title heading and `<title>`, and nothing else changes; the second and third pass do not match inside what the first wrote |
| HeadFill.DescriptionFills | convert.py:29-30 | the two description passes put the description into the `og:description` content and the lead paragraph, and nothing else changes |
| HeadFill.DatesFill | convert.py:34-40 | the dated passes put the day's card image URL into `og:image` and the day's page URL into `og:url`, and nothing else changes |
| HeadFill.LayoutReady | convert.py:19-40 | in a page laid out as the template is (each tag once, the text between them free of the seven openers), every tag is alone with its opener |
| HeadFill.TitleStepFills | convert.py:15-22 | the title step fills the three title tags with the unstripped rest of the `#title` line when there is one, and leaves the page as it is otherwise |
| HeadFill.DescriptionStepFills | convert.py:25-31 | the description step does the same for the two description tags and `#description` |
| HeadFill.HeadFilled | convert.py:14-40 | on a page laid out as the template is, directives or not, the head step yields the page with the title (if any) in its three places, the description (if any) in its two, and the day's URLs in the two dated tags, and every other character kept |
| HeadFill.SevenTagsLaidOut | convert.py:19-40 | the seven tags written one after another form such a page, so the layout is not vacuous |

## Left out

- Flask routes, ZIP packaging, temporary directories, and all file reading
  and writing. These are I/O. Outputs are returned as values: `Output`, and
  `Dir` for the downloads.
- The `print` calls: console output only.
- `requests.get` and the file writes in `download_media`. These are replaced
  by the `Fetch` oracle. Its outcome says only whether a file was created
  and whether the reference points at it; file contents are not modelled.
- `markdown.markdown` is a parameter (`Renderer`). Its output is not
  described.
- `datetime.today()` is a parameter. Years are limited to four digits, the
  width `%Y` prints without padding issues. The web converter reads it once,
  when the module-level `ContentConverter` is built (app.py:409, 648). The
  model takes whatever date is passed and does not follow that lifetime.
- The UTF-8/cp932 decoding fallback (app.py:593-596). The content is taken
  as already decoded text.
- The interactive loop of convert.py (lines 69-88): prompt, path
  normalisation, existence check and reading `index.html`.
- The page's style sheet, scripts and share buttons (app.py:29-281 and after
  line 288) are the parameters `style` and `tail`. They only need to be free
  of `$`, as the real ones are.
- Slug.Slugify: NFKC normalisation is taken as the identity. Python's full
  Unicode `\w` is a parameter fixed only on ASCII (`IsAsciiWordClass`).
  Python's full Unicode `lower()` is modelled on ASCII only.
- Text.Lower: upper-case letters outside ASCII are kept as they are.
- Urls.UrlParse: further `ValueError`s are not modelled, and the model
  parses such sources. `urlsplit` also raises for a bracketed host that is
  not a valid IPv6 or IPvFuture address (`![x](http://[abc]/a.png)`), and
  for a non-ASCII authority whose NFKC form gains one of `/?#@:`. The call
  at app.py:436 is outside the `try`, so either error would end the
  conversion.
- Escapes.SpliceAsWritten: a `\g<...>` in a directive value is reported as
  `NotModelled` rather than followed.
- Pages.Substitute: the `ValueError` for a stray `$` is `InvalidPlaceholder`,
  without the line and column Python reports.
- Markup.ConvertMarkdown: a `ValueError` from `urlparse` ends the
  conversion with no result. The exception's propagation through Flask
  (an error response) is not modelled.
- Convert.ConvertFile: the `#title` / `#description` replacements use the
  corrected splice (`Convert.Splice`). The code as written is modelled
  separately under Findings.
- Convert.SetTitle: uses the corrected splice, which puts the title in
  verbatim. The code as written reads the title as a `re.sub` template
  (Escapes.SpliceAsWritten under Findings). A title such as `\d+` makes
  convert.py:19 raise `re.error` even when the page has none of the three
  tags; the model returns the page unchanged instead.
- Convert.SetDescription: the same for the description at convert.py:29.
- Convert.TitleStep: inherits the corrected splice from Convert.SetTitle,
  so it never fails.
- Convert.DescriptionStep: inherits the corrected splice from
  Convert.SetDescription, so it never fails.
- Convert.Head: inherits the corrected splice of both steps. A directive
  value that `re.sub` rejects makes the real head step raise; the model
  always returns a page.
- HeadFill.HeadFilled: covers only pages in the template's layout and
  directive values without `<`. A value with `<` can let a later pass
  match inside what an earlier one wrote: with the title
  `<title>x</title>`, the third title pass finds its opener inside the
  freshly filled `og:title` content. Such pages are not described.
- HeadFill.SegmentMatch: covers tag contents without a quote. The real lazy
  `.*?` in the meta patterns can also run over a quote that is not
  followed by `/>`; such contents are not described. Meta tags are taken
  as the template writes them, ending in `" />`; the pattern's `\s*` also
  accepts other spacing, which the layout does not cover.
- CRLF line endings: the template and documents are read with `\n` line
  ends.

## Findings

| source | as written | input that shows it | evidently intended | confidence | as-written member | corrected member |
|---|---|---|---|---|---|---|
| convert.py:19-21 | the title is spliced into an f-string that `re.sub` then reads as a replacement template, so backslash escapes in it are processed (the same at lines 29-30 for the description) | `#title C:\temp` gives a title with a tab in place of `\t`; `#title \d+` makes `re.sub` raise `re.error` | the directive's text is put into the page verbatim | not executed | Escapes.SpliceAsWritten | Convert.Splice |
