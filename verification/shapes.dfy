// The regular-expression shapes the converter hands to Python's `re`
// module, each an exact backtracking matcher. Every shape is a literal
// opener followed by lazy `(.*?)` groups, greedy `\s*` / `\s+` runs and
// literal delimiters:
//
//   Lit(o)              o
//   Span(o, c, d)       o(.*?)c
//   Span2(o, m, c, d)   o(.*?)m(.*?)c
//   RestOfLine(o)       o\s*(.*)
//   DirectiveLine(o)    o\s.*?\n
//   MetaContent(o)      o.*?"\s*/>
//   SplitLine(o)        o\s*(.*?)<:>(.*)
//   CodeSplit(o)        o\s*(.*?)<:>(.*?)(?=#|\Z)   under DOTALL
//   ImgTag              <img\s+alt="(.*?)"\s+src="(.*?)"\s*/?>
//
// where `d` says whether the pattern is compiled with DOTALL.
module Shapes {
  import opened Text
  import opened Scan

  /** The literal `<:>` separator of the block-markup dialect. */
  const Sep: string := "<:>"

  // ---- pieces of the patterns; each lambda is written exactly once ----

  /** `(.*?)close` from `from`: the first occurrence of `close` that the
      lazy group can reach. */
  function CloseAt(s: string, from: nat, close: string, dotall: bool): (r: Option<nat>)
    requires from <= |s|
    ensures r.Some? ==> from <= r.value && PrefixAt(s, r.value, close)
    ensures r.Some? ==> forall k :: from <= k < r.value ==> !PrefixAt(s, k, close)
    ensures r.Some? && !dotall ==> forall k :: from <= k < r.value ==> s[k] != '\n'
    ensures r.None? ==> forall k :: from <= k <= LineLimit(s, from, dotall) ==> !PrefixAt(s, k, close)
  {
    var P := (j: nat) => PrefixAt(s, j, close);
    assert forall j: nat :: P(j) == (PrefixAt(s, j, close));
    Lazy(s, from, dotall, P)
  }

  predicate MidThenClose(s: string, k: nat, mid: string, close: string, dotall: bool)
  {
    PrefixAt(s, k, mid) && CloseAt(s, k + |mid|, close, dotall).Some?
  }

  function MidAt(s: string, from: nat, mid: string, close: string, dotall: bool): (r: Option<nat>)
    requires from <= |s|
    ensures r.Some? ==> from <= r.value && MidThenClose(s, r.value, mid, close, dotall)
  {
    var P := (k: nat) => MidThenClose(s, k, mid, close, dotall);
    assert forall k: nat :: P(k) == (MidThenClose(s, k, mid, close, dotall));
    Lazy(s, from, dotall, P)
  }

  function SlashAt(s: string, d: nat): Option<nat>
    requires d <= |s|
  {
    var P := (e: nat) => PrefixAt(s, e, "/>");
    assert forall e: nat :: P(e) == (PrefixAt(s, e, "/>"));
    Spaces(s, d, 0, P)
  }

  predicate QuoteThenSlash(s: string, k: nat)
  {
    PrefixAt(s, k, "\"") && SlashAt(s, k + 1).Some?
  }

  function MetaEnd(s: string, from: nat): Option<nat>
    requires from <= |s|
  {
    var P := (k: nat) => QuoteThenSlash(s, k);
    assert forall k: nat :: P(k) == (QuoteThenSlash(s, k));
    Lazy(s, from, false, P)
  }

  function SepAt(s: string, from: nat, dotall: bool): Option<nat>
    requires from <= |s|
  {
    var P := (k: nat) => PrefixAt(s, k, Sep);
    assert forall k: nat :: P(k) == (PrefixAt(s, k, Sep));
    Lazy(s, from, dotall, P)
  }

  function LineSplitStart(s: string, from: nat): Option<nat>
    requires from <= |s|
  {
    var P := (b: nat) => b <= |s| && SepAt(s, b, false).Some?;
    assert forall b: nat :: P(b) == (b <= |s| && SepAt(s, b, false).Some?);
    Spaces(s, from, 0, P)
  }

  predicate HashOrEnd(s: string, j: nat)
  {
    j == |s| || (j < |s| && s[j] == '#')
  }

  function BodyEnd(s: string, from: nat): Option<nat>
    requires from <= |s|
  {
    var P := (j: nat) => HashOrEnd(s, j);
    assert forall j: nat :: P(j) == (HashOrEnd(s, j));
    Lazy(s, from, true, P)
  }

  predicate SepThenBody(s: string, k: nat)
  {
    PrefixAt(s, k, Sep) && BodyEnd(s, k + |Sep|).Some?
  }

  function CodeSepAt(s: string, from: nat): Option<nat>
    requires from <= |s|
  {
    var P := (k: nat) => SepThenBody(s, k);
    assert forall k: nat :: P(k) == (SepThenBody(s, k));
    Lazy(s, from, true, P)
  }

  function CodeStart(s: string, from: nat): Option<nat>
    requires from <= |s|
  {
    var P := (b: nat) => b <= |s| && CodeSepAt(s, b).Some?;
    assert forall b: nat :: P(b) == (b <= |s| && CodeSepAt(s, b).Some?);
    Spaces(s, from, 0, P)
  }

  /** Whitespace, an optional slash and `>` at `d`: the end of the tag. */
  function TagEnd(s: string, d: nat): (r: Option<nat>)
    requires d <= |s|
    ensures r.Some? ==> d < r.value <= |s|
  {
    match Spaces(s, d, 0, (e: nat) => PrefixAt(s, e, "/>") || PrefixAt(s, e, ">"))
    case None => None
    case Some(e) => Some(if PrefixAt(s, e, "/>") then e + 2 else e + 1)
  }

  predicate QuoteThenTagEnd(s: string, m: nat)
  {
    PrefixAt(s, m, "\"") && TagEnd(s, m + 1).Some?
  }

  function SrcQuote(s: string, from: nat): Option<nat>
    requires from <= |s|
  {
    var P := (m: nat) => QuoteThenTagEnd(s, m);
    assert forall m: nat :: P(m) == (QuoteThenTagEnd(s, m));
    Lazy(s, from, false, P)
  }

  /** `src="(.*?)"` and the tag end at `b`: the source and where the tag ends. */
  function SrcTail(s: string, b: nat): (r: Option<(string, nat)>)
    requires b <= |s|
    ensures r.Some? ==> b < r.value.1 <= |s|
  {
    if !PrefixAt(s, b, "src=\"") then None else SrcRest(s, b + 5)
  }

  /** `(.*?)"` and the tag end after `src="`, from `a`. */
  function SrcRest(s: string, a: nat): (r: Option<(string, nat)>)
    requires a <= |s|
    ensures r.Some? ==> a < r.value.1 <= |s|
  {
    match SrcQuote(s, a)
    case None => None
    case Some(m) => Some((s[a..m], TagEnd(s, m + 1).value))
  }

  function SrcStart(s: string, d: nat): Option<nat>
    requires d <= |s|
  {
    var P := (b: nat) => b <= |s| && SrcTail(s, b).Some?;
    assert forall b: nat :: P(b) == (b <= |s| && SrcTail(s, b).Some?);
    Spaces(s, d, 1, P)
  }

  predicate QuoteThenSrc(s: string, k: nat)
  {
    PrefixAt(s, k, "\"") && SrcStart(s, k + 1).Some?
  }

  function AltQuote(s: string, from: nat): Option<nat>
    requires from <= |s|
  {
    var P := (k: nat) => QuoteThenSrc(s, k);
    assert forall k: nat :: P(k) == (QuoteThenSrc(s, k));
    Lazy(s, from, false, P)
  }

  /** Whitespace and the source part after the alt text's closing quote at
      `k`: alt text, source, tag end. */
  function AltRest(s: string, a: nat, k: nat): (r: Option<(string, string, nat)>)
    requires a + 5 <= k < |s|
    ensures r.Some? ==> k < r.value.2 <= |s|
  {
    match SrcStart(s, k + 1)
    case None => None
    case Some(b) =>
      match SrcTail(s, b)
      case None => None
      case Some(t) => Some((s[a + 5..k], t.0, t.1))
  }

  /** `alt="(.*?)"`, whitespace and the source part at `a`: alt text, source,
      tag end. */
  function AltTail(s: string, a: nat): (r: Option<(string, string, nat)>)
    requires a <= |s|
    ensures r.Some? ==> a < r.value.2 <= |s|
  {
    if !PrefixAt(s, a, "alt=\"") then None
    else match AltQuote(s, a + 5)
      case None => None
      case Some(k) => AltRest(s, a, k)
  }

  function ImgStart(s: string, d: nat): Option<nat>
    requires d <= |s|
  {
    var P := (a: nat) => a <= |s| && AltTail(s, a).Some?;
    assert forall a: nat :: P(a) == (a <= |s| && AltTail(s, a).Some?);
    Spaces(s, d, 1, P)
  }

  /** `(.*?)close` */
  function SpanTail(s: string, a: nat, close: string, dotall: bool): (r: Option<Match>)
    requires a <= |s|
    ensures r.Some? ==> a <= r.value.end <= |s|
  {
    match CloseAt(s, a, close, dotall)
    case None => None
    case Some(k) => Some(Match(k + |close|, s[a..k], ""))
  }

  /** `(.*?)mid(.*?)close` */
  function Span2Tail(s: string, a: nat, mid: string, close: string, dotall: bool): (r: Option<Match>)
    requires a <= |s|
    ensures r.Some? ==> a <= r.value.end <= |s|
  {
    match MidAt(s, a, mid, close, dotall)
    case None => None
    case Some(k) => Span2From(s, a, k, mid, close, dotall)
  }

  /** `(.*?)close` after the middle, which sits at `k`. */
  function Span2From(s: string, a: nat, k: nat, mid: string, close: string, dotall: bool): (r: Option<Match>)
    requires a <= k && k + |mid| <= |s|
    ensures r.Some? ==> a <= r.value.end <= |s|
  {
    match CloseAt(s, k + |mid|, close, dotall)
    case None => None
    case Some(j) => Some(Match(j + |close|, s[a..k], s[k + |mid|..j]))
  }

  /** `\s*(.*)`: never fails. */
  function RestOfLineTail(s: string, a: nat): (r: Option<Match>)
    requires a <= |s|
    ensures r.Some? && a <= r.value.end <= |s|
  {
    var b := SkipSpace(s, a);
    var e := LineLimit(s, b, false);
    Some(Match(e, s[b..e], ""))
  }

  /** `\s.*?\n` */
  function DirectiveLineTail(s: string, a: nat): (r: Option<Match>)
    requires a <= |s|
    ensures r.Some? ==> a <= r.value.end <= |s|
  {
    if a < |s| && IsSpace(s[a]) then
      match CloseAt(s, a + 1, "\n", false)
      case None => None
      case Some(k) => Some(Match(k + 1, "", ""))
    else None
  }

  /** `.*?"` then whitespace and `/>` */
  function MetaContentTail(s: string, a: nat): (r: Option<Match>)
    requires a <= |s|
    ensures r.Some? ==> a <= r.value.end <= |s|
  {
    match MetaEnd(s, a)
    case None => None
    case Some(k) => Some(Match(SlashAt(s, k + 1).value + 2, s[a..k], ""))
  }

  /** `\s*(.*?)<:>(.*)` */
  function SplitLineTail(s: string, a: nat): (r: Option<Match>)
    requires a <= |s|
    ensures r.Some? ==> a <= r.value.end <= |s|
  {
    match LineSplitStart(s, a)
    case None => None
    case Some(b) => SplitLineFrom(s, b)
  }

  /** `(.*?)<:>(.*)` once the whitespace run is over. */
  function SplitLineFrom(s: string, b: nat): (r: Option<Match>)
    requires b <= |s|
    ensures r.Some? ==> b <= r.value.end <= |s|
  {
    match SepAt(s, b, false)
    case None => None
    case Some(k) =>
      SepBound(s, b);
      var e := LineLimit(s, k + |Sep|, false);
      Some(Match(e, s[b..k], s[k + |Sep|..e]))
  }

  /** `\s*(.*?)<:>(.*?)(?=#|\Z)` under DOTALL */
  function CodeSplitTail(s: string, a: nat): (r: Option<Match>)
    requires a <= |s|
    ensures r.Some? ==> a <= r.value.end <= |s|
  {
    match CodeStart(s, a)
    case None => None
    case Some(b) => CodeSplitFrom(s, b)
  }

  /** `(.*?)<:>(.*?)(?=#|\Z)` once the whitespace run is over. */
  function CodeSplitFrom(s: string, b: nat): (r: Option<Match>)
    requires b <= |s|
    ensures r.Some? ==> b <= r.value.end <= |s|
  {
    match CodeSepAt(s, b)
    case None => None
    case Some(k) =>
      CodeSepBound(s, b);
      match BodyEnd(s, k + |Sep|)
      case None => None
      case Some(j) => Some(Match(j, s[b..k], s[k + |Sep|..j]))
  }

  /** `\s+alt="(.*?)"\s+src="(.*?)"` and the tag end */
  function ImgTagTail(s: string, a: nat): (r: Option<Match>)
    requires a <= |s|
    ensures r.Some? ==> a <= r.value.end <= |s|
  {
    match ImgStart(s, a)
    case None => None
    case Some(b) =>
      var t := AltTail(s, b).value;
      Some(Match(t.2, t.0, t.1))
  }

  // ---- the shapes ----

  /** An opener at `i` followed by the tail the shape describes. */
  function Opened(s: string, i: nat, open: string, tail: Option<Match>): (r: Option<Match>)
    requires PrefixAt(s, i, open) ==> tail.Some? ==> i + |open| <= tail.value.end <= |s|
    ensures r.Some? ==> PrefixAt(s, i, open) && i + |open| <= r.value.end <= |s|
  {
    if PrefixAt(s, i, open) then tail else None
  }

  function LitAt(o: string, s: string, i: nat): (r: Option<Match>)
    ensures r.Some? <==> PrefixAt(s, i, o)
    ensures r.Some? ==> r.value == Match(i + |o|, "", "")
  {
    if PrefixAt(s, i, o) then Some(Match(i + |o|, "", "")) else None
  }

  function Lit(o: string): (m: Matcher)
    requires |o| > 0
    ensures Advances(m) && OpensWith(m, o)
  {
    (s: string, i: nat) => LitAt(o, s, i)
  }

  function SpanAt(o: string, c: string, dotall: bool, s: string, i: nat): (r: Option<Match>)
    ensures r.Some? ==> PrefixAt(s, i, o) && i + |o| <= r.value.end <= |s|
  {
    if PrefixAt(s, i, o) then SpanTail(s, i + |o|, c, dotall) else None
  }

  function Span(o: string, c: string, dotall: bool): (m: Matcher)
    requires |o| > 0
    ensures Advances(m) && OpensWith(m, o)
  {
    (s: string, i: nat) => SpanAt(o, c, dotall, s, i)
  }

  function Span2At(o: string, mid: string, c: string, dotall: bool, s: string, i: nat): (r: Option<Match>)
    ensures r.Some? ==> PrefixAt(s, i, o) && i + |o| <= r.value.end <= |s|
  {
    if PrefixAt(s, i, o) then Span2Tail(s, i + |o|, mid, c, dotall) else None
  }

  function Span2(o: string, mid: string, c: string, dotall: bool): (m: Matcher)
    requires |o| > 0
    ensures Advances(m) && OpensWith(m, o)
  {
    (s: string, i: nat) => Span2At(o, mid, c, dotall, s, i)
  }

  function RestOfLineAt(o: string, s: string, i: nat): (r: Option<Match>)
    ensures r.Some? <==> PrefixAt(s, i, o)
    ensures r.Some? ==> i + |o| <= r.value.end <= |s|
  {
    if PrefixAt(s, i, o) then RestOfLineTail(s, i + |o|) else None
  }

  function RestOfLine(o: string): (m: Matcher)
    requires |o| > 0
    ensures Advances(m) && OpensWith(m, o)
  {
    (s: string, i: nat) => RestOfLineAt(o, s, i)
  }

  function DirectiveLineAt(o: string, s: string, i: nat): (r: Option<Match>)
    ensures r.Some? ==> PrefixAt(s, i, o) && i + |o| <= r.value.end <= |s|
  {
    if PrefixAt(s, i, o) then DirectiveLineTail(s, i + |o|) else None
  }

  function DirectiveLine(o: string): (m: Matcher)
    requires |o| > 0
    ensures Advances(m) && OpensWith(m, o)
  {
    (s: string, i: nat) => DirectiveLineAt(o, s, i)
  }

  function MetaContentAt(o: string, s: string, i: nat): (r: Option<Match>)
    ensures r.Some? ==> PrefixAt(s, i, o) && i + |o| <= r.value.end <= |s|
  {
    if PrefixAt(s, i, o) then MetaContentTail(s, i + |o|) else None
  }

  function MetaContent(o: string): (m: Matcher)
    requires |o| > 0
    ensures Advances(m) && OpensWith(m, o)
  {
    (s: string, i: nat) => MetaContentAt(o, s, i)
  }

  function SplitLineAt(o: string, s: string, i: nat): (r: Option<Match>)
    ensures r.Some? ==> PrefixAt(s, i, o) && i + |o| <= r.value.end <= |s|
  {
    if PrefixAt(s, i, o) then SplitLineTail(s, i + |o|) else None
  }

  function SplitLine(o: string): (m: Matcher)
    requires |o| > 0
    ensures Advances(m) && OpensWith(m, o)
  {
    (s: string, i: nat) => SplitLineAt(o, s, i)
  }

  function CodeSplitAt(o: string, s: string, i: nat): (r: Option<Match>)
    ensures r.Some? ==> PrefixAt(s, i, o) && i + |o| <= r.value.end <= |s|
  {
    if PrefixAt(s, i, o) then CodeSplitTail(s, i + |o|) else None
  }

  function CodeSplit(o: string): (m: Matcher)
    requires |o| > 0
    ensures Advances(m) && OpensWith(m, o)
  {
    (s: string, i: nat) => CodeSplitAt(o, s, i)
  }

  const ImgOpen: string := "<img"

  function ImgTagAt(s: string, i: nat): (r: Option<Match>)
    ensures r.Some? ==> PrefixAt(s, i, ImgOpen) && i + |ImgOpen| <= r.value.end <= |s|
  {
    if PrefixAt(s, i, ImgOpen) then ImgTagTail(s, i + |ImgOpen|) else None
  }

  function ImgTag(): (m: Matcher)
    ensures Advances(m) && OpensWith(m, ImgOpen)
  {
    (s: string, i: nat) => ImgTagAt(s, i)
  }

  // ---- facts about the shapes ----

  /** `(.*?)close` from `a` stops at `e` when `close` starts there, does not
      start earlier, and (without DOTALL) no newline lies in between. */
  lemma CloseAtExact(s: string, a: nat, e: nat, c: string, dotall: bool)
    requires a <= e <= |s| && PrefixAt(s, e, c)
    requires forall k :: a <= k < e ==> !PrefixAt(s, k, c)
    requires !dotall ==> forall k :: a <= k < e ==> s[k] != '\n'
    ensures CloseAt(s, a, c, dotall) == Some(e)
  {
    var lim := LineLimit(s, a, dotall);
    assert e <= lim;
  }

  /** A span pattern `open(.*?)close` at `i`, where `open` starts at `i`,
      `close` starts at `e` and not earlier, matches up to the end of that
      closer and captures the text in between. */
  lemma SpanMatch(o: string, c: string, dotall: bool, s: string, i: nat, e: nat)
    requires PrefixAt(s, i, o) && i + |o| <= e && PrefixAt(s, e, c)
    requires forall k :: i + |o| <= k < e ==> !PrefixAt(s, k, c)
    requires !dotall ==> forall k :: i + |o| <= k < e ==> s[k] != '\n'
    ensures SpanAt(o, c, dotall, s, i) == Some(Match(e + |c|, s[i + |o|..e], ""))
  {
    SpanCloseExact(o, c, dotall, s, i, e);
    SpanTailFromClose(o, c, dotall, s, i, e);
  }

  lemma SpanCloseExact(o: string, c: string, dotall: bool, s: string, i: nat, e: nat)
    requires PrefixAt(s, i, o) && i + |o| <= e && PrefixAt(s, e, c)
    requires forall k :: i + |o| <= k < e ==> !PrefixAt(s, k, c)
    requires !dotall ==> forall k :: i + |o| <= k < e ==> s[k] != '\n'
    ensures i + |o| <= |s| && CloseAt(s, i + |o|, c, dotall) == Some(e)
  {
    CloseAtExact(s, i + |o|, e, c, dotall);
  }

  lemma SpanTailFromClose(o: string, c: string, dotall: bool, s: string, i: nat, e: nat)
    requires i + |o| <= |s| && CloseAt(s, i + |o|, c, dotall) == Some(e)
    ensures SpanTail(s, i + |o|, c, dotall) == Some(Match(e + |c|, s[i + |o|..e], ""))
  {
  }

  /** `re.sub` with a span pattern whose first match starts at `i` and
      whose closer is found at `e`: the text before `i` is kept and the
      captured text is handed to the replacement. */
  lemma {:induction false} SpanSub(o: string, c: string, dotall: bool, s: string, i: nat, e: nat,
                repl: (string, string) -> string)
    requires |o| > 0
    requires PrefixAt(s, i, o) && i + |o| <= e && PrefixAt(s, e, c)
    requires forall k :: 0 <= k < i ==> !PrefixAt(s, k, o)
    requires forall k :: i + |o| <= k < e ==> !PrefixAt(s, k, c)
    requires !dotall ==> forall k :: i + |o| <= k < e ==> s[k] != '\n'
    ensures var m := Span(o, c, dotall);
            var t := Match(e + |c|, s[i + |o|..e], "");
            Sub(m, s, repl) == s[..i] + repl(t.g1, t.g2) + SubFrom(m, s, t.end, repl)
  {
    SpanLeftmost(o, c, dotall, s, i, e);
    SubFirst(Span(o, c, dotall), s, i, Match(e + |c|, s[i + |o|..e], ""), repl);
  }

  /** The span match of `SpanSub` is the leftmost one. */
  lemma SpanLeftmost(o: string, c: string, dotall: bool, s: string, i: nat, e: nat)
    requires |o| > 0
    requires PrefixAt(s, i, o) && i + |o| <= e && PrefixAt(s, e, c)
    requires forall k :: 0 <= k < i ==> !PrefixAt(s, k, o)
    requires forall k :: i + |o| <= k < e ==> !PrefixAt(s, k, c)
    requires !dotall ==> forall k :: i + |o| <= k < e ==> s[k] != '\n'
    ensures Span(o, c, dotall)(s, i) == Some(Match(e + |c|, s[i + |o|..e], ""))
    ensures forall k :: 0 <= k < i ==> Span(o, c, dotall)(s, k).None?
  {
    var m := Span(o, c, dotall);
    SpanMatch(o, c, dotall, s, i, e);
    assert m(s, i) == SpanAt(o, c, dotall, s, i);
    forall k | 0 <= k < i ensures m(s, k).None? {
      assert !PrefixAt(s, k, o);
    }
  }

  /** `open\s*(.*)` matches wherever `open` occurs: it skips the whitespace
      after the opener (newlines included) and captures the rest of that line. */
  lemma RestOfLineMatch(o: string, s: string, i: nat)
    requires PrefixAt(s, i, o)
    ensures var b := SkipSpace(s, i + |o|);
            var e := LineLimit(s, b, false);
            RestOfLineAt(o, s, i) == Some(Match(e, s[b..e], ""))
  {
  }

  /** So `re.search` with it finds the same place as `str.find` of the opener. */
  lemma RestOfLineFind(o: string, s: string)
    requires |o| > 0
    ensures Search(RestOfLine(o), s).None? <==> Find(s, o, 0).None?
    ensures Search(RestOfLine(o), s).Some? ==> Search(RestOfLine(o), s).value.0 == Find(s, o, 0).value
  {
    var m := RestOfLine(o);
    forall k: nat ensures m(s, k).Some? == PrefixAt(s, k, o) {
      assert m(s, k) == RestOfLineAt(o, s, k);
    }
    var f := Find(s, o, 0);
    var r := Search(m, s);
    if f.Some? {
      assert m(s, f.value).Some?;
      if r.Some? {
        assert !(r.value.0 < f.value);
        assert !(f.value < r.value.0);
      }
    } else {
      assert forall k :: 0 <= k <= |s| ==> m(s, k).None?;
    }
  }

  /** The first `open\s*(.*)` match, in terms of `str.find`. */
  lemma RestOfLineFirst(o: string, s: string)
    requires |o| > 0 && Find(s, o, 0).Some?
    ensures var i := Find(s, o, 0).value;
            var b := SkipSpace(s, i + |o|);
            var e := LineLimit(s, b, false);
            Search(RestOfLine(o), s) == Some((i, Match(e, s[b..e], "")))
  {
    RestOfLineFind(o, s);
    var i := Find(s, o, 0).value;
    RestOfLineMatch(o, s, i);
    assert RestOfLine(o)(s, i) == RestOfLineAt(o, s, i);
  }

  /** A match of `open(.*?)mid(.*?)close` spans exactly its opener, first
      group, middle, second group and closer. */
  lemma Span2Text(o: string, mid: string, c: string, dotall: bool, s: string, i: nat, t: Match)
    requires Span2At(o, mid, c, dotall, s, i) == Some(t)
    ensures i <= t.end <= |s| && s[i..t.end] == o + t.g1 + mid + t.g2 + c
  {
    Span2AtTail(o, mid, c, dotall, s, i, t);
    var k := Span2TailMid(o, mid, c, dotall, s, i, t);
    var j := Span2FromClose(o, mid, c, dotall, s, i, k, t);
    Span2Pieces(o, mid, c, s, i, k, j, t);
  }

  lemma Span2AtTail(o: string, mid: string, c: string, dotall: bool, s: string, i: nat, t: Match)
    requires Span2At(o, mid, c, dotall, s, i) == Some(t)
    ensures PrefixAt(s, i, o) && i + |o| <= |s| && Span2Tail(s, i + |o|, mid, c, dotall) == Some(t)
  {
  }

  lemma Span2TailMid(o: string, mid: string, c: string, dotall: bool, s: string, i: nat, t: Match) returns (k: nat)
    requires i + |o| <= |s| && Span2Tail(s, i + |o|, mid, c, dotall) == Some(t)
    ensures i + |o| <= k && PrefixAt(s, k, mid)
    ensures Span2From(s, i + |o|, k, mid, c, dotall) == Some(t)
  {
    k := MidAt(s, i + |o|, mid, c, dotall).value;
  }

  lemma Span2FromClose(o: string, mid: string, c: string, dotall: bool, s: string, i: nat, k: nat, t: Match)
    returns (j: nat)
    requires i + |o| <= k && k + |mid| <= |s|
    requires Span2From(s, i + |o|, k, mid, c, dotall) == Some(t)
    ensures k + |mid| <= j && PrefixAt(s, j, c) && t.end == j + |c|
    ensures t.g1 == s[i + |o|..k] && t.g2 == s[k + |mid|..j]
  {
    j := CloseAt(s, k + |mid|, c, dotall).value;
  }

  /** The five pieces of a two-group span, laid end to end. */
  lemma Span2Pieces(o: string, mid: string, c: string, s: string, i: nat, k: nat, j: nat, t: Match)
    requires PrefixAt(s, i, o) && i + |o| <= k && PrefixAt(s, k, mid)
    requires k + |mid| <= j && PrefixAt(s, j, c) && t.end == j + |c|
    requires t.g1 == s[i + |o|..k] && t.g2 == s[k + |mid|..j]
    ensures i <= t.end <= |s| && s[i..t.end] == o + t.g1 + mid + t.g2 + c
  {
    var a, e := i + |o|, j + |c|;
    Chunks(s, k + |mid|, j, e, t.g2, c);
    Chunks(s, k, k + |mid|, e, mid, t.g2 + c);
    Chunks(s, a, k, e, t.g1, mid + (t.g2 + c));
    Chunks(s, i, a, e, o, t.g1 + (mid + (t.g2 + c)));
    Nest5(o, t.g1, mid, t.g2, c);
  }

  /** Two adjacent slices with known contents. */
  lemma Chunks(s: string, x: nat, y: nat, z: nat, p: string, q: string)
    requires x <= y <= z <= |s| && s[x..y] == p && s[y..z] == q
    ensures s[x..z] == p + q
  {
    SliceSplit(s, x, y, z);
  }

  lemma Nest5(a: string, b: string, c: string, d: string, e: string)
    ensures a + (b + (c + (d + e))) == a + b + c + d + e
  {
  }

  /** What a match `t` of `open\s*(.*?)<:>(.*)` at `i` consists of: the
      opener, a run of whitespace, the first group, the first separator
      after it and the rest of that line, none of it a newline. */
  ghost predicate SplitLineShape(o: string, s: string, i: nat, t: Match)
  {
    LineTailShape(s, i + |o|, t)
  }

  /** The same shape for the part of the match after the opener, which
      starts at `a`. */
  ghost predicate LineTailShape(s: string, a: nat, t: Match)
  {
    var b := t.end - |t.g2| - |Sep| - |t.g1|;
    && a <= b <= t.end <= |s|
    && (forall k :: a <= k < b ==> IsSpace(s[k]))
    && s[b..t.end] == t.g1 + Sep + t.g2
    && !Occurs(t.g1, Sep)
    && (forall k :: 0 <= k < |t.g1| ==> t.g1[k] != '\n')
    && (forall k :: 0 <= k < |t.g2| ==> t.g2[k] != '\n')
    && (t.end == |s| || s[t.end] == '\n')
  }

  /** Text that does not start `Sep` anywhere before `k` holds no `Sep`. */
  lemma NoSepBefore(s: string, b: nat, k: nat)
    requires b <= k <= |s|
    requires forall j :: b <= j < k ==> !PrefixAt(s, j, Sep)
    ensures !Occurs(s[b..k], Sep)
  {
    var g := s[b..k];
    forall p | 0 <= p <= |g| ensures !PrefixAt(g, p, Sep) {
      if p + |Sep| <= |g| {
        SliceOfSlice(s, b, k, p, p + |Sep|);
        assert !PrefixAt(s, b + p, Sep);
      }
    }
  }

  lemma SplitLineAtTail(o: string, s: string, i: nat, t: Match)
    requires SplitLineAt(o, s, i) == Some(t)
    ensures i + |o| <= |s| && SplitLineTail(s, i + |o|) == Some(t)
  {
  }

  lemma SplitLineTailStart(o: string, s: string, i: nat, t: Match) returns (b: nat)
    requires i + |o| <= |s| && SplitLineTail(s, i + |o|) == Some(t)
    ensures LineSplitStart(s, i + |o|) == Some(b) && b <= |s| && SplitLineFrom(s, b) == Some(t)
  {
    b := LineSplitStart(s, i + |o|).value;
  }

  lemma SplitLineFromParts(s: string, b: nat, t: Match) returns (k: nat, e: nat)
    requires b <= |s| && SplitLineFrom(s, b) == Some(t)
    ensures SepAt(s, b, false) == Some(k) && k + |Sep| <= |s|
    ensures e == LineLimit(s, k + |Sep|, false)
    ensures t == Match(e, s[b..k], s[k + |Sep|..e])
  {
    k := SepAt(s, b, false).value;
    SepBound(s, b);
    e := LineLimit(s, k + |Sep|, false);
  }

  lemma LineSplitBound(s: string, a: nat)
    requires a <= |s| && LineSplitStart(s, a).Some?
    ensures var b := LineSplitStart(s, a).value;
            a <= b <= |s| && SepAt(s, b, false).Some?
  {
    LineSplitSpaces(s, a);
  }

  lemma SepBound(s: string, b: nat)
    requires b <= |s| && SepAt(s, b, false).Some?
    ensures var k := SepAt(s, b, false).value;
            b <= k && k + |Sep| <= |s|
  {
    SepFirst(s, b);
  }

  lemma CodeSplitAtTail(o: string, s: string, i: nat, t: Match)
    requires CodeSplitAt(o, s, i) == Some(t)
    ensures i + |o| <= |s| && CodeSplitTail(s, i + |o|) == Some(t)
  {
  }

  lemma CodeSplitTailStart(o: string, s: string, i: nat, t: Match) returns (b: nat)
    requires i + |o| <= |s| && CodeSplitTail(s, i + |o|) == Some(t)
    ensures CodeStart(s, i + |o|) == Some(b) && b <= |s| && CodeSplitFrom(s, b) == Some(t)
  {
    b := CodeStart(s, i + |o|).value;
  }

  lemma CodeSplitFromParts(s: string, b: nat, t: Match) returns (k: nat, j: nat)
    requires b <= |s| && CodeSplitFrom(s, b) == Some(t)
    ensures CodeSepAt(s, b) == Some(k) && k + |Sep| <= |s|
    ensures BodyEnd(s, k + |Sep|) == Some(j)
    ensures t == Match(j, s[b..k], s[k + |Sep|..j])
  {
    k := CodeSepAt(s, b).value;
    CodeSepBound(s, b);
    j := BodyEnd(s, k + |Sep|).value;
  }

  lemma CodeStartBound(s: string, a: nat)
    requires a <= |s| && CodeStart(s, a).Some?
    ensures var b := CodeStart(s, a).value;
            a <= b <= |s| && CodeSepAt(s, b).Some?
  {
    CodeStartSpaces(s, a);
  }

  lemma CodeSepBound(s: string, b: nat)
    requires b <= |s| && CodeSepAt(s, b).Some?
    ensures var k := CodeSepAt(s, b).value;
            b <= k && k + |Sep| <= |s|
  {
    CodeSepFirst(s, b);
  }

  lemma SplitLineText(o: string, s: string, i: nat, t: Match)
    requires SplitLineAt(o, s, i) == Some(t)
    ensures SplitLineShape(o, s, i, t)
  {
    SplitLineAtTail(o, s, i, t);
    SplitLineTailText(o, s, i, t);
  }

  lemma SplitLineTailText(o: string, s: string, i: nat, t: Match)
    requires i + |o| <= |s| && SplitLineTail(s, i + |o|) == Some(t)
    ensures SplitLineShape(o, s, i, t)
  {
    var b := SplitLineTailStart(o, s, i, t);
    var k, e := SplitLineFromParts(s, b, t);
    LineSplitSpaces(s, i + |o|);
    SepFirst(s, b);
    LineShapeOf(s, i + |o|, b, k, e, t);
  }

  /** The shape of a line split from its cut points. */
  lemma LineShapeOf(s: string, a: nat, b: nat, k: nat, e: nat, t: Match)
    requires a <= b <= k && k + |Sep| <= e <= |s|
    requires t == Match(e, s[b..k], s[k + |Sep|..e])
    requires forall x :: a <= x < b ==> IsSpace(s[x])
    requires PrefixAt(s, k, Sep) && forall x :: b <= x < k ==> !PrefixAt(s, x, Sep)
    requires forall x :: b <= x < k ==> s[x] != '\n'
    requires forall x :: k + |Sep| <= x < e ==> s[x] != '\n'
    requires e == |s| || s[e] == '\n'
    ensures LineTailShape(s, a, t)
  {
    assert t.end - |t.g2| - |Sep| - |t.g1| == b;
    NoSepBefore(s, b, k);
    SliceSplit(s, k, k + |Sep|, e);
    SliceSplit(s, b, k, e);
    assert s[k..k + |Sep|] == Sep;
    LineChars(s, b, k);
    LineChars(s, k + |Sep|, e);
  }

  lemma LineSplitSpaces(s: string, a: nat)
    requires a <= |s| && LineSplitStart(s, a).Some?
    ensures var b := LineSplitStart(s, a).value;
            && a <= b <= |s| && SepAt(s, b, false).Some?
            && forall x :: a <= x < b ==> IsSpace(s[x])
  {
    var P := (b: nat) => b <= |s| && SepAt(s, b, false).Some?;
    assert LineSplitStart(s, a) == Spaces(s, a, 0, P);
  }

  /** The separator `(.*?)<:>` stops at on one line: the first one, with
      no newline before it. */
  lemma SepFirst(s: string, b: nat)
    requires b <= |s| && SepAt(s, b, false).Some?
    ensures var k := SepAt(s, b, false).value;
            && b <= k && k + |Sep| <= |s| && PrefixAt(s, k, Sep)
            && (forall x :: b <= x < k ==> !PrefixAt(s, x, Sep))
            && (forall x :: b <= x < k ==> s[x] != '\n')
  {
    var k := SepAt(s, b, false).value;
    var P := (x: nat) => PrefixAt(s, x, Sep);
    assert SepAt(s, b, false) == Lazy(s, b, false, P);
    forall x | b <= x < k ensures !PrefixAt(s, x, Sep) {
      assert !P(x);
    }
  }

  /** A slice of characters that are no newlines holds no newline. */
  lemma LineChars(s: string, b: nat, e: nat)
    requires b <= e <= |s| && forall x :: b <= x < e ==> s[x] != '\n'
    ensures forall x :: 0 <= x < |s[b..e]| ==> s[b..e][x] != '\n'
  {
  }


  /** `(?=#|\Z)` under DOTALL always has a place to stop: at the latest, the
      end of the text. */
  lemma BodyEndFound(s: string, from: nat)
    requires from <= |s|
    ensures BodyEnd(s, from).Some?
  {
    var P := (j: nat) => HashOrEnd(s, j);
    assert BodyEnd(s, from) == Lazy(s, from, true, P);
    assert LineLimit(s, from, true) == |s|;
    assert P(|s|);
  }

  /** What a match `t` of `open\s*(.*?)<:>(.*?)(?=#|\Z)` at `i` consists
      of: the opener, whitespace, the first group, the first separator after
      it, and a body that runs up to the next `#` or to the end. */
  ghost predicate CodeSplitShape(o: string, s: string, i: nat, t: Match)
  {
    CodeTailShape(s, i + |o|, t)
  }

  /** The same shape for the part of the match after the opener, which
      starts at `a`. */
  ghost predicate CodeTailShape(s: string, a: nat, t: Match)
  {
    var b := t.end - |t.g2| - |Sep| - |t.g1|;
    && a <= b <= t.end <= |s|
    && (forall k :: a <= k < b ==> IsSpace(s[k]))
    && s[b..t.end] == t.g1 + Sep + t.g2
    && !Occurs(t.g1, Sep)
    && (forall k :: 0 <= k < |t.g2| ==> t.g2[k] != '#')
    && HashOrEnd(s, t.end)
  }

  /** The separator `(.*?)<:>` stops at under DOTALL: the first one. */
  lemma CodeSepFirst(s: string, b: nat)
    requires b <= |s| && CodeSepAt(s, b).Some?
    ensures var k := CodeSepAt(s, b).value;
            && b <= k && k + |Sep| <= |s| && PrefixAt(s, k, Sep)
            && forall x :: b <= x < k ==> !PrefixAt(s, x, Sep)
  {
    var k := CodeSepAt(s, b).value;
    var P := (x: nat) => SepThenBody(s, x);
    assert CodeSepAt(s, b) == Lazy(s, b, true, P);
    assert SepThenBody(s, k);
    forall x | b <= x < k ensures !PrefixAt(s, x, Sep) {
      SepThenBodyAtSep(s, x);
      assert !P(x);
    }
  }

  /** Under DOTALL the body after a separator always ends somewhere. */
  lemma SepThenBodyAtSep(s: string, x: nat)
    ensures SepThenBody(s, x) <==> PrefixAt(s, x, Sep)
  {
    if PrefixAt(s, x, Sep) {
      BodyEndFound(s, x + |Sep|);
    }
  }

  /** The body `(.*?)(?=#|\Z)` holds no `#`. */
  lemma BodyEndFirst(s: string, a: nat)
    requires a <= |s|
    ensures BodyEnd(s, a).Some?
    ensures var j := BodyEnd(s, a).value;
            && a <= j <= |s| && HashOrEnd(s, j)
            && forall x :: a <= x < j ==> s[x] != '#'
  {
    BodyEndFound(s, a);
    var j := BodyEnd(s, a).value;
    var H := (y: nat) => HashOrEnd(s, y);
    assert BodyEnd(s, a) == Lazy(s, a, true, H);
    forall x | a <= x < j ensures s[x] != '#' {
      assert !H(x);
    }
  }

  lemma CodeStartSpaces(s: string, a: nat)
    requires a <= |s| && CodeStart(s, a).Some?
    ensures var b := CodeStart(s, a).value;
            && a <= b <= |s| && CodeSepAt(s, b).Some?
            && forall x :: a <= x < b ==> IsSpace(s[x])
  {
    var P := (b: nat) => b <= |s| && CodeSepAt(s, b).Some?;
    assert CodeStart(s, a) == Spaces(s, a, 0, P);
  }

  lemma CodeSplitText(o: string, s: string, i: nat, t: Match)
    requires CodeSplitAt(o, s, i) == Some(t)
    ensures CodeSplitShape(o, s, i, t)
  {
    CodeSplitAtTail(o, s, i, t);
    CodeSplitTailText(o, s, i, t);
  }

  lemma CodeSplitTailText(o: string, s: string, i: nat, t: Match)
    requires i + |o| <= |s| && CodeSplitTail(s, i + |o|) == Some(t)
    ensures CodeSplitShape(o, s, i, t)
  {
    var b := CodeSplitTailStart(o, s, i, t);
    var k, j := CodeSplitFromParts(s, b, t);
    CodeStartSpaces(s, i + |o|);
    CodeSepFirst(s, b);
    BodyEndFirst(s, k + |Sep|);
    CodeShapeOf(s, i + |o|, b, k, j, t);
  }

  /** The shape of a code split from its cut points. */
  lemma CodeShapeOf(s: string, a: nat, b: nat, k: nat, j: nat, t: Match)
    requires a <= b <= k && k + |Sep| <= j <= |s|
    requires t == Match(j, s[b..k], s[k + |Sep|..j])
    requires forall x :: a <= x < b ==> IsSpace(s[x])
    requires PrefixAt(s, k, Sep) && forall x :: b <= x < k ==> !PrefixAt(s, x, Sep)
    requires forall x :: k + |Sep| <= x < j ==> s[x] != '#'
    requires HashOrEnd(s, j)
    ensures CodeTailShape(s, a, t)
  {
    assert t.end - |t.g2| - |Sep| - |t.g1| == b;
    NoSepBefore(s, b, k);
    forall x | 0 <= x < |t.g2| ensures t.g2[x] != '#' {
      assert t.g2[x] == s[k + |Sep| + x];
    }
    SliceSplit(s, k, k + |Sep|, j);
    SliceSplit(s, b, k, j);
    assert s[k..k + |Sep|] == Sep;
  }

  // ---- literal passes ----

  /** A replacement that does not look at the match. */
  function Const(rep: string): (f: (string, string) -> string)
    ensures forall a: string, b: string :: f(a, b) == rep
  {
    (a: string, b: string) => rep
  }

  /** The first character of `o` occurs in it only once. */
  predicate HeadOnce(o: string)
  {
    |o| > 0 && forall j :: 1 <= j < |o| ==> o[j] != o[0]
  }

  /** `rep` cannot help to form `o`: it is at least as long, starts with the
      first character of `o` but not with `o`, and holds that character
      nowhere else. */
  predicate Inert(rep: string, o: string)
  {
    && |o| > 0 && |rep| >= |o| && rep[0] == o[0] && rep[..|o|] != o
    && forall j :: 1 <= j < |rep| ==> rep[j] != o[0]
  }

  /** An inert piece between two texts free of `o` leaves none straddling
      the joins. */
  lemma NoStraddle(a: string, rep: string, b: string, o: string)
    requires HeadOnce(o) && Inert(rep, o)
    requires !Occurs(a, o) && !Occurs(b, o)
    ensures !Occurs(a + rep + b, o)
  {
    var r := a + rep + b;
    var n := |o|;
    forall p | 0 <= p <= |r| ensures !PrefixAt(r, p, o) {
      if p + n <= |r| {
        var w := r[p..p + n];
        if p + n <= |a| {
          assert w == a[p..p + n];
          assert !PrefixAt(a, p, o);
        } else if p < |a| {
          var j := |a| - p;
          assert w[j] == r[|a|] == rep[0] == o[0];
          assert o[j] != o[0];
        } else if p == |a| {
          assert w == rep[..n];
        } else if p < |a| + |rep| {
          assert w[0] == r[p] == rep[p - |a|];
          assert w[0] != o[0];
        } else {
          var q := p - |a| - |rep|;
          assert w == b[q..q + n];
          assert !PrefixAt(b, q, o);
        }
      }
    }
  }

  /** Between `from` and the next match of `o2` there is no `o`, when
      every `o` is a match of `o2`. */
  lemma AbsentBeforeMatch(o: string, o2: string, s: string, from: nat, i: nat)
    requires |o| > 0 && |o2| > 0 && from <= i <= |s|
    requires forall k :: from <= k <= |s| && PrefixAt(s, k, o) ==> PrefixAt(s, k, o2)
    requires forall k :: from <= k < i ==> Lit(o2)(s, k).None?
    ensures !Occurs(s[from..i], o)
  {
    var a := s[from..i];
    forall p | 0 <= p <= |a| ensures !PrefixAt(a, p, o) {
      if p + |o| <= |a| {
        SliceOfSlice(s, from, i, p, p + |o|);
        assert Lit(o2)(s, from + p) == LitAt(o2, s, from + p);
        assert !PrefixAt(s, from + p, o2);
      }
    }
  }

  /** After `re.sub(o2, rep, s)` the literal `o` is absent, provided every
      occurrence of `o` in the input is a match of `o2` (so `o == o2`
      removes its own tag, and an `o` already absent stays absent). */
  lemma {:induction false} LitPassAbsent(o: string, o2: string, rep: string, s: string, from: nat)
    requires HeadOnce(o) && Inert(rep, o) && |o2| > 0 && from <= |s|
    requires forall k :: from <= k <= |s| && PrefixAt(s, k, o) ==> PrefixAt(s, k, o2)
    ensures !Occurs(SubFrom(Lit(o2), s, from, Const(rep)), o)
    decreases |s| - from
  {
    var m := Lit(o2);
    var f := FindFrom(m, s, from);
    if f.None? {
      AbsentBeforeMatch(o, o2, s, from, |s|);
      assert s[from..|s|] == s[from..];
      assert SubFrom(m, s, from, Const(rep)) == s[from..];
    } else {
      var i := f.value;
      var t := m(s, i).value;
      assert m(s, i) == LitAt(o2, s, i);
      var rest := SubFrom(m, s, t.end, Const(rep));
      LitPassAbsent(o, o2, rep, s, t.end);
      AbsentBeforeMatch(o, o2, s, from, i);
      SubStep(m, s, from, i, Const(rep));
      assert Const(rep)(t.g1, t.g2) == rep;
      assert SubFrom(m, s, from, Const(rep)) == s[from..i] + rep + rest;
      NoStraddle(s[from..i], rep, rest, o);
    }
  }

  // ---- the image tag Python-Markdown writes ----

  /** Text a lazy `(.*?)"` without DOTALL runs over whole: no quote and no
      newline. */
  predicate Unquoted(x: string)
  {
    forall k :: 0 <= k < |x| ==> x[k] != '"' && x[k] != '\n'
  }

  /** `<img alt="A" src="S" />`, the form in which Python-Markdown renders
      `![A](S)`. */
  function ImgText(alt: string, src: string): (r: string)
    ensures |r| == |alt| + |src| + 21
  {
    "<img alt=\"" + alt + "\" src=\"" + src + "\" />"
  }

  /** ` />` at `d` ends the tag just after the `>`. */
  lemma TagEndSlash(s: string, d: nat)
    requires d + 3 <= |s| && s[d] == ' ' && s[d + 1] == '/' && s[d + 2] == '>'
    ensures TagEnd(s, d) == Some(d + 3)
  {
    var P := (e: nat) => PrefixAt(s, e, "/>") || PrefixAt(s, e, ">");
    assert s[d + 1..d + 3] == "/>";
    SpacesAt(s, d, 0, P, d + 1);
    assert TagEnd(s, d) == (match Spaces(s, d, 0, P)
                            case None => None
                            case Some(e) => Some(if PrefixAt(s, e, "/>") then e + 2 else e + 1));
  }

  /** A run copied from quote- and newline-free text holds no quote and no
      newline. */
  lemma UnquotedRun(s: string, from: nat, x: string)
    requires from + |x| <= |s| && s[from..from + |x|] == x && Unquoted(x)
    ensures forall k :: from <= k < from + |x| ==> !PrefixAt(s, k, "\"") && s[k] != '\n'
  {
    forall k | from <= k < from + |x| ensures !PrefixAt(s, k, "\"") && s[k] != '\n' {
      assert s[k] == x[k - from];
    }
  }

  lemma SrcQuoteAt(s: string, from: nat, m: nat)
    requires from <= m && QuoteThenTagEnd(s, m)
    requires forall k :: from <= k < m ==> !PrefixAt(s, k, "\"") && s[k] != '\n'
    ensures SrcQuote(s, from) == Some(m)
  {
    var P := (x: nat) => QuoteThenTagEnd(s, x);
    LazyAt(s, from, false, P, m);
    assert SrcQuote(s, from) == Lazy(s, from, false, P);
  }

  lemma AltQuoteAt(s: string, from: nat, k: nat)
    requires from <= k && QuoteThenSrc(s, k)
    requires forall x :: from <= x < k ==> !PrefixAt(s, x, "\"") && s[x] != '\n'
    ensures AltQuote(s, from) == Some(k)
  {
    var P := (x: nat) => QuoteThenSrc(s, x);
    LazyAt(s, from, false, P, k);
    assert AltQuote(s, from) == Lazy(s, from, false, P);
  }

  /** `" />` at `k`: a quote, then `/>` after one space. */
  lemma QuoteSlashAt(s: string, k: nat)
    requires k + 4 <= |s| && s[k] == '"' && s[k + 1] == ' ' && s[k + 2] == '/' && s[k + 3] == '>'
    ensures QuoteThenSlash(s, k) && SlashAt(s, k + 1) == Some(k + 2)
  {
    var P := (e: nat) => PrefixAt(s, e, "/>");
    assert s[k + 2..k + 4] == "/>";
    SpacesAt(s, k + 1, 0, P, k + 2);
    assert SlashAt(s, k + 1) == Spaces(s, k + 1, 0, P);
    QuoteAt(s, k);
  }

  /** No quote and no newline from `a` up to `k`: the run a lazy `(.*?)"`
      without DOTALL passes over. */
  predicate RunFree(s: string, a: nat, k: nat)
    decreases k - a
  {
    a >= k || (a < |s| && !PrefixAt(s, a, "\"") && s[a] != '\n' && RunFree(s, a + 1, k))
  }

  lemma {:induction false} RunFreeAll(s: string, a: nat, k: nat)
    requires RunFree(s, a, k)
    ensures a < k ==> k <= |s|
    ensures forall j :: a <= j < k ==> j < |s| && !PrefixAt(s, j, "\"") && s[j] != '\n'
    decreases k - a
  {
    if a < k {
      RunFreeAll(s, a + 1, k);
    }
  }

  lemma {:induction false} RunFreeFrom(s: string, a: nat, k: nat)
    requires k <= |s|
    requires forall j :: a <= j < k ==> !PrefixAt(s, j, "\"") && s[j] != '\n'
    ensures RunFree(s, a, k)
    decreases k - a
  {
    if a < k {
      RunFreeFrom(s, a + 1, k);
    }
  }

  /** `o`, then a quote- and newline-free `x`, then `" />` at `i`: the `og:`
      tag pattern matches the whole tag and captures `x`. */
  lemma MetaContentMatch(o: string, s: string, i: nat, x: string)
    requires PrefixAt(s, i, o + x + "\" />") && Unquoted(x)
    ensures MetaContentAt(o, s, i) == Some(Match(i + |o| + |x| + 4, x, ""))
  {
    MetaParts(s, i, o, x);
    UnquotedRun(s, i + |o|, x);
    RunFreeFrom(s, i + |o|, i + |o| + |x|);
    MetaPartsMatch(o, s, i, x);
  }

  /** The three parts of an `og:` tag written out at `i`. */
  lemma MetaParts(s: string, i: nat, o: string, x: string)
    requires PrefixAt(s, i, o + x + "\" />")
    ensures PrefixAt(s, i, o) && PrefixAt(s, i + |o|, x)
    ensures var k := i + |o| + |x|;
      k + 4 <= |s| && s[k] == '"' && s[k + 1] == ' ' && s[k + 2] == '/' && s[k + 3] == '>'
  {
    PrefixCat(s, i, o + x, "\" />");
    PrefixCat(s, i, o, x);
    var k := i + |o| + |x|;
    assert s[k..k + 4] == "\" />";
    assert s[k] == s[k..k + 4][0] && s[k + 3] == s[k..k + 4][3];
  }

  /** The same match, from the parts. */
  lemma MetaPartsMatch(o: string, s: string, i: nat, x: string)
    requires PrefixAt(s, i, o) && PrefixAt(s, i + |o|, x)
    requires var k := i + |o| + |x|;
      k + 4 <= |s| && s[k] == '"' && s[k + 1] == ' ' && s[k + 2] == '/' && s[k + 3] == '>'
    requires RunFree(s, i + |o|, i + |o| + |x|)
    ensures MetaContentAt(o, s, i) == Some(Match(i + |o| + |x| + 4, x, ""))
  {
    MetaTailMatch(s, i + |o|, x);
    MetaAtTail(o, s, i, x);
  }

  /** After the opener at `i`, the tag reads as its rest from `i + |o|`. */
  lemma MetaAtTail(o: string, s: string, i: nat, x: string)
    requires PrefixAt(s, i, o) && MetaContentTail(s, i + |o|) == Some(Match(i + |o| + |x| + 4, x, ""))
    ensures MetaContentAt(o, s, i) == Some(Match(i + |o| + |x| + 4, x, ""))
  {
  }

  /** The rest of the tag from `a`, from its parts: the lazy `(.*?)` scan runs
      over `x`, which holds no quote and no newline, and stops at the quote of
      `" />`. */
  lemma MetaTailMatch(s: string, a: nat, x: string)
    requires PrefixAt(s, a, x) && RunFree(s, a, a + |x|)
    requires var k := a + |x|;
      k + 4 <= |s| && s[k] == '"' && s[k + 1] == ' ' && s[k + 2] == '/' && s[k + 3] == '>'
    ensures MetaContentTail(s, a) == Some(Match(a + |x| + 4, x, ""))
  {
    MetaEndAt(s, a, a + |x|);
    MetaTailFrom(s, a, a + |x|, x);
  }

  /** The lazy `(.*?)"` scan from `a` over quote- and newline-free text stops
      at the quote of `" />` at `k`, and `/>` follows one space later. */
  lemma MetaEndAt(s: string, a: nat, k: nat)
    requires a <= k && RunFree(s, a, k)
    requires k + 4 <= |s| && s[k] == '"' && s[k + 1] == ' ' && s[k + 2] == '/' && s[k + 3] == '>'
    ensures MetaEnd(s, a) == Some(k) && SlashAt(s, k + 1) == Some(k + 2)
  {
    RunFreeAll(s, a, k);
    QuoteSlashAt(s, k);
    var P := (j: nat) => QuoteThenSlash(s, j);
    LazyAt(s, a, false, P, k);
    assert MetaEnd(s, a) == Lazy(s, a, false, P);
  }

  /** Where the lazy scan stops at `k` and `/>` follows at `k + 2`, the rest
      of the `og:` tag from `a` captures `x`, the text between `a` and `k`,
      and ends after `/>`. */
  lemma MetaTailFrom(s: string, a: nat, k: nat, x: string)
    requires a <= k && k + 2 <= |s| && s[a..k] == x
    requires MetaEnd(s, a) == Some(k) && SlashAt(s, k + 1) == Some(k + 2)
    ensures MetaContentTail(s, a) == Some(Match(k + 4, x, ""))
  {
  }

  /** `src="S" />` at `b`, with S free of quotes and newlines: the source is
      S and the tag ends at `e`, after `/>`. */
  lemma SrcTailAt(s: string, b: nat, src: string, e: nat)
    requires b + |src| + 9 <= |s| && PrefixAt(s, b, "src=\"")
    requires s[b + 5..b + 5 + |src|] == src && Unquoted(src)
    requires var m := b + 5 + |src|; s[m] == '"' && s[m + 1] == ' ' && s[m + 2] == '/' && s[m + 3] == '>'
    requires e == b + |src| + 9
    ensures SrcTail(s, b) == Some((src, e))
  {
    UnquotedRun(s, b + 5, src);
    RunFreeFrom(s, b + 5, b + 5 + |src|);
    SrcRestMatch(s, b + 5, src, e);
    SrcTailRest(s, b, src, e);
  }

  /** After `src="` at `b`, the tag reads as its rest from `b + 5`. */
  lemma SrcTailRest(s: string, b: nat, x: string, e: nat)
    requires PrefixAt(s, b, "src=\"") && SrcRest(s, b + 5) == Some((x, e))
    ensures SrcTail(s, b) == Some((x, e))
  {
  }

  /** The rest of the tag from `a`, from its parts: the lazy `(.*?)"` scan
      runs over `src`, which holds no quote and no newline, and stops at the
      quote of `" />`. */
  lemma SrcRestMatch(s: string, a: nat, src: string, e: nat)
    requires a + |src| + 4 <= |s| && s[a..a + |src|] == src && RunFree(s, a, a + |src|)
    requires var m := a + |src|; s[m] == '"' && s[m + 1] == ' ' && s[m + 2] == '/' && s[m + 3] == '>'
    requires e == a + |src| + 4
    ensures SrcRest(s, a) == Some((src, e))
  {
    SrcQuoteEnd(s, a, a + |src|);
    SrcRestAt(s, a, a + |src|, src, e);
  }

  /** The lazy `(.*?)"` scan from `a` over quote- and newline-free text stops
      at the quote of `" />` at `m`, and the tag ends after `/>`. */
  lemma SrcQuoteEnd(s: string, a: nat, m: nat)
    requires a <= m && m + 4 <= |s| && RunFree(s, a, m)
    requires s[m] == '"' && s[m + 1] == ' ' && s[m + 2] == '/' && s[m + 3] == '>'
    ensures SrcQuote(s, a) == Some(m) && TagEnd(s, m + 1) == Some(m + 4)
  {
    RunFreeAll(s, a, m);
    TagEndSlash(s, m + 1);
    assert s[m..m + 1] == "\"";
    SrcQuoteAt(s, a, m);
  }

  /** Where the lazy scan stops at `m` and the tag ends at `e`, the rest of
      the tag from `a` captures `x`, the text between `a` and `m`. */
  lemma SrcRestAt(s: string, a: nat, m: nat, x: string, e: nat)
    requires a <= m < |s| && s[a..m] == x
    requires SrcQuote(s, a) == Some(m) && TagEnd(s, m + 1) == Some(e)
    ensures SrcRest(s, a) == Some((x, e))
  {
  }

  /** The attribute text ` src="S" />` that follows the alt value. */
  predicate SrcPart(s: string, d: nat, src: string)
  {
    && d + |src| + 10 <= |s| && s[d] == ' ' && PrefixAt(s, d + 1, "src=\"")
    && s[d + 6..d + 6 + |src|] == src && Unquoted(src)
    && var m := d + 6 + |src|;
       s[m] == '"' && s[m + 1] == ' ' && s[m + 2] == '/' && s[m + 3] == '>'
  }

  /** `\s+` before a source part that starts right after one space. */
  lemma SrcStartOne(s: string, d: nat, b: nat, t: (string, nat))
    requires b == d + 1 < |s| && s[d] == ' ' && s[b] == 's'
    requires SrcTail(s, b) == Some(t)
    ensures SrcStart(s, d) == Some(b)
  {
    var P := (x: nat) => x <= |s| && SrcTail(s, x).Some?;
    SpacesAt(s, d, 1, P, b);
    assert SrcStart(s, d) == Spaces(s, d, 1, P);
  }

  lemma SrcStartAt(s: string, d: nat, src: string, b: nat, e: nat)
    requires SrcPart(s, d, src) && b == d + 1 && e == d + |src| + 10
    ensures SrcStart(s, d) == Some(b)
    ensures SrcTail(s, b) == Some((src, e))
  {
    SrcTailAt(s, b, src, e);
    assert s[b] == s[b..b + 5][0] == 's';
    SrcStartOne(s, d, b, (src, e));
  }

  lemma QuoteAt(s: string, k: nat)
    requires k < |s| && s[k] == '"'
    ensures PrefixAt(s, k, "\"")
  {
    assert s[k..k + 1] == "\"";
  }

  /** The alt text runs up to its first quote, at `k`. */
  lemma AltQuoteFrom(s: string, from: nat, alt: string, k: nat)
    requires k == from + |alt| <= |s| && s[from..k] == alt && Unquoted(alt)
    requires QuoteThenSrc(s, k)
    ensures AltQuote(s, from) == Some(k)
  {
    UnquotedRun(s, from, alt);
    AltQuoteAt(s, from, k);
  }

  /** AltTail once its three searches are known. */
  lemma AltTailParts(s: string, a: nat, k: nat, b: nat, t: (string, nat))
    requires PrefixAt(s, a, "alt=\"") && a + 5 <= k < |s| && AltQuote(s, a + 5) == Some(k)
    requires SrcStart(s, k + 1) == Some(b)
    requires b <= |s| && SrcTail(s, b) == Some(t)
    ensures AltTail(s, a) == Some((s[a + 5..k], t.0, t.1))
  {
    assert AltRest(s, a, k) == Some((s[a + 5..k], t.0, t.1));
  }

  /** `alt="A" src="S" />` at `a`, with A and S free of quotes and
      newlines: the groups are A and S and the tag ends at `e`, after `/>`. */
  lemma AltTailAt(s: string, a: nat, alt: string, src: string, e: nat)
    requires PrefixAt(s, a, "alt=\"") && a + 5 + |alt| + 1 <= |s|
    requires s[a + 5..a + 5 + |alt|] == alt && Unquoted(alt)
    requires s[a + 5 + |alt|] == '"' && SrcPart(s, a + 6 + |alt|, src)
    requires e == a + |alt| + |src| + 16
    ensures AltTail(s, a) == Some((alt, src, e))
  {
    var k := a + 5 + |alt|;
    var b := k + 2;
    QuoteAt(s, k);
    SrcStartAt(s, k + 1, src, b, e);
    AltQuoteFrom(s, a + 5, alt, k);
    AltTailParts(s, a, k, b, (src, e));
  }

  /** A single space at `d` followed by a letter at `a`. */
  lemma OneSpace(s: string, d: nat, a: nat)
    requires a == d + 1 < |s| && s[d] == ' ' && IsAsciiLetter(s[a])
    ensures forall k :: d <= k < a ==> IsSpace(s[k])
    ensures !IsSpace(s[a])
  {
  }

  /** `\s+` before an alt part that starts right after one space. */
  lemma ImgStartOne(s: string, d: nat, a: nat, t: (string, string, nat))
    requires a == d + 1 < |s| && s[d] == ' ' && s[a] == 'a'
    requires AltTail(s, a) == Some(t)
    ensures ImgStart(s, d) == Some(a)
  {
    var P := (x: nat) => x <= |s| && AltTail(s, x).Some?;
    OneSpace(s, d, a);
    SpacesAt(s, d, 1, P, a);
    assert ImgStart(s, d) == Spaces(s, d, 1, P);
  }

  /** The image pattern at `i` once its opener and its alt part are known. */
  lemma ImgTagParts(s: string, i: nat, a: nat, alt: string, src: string, e: nat)
    requires PrefixAt(s, i, ImgOpen) && ImgStart(s, i + 4) == Some(a)
    requires a <= |s| && AltTail(s, a) == Some((alt, src, e))
    ensures ImgTag()(s, i) == Some(Match(e, alt, src))
  {
    assert ImgTag()(s, i) == ImgTagAt(s, i);
  }

  /** The image pattern at `i` over `<img alt="A"` followed by the source
      part, the positions given by name. */
  lemma ImgTagFrom(s: string, i: nat, alt: string, src: string, d: nat, a: nat, e: nat)
    requires d == i + 4 && a == d + 1 && e == a + |alt| + |src| + 16
    requires PrefixAt(s, a, "alt=\"") && a + 5 + |alt| + 1 <= |s|
    requires PrefixAt(s, i, ImgOpen) && s[d] == ' ' && s[a] == 'a'
    requires s[a + 5..a + 5 + |alt|] == alt && Unquoted(alt)
    requires s[a + 5 + |alt|] == '"' && SrcPart(s, a + 6 + |alt|, src)
    ensures ImgTag()(s, i) == Some(Match(e, alt, src))
  {
    AltTailAt(s, a, alt, src, e);
    ImgStartOne(s, d, a, (alt, src, e));
    ImgTagParts(s, i, a, alt, src, e);
  }

  /** `<img alt="` at `i`. */
  lemma ImgHeadAt(s: string, i: nat)
    requires PrefixAt(s, i, "<img alt=\"")
    ensures PrefixAt(s, i, ImgOpen) && s[i + 4] == ' ' && s[i + 5] == 'a'
    ensures PrefixAt(s, i + 5, "alt=\"")
  {
    assert s[i..i + 4] == s[i..i + 10][..4];
    assert s[i + 5..i + 10] == s[i..i + 10][5..];
  }

  /** `" src="` at `k`, then S, then `" />`: the source part after the alt
      text's closing quote. */
  lemma SrcPartAt(s: string, k: nat, src: string)
    requires PrefixAt(s, k, "\" src=\"") && PrefixAt(s, k + 7, src) && Unquoted(src)
    requires PrefixAt(s, k + 7 + |src|, "\" />")
    ensures s[k] == '"' && SrcPart(s, k + 1, src)
  {
    assert s[k + 2..k + 7] == s[k..k + 7][2..];
    var m := k + 7 + |src|;
    assert s[m..m + 4] == "\" />";
  }

  lemma ImgTextSplit(s: string, i: nat, alt: string, src: string)
    requires PrefixAt(s, i, ImgText(alt, src))
    ensures PrefixAt(s, i, "<img alt=\"") && PrefixAt(s, i + 10, alt)
    ensures PrefixAt(s, i + 10 + |alt|, "\" src=\"") && PrefixAt(s, i + 10 + |alt| + 7, src)
    ensures PrefixAt(s, i + 10 + |alt| + 7 + |src|, "\" />")
  {
    var open, mid, close := "<img alt=\"", "\" src=\"", "\" />";
    assert ImgText(alt, src) == open + alt + mid + src + close;
    PrefixCat(s, i, open + alt + mid + src, close);
    PrefixCat(s, i, open + alt + mid, src);
    PrefixCat(s, i, open + alt, mid);
    PrefixCat(s, i, open, alt);
  }

  /** The pieces of a rendered image tag at `i`. */
  lemma ImgTextFacts(s: string, i: nat, alt: string, src: string)
    requires PrefixAt(s, i, ImgText(alt, src)) && Unquoted(alt) && Unquoted(src)
    ensures PrefixAt(s, i + 5, "alt=\"") && i + 5 + 5 + |alt| + 1 <= |s|
    ensures PrefixAt(s, i, ImgOpen) && s[i + 4] == ' ' && s[i + 5] == 'a'
    ensures s[i + 5 + 5..i + 5 + 5 + |alt|] == alt
    ensures s[i + 5 + 5 + |alt|] == '"' && SrcPart(s, i + 5 + 6 + |alt|, src)
  {
    ImgTextSplit(s, i, alt, src);
    ImgHeadAt(s, i);
    SrcPartAt(s, i + 10 + |alt|, src);
  }

  /** A rendered image tag whose alt text and source hold no quote and no
      newline is matched whole by the image pattern, with the alt text and
      the source as its groups: the match ends at `e`, just after `/>`. */
  lemma ImgTagMatch(s: string, i: nat, alt: string, src: string, e: nat)
    requires PrefixAt(s, i, ImgText(alt, src)) && Unquoted(alt) && Unquoted(src)
    requires e == i + |ImgText(alt, src)|
    ensures ImgTag()(s, i) == Some(Match(e, alt, src))
  {
    ImgTextFacts(s, i, alt, src);
    ImgTagFrom(s, i, alt, src, i + 4, i + 5, e);
  }
}
