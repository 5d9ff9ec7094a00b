/** The parts of the Python standard library the media passes lean on:
    `urllib.parse.urlparse` (as current CPython implements it),
    `os.path.basename` and `os.path.splitext` on POSIX paths. */
module Urls {
  import opened Text

  /** `urlparse(src)`. A part whose separator is absent is `None`; Python
      reports it as the empty string (see `Part`). */
  datatype Url = Url(scheme: Option<string>, netloc: Option<string>, path: string,
                     params: Option<string>, query: Option<string>, fragment: Option<string>)

  /** `urlparse` either returns the parts or raises `ValueError`. */
  datatype Parsed = Parsed(url: Url) | InvalidUrl

  function Part(o: Option<string>): string
  {
    if o.Some? then o.value else ""
  }

  /** What `urlparse` reports as `.scheme`. */
  function SchemeOf(u: Url): string
  {
    Part(u.scheme)
  }

  /** The last index of `ch` in `s` (`str.rfind`). */
  function LastIndex(s: string, ch: char): (r: Option<nat>)
    ensures r.Some? ==> r.value < |s| && s[r.value] == ch
    ensures r.Some? ==> forall k :: r.value < k < |s| ==> s[k] != ch
    ensures r.None? ==> forall k :: 0 <= k < |s| ==> s[k] != ch
  {
    if s == [] then None
    else if s[|s| - 1] == ch then Some(|s| - 1)
    else LastIndex(s[..|s| - 1], ch)
  }

  /** The first index of `ch` in `s` at or after `from` (`str.find`). */
  function IndexFrom(s: string, ch: char, from: nat): (r: Option<nat>)
    ensures r.Some? ==> from <= r.value < |s| && s[r.value] == ch
    ensures r.Some? ==> forall k :: from <= k < r.value ==> s[k] != ch
    ensures r.None? ==> forall k :: from <= k < |s| ==> s[k] != ch
    decreases |s| - from
  {
    if from >= |s| then None
    else if s[from] == ch then Some(from)
    else IndexFrom(s, ch, from + 1)
  }

  predicate Has(s: string, ch: char)
  {
    exists k :: 0 <= k < |s| && s[k] == ch
  }

  // ---- cleaning ----

  /** The C0 controls and space, which `urlsplit` strips from the front. */
  predicate IsC0OrSpace(c: char)
  {
    c as int <= 0x20
  }

  function LStripC0(s: string): (r: string)
    ensures |r| <= |s| && r == s[|s| - |r|..]
    ensures r == [] || !IsC0OrSpace(r[0])
    ensures forall k :: 0 <= k < |s| - |r| ==> IsC0OrSpace(s[k])
  {
    if |s| > 0 && IsC0OrSpace(s[0]) then LStripC0(s[1..]) else s
  }

  /** Tab, carriage return and line feed are deleted anywhere in the text. */
  predicate IsUnsafe(c: char)
  {
    c == '\t' || c == '\r' || c == '\n'
  }

  function RemoveUnsafe(s: string): (r: string)
    ensures |r| <= |s|
    ensures forall k :: 0 <= k < |r| ==> !IsUnsafe(r[k])
    ensures (forall k :: 0 <= k < |s| ==> !IsUnsafe(s[k])) ==> r == s
  {
    if s == [] then []
    else if IsUnsafe(s[0]) then RemoveUnsafe(s[1..])
    else [s[0]] + RemoveUnsafe(s[1..])
  }

  /** The text `urlsplit` actually splits. */
  function CleanUrl(s: string): (r: string)
    ensures forall k :: 0 <= k < |r| ==> !IsUnsafe(r[k])
  {
    RemoveUnsafe(LStripC0(s))
  }

  // ---- the splitting steps ----

  predicate IsSchemeChar(c: char)
  {
    IsAsciiLetter(c) || IsDigit(c) || c == '+' || c == '-' || c == '.'
  }

  /** A scheme is split off at the first `:` when it is preceded by a
      non-empty run of scheme characters starting with an ASCII letter. */
  predicate SchemeEndsAt(s: string, i: nat)
  {
    && 0 < i < |s| && s[i] == ':' && IsAsciiLetter(s[0])
    && (forall k :: 0 <= k < i ==> IsSchemeChar(s[k]))
  }

  function SplitScheme(s: string): (r: (Option<string>, string))
    ensures r.0.None? ==> r.1 == s
    ensures r.0.Some? ==> exists i: nat :: SchemeEndsAt(s, i) && r.0.value == Lower(s[..i]) && r.1 == s[i + 1..]
    ensures r.0.Some? ==> |r.0.value| > 0 && forall k :: 0 <= k < |r.0.value| ==> !('A' <= r.0.value[k] <= 'Z')
  {
    match IndexFrom(s, ':', 0)
    case None => (None, s)
    case Some(i) =>
      if SchemeEndsAt(s, i) then (Some(Lower(s[..i])), s[i + 1..]) else (None, s)
  }

  /** The scheme is split off exactly when some `:` ends a scheme, and then
      it is that prefix, lower-cased: only one `:` can end one. */
  lemma SplitSchemeExact(s: string)
    ensures SplitScheme(s).0.Some? <==> exists i: nat :: SchemeEndsAt(s, i)
    ensures forall i: nat :: SchemeEndsAt(s, i) ==> SplitScheme(s).0 == Some(Lower(s[..i]))
  {
    forall i: nat | SchemeEndsAt(s, i) ensures IndexFrom(s, ':', 0) == Some(i) {
      assert !IsSchemeChar(':');
    }
  }

  /** `_splitnetloc(url, 2)`: the authority runs from after `//` to the first
      `/`, `?` or `#`. */
  function NetlocEnd(s: string): (e: nat)
    requires 2 <= |s|
    ensures 2 <= e <= |s|
    ensures e < |s| ==> s[e] == '/' || s[e] == '?' || s[e] == '#'
    ensures forall k :: 2 <= k < e ==> s[k] != '/' && s[k] != '?' && s[k] != '#'
  {
    Min3(IndexFrom(s, '/', 2), IndexFrom(s, '?', 2), IndexFrom(s, '#', 2), |s|)
  }

  function Min3(a: Option<nat>, b: Option<nat>, c: Option<nat>, dflt: nat): (m: nat)
    ensures m <= dflt
    ensures m == dflt || (a.Some? && m == a.value) || (b.Some? && m == b.value) || (c.Some? && m == c.value)
    ensures a.Some? ==> m <= a.value
    ensures b.Some? ==> m <= b.value
    ensures c.Some? ==> m <= c.value
  {
    var m1 := if a.Some? && a.value < dflt then a.value else dflt;
    var m2 := if b.Some? && b.value < m1 then b.value else m1;
    if c.Some? && c.value < m2 then c.value else m2
  }

  function SplitNetloc(s: string): (r: (Option<string>, string))
    ensures r.0.None? ==> r.1 == s && !(2 <= |s| && s[..2] == "//")
    ensures r.0.Some? ==> s == "//" + r.0.value + r.1
    ensures r.0.Some? ==> forall k :: 0 <= k < |r.0.value| ==> r.0.value[k] !in "/?#"
    ensures r.0.Some? ==> r.1 == [] || r.1[0] in "/?#"
  {
    if 2 <= |s| && s[..2] == "//" then
      var e := NetlocEnd(s);
      assert s == s[..2] + s[2..e] + s[e..];
      (Some(s[2..e]), s[e..])
    else (None, s)
  }

  /** `s.split(ch, 1)` when `ch` occurs: the text before the first `ch` and
      the text after it. */
  function SplitFirst(s: string, ch: char): (r: (string, Option<string>))
    ensures r.1.None? <==> !Has(s, ch)
    ensures r.1.None? ==> r.0 == s
    ensures r.1.Some? ==> s == r.0 + [ch] + r.1.value
    ensures forall k :: 0 <= k < |r.0| ==> r.0[k] != ch
  {
    match IndexFrom(s, ch, 0)
    case None => (s, None)
    case Some(i) =>
      assert s == s[..i] + [ch] + s[i + 1..];
      (s[..i], Some(s[i + 1..]))
  }

  /** Schemes whose paths carry `;parameters` (`urllib.parse.uses_params`). */
  const UsesParams: set<string> := {"", "ftp", "hdl", "prospero", "http", "imap", "https",
                                    "shttp", "rtsp", "rtsps", "rtspu", "sip", "sips", "mms",
                                    "sftp", "tel"}

  /** `_splitparams`: the parameters start at the first `;` after the last
      `/` (anywhere when there is no `/`). */
  function SplitParams(p: string): (r: (string, Option<string>))
    ensures r.1.None? ==> r.0 == p
    ensures r.1.Some? ==> p == r.0 + ";" + r.1.value
    ensures r.1.Some? ==> forall k :: 0 <= k < |r.1.value| ==> r.1.value[k] != '/'
    ensures forall k :: LastSlashOrZero(r.0) <= k < |r.0| ==> r.0[k] != ';'
  {
    var from := LastSlashOrZero(p);
    match IndexFrom(p, ';', from)
    case None => (p, None)
    case Some(i) =>
      assert p == p[..i] + ";" + p[i + 1..];
      var q := p[..i];
      assert LastSlashOrZero(q) == from by {
        if LastIndex(p, '/').Some? {
          assert q[from] == '/';
          LastIndexAt(q, '/', from);
        } else {
          assert LastIndex(q, '/').None? by {
            assert forall k :: 0 <= k < |q| ==> q[k] == p[k];
          }
        }
      }
      (q, Some(p[i + 1..]))
  }

  /** A `ch` after which no `ch` follows is the last one. */
  lemma LastIndexAt(s: string, ch: char, j: nat)
    requires j < |s| && s[j] == ch && forall k :: j < k < |s| ==> s[k] != ch
    ensures LastIndex(s, ch) == Some(j)
  {
    var r := LastIndex(s, ch);
    assert r.Some?;
    assert !(r.value < j) && !(j < r.value);
  }

  /** Where `_splitparams` starts looking for `;`. */
  function LastSlashOrZero(p: string): (j: nat)
    ensures j <= |p|
    ensures forall k :: j < k < |p| ==> p[k] != '/'
  {
    match LastIndex(p, '/') case None => 0 case Some(j) => j
  }

  /** `[` without `]` or `]` without `[` in the authority. */
  predicate UnbalancedBrackets(n: string)
  {
    Has(n, '[') != Has(n, ']')
  }

  /** `urlparse(src)` with the default scheme `''` and fragments allowed.
      Of its `ValueError`s only the one for an authority with unbalanced
      brackets is modelled: a bracketed host that is not an IPv6 or
      IPvFuture address, and a non-ASCII authority whose NFKC form gains one
      of `/?#@:`, parse here. */
  function UrlParse(src: string): (r: Parsed)
    ensures r.InvalidUrl? <==> SplitNetloc(SplitScheme(CleanUrl(src)).1).0.Some?
                               && UnbalancedBrackets(SplitNetloc(SplitScheme(CleanUrl(src)).1).0.value)
    ensures r.Parsed? ==> !Has(r.url.path, '#') && !Has(r.url.path, '?')
    ensures r.Parsed? && SchemeOf(r.url) in {"http", "https"} ==>
              forall k :: LastSlashOrZero(r.url.path) <= k < |r.url.path| ==> r.url.path[k] != ';'
  {
    var c := CleanUrl(src);
    var sc := SplitScheme(c);
    var nl := SplitNetloc(sc.1);
    if nl.0.Some? && UnbalancedBrackets(nl.0.value) then InvalidUrl
    else Parsed(SplitRest(sc.0, nl.0, nl.1))
  }

  /** Fragment, query and parameters, split off in that order after the
      scheme and the authority. */
  function SplitRest(scheme: Option<string>, netloc: Option<string>, rest: string): (u: Url)
    ensures u.scheme == scheme && u.netloc == netloc
    ensures !Has(u.path, '#') && !Has(u.path, '?')
    ensures Part(scheme) in {"http", "https"} ==>
              forall k :: LastSlashOrZero(u.path) <= k < |u.path| ==> u.path[k] != ';'
  {
    var fr := SplitFirst(rest, '#');
    var qu := SplitFirst(fr.0, '?');
    NoCharInPrefix(fr.0, qu.0, '#');
    var pp := PathParams(scheme, qu.0);
    NoCharInPrefix(qu.0, pp.0, '#');
    NoCharInPrefix(qu.0, pp.0, '?');
    Url(scheme, netloc, pp.0, pp.1, qu.1, fr.1)
  }

  /** `_splitparams` runs for schemes in `uses_params` when the path holds a `;`. */
  function PathParams(scheme: Option<string>, path: string): (r: (string, Option<string>))
    ensures |r.0| <= |path| && r.0 == path[..|r.0|]
    ensures r.1.None? ==> r.0 == path
    ensures r.1.Some? ==> path == r.0 + ";" + r.1.value
    ensures Part(scheme) in {"http", "https"} ==>
              forall k :: LastSlashOrZero(r.0) <= k < |r.0| ==> r.0[k] != ';'
  {
    if Part(scheme) in UsesParams && Has(path, ';') then SplitParams(path)
    else
      assert Part(scheme) in {"http", "https"} ==> Part(scheme) in UsesParams;
      (path, None)
  }

  /** A prefix has no character its whole text lacks. */
  lemma NoCharInPrefix(s: string, t: string, ch: char)
    requires |t| <= |s| && t == s[..|t|]
    ensures Has(t, ch) ==> Has(s, ch)
  {
    forall k | 0 <= k < |t| && t[k] == ch ensures s[k] == ch { }
  }

  /** A part with its separator in front, or nothing when it is absent. */
  function Opt(sep: string, o: Option<string>): string
  {
    if o.Some? then sep + o.value else ""
  }

  /** The text the parts were cut from, with each separator put back where
      it was present. */
  function Recompose(u: Url): string
  {
    (if u.scheme.Some? then u.scheme.value + ":" else "") + Opt("//", u.netloc)
    + u.path + Opt(";", u.params) + Opt("?", u.query) + Opt("#", u.fragment)
  }

  /** No upper-case letter before the `:` that ends a scheme. */
  predicate LowerScheme(c: string)
  {
    forall i: nat, k :: i < |c| && SchemeEndsAt(c, i) && 0 <= k < i ==> !('A' <= c[k] <= 'Z')
  }

  lemma LowerUnchanged(s: string)
    requires forall k :: 0 <= k < |s| ==> !('A' <= s[k] <= 'Z')
    ensures Lower(s) == s
  {
  }

  /** Splitting loses nothing: putting the parts back together gives the
      cleaned text (the scheme aside, which comes back lower-cased). */
  lemma RecomposeParse(src: string)
    requires LowerScheme(CleanUrl(src))
    ensures UrlParse(src).Parsed? ==> Recompose(UrlParse(src).url) == CleanUrl(src)
  {
    var c := CleanUrl(src);
    var sc := SplitScheme(c);
    var nl := SplitNetloc(sc.1);
    if UrlParse(src).Parsed? {
      ParsedParts(src, c, sc, nl);
      RecomposeSplit(c, sc, nl);
    }
  }

  lemma ParsedParts(src: string, c: string, sc: (Option<string>, string), nl: (Option<string>, string))
    requires c == CleanUrl(src) && sc == SplitScheme(c) && nl == SplitNetloc(sc.1)
    requires UrlParse(src).Parsed?
    ensures UrlParse(src) == Parsed(SplitRest(sc.0, nl.0, nl.1))
  {
  }

  /** The scheme, the authority and the rest, put back together. */
  lemma RecomposeSplit(c: string, sc: (Option<string>, string), nl: (Option<string>, string))
    requires LowerScheme(c) && sc == SplitScheme(c) && nl == SplitNetloc(sc.1)
    ensures Recompose(SplitRest(sc.0, nl.0, nl.1)) == c
  {
    var head := if sc.0.Some? then sc.0.value + ":" else "";
    SchemeJoin(c);
    NetlocJoin(sc.1, nl);
    RecomposeRest(sc.0, nl.0, nl.1);
    AppendAssoc(head, Opt("//", nl.0), nl.1);
  }

  lemma NetlocJoin(s: string, nl: (Option<string>, string))
    requires nl == SplitNetloc(s)
    ensures s == Opt("//", nl.0) + nl.1
  {
  }

  lemma SchemeJoin(c: string)
    requires LowerScheme(c)
    ensures var sc := SplitScheme(c);
            c == (if sc.0.Some? then sc.0.value + ":" else "") + sc.1
  {
    var sc := SplitScheme(c);
    if sc.0.Some? {
      var i: nat :| SchemeEndsAt(c, i) && sc.0.value == Lower(c[..i]) && sc.1 == c[i + 1..];
      LowerUnchanged(c[..i]);
      assert c == c[..i] + ":" + c[i + 1..];
    }
  }

  lemma RecomposeRest(scheme: Option<string>, netloc: Option<string>, rest: string)
    ensures var x := (if scheme.Some? then scheme.value + ":" else "") + Opt("//", netloc);
            Recompose(SplitRest(scheme, netloc, rest)) == x + rest
  {
    var x := (if scheme.Some? then scheme.value + ":" else "") + Opt("//", netloc);
    var u := SplitRest(scheme, netloc, rest);
    var p, q, f := Opt(";", u.params), Opt("?", u.query), Opt("#", u.fragment);
    assert Recompose(u) == x + u.path + p + q + f;
    SplitRestParts(scheme, netloc, rest);
    Regroup4(x, u.path, p, q, f);
  }

  /** The fragment, the query and the parameters, put back after the path,
      give the text they were split from. */
  lemma SplitRestParts(scheme: Option<string>, netloc: Option<string>, rest: string)
    ensures var u := SplitRest(scheme, netloc, rest);
            u.path + Opt(";", u.params) + Opt("?", u.query) + Opt("#", u.fragment) == rest
  {
    var fr := SplitFirst(rest, '#');
    var qu := SplitFirst(fr.0, '?');
    var pp := PathParams(scheme, qu.0);
    PutBack(rest, "#", fr);
    PutBack(fr.0, "?", qu);
    PutBack(qu.0, ";", pp);
  }

  /** A split at a separator, undone. */
  lemma PutBack(s: string, sep: string, r: (string, Option<string>))
    requires r.1.None? ==> r.0 == s
    requires r.1.Some? ==> s == r.0 + sep + r.1.value
    ensures r.0 + Opt(sep, r.1) == s
  {
    if r.1.Some? {
      assert r.0 + sep + r.1.value == r.0 + (sep + r.1.value);
    }
  }

  lemma Regroup4(x: string, a: string, b: string, c: string, d: string)
    ensures x + a + b + c + d == x + (a + b + c + d)
  {
  }

  /** `os.path.basename`: what follows the last `/`. */
  function Basename(p: string): (b: string)
    ensures forall k :: 0 <= k < |b| ==> b[k] != '/'
    ensures |b| <= |p| && p[|p| - |b|..] == b
    ensures |b| < |p| ==> p[|p| - |b| - 1] == '/'
  {
    match LastIndex(p, '/')
    case None => p
    case Some(j) => p[j + 1..]
  }

  /** `os.path.splitext`: an extension is the final `.`-suffix of the last
      path component, unless that component is only dots up to it. */
  function SplitExt(p: string): (r: (string, string))
    ensures r.0 + r.1 == p
    ensures r.1 == [] || (r.1[0] == '.' && forall k :: 1 <= k < |r.1| ==> r.1[k] != '.' && r.1[k] != '/')
  {
    var sep := match LastIndex(p, '/') case None => -1 case Some(j) => j;
    match LastIndex(p, '.')
    case None => (p, "")
    case Some(dot) =>
      if dot > sep && HasNonDot(p, sep + 1, dot) then
        assert p == p[..dot] + p[dot..];
        ExtensionChars(p, sep, dot);
        (p[..dot], p[dot..])
      else (p, "")
  }

  /** After the last dot, itself after the last slash, come neither dots
      nor slashes. */
  lemma ExtensionChars(p: string, sep: int, dot: nat)
    requires -1 <= sep < dot < |p| && p[dot] == '.'
    requires forall k :: dot < k < |p| ==> p[k] != '.'
    requires forall k :: sep < k < |p| ==> p[k] != '/'
    ensures var e := p[dot..];
            e[0] == '.' && forall k :: 1 <= k < |e| ==> e[k] != '.' && e[k] != '/'
  {
    var e := p[dot..];
    forall k | 1 <= k < |e| ensures e[k] != '.' && e[k] != '/' {
      assert e[k] == p[dot + k];
    }
  }

  /** Some character of `p[lo..hi]` is not a dot. */
  predicate HasNonDot(p: string, lo: int, hi: int)
    requires 0 <= lo <= hi <= |p|
  {
    exists k :: lo <= k < hi && p[k] != '.'
  }
}
