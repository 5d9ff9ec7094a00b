/** `ContentConverter.download_media`: every `![alt](src)` whose source is an
    `http`/`https` URL is fetched into the output directory under a
    collision-free name, and the reference is pointed at the local copy when
    the fetch succeeds. The directory is a set of names and the network is an
    oracle telling how the n-th fetch ends. */
module Media {
  import opened Text
  import opened Scan
  import opened Shapes
  import opened Urls

  // ---- the output directory ----

  /** Names for which `os.path.exists(os.path.join(dir, name))` holds: the
      files already there, and the empty name, `.` and `..`, which all name a
      directory. */
  function Blocked(files: set<string>): (b: set<string>)
    ensures files <= b && "" in b && "." in b && ".." in b
  {
    files + {"", ".", ".."}
  }

  predicate Exists(files: set<string>, name: string)
  {
    name in Blocked(files)
  }

  /** The k-th name the collision loop tries for `filename`: the name itself,
      then `name_1ext`, `name_2ext`, ..., with `name` and `ext` always split
      off the original basename. */
  function Candidate(filename: string, k: nat): (r: string)
    ensures k == 0 ==> r == filename
    ensures k > 0 ==> r == SplitExt(filename).0 + "_" + NatToString(k) + SplitExt(filename).1
    ensures k > 0 ==> |r| > |filename|
  {
    if k == 0 then filename
    else
      var (name, ext) := SplitExt(filename);
      name + "_" + NatToString(k) + ext
  }

  /** No two steps of the loop try the same name. */
  lemma CandidateInjective(filename: string, j: nat, k: nat)
    requires Candidate(filename, j) == Candidate(filename, k)
    ensures j == k
  {
    if j > 0 && k > 0 {
      var (name, ext) := SplitExt(filename);
      CancelOuter(name + "_", NatToString(j), NatToString(k), ext);
      NatToStringInjective(j, k);
    }
  }

  /** The names tried before step k. */
  ghost function Tried(filename: string, k: nat): set<string>
  {
    set j: nat | j < k :: Candidate(filename, j)
  }

  /** Trying a name that exists leaves fewer existing names untried: the
      measure that makes the collision loop terminate. */
  lemma TriedStep(files: set<string>, filename: string, k: nat)
    requires Exists(files, Candidate(filename, k))
    ensures |Blocked(files) - Tried(filename, k + 1)| < |Blocked(files) - Tried(filename, k)|
  {
    var c := Candidate(filename, k);
    var a := Blocked(files) - Tried(filename, k);
    forall j: nat | j < k ensures Candidate(filename, j) != c {
      if Candidate(filename, j) == c {
        CandidateInjective(filename, j, k);
      }
    }
    assert c in a;
    assert Tried(filename, k + 1) == Tried(filename, k) + {c};
    assert Blocked(files) - Tried(filename, k + 1) == a - {c};
  }

  /** The first step at or after `k` whose name does not exist. */
  function FirstFree(files: set<string>, filename: string, k: nat): (r: nat)
    ensures k <= r && !Exists(files, Candidate(filename, r))
    ensures forall j :: k <= j < r ==> Exists(files, Candidate(filename, j))
    decreases |Blocked(files) - Tried(filename, k)|
  {
    if !Exists(files, Candidate(filename, k)) then k
    else
      TriedStep(files, filename, k);
      FirstFree(files, filename, k + 1)
  }

  /** The step at which the collision loop stops. */
  function FreeIndex(files: set<string>, filename: string): (k: nat)
    ensures !Exists(files, Candidate(filename, k))
    ensures forall j :: 0 <= j < k ==> Exists(files, Candidate(filename, j))
  {
    FirstFree(files, filename, 0)
  }

  /** The local name the downloader picks. */
  function FreeName(files: set<string>, filename: string): (r: string)
    ensures !Exists(files, r) && r !in files
    ensures exists k: nat :: r == Candidate(filename, k)
  {
    Candidate(filename, FreeIndex(files, filename))
  }

  /** The collision loop as written: probe, rename from the original
      basename with the next counter, probe again. */
  method ChooseLocalName(files: set<string>, filename: string) returns (local: string)
    ensures local == FreeName(files, filename)
  {
    local := filename;
    var counter := 1;
    while Exists(files, local)
      invariant 1 <= counter
      invariant local == Candidate(filename, counter - 1)
      invariant FirstFree(files, filename, counter - 1) == FreeIndex(files, filename)
      decreases |Blocked(files) - Tried(filename, counter - 1)|
    {
      TriedStep(files, filename, counter - 1);
      var (name, ext) := SplitExt(filename);
      local := name + "_" + NatToString(counter) + ext;
      counter := counter + 1;
    }
  }

  // ---- fetching ----

  /** How a fetch ends: the file saved, a failure before the file is opened
      (connection, HTTP status), or a failure while writing it, which leaves
      a partial file behind. */
  datatype Outcome = Saved | FailedBeforeCreate | FailedAfterCreate

  /** The network: how the n-th fetch of the run, of a given URL, ends. */
  type Fetch = (nat, string) -> Outcome

  /** The output directory's names and the number of fetches made so far. */
  datatype Dir = Dir(files: set<string>, fetches: nat)

  /** The Markdown image reference `![alt](src)`. */
  function Ref(alt: string, src: string): (r: string)
    ensures PrefixAt(r, 0, "![") && PrefixAt(r, 2 + |alt|, "](") && r[|r| - 1] == ')'
    ensures |r| == |alt| + |src| + 5
  {
    "![" + alt + "](" + src + ")"
  }

  /** `parsed_url.scheme in ('http', 'https')`: a URL without a scheme
      reports the empty one and is never remote. */
  predicate IsRemote(u: Url): (b: bool)
    ensures b <==> u.scheme == Some("http") || u.scheme == Some("https")
  {
    SchemeOf(u) in {"http", "https"}
  }

  /** A source is fetched exactly when its cleaned text starts with a
      scheme, ended by its first `:`, that reads `http` or `https` in any
      mix of cases. */
  lemma RemoteExactlyHttp(src: string, u: Url)
    requires UrlParse(src) == Parsed(u)
    ensures IsRemote(u) <==> exists i: nat :: SchemeEndsAt(CleanUrl(src), i)
                                            && Lower(CleanUrl(src)[..i]) in {"http", "https"}
  {
    var c := CleanUrl(src);
    var sc := SplitScheme(c);
    var nl := SplitNetloc(sc.1);
    assert u == SplitRest(sc.0, nl.0, nl.1);
    SplitSchemeExact(c);
  }

  /** `replace_media_link` on one reference whose source parsed as `u`. */
  function RewriteParsed(alt: string, src: string, u: Url, dir: Dir, fetch: Fetch): (r: (string, Dir))
    ensures !IsRemote(u) ==> r == (Ref(alt, src), dir)
    ensures IsRemote(u) ==>
              var local := FreeName(dir.files, Basename(u.path));
              var outcome := fetch(dir.fetches, src);
              && !Exists(dir.files, local)
              && r.1.fetches == dir.fetches + 1
              && r.0 == Ref(alt, if outcome.Saved? then local else src)
              && r.1.files == (if outcome.FailedBeforeCreate? then dir.files else dir.files + {local})
    ensures dir.files <= r.1.files && dir.fetches <= r.1.fetches
  {
    var filename := Basename(u.path);
    if IsRemote(u) then
      var local := FreeName(dir.files, filename);
      var next := dir.fetches + 1;
      match fetch(dir.fetches, src)
      case Saved => (Ref(alt, local), Dir(dir.files + {local}, next))
      case FailedAfterCreate => (Ref(alt, src), Dir(dir.files + {local}, next))
      case FailedBeforeCreate => (Ref(alt, src), Dir(dir.files, next))
    else (Ref(alt, src), dir)
  }

  /** `replace_media_link`: the new reference and the directory after it,
      or None when `urlparse` raises `ValueError`. */
  function RewriteRef(alt: string, src: string, dir: Dir, fetch: Fetch): (r: Option<(string, Dir)>)
    ensures r.None? <==> UrlParse(src).InvalidUrl?
    ensures r.Some? ==> r.value == RewriteParsed(alt, src, UrlParse(src).url, dir, fetch)
    ensures r.Some? ==> dir.files <= r.value.1.files && dir.fetches <= r.value.1.fetches
  {
    var p := UrlParse(src);
    if p.InvalidUrl? then None else Some(RewriteParsed(alt, src, p.url, dir, fetch))
  }

  // ---- the pass ----

  /** `!\[(.*?)\]\((.*?)\)`, without DOTALL. */
  function MediaRef(): (m: Matcher)
    ensures Advances(m) && OpensWith(m, "![")
  {
    Span2("![", "](", ")", false)
  }

  /** `re.sub(pattern, replace_media_link, content)` from `from` on: the
      references are rewritten left to right, each seeing the directory the
      earlier ones left. A `ValueError` from any of them ends the pass. */
  function LocalizeFrom(s: string, from: nat, dir: Dir, fetch: Fetch): (r: Option<(string, Dir)>)
    requires from <= |s|
    ensures r.Some? ==> dir.files <= r.value.1.files && dir.fetches <= r.value.1.fetches
    decreases |s| - from
  {
    var m := MediaRef();
    match FindFrom(m, s, from)
    case None => Some((s[from..], dir))
    case Some(i) =>
      var t := m(s, i).value;
      match RewriteRef(t.g1, t.g2, dir, fetch)
      case None => None
      case Some(p) =>
        match LocalizeFrom(s, t.end, p.1, fetch)
        case None => None
        case Some(q) => Some((s[from..i] + p.0 + q.0, q.1))
  }

  function Localize(content: string, dir: Dir, fetch: Fetch): (r: Option<(string, Dir)>)
    ensures r.Some? ==> dir.files <= r.value.1.files
  {
    LocalizeFrom(content, 0, dir, fetch)
  }

  /** The reference at `k`, if one starts there, is parsed and not remote. */
  predicate LocalAt(s: string, k: nat)
  {
    match MediaRef()(s, k)
    case None => true
    case Some(t) => UrlParse(t.g2).Parsed? && !IsRemote(UrlParse(t.g2).url)
  }

  /** A match of the reference pattern spans the reference it captured. */
  lemma MediaRefText(s: string, i: nat)
    requires MediaRef()(s, i).Some?
    ensures var t := MediaRef()(s, i).value;
            i <= t.end <= |s| && s[i..t.end] == Ref(t.g1, t.g2)
  {
    assert MediaRef()(s, i) == Span2At("![", "](", ")", false, s, i);
    Span2Text("![", "](", ")", false, s, i, Span2At("![", "](", ")", false, s, i).value);
  }

  /** Content whose references are all local comes back unchanged, and
      nothing is fetched or written. */
  lemma {:induction false} LocalUnchanged(s: string, from: nat, dir: Dir, fetch: Fetch)
    requires from <= |s|
    requires forall k :: from <= k <= |s| ==> LocalAt(s, k)
    ensures LocalizeFrom(s, from, dir, fetch) == Some((s[from..], dir))
    decreases |s| - from
  {
    var m := MediaRef();
    var f := FindFrom(m, s, from);
    if f.Some? {
      var i := f.value;
      var t := m(s, i).value;
      assert LocalAt(s, i);
      assert RewriteRef(t.g1, t.g2, dir, fetch) == Some((Ref(t.g1, t.g2), dir));
      LocalUnchanged(s, t.end, dir, fetch);
      MediaRefText(s, i);
      SuffixSplit(s, from, i);
      SuffixSplit(s, i, t.end);
      AppendAssoc(s[from..i], Ref(t.g1, t.g2), s[t.end..]);
    }
  }

  // ---- one reference at a time ----

  /** `x` in front of the text a pass returns, if it returns one. */
  function Prepend(x: string, r: Option<(string, Dir)>): Option<(string, Dir)>
  {
    match r
    case None => None
    case Some(q) => Some((x + q.0, q.1))
  }

  /** The first reference from `from` on, `![A](S)` at `i`: the text before
      it is kept, the reference becomes what `replace_media_link` returns,
      and the rest of the text is processed with the directory that call
      left behind, so a name it saved is taken for every later reference. A
      source that `urlparse` rejects ends the whole pass. */
  lemma LocalizeFirst(s: string, from: nat, i: nat, dir: Dir, fetch: Fetch)
    requires from <= i <= |s| && MediaRef()(s, i).Some?
    requires forall k :: from <= k < i ==> MediaRef()(s, k).None?
    ensures var t := MediaRef()(s, i).value;
            && i < t.end <= |s| && s[i..t.end] == Ref(t.g1, t.g2)
            && (UrlParse(t.g2).InvalidUrl? ==> LocalizeFrom(s, from, dir, fetch).None?)
            && (UrlParse(t.g2).Parsed? ==>
                  var p := RewriteParsed(t.g1, t.g2, UrlParse(t.g2).url, dir, fetch);
                  LocalizeFrom(s, from, dir, fetch) == Prepend(s[from..i] + p.0, LocalizeFrom(s, t.end, p.1, fetch)))
  {
    var m := MediaRef();
    FindFromAt(m, s, from, i);
    MediaRefText(s, i);
    var t := m(s, i).value;
    if UrlParse(t.g2).Parsed? {
      var p := RewriteParsed(t.g1, t.g2, UrlParse(t.g2).url, dir, fetch);
      LocalizeRewritten(s, from, i, t, p, dir, fetch);
    }
  }

  /** One step of the pass, with the reference `t` at `i` rewritten to `p`. */
  lemma LocalizeRewritten(s: string, from: nat, i: nat, t: Match, p: (string, Dir), dir: Dir, fetch: Fetch)
    requires from <= i <= |s| && i < t.end <= |s|
    requires FindFrom(MediaRef(), s, from) == Some(i) && MediaRef()(s, i) == Some(t)
    requires RewriteRef(t.g1, t.g2, dir, fetch) == Some(p)
    ensures LocalizeFrom(s, from, dir, fetch) == Prepend(s[from..i] + p.0, LocalizeFrom(s, t.end, p.1, fetch))
  {
    match LocalizeFrom(s, t.end, p.1, fetch)
    case None =>
    case Some(q) => AppendAssoc(s[from..i], p.0, q.0);
  }

  // ---- the files a pass creates ----

  /** The file the download of `src`, parsed as `u`, leaves in the
      directory: the collision-free name, unless the source is not remote or
      its fetch fails before the file is opened. */
  function ParsedNewFile(src: string, u: Url, dir: Dir, fetch: Fetch): Option<string>
  {
    if IsRemote(u) && !fetch(dir.fetches, src).FailedBeforeCreate?
    then Some(FreeName(dir.files, Basename(u.path)))
    else None
  }

  /** The same for a source that may not parse. */
  function NewFile(src: string, dir: Dir, fetch: Fetch): Option<string>
  {
    match UrlParse(src)
    case InvalidUrl => None
    case Parsed(u) => ParsedNewFile(src, u, dir, fetch)
  }

  /** A reference whose source parsed adds exactly its new file, and that
      file did not exist. */
  lemma ParsedAddsNewFile(alt: string, src: string, u: Url, dir: Dir, fetch: Fetch)
    ensures var f := ParsedNewFile(src, u, dir, fetch);
            var after := RewriteParsed(alt, src, u, dir, fetch).1.files;
            && (f.None? ==> after == dir.files)
            && (f.Some? ==> f.value !in Blocked(dir.files) && after == dir.files + {f.value})
  {
  }

  /** A reference adds exactly its new file, and that file did not exist. */
  lemma RewriteNewFile(alt: string, src: string, dir: Dir, fetch: Fetch)
    requires RewriteRef(alt, src, dir, fetch).Some?
    ensures var f := NewFile(src, dir, fetch);
            var after := RewriteRef(alt, src, dir, fetch).value.1.files;
            && (f.None? ==> after == dir.files)
            && (f.Some? ==> f.value !in Blocked(dir.files) && after == dir.files + {f.value})
  {
    match UrlParse(src)
    case Parsed(u) => ParsedAddsNewFile(alt, src, u, dir, fetch);
  }

  /** The files a pass from `from` creates, in the order it creates them
      (empty when the pass ends in `ValueError`). */
  function Created(s: string, from: nat, dir: Dir, fetch: Fetch): seq<string>
    requires from <= |s|
    decreases |s| - from
  {
    var m := MediaRef();
    match FindFrom(m, s, from)
    case None => []
    case Some(i) =>
      var t := m(s, i).value;
      match RewriteRef(t.g1, t.g2, dir, fetch)
      case None => []
      case Some(p) =>
        var f := NewFile(t.g2, dir, fetch);
        (if f.Some? then [f.value] else []) + Created(s, t.end, p.1, fetch)
  }

  /** `c` are the files a step took `before` to `after` with: none of them
      existed, no two share a name, and the directory gained exactly them. */
  predicate FreshNames(c: seq<string>, before: set<string>, after: set<string>)
  {
    && (forall k :: 0 <= k < |c| ==> c[k] !in Blocked(before))
    && (forall j, k :: 0 <= j < k < |c| ==> c[j] != c[k])
    && after == before + (set n | n in c)
  }

  /** Fresh names, then fresh names relative to the grown directory, are
      fresh names together. */
  lemma FreshThen(head: seq<string>, rest: seq<string>, a: set<string>, b: set<string>, c: set<string>)
    requires FreshNames(head, a, b) && FreshNames(rest, b, c)
    ensures FreshNames(head + rest, a, c)
  {
    var h := head + rest;
    forall k | 0 <= k < |h| ensures h[k] !in Blocked(a) {
      if k >= |head| { assert h[k] == rest[k - |head|]; }
    }
    forall j, k | 0 <= j < k < |h| ensures h[j] != h[k] {
      if k >= |head| {
        assert h[k] == rest[k - |head|];
        if j < |head| { assert h[j] in b; }
        else { assert h[j] == rest[j - |head|]; }
      }
    }
    assert (set n | n in h) == (set n | n in head) + (set n | n in rest);
  }

  /** Unfolding the files a pass creates at its first reference, `t` at
      `i`, which `replace_media_link` turned into `p`. */
  lemma CreatedStep(s: string, from: nat, i: nat, t: Match, p: (string, Dir), dir: Dir, fetch: Fetch)
    requires from <= |s| && t.end <= |s|
    requires FindFrom(MediaRef(), s, from) == Some(i) && MediaRef()(s, i) == Some(t)
    requires RewriteRef(t.g1, t.g2, dir, fetch) == Some(p)
    ensures var f := NewFile(t.g2, dir, fetch);
            Created(s, from, dir, fetch) == (if f.Some? then [f.value] else []) + Created(s, t.end, p.1, fetch)
  {
  }

  /** Unfolding the directory a pass leaves at the same point. */
  lemma LocalizeStep(s: string, from: nat, i: nat, t: Match, p: (string, Dir), dir: Dir, fetch: Fetch)
    requires from <= |s| && t.end <= |s|
    requires FindFrom(MediaRef(), s, from) == Some(i) && MediaRef()(s, i) == Some(t)
    requires RewriteRef(t.g1, t.g2, dir, fetch) == Some(p)
    requires LocalizeFrom(s, from, dir, fetch).Some?
    ensures LocalizeFrom(s, t.end, p.1, fetch).Some?
    ensures LocalizeFrom(s, from, dir, fetch).value.1 == LocalizeFrom(s, t.end, p.1, fetch).value.1
  {
  }

  /** A pass that finds no reference creates nothing and changes nothing. */
  lemma CreatedNone(s: string, from: nat, dir: Dir, fetch: Fetch)
    requires from <= |s| && FindFrom(MediaRef(), s, from).None?
    ensures Created(s, from, dir, fetch) == []
    ensures LocalizeFrom(s, from, dir, fetch) == Some((s[from..], dir))
  {
  }

  /** A successful pass got past its first reference. */
  lemma FirstParses(s: string, from: nat, i: nat, t: Match, dir: Dir, fetch: Fetch)
    requires from <= |s| && t.end <= |s|
    requires FindFrom(MediaRef(), s, from) == Some(i) && MediaRef()(s, i) == Some(t)
    requires LocalizeFrom(s, from, dir, fetch).Some?
    ensures RewriteRef(t.g1, t.g2, dir, fetch).Some?
  {
  }

  /** An optional new name `f` that took `a` to `b`, then fresh names
      taking `b` to `c`: fresh names taking `a` to `c` together. */
  lemma FreshCons(f: Option<string>, rest: seq<string>, a: set<string>, b: set<string>, c: set<string>)
    requires f.None? ==> b == a
    requires f.Some? ==> f.value !in Blocked(a) && b == a + {f.value}
    requires FreshNames(rest, b, c)
    ensures FreshNames((if f.Some? then [f.value] else []) + rest, a, c)
  {
    var head := if f.Some? then [f.value] else [];
    assert FreshNames(head, a, b);
    FreshThen(head, rest, a, b, c);
  }

  /** Freshness carries back over the first reference. */
  lemma CreatedFreshStep(s: string, from: nat, i: nat, t: Match, p: (string, Dir), dir: Dir, fetch: Fetch)
    requires from <= |s| && t.end <= |s|
    requires FindFrom(MediaRef(), s, from) == Some(i) && MediaRef()(s, i) == Some(t)
    requires RewriteRef(t.g1, t.g2, dir, fetch) == Some(p)
    requires LocalizeFrom(s, from, dir, fetch).Some?
    requires LocalizeFrom(s, t.end, p.1, fetch).Some?
    requires FreshNames(Created(s, t.end, p.1, fetch), p.1.files, LocalizeFrom(s, t.end, p.1, fetch).value.1.files)
    ensures FreshNames(Created(s, from, dir, fetch), dir.files, LocalizeFrom(s, from, dir, fetch).value.1.files)
  {
    CreatedStep(s, from, i, t, p, dir, fetch);
    LocalizeStep(s, from, i, t, p, dir, fetch);
    RewriteNewFile(t.g1, t.g2, dir, fetch);
    FreshCons(NewFile(t.g2, dir, fetch), Created(s, t.end, p.1, fetch), dir.files, p.1.files,
              LocalizeFrom(s, from, dir, fetch).value.1.files);
  }

  /** Every file a successful pass creates had a name no file had before
      the pass, no two of them share a name, and they are all the directory
      gained. */
  lemma {:induction false} CreatedFresh(s: string, from: nat, dir: Dir, fetch: Fetch)
    requires from <= |s| && LocalizeFrom(s, from, dir, fetch).Some?
    ensures FreshNames(Created(s, from, dir, fetch), dir.files, LocalizeFrom(s, from, dir, fetch).value.1.files)
    decreases |s| - from
  {
    var m := MediaRef();
    match FindFrom(m, s, from)
    case None => CreatedNone(s, from, dir, fetch);
    case Some(i) =>
      MediaRefText(s, i);
      var t := m(s, i).value;
      FirstParses(s, from, i, t, dir, fetch);
      var p := RewriteRef(t.g1, t.g2, dir, fetch).value;
      LocalizeStep(s, from, i, t, p, dir, fetch);
      CreatedFresh(s, t.end, p.1, fetch);
      CreatedFreshStep(s, from, i, t, p, dir, fetch);
  }

  /** A name that exists is never chosen again: the loop moves on to a
      numbered name. */
  lemma FreeNameTaken(files: set<string>, filename: string)
    requires filename in files
    ensures FreeName(files, filename) != filename
    ensures exists k: nat :: k >= 1 && FreeName(files, filename) == Candidate(filename, k)
  {
    var k := FreeIndex(files, filename);
    assert k != 0;
  }

  /** `p.png` splits into stem `p` and extension `.png`. */
  lemma PngSplit()
    ensures SplitExt("p.png") == ("p", ".png")
  {
    var p := "p.png";
    assert p[0] == 'p' && p[1] == '.' && p[2] == 'p' && p[3] == 'n' && p[4] == 'g';
    assert LastIndex(p, '/') == None;
    assert LastIndex(p, '.') == Some(1);
    assert HasNonDot(p, 0, 1);
    assert p[..1] == "p" && p[1..] == ".png";
  }

  /** The first numbered name for `p.png`. */
  lemma PngCandidate()
    ensures Candidate("p.png", 1) == "p_1.png"
  {
    PngSplit();
    assert NatToString(1) == "1";
  }

  /** Two sources with the same basename, `p.png`: the first download takes
      the name, the second gets `p_1.png`. */
  lemma SecondCopyNumbered()
    ensures FreeName({}, "p.png") == "p.png"
    ensures FreeName({"p.png"}, "p.png") == "p_1.png"
  {
    PngCandidate();
    assert FirstFree({"p.png"}, "p.png", 1) == 1;
  }
}
