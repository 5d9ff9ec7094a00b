/** The search-and-substitute engine behind Python's `re.search` and
    `re.sub`, over any matcher (a function telling whether and how a pattern
    matches at a given position), plus the backtracking building blocks the
    pattern shapes of module Shapes are made of: a lazy group tries the
    shortest run first, a greedy run the longest, and `.` stops at a newline
    unless the pattern is compiled with DOTALL. */
module Scan {
  import opened Text

  /** How far `.` may run from `from`: up to the first newline, or to the
      end of the text under DOTALL. */
  function LineLimit(s: string, from: nat, dotall: bool): (e: nat)
    requires from <= |s|
    ensures from <= e <= |s|
    ensures dotall ==> e == |s|
    ensures !dotall ==> e == |s| || s[e] == '\n'
    ensures !dotall ==> forall k :: from <= k < e ==> s[k] != '\n'
    decreases |s| - from
  {
    if dotall then |s|
    else if from == |s| || s[from] == '\n' then from
    else LineLimit(s, from + 1, dotall)
  }

  /** End of the longest whitespace run starting at `from`. */
  function SkipSpace(s: string, from: nat): (e: nat)
    requires from <= |s|
    ensures from <= e <= |s|
    ensures forall k :: from <= k < e ==> IsSpace(s[k])
    ensures e == |s| || !IsSpace(s[e])
    decreases |s| - from
  {
    if from < |s| && IsSpace(s[from]) then SkipSpace(s, from + 1) else from
  }

  /** The least k in [lo, hi] with P(k). */
  function FirstWhere(lo: nat, hi: nat, P: nat -> bool): (r: Option<nat>)
    ensures r.Some? ==> lo <= r.value <= hi && P(r.value)
    ensures r.Some? ==> forall k :: lo <= k < r.value ==> !P(k)
    ensures r.None? ==> forall k :: lo <= k <= hi ==> !P(k)
    decreases hi + 1 - lo
  {
    if lo > hi then None
    else if P(lo) then Some(lo)
    else FirstWhere(lo + 1, hi, P)
  }

  /** The greatest k in [lo, hi] with P(k). */
  function LastWhere(lo: nat, hi: nat, P: nat -> bool): (r: Option<nat>)
    ensures r.Some? ==> lo <= r.value <= hi && P(r.value)
    ensures r.Some? ==> forall k :: r.value < k <= hi ==> !P(k)
    ensures r.None? ==> forall k :: lo <= k <= hi ==> !P(k)
    decreases hi
  {
    if lo > hi then None
    else if P(hi) then Some(hi)
    else if hi == lo then None
    else LastWhere(lo, hi - 1, P)
  }

  /** A lazy `(.*?)` starting at `from`, followed by a rest of the pattern
      that succeeds at k iff P(k): the shortest admissible run wins, and
      without DOTALL the run never crosses a newline. */
  function Lazy(s: string, from: nat, dotall: bool, P: nat -> bool): (r: Option<nat>)
    requires from <= |s|
    ensures r.Some? ==> from <= r.value <= |s| && P(r.value)
    ensures r.Some? ==> forall k :: from <= k < r.value ==> !P(k)
    ensures r.Some? && !dotall ==> forall k :: from <= k < r.value ==> s[k] != '\n'
    ensures r.None? ==> forall k :: from <= k <= LineLimit(s, from, dotall) ==> !P(k)
  {
    FirstWhere(from, LineLimit(s, from, dotall), P)
  }

  /** A greedy `\s*` (min 0) or `\s+` (min 1) starting at `from`, followed by
      a rest that succeeds at k iff P(k): the longest run is tried first and
      the engine backs off one character at a time. */
  function Spaces(s: string, from: nat, min: nat, P: nat -> bool): (r: Option<nat>)
    requires from <= |s|
    ensures r.Some? ==> from + min <= r.value <= |s| && P(r.value)
    ensures r.Some? ==> forall k :: from <= k < r.value ==> IsSpace(s[k])
    ensures r.Some? ==> forall k :: r.value < k <= SkipSpace(s, from) ==> !P(k)
    ensures r.None? ==> forall k :: from + min <= k <= SkipSpace(s, from) ==> !P(k)
  {
    LastWhere(from + min, SkipSpace(s, from), P)
  }

  /** A lazy run stops at `e` when the rest succeeds there, fails at every
      earlier position, and (without DOTALL) no newline lies in between. */
  lemma LazyAt(s: string, from: nat, dotall: bool, P: nat -> bool, e: nat)
    requires from <= e <= |s| && P(e)
    requires forall k :: from <= k < e ==> !P(k)
    requires !dotall ==> forall k :: from <= k < e ==> s[k] != '\n'
    ensures Lazy(s, from, dotall, P) == Some(e)
  {
    assert e <= LineLimit(s, from, dotall);
  }

  /** A greedy run over exactly the whitespace in [from, e) stops at `e`
      when the rest succeeds there. */
  lemma SpacesAt(s: string, from: nat, min: nat, P: nat -> bool, e: nat)
    requires from + min <= e <= |s| && P(e)
    requires forall k :: from <= k < e ==> IsSpace(s[k])
    requires e == |s| || !IsSpace(s[e])
    ensures Spaces(s, from, min, P) == Some(e)
  {
    assert SkipSpace(s, from) == e;
  }

  /** A successful match: where it ends and its (up to two) groups. */
  datatype Match = Match(end: nat, g1: string, g2: string)

  /** `pattern.match(s, i)`: whether the pattern matches at `i`, and how. */
  type Matcher = (string, nat) -> Option<Match>

  /** Every match is non-empty and lies inside the text, so scanning always
      moves forward. */
  ghost predicate Advances(m: Matcher)
  {
    forall s: string, i: nat :: m(s, i).Some? ==> i < m(s, i).value.end <= |s|
  }

  /** Every match starts with the literal `open`. */
  ghost predicate OpensWith(m: Matcher, open: string)
  {
    forall s: string, i: nat :: m(s, i).Some? ==> PrefixAt(s, i, open)
  }

  /** The leftmost match at or after `from` (`pattern.search(s, from)`). */
  function FindFrom(m: Matcher, s: string, from: nat): (r: Option<nat>)
    ensures r.Some? ==> from <= r.value <= |s| && m(s, r.value).Some?
    ensures r.Some? ==> forall k :: from <= k < r.value ==> m(s, k).None?
    ensures r.None? ==> forall k :: from <= k <= |s| ==> m(s, k).None?
  {
    var P := (i: nat) => m(s, i).Some?;
    assert forall i: nat :: P(i) == (m(s, i).Some?);
    FirstWhere(from, |s|, P)
  }

  /** A match at `i` with none between `from` and `i` is the one found. */
  lemma FindFromAt(m: Matcher, s: string, from: nat, i: nat)
    requires from <= i <= |s| && m(s, i).Some?
    requires forall k :: from <= k < i ==> m(s, k).None?
    ensures FindFrom(m, s, from) == Some(i)
  {
  }

  /** `re.search(p, s)`: start of the leftmost match and the match. */
  function Search(m: Matcher, s: string): (r: Option<(nat, Match)>)
    ensures r.Some? ==> m(s, r.value.0) == Some(r.value.1)
    ensures r.Some? ==> forall k :: 0 <= k < r.value.0 ==> m(s, k).None?
    ensures r.None? <==> forall k :: 0 <= k <= |s| ==> m(s, k).None?
  {
    match FindFrom(m, s, 0)
    case None => None
    case Some(i) => Some((i, m(s, i).value))
  }

  /** `re.sub(p, repl, s)` restricted to the text from `from` on: every
      leftmost, non-overlapping match is replaced by `repl` of its groups and
      scanning resumes where the match ended. */
  function SubFrom(m: Matcher, s: string, from: nat, repl: (string, string) -> string): (r: string)
    requires Advances(m) && from <= |s|
    ensures (forall k :: from <= k <= |s| ==> m(s, k).None?) ==> r == s[from..]
    decreases |s| - from
  {
    match FindFrom(m, s, from)
    case None => s[from..]
    case Some(i) =>
      var t := m(s, i).value;
      s[from..i] + repl(t.g1, t.g2) + SubFrom(m, s, t.end, repl)
  }

  function Sub(m: Matcher, s: string, repl: (string, string) -> string): string
    requires Advances(m)
  {
    SubFrom(m, s, 0, repl)
  }

  // ---- facts about substitution ----

  /** Unfolding `re.sub` at its leftmost match. */
  lemma SubStep(m: Matcher, s: string, from: nat, i: nat, repl: (string, string) -> string)
    requires Advances(m) && from <= i <= |s|
    requires m(s, i).Some?
    requires forall k :: from <= k < i ==> m(s, k).None?
    ensures SubFrom(m, s, from, repl)
            == s[from..i] + repl(m(s, i).value.g1, m(s, i).value.g2) + SubFrom(m, s, m(s, i).value.end, repl)
  {
    assert FindFrom(m, s, from) == Some(i);
  }

  /** The same, for a known first match `t` of the whole text. */
  lemma SubFirst(m: Matcher, s: string, i: nat, t: Match, repl: (string, string) -> string)
    requires Advances(m) && i <= |s|
    requires m(s, i) == Some(t)
    requires forall k :: 0 <= k < i ==> m(s, k).None?
    ensures Sub(m, s, repl) == s[..i] + repl(t.g1, t.g2) + SubFrom(m, s, t.end, repl)
  {
    SubStep(m, s, 0, i, repl);
    assert s[0..i] == s[..i];
  }

  /** Text in which the opener never occurs comes back unchanged. */
  lemma SubNoOpener(m: Matcher, open: string, s: string, from: nat, repl: (string, string) -> string)
    requires Advances(m) && OpensWith(m, open) && from <= |s|
    requires forall k :: from <= k <= |s| ==> !PrefixAt(s, k, open)
    ensures SubFrom(m, s, from, repl) == s[from..]
  {
  }

  /** `re.sub` over text without the opener returns the text unchanged. */
  lemma SubAbsent(m: Matcher, open: string, s: string, repl: (string, string) -> string)
    requires Advances(m) && OpensWith(m, open)
    ensures !Occurs(s, open) ==> Sub(m, s, repl) == s
  {
    if !Occurs(s, open) {
      SubNoOpener(m, open, s, 0, repl);
      assert s[0..] == s;
    }
  }

  /** The replacement of a match at `k`, if there is one, is the matched
      text itself. */
  predicate ReproducesAt(m: Matcher, s: string, k: nat, repl: (string, string) -> string)
  {
    match m(s, k)
    case None => true
    case Some(t) => k <= t.end <= |s| && repl(t.g1, t.g2) == s[k..t.end]
  }

  /** When every replacement reproduces the text it matched, substitution is
      the identity. */
  lemma {:induction false} SubReproduces(m: Matcher, s: string, from: nat, repl: (string, string) -> string)
    requires Advances(m) && from <= |s|
    requires forall k :: from <= k <= |s| ==> ReproducesAt(m, s, k, repl)
    ensures SubFrom(m, s, from, repl) == s[from..]
    decreases |s| - from
  {
    var f := FindFrom(m, s, from);
    if f.Some? {
      var i := f.value;
      var t := m(s, i).value;
      var rest := SubFrom(m, s, t.end, repl);
      assert SubFrom(m, s, from, repl) == s[from..i] + repl(t.g1, t.g2) + rest;
      assert ReproducesAt(m, s, i, repl);
      SubReproduces(m, s, t.end, repl);
      SuffixSplit(s, from, i); SuffixSplit(s, i, t.end);
    } else {
      assert SubFrom(m, s, from, repl) == s[from..];
    }
  }
}
