/** Character classes and literal string operations shared by every pass of
    the converter. Python strings are modelled as `string` (`seq<char>`). */
module Text {

  datatype Option<T> = None | Some(value: T)

  /** Python's `str.isspace()`; in a `str` pattern `\s` matches exactly these
      characters too: the controls 9-13 and 28-31, space, and the Unicode
      separators. */
  predicate IsSpace(c: char)
  {
    var n := c as int;
    (9 <= n <= 13) || (28 <= n <= 32) || n == 0x85 || n == 0xA0 || n == 0x1680
    || (0x2000 <= n <= 0x200A) || n == 0x2028 || n == 0x2029 || n == 0x202F
    || n == 0x205F || n == 0x3000
  }

  predicate IsAsciiLetter(c: char) { ('a' <= c <= 'z') || ('A' <= c <= 'Z') }

  predicate IsDigit(c: char) { '0' <= c <= '9' }

  /** `lit` occurs in `s` starting at index `i`. */
  predicate PrefixAt(s: string, i: int, lit: string)
  {
    0 <= i && i + |lit| <= |s| && s[i..i + |lit|] == lit
  }

  predicate Occurs(s: string, lit: string)
  {
    exists i :: 0 <= i <= |s| && PrefixAt(s, i, lit)
  }

  /** Leftmost occurrence of `lit` at or after `from` (`str.find`). */
  function Find(s: string, lit: string, from: nat): (r: Option<nat>)
    ensures r.Some? ==> from <= r.value && PrefixAt(s, r.value, lit)
    ensures r.Some? ==> forall k :: from <= k < r.value ==> !PrefixAt(s, k, lit)
    ensures r.None? ==> forall k :: from <= k ==> !PrefixAt(s, k, lit)
    decreases |s| - from
  {
    if from + |lit| > |s| then None
    else if s[from..from + |lit|] == lit then Some(from)
    else Find(s, lit, from + 1)
  }

  /** `str.find` reports an occurrence exactly when there is one. */
  lemma FindOccurs(s: string, lit: string)
    ensures Find(s, lit, 0).None? <==> !Occurs(s, lit)
  {
    var f := Find(s, lit, 0);
    if f.Some? {
      assert PrefixAt(s, f.value, lit);
    }
  }

  /** Python's `str.replace(lit, rep)`: every leftmost, non-overlapping
      occurrence of a non-empty `lit` is replaced. */
  function ReplaceAll(s: string, lit: string, rep: string): (r: string)
    requires |lit| > 0
    ensures !Occurs(s, lit) ==> r == s
    decreases |s|
  {
    match Find(s, lit, 0)
    case None => s
    case Some(i) => s[..i] + rep + ReplaceAll(s[i + |lit|..], lit, rep)
  }

  /** A literal that occurs just once, at `p`, is replaced there and the
      rest of the text is kept. */
  lemma ReplaceOnce(s: string, lit: string, rep: string, p: nat)
    requires |lit| > 0 && PrefixAt(s, p, lit)
    requires forall k :: 0 <= k <= |s| && k != p ==> !PrefixAt(s, k, lit)
    ensures ReplaceAll(s, lit, rep) == s[..p] + rep + s[p + |lit|..]
  {
    assert Find(s, lit, 0) == Some(p);
    AbsentAfter(s, lit, p + |lit|);
    assert ReplaceAll(s[p + |lit|..], lit, rep) == s[p + |lit|..];
  }

  /** A literal found nowhere from `a` on is absent from the suffix. */
  lemma AbsentAfter(s: string, lit: string, a: nat)
    requires a <= |s|
    requires forall k :: a <= k <= |s| ==> !PrefixAt(s, k, lit)
    ensures !Occurs(s[a..], lit)
  {
    var t := s[a..];
    forall q | 0 <= q <= |t| ensures !PrefixAt(t, q, lit) {
      if q + |lit| <= |t| {
        assert t[q..q + |lit|] == s[a + q..a + q + |lit|];
        assert !PrefixAt(s, a + q, lit);
      }
    }
  }

  /** `s.lstrip()`. */
  function TrimStart(s: string): (r: string)
    ensures |r| <= |s| && r == s[|s| - |r|..]
    ensures r == [] || !IsSpace(r[0])
    ensures forall k :: 0 <= k < |s| - |r| ==> IsSpace(s[k])
  {
    if |s| > 0 && IsSpace(s[0]) then TrimStart(s[1..]) else s
  }

  /** `s.rstrip()`. */
  function TrimEnd(s: string): (r: string)
    ensures |r| <= |s| && r == s[..|r|]
    ensures r == [] || !IsSpace(r[|r| - 1])
    ensures forall k :: |r| <= k < |s| ==> IsSpace(s[k])
  {
    if |s| > 0 && IsSpace(s[|s| - 1]) then TrimEnd(s[..|s| - 1]) else s
  }

  /** `r` is `s` with `a` whitespace characters cut from the front and only
      whitespace cut from the back. */
  predicate StrippedAt(s: string, a: int, r: string)
  {
    && 0 <= a <= |s| - |r| && r == s[a..a + |r|]
    && (forall k :: 0 <= k < a ==> IsSpace(s[k]))
    && (forall k :: a + |r| <= k < |s| ==> IsSpace(s[k]))
  }

  /** `s.strip()`: the longest infix that neither starts nor ends with
      whitespace, everything cut away on either side being whitespace. */
  function Strip(s: string): (r: string)
    ensures r == [] || (!IsSpace(r[0]) && !IsSpace(r[|r| - 1]))
    ensures exists a :: StrippedAt(s, a, r)
  {
    var t := TrimStart(s);
    var r := TrimEnd(t);
    StrippedFrom(s, t, r);
    r
  }

  /** Cutting a whitespace prefix and then a whitespace suffix leaves an
      infix of `s` with only whitespace on either side. */
  lemma StrippedFrom(s: string, t: string, r: string)
    requires |t| <= |s| && t == s[|s| - |t|..]
    requires forall k :: 0 <= k < |s| - |t| ==> IsSpace(s[k])
    requires t == [] || !IsSpace(t[0])
    requires |r| <= |t| && r == t[..|r|]
    requires r == [] || !IsSpace(r[|r| - 1])
    requires forall k :: |r| <= k < |t| ==> IsSpace(t[k])
    ensures r == [] || (!IsSpace(r[0]) && !IsSpace(r[|r| - 1]))
    ensures StrippedAt(s, |s| - |t|, r)
  {
    if r != [] {
      assert r[0] == t[0];
    }
    var a := |s| - |t|;
    forall k | a + |r| <= k < |s| ensures IsSpace(s[k]) {
      assert s[k] == t[k - a];
    }
  }

  /** Python's `str.lower()` on the ASCII range; every other character is
      left as it is. */
  function LowerChar(c: char): (d: char)
    ensures IsAsciiLetter(c) ==> 'a' <= d <= 'z'
    ensures !('A' <= c <= 'Z') ==> d == c
  {
    if 'A' <= c <= 'Z' then (c as int + 32) as char else c
  }

  function Lower(s: string): (r: string)
    ensures |r| == |s|
    ensures forall k :: 0 <= k < |s| ==> r[k] == LowerChar(s[k])
  {
    if s == [] then [] else [LowerChar(s[0])] + Lower(s[1..])
  }

  /** Decimal digits of `n`, as Python's `str(n)` prints a non-negative int. */
  function NatToString(n: nat): (r: string)
    ensures 0 < |r|
    ensures forall k :: 0 <= k < |r| ==> IsDigit(r[k])
    ensures n < 10 <==> |r| == 1
    decreases n
  {
    if n < 10 then [Digit(n)] else NatToString(n / 10) + [Digit(n % 10)]
  }

  function Digit(d: nat): (c: char)
    requires d < 10
    ensures IsDigit(c) && c as int - '0' as int == d
  {
    ('0' as int + d) as char
  }

  /** Reading the digits back gives the number: `int(str(n)) == n`. */
  function DigitsValue(s: string): (n: int)
    ensures (forall k :: 0 <= k < |s| ==> IsDigit(s[k])) ==> 0 <= n
  {
    if s == [] then 0
    else
      assert s[..|s| - 1] == s[..|s| - 1];
      DigitsValue(s[..|s| - 1]) * 10 + (s[|s| - 1] as int - '0' as int)
  }

  lemma {:induction false} NatToStringValue(n: nat)
    ensures DigitsValue(NatToString(n)) == n
    decreases n
  {
    var r := NatToString(n);
    if n >= 10 {
      NatToStringValue(n / 10);
      assert r[..|r| - 1] == NatToString(n / 10);
    }
  }

  /** Distinct numbers print differently, so the suffixed candidate names of
      the media downloader are pairwise distinct. */
  lemma NatToStringInjective(m: nat, n: nat)
    requires NatToString(m) == NatToString(n)
    ensures m == n
  {
    NatToStringValue(m);
    NatToStringValue(n);
  }

  /** A seq concatenation is determined by its middle when the outer parts
      agree. */
  lemma CancelOuter(a: string, x: string, y: string, b: string)
    requires a + x + b == a + y + b
    ensures x == y
  {
    var s := a + x + b;
    assert |x| == |y|;
    assert x == s[|a|..|a| + |x|];
    assert y == (a + y + b)[|a|..|a| + |y|];
  }

  /** Cutting a slice in two. */
  lemma SliceSplit(s: string, a: nat, b: nat, c: nat)
    requires a <= b <= c <= |s|
    ensures s[a..c] == s[a..b] + s[b..c]
  {
  }

  lemma SuffixSplit(s: string, a: nat, b: nat)
    requires a <= b <= |s|
    ensures s[a..] == s[a..b] + s[b..]
  {
  }

  lemma SliceOfSlice(s: string, a: nat, b: nat, p: nat, q: nat)
    requires a <= b <= |s| && p <= q <= b - a
    ensures s[a..b][p..q] == s[a + p..a + q]
  {
    assert forall j :: 0 <= j < q - p ==> s[a..b][p..q][j] == s[a + p + j];
  }

  lemma AppendAssoc(a: string, b: string, c: string)
    ensures (a + b) + c == a + (b + c)
  {
  }

  /** A concatenation at `i` is its two parts, one after the other. */
  lemma PrefixCat(s: string, i: nat, u: string, v: string)
    requires PrefixAt(s, i, u + v)
    ensures PrefixAt(s, i, u) && PrefixAt(s, i + |u|, v)
  {
    var w := s[i..i + |u| + |v|];
    SliceOfSlice(s, i, i + |u| + |v|, 0, |u|);
    SliceOfSlice(s, i, i + |u| + |v|, |u|, |u| + |v|);
    assert w[..|u|] == u && w[|u|..] == v;
  }
}
